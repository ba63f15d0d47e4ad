/** `src/utils/process_identifier.rs` repeats the marker operations of
    `src/utils/process.rs` (`status`, `save_pid`, `kill`, `stop_process`,
    `get_process_uptime`), which the `Marker` and `Uptime` modules model once.
    What it adds is `process_exists`, a probe of `/proc`; the set of paths
    that exist is a parameter. */
module ProcessIdentifier {
  import opened Text

  const PROC_DIR := "/proc/"

  /** `format!("/proc/{}", pid)`. */
  function ProcPath(pid: U32): (path: string)
    ensures |path| > |PROC_DIR| && path[..|PROC_DIR|] == PROC_DIR
  {
    PROC_DIR + Decimal(pid)
  }

  /** Different processes are probed at different paths. */
  lemma ProcPathInjective(p: U32, q: U32)
    requires ProcPath(p) == ProcPath(q)
    ensures p == q
  {
    assert ProcPath(p)[|PROC_DIR|..] == Decimal(p);
    assert ProcPath(q)[|PROC_DIR|..] == Decimal(q);
    ParseDecimal(p);
    ParseDecimal(q);
  }

  /** `process_exists`: a plain query, `false` rather than an error for a
      process that is not there. */
  function ProcessExists(pid: U32, existing: set<string>): bool {
    ProcPath(pid) in existing
  }

  /** Whether `pid` is reported alive depends only on its own `/proc` entry:
      adding or removing the entry of another process changes nothing. */
  lemma ProcessExistsLocal(pid: U32, other: U32, existing: set<string>)
    requires other != pid
    ensures ProcessExists(pid, existing + {ProcPath(other)}) == ProcessExists(pid, existing)
    ensures ProcessExists(pid, existing - {ProcPath(other)}) == ProcessExists(pid, existing)
  {
    if ProcPath(pid) == ProcPath(other) {
      ProcPathInjective(pid, other);
    }
  }
}
