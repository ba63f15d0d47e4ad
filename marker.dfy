/** The PID marker of `src/utils/process.rs`: a file `purrgres_pid` in the
    backup root whose whole content is the decimal process id of the daemon
    that last saved it. Absent or malformed content means "no daemon". */
module Marker {
  import opened Wrappers
  import opened Text
  import opened Fs
  import opened Paths
  import opened Commands

  const PID_FILE_NAME := "purrgres_pid"

  const CREATE_FAILED := "Failed to create a PID file"
  const REMOVE_FAILED := "Failed to remove a PID file"
  const NO_PROCESS := "No backup processes found."
  const KILL_FAILED := "Failed to kill process."
  const SPAWN_FAILED := "Failed to stop process: "

  /** `get_pid_file_path` (and the path `save_pid` builds inline). */
  function PidFilePath(home: string): (path: string)
    ensures path == BackupPath(home) + "/" + PID_FILE_NAME
  {
    Join(BackupPath(home), PID_FILE_NAME)
  }

  /** `check_process_status`: the pid in the marker, read from its trimmed
      text; a missing file and any text `u32::from_str` refuses give `None`. */
  function CheckProcessStatus(files: map<string, string>, home: string): (r: Option<U32>)
    ensures PidFilePath(home) !in files ==> r.None?
    ensures r.Some? ==> DenotesU32(Trim(files[PidFilePath(home)]), r.value)
  {
    var path := PidFilePath(home);
    if path !in files then None
    else
      var text := Trim(files[path]);
      match ParseU32(text)
      case None => None
      case Some(pid) => ParsedShape(text, pid); Some(pid)
  }

  lemma StatusOfText(files: map<string, string>, home: string)
    requires PidFilePath(home) in files
    ensures CheckProcessStatus(files, home) == ParseU32(Trim(files[PidFilePath(home)]))
  {
  }

  /** The marker reads as `p` exactly when its trimmed text is `p` in decimal,
      possibly after a `+` and leading zeros. */
  lemma StatusIff(files: map<string, string>, home: string, p: U32)
    ensures CheckProcessStatus(files, home) == Some(p) <==>
      PidFilePath(home) in files && DenotesU32(Trim(files[PidFilePath(home)]), p)
  {
    var path := PidFilePath(home);
    if path in files {
      ParseU32Accepts(Trim(files[path]), p);
    }
  }

  /** What `save_pid` leaves in the marker reads back as the saved pid,
      whatever the file held before. */
  lemma SaveThenCheck(files: map<string, string>, home: string, p: U32)
    ensures CheckProcessStatus(files[PidFilePath(home) := Decimal(p)], home) == Some(p)
  {
    var text := Decimal(p);
    DigitNotWhitespace(text[0]);
    DigitNotWhitespace(text[|text| - 1]);
    TrimKeeps(text);
    StatusOfText(files[PidFilePath(home) := text], home);
    ParseDecimal(p);
  }

  /** A well-formed marker, with a `+` and leading zeros, reads as its value. */
  lemma MarkerWithPlusAndZeros(files: map<string, string>, home: string)
    requires PidFilePath(home) in files && files[PidFilePath(home)] == "+007"
    ensures CheckProcessStatus(files, home) == Some(7)
  {
    var text := "+007";
    assert !IsWhitespace(text[0]) && !IsWhitespace(text[|text| - 1]);
    TrimKeeps(text);
    ParsePlusAndZeros();
    StatusOfText(files, home);
  }

  /** A marker holding a value past `u32::MAX` reads as no daemon. */
  lemma MarkerOverflow(files: map<string, string>, home: string, n: nat)
    requires n > U32_MAX
    requires PidFilePath(home) in files && files[PidFilePath(home)] == Decimal(n)
    ensures CheckProcessStatus(files, home).None?
  {
    var text := Decimal(n);
    DigitNotWhitespace(text[0]);
    DigitNotWhitespace(text[|text| - 1]);
    TrimKeeps(text);
    ParseOverflow(n);
    StatusOfText(files, home);
  }

  /** Deleting the marker, which is all that `kill` of
      `process_identifier.rs` does, leaves nothing to read. */
  lemma ClearedReadsNone(files: map<string, string>, home: string)
    ensures CheckProcessStatus(files - {PidFilePath(home)}, home).None?
  {
  }

  /** `save_pid`: creates or truncates the marker and writes `pid` in decimal
      with no line ending; panics when the backup root does not exist. */
  method SavePid(fs: FileSystem, home: string, pid: U32) returns (o: Outcome<string>)
    modifies fs
    ensures o.Pass? <==> BackupPath(home) in old(fs.dirs)
    ensures o.Fail? ==> o.error == CREATE_FAILED
    ensures fs.dirs == old(fs.dirs)
    ensures fs.files == if o.Pass? then old(fs.files)[PidFilePath(home) := Decimal(pid)] else old(fs.files)
    ensures o.Pass? ==> CheckProcessStatus(fs.files, home) == Some(pid)
  {
    var ok := fs.Create(BackupPath(home), PID_FILE_NAME, Decimal(pid));
    if ok {
      SaveThenCheck(old(fs.files), home, pid);
      o := Pass;
    } else {
      o := Fail(CREATE_FAILED);
    }
  }

  /** `clear_pid`: deletes the marker; panics when there is none. Either way
      no marker is left. */
  method ClearPid(fs: FileSystem, home: string) returns (o: Outcome<string>)
    modifies fs
    ensures o.Pass? <==> PidFilePath(home) in old(fs.files)
    ensures o.Fail? ==> o.error == REMOVE_FAILED
    ensures fs.dirs == old(fs.dirs)
    ensures fs.files == old(fs.files) - {PidFilePath(home)}
    ensures CheckProcessStatus(fs.files, home).None?
  {
    var ok := fs.RemoveFile(PidFilePath(home));
    o := if ok then Pass else Fail(REMOVE_FAILED);
  }

  /** What `stop_process` did: the pid it sent `kill` to, if any, and its result. */
  datatype Stop = Stop(signalled: Option<U32>, result: Result<(), string>)

  /** `stop_process`: with no readable marker, no `kill` and
      `Err("No backup processes found.")`; otherwise `kill` for the marker's pid
      only, and `Ok` exactly when it exited successfully. It only reads the
      file system. */
  function StopProcess(files: map<string, string>, home: string, kill: U32 -> Spawn): (r: Stop)
    ensures r.signalled == CheckProcessStatus(files, home)
    ensures r.signalled.None? ==> r.result == Err(NO_PROCESS)
    ensures r.signalled.Some? ==> (r.result.Ok? <==> kill(r.signalled.value) == Exited(true))
    ensures r.signalled.Some? && kill(r.signalled.value) == Exited(false) ==> r.result == Err(KILL_FAILED)
    ensures r.signalled.Some? && kill(r.signalled.value).SpawnError? ==>
      r.result == Err(SPAWN_FAILED + kill(r.signalled.value).reason)
  {
    match CheckProcessStatus(files, home)
    case None => Stop(None, Err(NO_PROCESS))
    case Some(pid) =>
      var result :=
        match kill(pid)
        case SpawnError(reason) => Err(SPAWN_FAILED + reason)
        case Exited(success) => if success then Ok(()) else Err(KILL_FAILED);
      Stop(Some(pid), result)
  }

  /** `stop_process` succeeds only when it found a pid in the marker, and it
      leaves that marker in place, so the caller's `clear_pid` finds it. */
  lemma StopOkHasMarker(files: map<string, string>, home: string, kill: U32 -> Spawn)
    requires StopProcess(files, home, kill).result.Ok?
    ensures PidFilePath(home) in files
    ensures CheckProcessStatus(files, home) == Some(StopProcess(files, home, kill).signalled.value)
  {
  }
}
