/** `main` of `src/main.rs`: make sure the backup root exists, then run one
    sub-command chosen from the arguments, or else the backup daemon, which
    every day saves its pid to the marker and writes a `pg_dump` of the
    database next to it. The timer, `pg_dump` and the clock are parameters;
    the endless loop is modelled by a finite run of its rounds. */
module Daemon {
  import opened Wrappers
  import opened Text
  import opened Fs
  import opened Paths
  import opened Commands
  import opened Cli
  import opened Marker
  import opened Uptime
  import opened RestoreLog
  import opened Scheduling

  /** The daemon's `time::interval`, in seconds. */
  const TICK_PERIOD := 86400

  const DUMP_USER_REQUIRED := "Database user required"
  const DUMP_DATABASE_REQUIRED := "Database name required"
  const SAVE_FAILED := "Failed save the backup file"

  /** The daemon's period is the `OneDay` schedule. */
  lemma TickPeriodIsOneDay()
    ensures TICK_PERIOD == OneDay.ToDuration()
  {
  }

  // ---------------------------------------------------------------------------
  // Dispatch

  datatype Command = Stats | StopBackup | ListPurrs | RestoreBackup(file: string) | RunDaemon

  /** The `if` chain of `main`: `--stats`, then `--stop`, then `--list-purrs`,
      then `--rpurry`, and only when none is given the daemon loop. */
  function Dispatch(args: Args): (c: Command)
    ensures c.Stats? <==> args.stats
    ensures c.StopBackup? <==> !args.stats && args.stop
    ensures c.ListPurrs? <==> !args.stats && !args.stop && args.listPurrs
    ensures c.RestoreBackup? <==> !args.stats && !args.stop && !args.listPurrs && args.rpurry.Some?
    ensures c.RestoreBackup? ==> c.file == args.rpurry.value
    ensures c.RunDaemon? <==> !args.stats && !args.stop && !args.listPurrs && args.rpurry.None?
  {
    if args.stats then Stats
    else if args.stop then StopBackup
    else if args.listPurrs then ListPurrs
    else if args.rpurry.Some? then RestoreBackup(args.rpurry.value)
    else RunDaemon
  }

  /** Whenever a branch that talks to the database is taken, the argument
      parser has already made sure the connection is fully described, so
      none of its `expect`s on the arguments can fire. */
  lemma ConnectionGiven(args: Args)
    requires Accepted(args)
    requires Dispatch(args).RestoreBackup? || Dispatch(args).RunDaemon?
    ensures args.user.Some? && args.database.Some? && args.container.Some?
  {
  }

  // ---------------------------------------------------------------------------
  // One round of the daemon

  /** What `now.format("%d_%m_%Y_%H_%M")` can print: digits and `_`. */
  predicate StampText(s: string) {
    forall i :: 0 <= i < |s| ==> s[i] == '_' || '0' <= s[i] <= '9'
  }

  type Stamp = s: string | StampText(s)

  /** `format!("{}_backup.sql", now.format("%d_%m_%Y_%H_%M"))`'s file name. */
  function ArtifactName(stamp: string): string {
    stamp + "_backup.sql"
  }

  /** `format!("{}/{}_backup.sql", tool_path, stamp)`. */
  function ArtifactPath(root: string, stamp: string): string {
    root + "/" + ArtifactName(stamp)
  }

  /** The artifact is an entry of the backup root ... */
  lemma ArtifactInRoot(home: string, stamp: Stamp)
    ensures ArtifactPath(BackupPath(home), stamp) == Join(BackupPath(home), ArtifactName(stamp))
  {
    assert !IsAbsolute(ArtifactName(stamp)) by {
      if stamp == [] {
        assert ArtifactName(stamp)[0] == '_';
      } else {
        assert ArtifactName(stamp)[0] == stamp[0];
      }
    }
  }

  /** ... whose name has the extension `sql`, so the listing shows it. */
  lemma ArtifactListed(stamp: string)
    ensures Extension(ArtifactName(stamp)) == Some("sql")
  {
    assert ArtifactName(stamp) == (stamp + "_backup") + "." + "sql";
    ExtensionOf(stamp + "_backup", "sql");
  }

  /** An artifact never takes the place of the marker. */
  lemma ArtifactNotMarker(home: string, stamp: string)
    ensures ArtifactPath(BackupPath(home), stamp) != PidFilePath(home)
  {
    var a := ArtifactPath(BackupPath(home), stamp);
    var m := PidFilePath(home);
    assert a[|a| - 1] == 'l';
    assert m[|m| - 1] == 'd';
  }

  /** `docker exec <container> pg_dump -U <user> <database>`. */
  function DumpCommand(container: string, user: string, database: string): seq<string> {
    ["exec", container, "pg_dump", "-U", user, database]
  }

  /** What a round is given: the local time formatted `%d_%m_%Y_%H_%M` and
      the output of that round's run of `DumpCommand`. */
  datatype Round = Round(stamp: Stamp, dump: Output)

  /** The files after a round that did not panic: the marker holds `pid`,
      and the artifact holds the dump when the dump succeeded. */
  function TickFiles(files: map<string, string>, home: string, pid: U32, round: Round): map<string, string> {
    var marked := files[PidFilePath(home) := Decimal(pid)];
    if round.dump.success then marked[ArtifactPath(BackupPath(home), round.stamp) := round.dump.stdout]
    else marked
  }

  /** A round leaves the marker reading `pid`. */
  lemma TickMarks(files: map<string, string>, home: string, pid: U32, round: Round)
    ensures CheckProcessStatus(TickFiles(files, home, pid, round), home) == Some(pid)
  {
    var marked := files[PidFilePath(home) := Decimal(pid)];
    SaveThenCheck(files, home, pid);
    ArtifactNotMarker(home, round.stamp);
    if round.dump.success {
      var artifact := ArtifactPath(BackupPath(home), round.stamp);
      assert marked[artifact := round.dump.stdout][PidFilePath(home)] == Decimal(pid);
    }
  }

  /** A round keeps every other file, adds the artifact only for a
      successful dump, with the dump as its content, and removes nothing. */
  lemma TickFilesEffect(files: map<string, string>, home: string, pid: U32, round: Round)
    ensures var artifact := ArtifactPath(BackupPath(home), round.stamp);
      TickFiles(files, home, pid, round).Keys ==
        files.Keys + {PidFilePath(home)} + (if round.dump.success then {artifact} else {})
    ensures var artifact := ArtifactPath(BackupPath(home), round.stamp);
      round.dump.success ==> TickFiles(files, home, pid, round)[artifact] == round.dump.stdout
    ensures forall path :: (path in files && path != PidFilePath(home) &&
                            (round.dump.success ==> path != ArtifactPath(BackupPath(home), round.stamp))) ==>
      TickFiles(files, home, pid, round)[path] == files[path]
  {
  }

  /** One pass of the `loop` body after the timer fires. Panics end the
      process and are returned as `Fail`; `ran` lists the `docker` runs, whose
      output is `round.dump`. */
  method Tick(fs: FileSystem, home: string, args: Args, pid: U32, round: Round)
    returns (o: Outcome<string>, ran: seq<seq<string>>)
    modifies fs
    ensures fs.dirs == old(fs.dirs)
    ensures ran == if args.container.Some? && args.user.Some? && args.database.Some?
      then [DumpCommand(args.container.value, args.user.value, args.database.value)] else []
    ensures args.container.None? ==> o == Fail(CONTAINER_REQUIRED) && fs.files == old(fs.files)
    ensures args.container.Some? && args.user.None? ==> o == Fail(DUMP_USER_REQUIRED) && fs.files == old(fs.files)
    ensures args.container.Some? && args.user.Some? && args.database.None? ==>
      o == Fail(DUMP_DATABASE_REQUIRED) && fs.files == old(fs.files)
    ensures args.container.Some? && args.user.Some? && args.database.Some? ==>
      (o.Pass? <==> BackupPath(home) in old(fs.dirs))
    ensures args.container.Some? && args.user.Some? && args.database.Some? && o.Fail? ==>
      o.error == CREATE_FAILED && fs.files == old(fs.files)
    ensures o.Pass? ==> fs.files == TickFiles(old(fs.files), home, pid, round)
  {
    ran := [];
    if args.container.None? {
      return Fail(CONTAINER_REQUIRED), ran;
    }
    if args.user.None? {
      return Fail(DUMP_USER_REQUIRED), ran;
    }
    if args.database.None? {
      return Fail(DUMP_DATABASE_REQUIRED), ran;
    }
    ran := [DumpCommand(args.container.value, args.user.value, args.database.value)];
    o := SavePid(fs, home, pid);
    if o.Fail? {
      return;
    }
    if round.dump.success {
      ArtifactInRoot(home, round.stamp);
      var ok := fs.Create(BackupPath(home), ArtifactName(round.stamp), round.dump.stdout);
      if !ok {
        assert false;
        o := Fail(SAVE_FAILED);
      }
    }
  }

  /** The files after the rounds `rounds`, in order. */
  function AfterTicks(files: map<string, string>, home: string, pid: U32, rounds: seq<Round>): map<string, string> {
    if rounds == [] then files
    else TickFiles(AfterTicks(files, home, pid, rounds[..|rounds| - 1]), home, pid, rounds[|rounds| - 1])
  }

  /** The artifacts the successful dumps among `rounds` write. */
  function Artifacts(home: string, rounds: seq<Round>): set<string> {
    set k | 0 <= k < |rounds| && rounds[k].dump.success :: ArtifactPath(BackupPath(home), rounds[k].stamp)
  }

  /** The artifacts of a run are those of all but its last round plus the
      last round's, if its dump succeeded. */
  lemma ArtifactsSnoc(home: string, rounds: seq<Round>)
    requires |rounds| > 0
    ensures var last := rounds[|rounds| - 1];
      Artifacts(home, rounds) == Artifacts(home, rounds[..|rounds| - 1]) +
        (if last.dump.success then {ArtifactPath(BackupPath(home), last.stamp)} else {})
  {
    var init := rounds[..|rounds| - 1];
    var last := rounds[|rounds| - 1];
    forall a | a in Artifacts(home, rounds)
      ensures a in Artifacts(home, init) || (last.dump.success && a == ArtifactPath(BackupPath(home), last.stamp))
    {
      var k :| 0 <= k < |rounds| && rounds[k].dump.success && a == ArtifactPath(BackupPath(home), rounds[k].stamp);
      if k < |init| {
        assert rounds[k] == init[k];
      }
    }
    forall a | a in Artifacts(home, init)
      ensures a in Artifacts(home, rounds)
    {
      var k :| 0 <= k < |init| && init[k].dump.success && a == ArtifactPath(BackupPath(home), init[k].stamp);
      assert rounds[k] == init[k];
    }
    if last.dump.success {
      var k := |rounds| - 1;
      assert ArtifactPath(BackupPath(home), rounds[k].stamp) in Artifacts(home, rounds);
    }
  }

  /** After at least one round the marker reads `pid`. */
  lemma AfterTicksMarks(files: map<string, string>, home: string, pid: U32, rounds: seq<Round>)
    requires |rounds| > 0
    ensures CheckProcessStatus(AfterTicks(files, home, pid, rounds), home) == Some(pid)
  {
    TickMarks(AfterTicks(files, home, pid, rounds[..|rounds| - 1]), home, pid, rounds[|rounds| - 1]);
  }

  /** After at least one round the files are the ones before plus the marker
      plus one artifact per successful dump: nothing is deleted and a failed
      dump leaves no file behind. */
  lemma {:induction false} AfterTicksFiles(files: map<string, string>, home: string, pid: U32, rounds: seq<Round>)
    requires |rounds| > 0
    ensures AfterTicks(files, home, pid, rounds).Keys ==
      files.Keys + {PidFilePath(home)} + Artifacts(home, rounds)
    decreases |rounds|
  {
    var init := rounds[..|rounds| - 1];
    TickFilesEffect(AfterTicks(files, home, pid, init), home, pid, rounds[|rounds| - 1]);
    ArtifactsSnoc(home, rounds);
    if init == [] {
      assert Artifacts(home, init) == {};
    } else {
      AfterTicksFiles(files, home, pid, init);
    }
  }

  /** The daemon loop for the rounds `rounds`: it stops at the first panic. */
  method RunTicks(fs: FileSystem, home: string, args: Args, pid: U32, rounds: seq<Round>)
    returns (o: Outcome<string>)
    modifies fs
    ensures fs.dirs == old(fs.dirs)
    ensures (args.user.Some? && args.database.Some? && args.container.Some? &&
             BackupPath(home) in old(fs.dirs)) ==>
      o.Pass? && fs.files == AfterTicks(old(fs.files), home, pid, rounds)
  {
    o := Pass;
    for i := 0 to |rounds|
      invariant fs.dirs == old(fs.dirs)
      invariant o.Pass? ==> fs.files == AfterTicks(old(fs.files), home, pid, rounds[..i])
      invariant (args.user.Some? && args.database.Some? && args.container.Some? &&
                 BackupPath(home) in old(fs.dirs)) ==> o.Pass?
    {
      assert rounds[..i + 1][..i] == rounds[..i];
      var ran;
      o, ran := Tick(fs, home, args, pid, rounds[i]);
      if o.Fail? {
        return;
      }
    }
    assert rounds[..|rounds|] == rounds;
  }

  // ---------------------------------------------------------------------------
  // main

  /** Everything `main` gets from outside the file system: the programs it
      runs, the clock, the listing of the backup root, its own pid and the
      rounds the daemon lives through. */
  datatype World = World(
    ps: U32 -> Output,
    parseStart: string -> Option<int>,
    now: int,
    kill: U32 -> Spawn,
    entries: seq<DirEntry>,
    docker: seq<string> -> Output,
    stamp: string,
    pid: U32,
    rounds: seq<Round>)

  /** What `main` reports. */
  datatype Report =
    | StatusReport(running: Option<U32>, uptime: string)
    | StopReport(stop: Marker.Stop, cleared: Option<Outcome<string>>)
    | ListReport(rows: seq<Row>)
    | RestoreReport(restored: Outcome<string>, ran: seq<seq<string>>)
    | DaemonReport(outcome: Outcome<string>)

  /** `main`. */
  method Launch(fs: FileSystem, home: string, args: Args, world: World) returns (report: Report)
    requires Accepted(args)
    modifies fs
    ensures fs.dirs == old(fs.dirs) + {BackupPath(home)}
    ensures report.StatusReport? <==> Dispatch(args).Stats?
    ensures report.StopReport? <==> Dispatch(args).StopBackup?
    ensures report.ListReport? <==> Dispatch(args).ListPurrs?
    ensures report.RestoreReport? <==> Dispatch(args).RestoreBackup?
    ensures report.DaemonReport? <==> Dispatch(args).RunDaemon?
    ensures report.StatusReport? ==>
      fs.files == old(fs.files) &&
      report.running == CheckProcessStatus(old(fs.files), home) &&
      (report.running.Some? ==> report.uptime == Uptime.Uptime(report.running.value, world.ps, world.parseStart, world.now))
    ensures report.StopReport? ==>
      report.stop == StopProcess(old(fs.files), home, world.kill) &&
      (report.stop.result.Ok? <==> report.cleared == Some(Pass)) &&
      (report.stop.result.Err? ==> report.cleared.None?) &&
      fs.files == if report.stop.result.Ok? then old(fs.files) - {PidFilePath(home)} else old(fs.files)
    ensures report.ListReport? ==>
      fs.files == old(fs.files) && report.rows == Listed(world.entries, ReadLastRestored(old(fs.files), home))
    ensures report.RestoreReport? ==>
      var file := args.rpurry.value;
      var logged := |report.ran| == 2 && world.docker(report.ran[1]).success;
      report.restored.Pass? && 0 < |report.ran| <= 2 &&
      report.ran[0] == CopyCommand(BackupPath(home), file, args.container.value) &&
      (|report.ran| == 2 <==> world.docker(report.ran[0]).success) &&
      (|report.ran| == 2 ==>
        report.ran[1] == PsqlCommand(file, args.container.value, args.user.value, args.database.value)) &&
      fs.files == if logged then Logged(old(fs.files), home, file, world.stamp) else old(fs.files)
    ensures report.RestoreReport? && |report.ran| == 2 && world.docker(report.ran[1]).success &&
            (LogPath(home) in old(fs.files) ==> CompleteLines(old(fs.files)[LogPath(home)])) &&
            |args.rpurry.value| > 0 && NoWhitespace(args.rpurry.value) && NoNewline(world.stamp) ==>
      ReadLastRestored(fs.files, home) == Some(args.rpurry.value)
    ensures report.DaemonReport? ==>
      report.outcome.Pass? && fs.files == AfterTicks(old(fs.files), home, world.pid, world.rounds)
    ensures report.DaemonReport? && |world.rounds| > 0 ==>
      CheckProcessStatus(fs.files, home) == Some(world.pid)
  {
    if BackupPath(home) !in fs.dirs {
      fs.CreateDirAll(BackupPath(home));
    }
    var command := Dispatch(args);
    match command {
      case Stats =>
        var running := CheckProcessStatus(fs.files, home);
        var uptime := "";
        if running.Some? {
          uptime := GetProcessUptime(running.value, world.ps, world.parseStart, world.now);
        }
        report := StatusReport(running, uptime);
      case StopBackup =>
        var stop := StopProcess(fs.files, home, world.kill);
        var cleared := None;
        if stop.result.Ok? {
          var o := ClearPid(fs, home);
          cleared := Some(o);
        }
        report := StopReport(stop, cleared);
      case ListPurrs =>
        var rows := ListBackups(fs, home, world.entries);
        report := ListReport(rows);
      case RestoreBackup(file) =>
        ConnectionGiven(args);
        var restored, ran := ApplyBackup(fs, home, file, args, world.docker, world.stamp);
        report := RestoreReport(restored, ran);
      case RunDaemon =>
        ConnectionGiven(args);
        var outcome := RunTicks(fs, home, args, world.pid, world.rounds);
        if |world.rounds| > 0 {
          AfterTicksMarks(old(fs.files), home, world.pid, world.rounds);
        }
        report := DaemonReport(outcome);
    }
  }
}
