/** The restore log of `src/utils/process.rs`: `apply_backup` copies a backup
    into the container, replays it with `psql` and appends a line to
    `<root>/.purrs`; `read_last_restored` takes the file name back out of the
    last line, and `list_backups` marks that file in its listing. The `docker`
    runs, the clock and the directory listing are parameters. */
module RestoreLog {
  import opened Wrappers
  import opened Text
  import opened Fs
  import opened Paths
  import opened Commands
  import opened Cli

  const LOG_NAME := ".purrs"
  const LOG_PREFIX := "Backup restored form: "
  const DATE_SEP := " - Date: "

  const CONTAINER_REQUIRED := "Container name required"
  const USER_REQUIRED := "Database user required"
  const DATABASE_REQUIRED := "Database name requierd"
  const OPEN_FAILED := "Failed to open PID file"

  /** `get_bkp_path().join(".purrs")`. */
  function LogPath(home: string): (path: string)
    ensures path == BackupPath(home) + "/" + LOG_NAME
  {
    Join(BackupPath(home), LOG_NAME)
  }

  /** The line `writeln!` appends for a restore of `file` at the local time
      `stamp` (formatted `%d/%m/%Y %H:%M`). */
  function LogLine(file: string, stamp: string): string {
    LOG_PREFIX + file + DATE_SEP + stamp + "\n"
  }

  // ---------------------------------------------------------------------------
  // Reading

  /** What `read_last_restored` makes of the log's contents: the fourth
      white-space separated piece of the last line, if it has one. */
  function LastRestored(contents: string): (r: Option<string>)
    ensures r.Some? ==> |r.value| > 0 && NoWhitespace(r.value)
    ensures r.Some? ==>
      |Lines(contents)| > 0 && r.value in SplitWhitespace(Lines(contents)[|Lines(contents)| - 1])
  {
    var lines := Lines(contents);
    if lines == [] then None
    else
      var parts := SplitWhitespace(lines[|lines| - 1]);
      if |parts| >= 4 then Some(parts[3]) else None
  }

  /** `read_last_restored`: `None` when there is no log. */
  function ReadLastRestored(files: map<string, string>, home: string): (r: Option<string>)
    ensures LogPath(home) !in files ==> r.None?
    ensures r.Some? ==> |r.value| > 0 && NoWhitespace(r.value)
  {
    var path := LogPath(home);
    if path in files then LastRestored(files[path]) else None
  }

  /** The fixed start of a log line, word by word. */
  lemma PrefixWords()
    ensures LOG_PREFIX == "Backup" + " " + "restored" + " " + "form:" + " "
    ensures NoWhitespace("Backup") && NoWhitespace("restored") && NoWhitespace("form:")
  {
  }

  /** The fixed start of a log line splits into `Backup`, `restored`, `form:`. */
  lemma PrefixPieces(rest: string)
    ensures SplitWhitespace(LOG_PREFIX + rest) == ["Backup", "restored", "form:"] + SplitWhitespace(rest)
  {
    var r2 := "form:" + [' '] + rest;
    var r1 := "restored" + [' '] + r2;
    PrefixWords();
    assert LOG_PREFIX + rest == "Backup" + [' '] + r1;
    SplitWord("Backup", ' ', r1);
    SplitWord("restored", ' ', r2);
    SplitWord("form:", ' ', rest);
  }

  /** The pieces of a log line: `Backup`, `restored`, `form:`, then the file
      name when it has no white space in it. */
  lemma LogLinePieces(file: string, stamp: string)
    requires |file| > 0 && NoWhitespace(file)
    ensures var parts := SplitWhitespace(StripCr(LOG_PREFIX + file + DATE_SEP + stamp));
      |parts| >= 4 && parts[..4] == ["Backup", "restored", "form:", file]
  {
    var tail := "- Date: " + stamp;
    var r3 := file + [' '] + tail;
    assert LOG_PREFIX + file + DATE_SEP + stamp == (LOG_PREFIX + (file + [' '])) + tail;
    StripCrAppend(LOG_PREFIX + (file + [' ']), tail);
    var rest := StripCr(tail);
    assert StripCr(LOG_PREFIX + file + DATE_SEP + stamp) == LOG_PREFIX + (file + [' '] + rest);
    PrefixPieces(file + [' '] + rest);
    SplitWord(file, ' ', rest);
  }

  /** A log line carries no line feed of its own. */
  lemma LogBodyOneLine(file: string, stamp: string)
    requires NoWhitespace(file) && NoNewline(stamp)
    ensures NoNewline(LOG_PREFIX + file + DATE_SEP + stamp)
  {
    var body := LOG_PREFIX + file + DATE_SEP + stamp;
    forall i | 0 <= i < |body|
      ensures body[i] != '\n'
    {
      if |LOG_PREFIX| <= i < |LOG_PREFIX| + |file| {
        assert body[i] == file[i - |LOG_PREFIX|];
        assert !IsWhitespace(file[i - |LOG_PREFIX|]);
      } else if |LOG_PREFIX + file + DATE_SEP| <= i {
        assert body[i] == stamp[i - |LOG_PREFIX + file + DATE_SEP|];
      }
    }
  }

  /** Round trip: appending the line for `file` to a log made of complete lines
      makes `file` the last restored backup, whatever came before, provided
      the name has no white space. */
  lemma LastRestoredOfAppend(prev: string, file: string, stamp: string)
    requires CompleteLines(prev)
    requires |file| > 0 && NoWhitespace(file) && NoNewline(stamp)
    ensures LastRestored(prev + LogLine(file, stamp)) == Some(file)
  {
    var body := LOG_PREFIX + file + DATE_SEP + stamp;
    var lines := Lines(prev + LogLine(file, stamp));
    assert lines[|lines| - 1] == StripCr(body) by {
      assert LogLine(file, stamp) == body + "\n";
      LinesAppend(prev, body + "\n");
      LogBodyOneLine(file, stamp);
      TerminatedLine(body);
    }
    assert SplitWhitespace(StripCr(body))[3] == file && |SplitWhitespace(StripCr(body))| >= 4 by {
      LogLinePieces(file, stamp);
      var parts := SplitWhitespace(StripCr(body));
      assert parts[3] == parts[..4][3];
    }
  }

  /** Each appended line leaves the log made of complete lines, so the round
      trip holds again for the next restore. */
  lemma AppendKeepsLinesComplete(prev: string, file: string, stamp: string)
    ensures CompleteLines(prev + LogLine(file, stamp))
  {
    var line := LogLine(file, stamp);
    assert (prev + line)[|prev + line| - 1] == line[|line| - 1] == '\n';
  }

  /** Text made of whole lines, as every log this program writes is. */
  predicate CompleteLines(log: string) {
    log == [] || EndsWithNewline(log)
  }

  // ---------------------------------------------------------------------------
  // Restoring

  /** `docker cp <root>/<file> <container>:/tmp/<file>`. */
  function CopyCommand(root: string, file: string, container: string): seq<string> {
    ["cp", Join(root, file), container + ":/tmp/" + file]
  }

  /** `docker exec <container> psql -U <user> -d <database> -f /tmp/<file>`. */
  function PsqlCommand(file: string, container: string, user: string, database: string): seq<string> {
    ["exec", container, "psql", "-U", user, "-d", database, "-f", "/tmp/" + file]
  }

  /** The log after a restore that reached `writeln!`. */
  function Logged(files: map<string, string>, home: string, file: string, stamp: string): map<string, string> {
    var path := LogPath(home);
    files[path := (if path in files then files[path] else "") + LogLine(file, stamp)]
  }

  /** `apply_backup`. `docker` gives the output of `docker` run with the given
      arguments; `ran` lists the runs in order. A failed copy or a failed
      `psql` is reported on the console and logs nothing; a missing argument
      or a log that cannot be opened is a panic. */
  method ApplyBackup(fs: FileSystem, home: string, file: string, args: Args,
                     docker: seq<string> -> Output, stamp: string)
    returns (o: Outcome<string>, ran: seq<seq<string>>)
    modifies fs
    ensures fs.dirs == old(fs.dirs)
    ensures args.container.None? ==> o == Fail(CONTAINER_REQUIRED) && ran == []
    ensures args.container.Some? ==>
      |ran| > 0 && ran[0] == CopyCommand(BackupPath(home), file, args.container.value)
    ensures args.container.Some? && !docker(ran[0]).success ==> o.Pass? && ran == [ran[0]]
    ensures args.container.Some? && docker(ran[0]).success && args.user.Some? && args.database.Some? ==>
      |ran| == 2
    ensures |ran| == 2 ==>
      docker(ran[0]).success && args.user.Some? && args.database.Some? &&
      ran[1] == PsqlCommand(file, args.container.value, args.user.value, args.database.value)
    ensures |ran| <= 2
    ensures fs.files == if o.Pass? && |ran| == 2 && docker(ran[1]).success
      then Logged(old(fs.files), home, file, stamp) else old(fs.files)
    ensures |ran| == 2 && docker(ran[1]).success ==>
      (o.Pass? <==> BackupPath(home) in old(fs.dirs)) && (o.Fail? ==> o.error == OPEN_FAILED)
    ensures |ran| == 2 && !docker(ran[1]).success ==> o.Pass?
    ensures (o.Pass? && |ran| == 2 && docker(ran[1]).success &&
             (LogPath(home) in old(fs.files) ==> CompleteLines(old(fs.files)[LogPath(home)])) &&
             |file| > 0 && NoWhitespace(file) && NoNewline(stamp)) ==>
      ReadLastRestored(fs.files, home) == Some(file)
    ensures args.container.Some? && docker(ran[0]).success && args.user.None? ==>
      o == Fail(USER_REQUIRED) && |ran| == 1
    ensures args.container.Some? && docker(ran[0]).success && args.user.Some? && args.database.None? ==>
      o == Fail(DATABASE_REQUIRED) && |ran| == 1
  {
    ran := [];
    if args.container.None? {
      return Fail(CONTAINER_REQUIRED), ran;
    }
    var container := args.container.value;
    var copy := CopyCommand(BackupPath(home), file, container);
    ran := ran + [copy];
    if !docker(copy).success {
      return Pass, ran;
    }
    if args.user.None? {
      return Fail(USER_REQUIRED), ran;
    }
    if args.database.None? {
      return Fail(DATABASE_REQUIRED), ran;
    }
    var psql := PsqlCommand(file, container, args.user.value, args.database.value);
    ran := ran + [psql];
    if docker(psql).success {
      var before := if LogPath(home) in fs.files then fs.files[LogPath(home)] else "";
      var ok := fs.Append(BackupPath(home), LOG_NAME, LogLine(file, stamp));
      o := if ok then Pass else Fail(OPEN_FAILED);
      if ok && CompleteLines(before) && |file| > 0 && NoWhitespace(file) && NoNewline(stamp) {
        LastRestoredOfAppend(before, file, stamp);
      }
    } else {
      o := Pass;
    }
  }

  // ---------------------------------------------------------------------------
  // Listing

  /** Index of the last `.` in `name`, or -1 when there is none. */
  function LastDot(name: string): (i: int)
    ensures -1 <= i < |name|
    ensures i >= 0 ==> name[i] == '.'
    ensures forall j :: i < j < |name| ==> name[j] != '.'
    decreases |name|
  {
    if name == [] then -1
    else if name[|name| - 1] == '.' then |name| - 1
    else LastDot(name[..|name| - 1])
  }

  /** `Path::extension` of a file name: what follows the last `.`; there is
      none when the name has no `.`, when its only `.` leads it, or for `..`. */
  function Extension(name: string): Option<string> {
    if name == ".." then None
    else
      var i := LastDot(name);
      if i <= 0 then None else Some(name[i + 1..])
  }

  /** A name with an extension is a non-empty stem, a dot and the extension,
      which has no dot of its own. */
  lemma ExtensionShape(name: string, ext: string)
    requires Extension(name) == Some(ext)
    ensures |name| > |ext| + 1
    ensures name == name[..|name| - |ext| - 1] + "." + ext
    ensures forall j :: 0 <= j < |ext| ==> ext[j] != '.'
  {
    assert name != "..";
    var i := LastDot(name);
    assert 0 < i && ext == name[i + 1..];
    assert |name| - |ext| - 1 == i;
    assert name == name[..i] + "." + ext by {
      assert name == name[..i] + name[i..i + 1] + name[i + 1..];
    }
    forall j | 0 <= j < |ext|
      ensures ext[j] != '.'
    {
      assert ext[j] == name[i + 1 + j];
    }
  }

  /** ... and every such name has that extension. */
  lemma {:induction false} ExtensionOf(stem: string, ext: string)
    requires |stem| > 0 && |ext| > 0
    requires forall j :: 0 <= j < |ext| ==> ext[j] != '.'
    ensures Extension(stem + "." + ext) == Some(ext)
  {
    var name := stem + "." + ext;
    LastDotOf(stem + ".", ext);
    assert name[|stem| + 1..] == ext;
  }

  lemma {:induction false} LastDotOf(front: string, ext: string)
    requires |front| > 0 && front[|front| - 1] == '.'
    requires forall j :: 0 <= j < |ext| ==> ext[j] != '.'
    ensures LastDot(front + ext) == |front| - 1
    decreases |ext|
  {
    if ext == [] {
      assert front + ext == front;
    } else {
      var init := ext[..|ext| - 1];
      assert (front + ext)[..|front + ext| - 1] == front + init;
      LastDotOf(front, init);
    }
  }

  /** An entry of `read_dir` on the backup root: its file name, whether it is
      a regular file, and its creation time formatted `%d/%m/%Y %H:%M`, or
      `None` when that time lies before the Unix epoch. */
  datatype DirEntry = DirEntry(name: string, isFile: bool, created: Option<string>)

  /** A line of the listing: file, creation time, and the `last` label. */
  datatype Row = Row(file: string, time: string, isLast: bool)

  /** The entries `list_backups` shows: regular `.sql` files whose creation
      time could be worked out. */
  predicate Listable(e: DirEntry) {
    e.isFile && Extension(e.name) == Some("sql") && e.created.Some?
  }

  function RowOf(e: DirEntry, last: Option<string>): Row
    requires e.created.Some?
  {
    Row(e.name, e.created.value, last.Some? && e.name == last.value)
  }

  /** The rows `list_backups` collects, in directory order. */
  function Listed(entries: seq<DirEntry>, last: Option<string>): seq<Row> {
    if entries == [] then []
    else
      var e := entries[|entries| - 1];
      Listed(entries[..|entries| - 1], last) + (if Listable(e) then [RowOf(e, last)] else [])
  }

  /** `r` is the row of some listable entry. */
  ghost predicate RowFrom(r: Row, entries: seq<DirEntry>, last: Option<string>) {
    exists j :: 0 <= j < |entries| && Listable(entries[j]) && r == RowOf(entries[j], last)
  }

  /** Every row is a listable entry's, so it names a `.sql` file, and it is
      labelled `last` exactly when it names the last restored backup. */
  lemma {:induction false} ListedRows(entries: seq<DirEntry>, last: Option<string>)
    ensures forall r :: r in Listed(entries, last) ==> RowFrom(r, entries, last)
    ensures forall r :: r in Listed(entries, last) ==>
      Extension(r.file) == Some("sql") && (r.isLast <==> last == Some(r.file))
    decreases |entries|
  {
    if entries != [] {
      var init := entries[..|entries| - 1];
      var k := |entries| - 1;
      ListedRows(init, last);
      forall r | r in Listed(entries, last)
        ensures RowFrom(r, entries, last)
      {
        if r in Listed(init, last) {
          var j :| 0 <= j < |init| && Listable(init[j]) && r == RowOf(init[j], last);
          assert entries[j] == init[j];
        } else {
          assert Listable(entries[k]) && r == RowOf(entries[k], last);
        }
      }
      forall r | r in Listed(entries, last)
        ensures Extension(r.file) == Some("sql") && (r.isLast <==> last == Some(r.file))
      {
        var j :| 0 <= j < |entries| && Listable(entries[j]) && r == RowOf(entries[j], last);
      }
    }
  }

  /** No listable entry is left out. */
  lemma {:induction false} ListedComplete(entries: seq<DirEntry>, last: Option<string>)
    ensures forall j :: 0 <= j < |entries| && Listable(entries[j]) ==> RowOf(entries[j], last) in Listed(entries, last)
    decreases |entries|
  {
    if entries != [] {
      var init := entries[..|entries| - 1];
      ListedComplete(init, last);
      forall j | 0 <= j < |entries| && Listable(entries[j])
        ensures RowOf(entries[j], last) in Listed(entries, last)
      {
        if j < |init| {
          assert entries[j] == init[j];
        }
      }
    }
  }

  /** `list_backups`: reads the last restored backup once, then pushes a row
      for each listable entry. Printing the table is left out. */
  method ListBackups(fs: FileSystem, home: string, entries: seq<DirEntry>) returns (rows: seq<Row>)
    ensures rows == Listed(entries, ReadLastRestored(fs.files, home))
    ensures forall r :: r in rows ==>
      Extension(r.file) == Some("sql") && (r.isLast <==> ReadLastRestored(fs.files, home) == Some(r.file))
    ensures forall j :: 0 <= j < |entries| && Listable(entries[j]) ==>
      RowOf(entries[j], ReadLastRestored(fs.files, home)) in rows
  {
    var last := ReadLastRestored(fs.files, home);
    rows := [];
    for i := 0 to |entries|
      invariant rows == Listed(entries[..i], last)
    {
      assert entries[..i + 1][..i] == entries[..i];
      var e := entries[i];
      if e.isFile && Extension(e.name) == Some("sql") {
        match e.created {
          case None =>
          case Some(time) =>
            rows := rows + [Row(e.name, time, last.Some? && e.name == last.value)];
        }
      }
    }
    assert entries[..|entries|] == entries;
    ListedRows(entries, last);
    ListedComplete(entries, last);
  }
}
