# Purrgres PID marker, restore log and daemon, in Dafny

Purrgres is a command-line tool that backs up a PostgreSQL database running in
a Docker container. Started without a sub-command it becomes a daemon. Once a
day it runs `pg_dump` inside the container and, when the dump succeeds, writes
it to `$HOME/.purrgres/<DD_MM_YYYY_HH_MM>_backup.sql`. On every round it also saves
its own process id to the marker file `$HOME/.purrgres/purrgres_pid`.

The one-shot sub-commands all work from that marker and the backup root:
- `--stats` reads the marker and reports the daemon's uptime.
- `--stop` sends `kill` to the recorded pid and, when `kill` succeeds, deletes the marker.
- `--list-purrs` lists the `.sql` files and labels the last restored one.
- `--rpurry <file>` copies a backup into the container and replays it with `psql`. When the replay succeeds it also appends a line to the restore log `$HOME/.purrgres/.purrs`.

The model has one module per concern:

| module | file | models |
|---|---|---|
| `Text` | text.dfy | the Rust `str` and integer functions the code relies on: `trim`, `split_whitespace`, `lines`, `replace`, `u32::from_str`, integer `Display` |
| `Fs` | fs.dfy | the file system as a mutable object (`FileSystem`: directories and file contents by path) and `PathBuf::join`, where an absolute name replaces the directory |
| `Paths` | paths.dfy | the backup root `$HOME/.purrgres` |
| `Commands` | commands.dfy | what running an external program gives back |
| `Cli` | cli.dfy | the parsed arguments and the rule the argument parser enforces |
| `Marker` | marker.dfy | the PID marker: read, save, clear, and the stop decision |
| `Uptime` | uptime.dfy | the uptime text: locale rewriting, truncating h/m/s split, fallback |
| `RestoreLog` | restore_log.dfy | restoring, the `.purrs` log and its reader, the backup listing |
| `ProcessIdentifier` | process_identifier.dfy | `process_exists` |
| `Scheduling` | schedule.dfy | the `Schedule` durations |
| `Daemon` | daemon.dfy | `main`: dispatch, the stop-then-clear rule, one daemon round and a run of rounds |

`src/utils/process_identifier.rs` repeats `status`, `save_pid`, `kill`, `stop_process` and `get_process_uptime` from `src/utils/process.rs`. The code is the same, so the model defines each once. The table below cites whichever of the two files a member's property is stated for.

`main` does not check whether a recorded daemon is still alive before it starts another one. It does not remove a stale marker, and `process_exists` is never called. The model follows the code and has no such refusal. Likewise, `--stop` sends `kill` without asking whether the process is alive.

## Model

| member | source | states |
|---|---|---|
| Fs.Join | src/utils/process.rs:123-124 | an absolute name comes back as it is, the directory dropped; a relative one comes back after the directory, with or without a `/` between them |
| Fs.JoinInjective | src/utils/process.rs:123-124 | two relative names, or two absolute ones, joined onto the same directory give the same path only when they are the same name |
| Paths.BackupPath | src/utils/path.rs:6-12 | the backup root is `$HOME` joined with `.purrgres` and is never empty |
| Marker.PidFilePath | src/utils/process.rs:11-13 | the marker path is the backup root, `/`, `purrgres_pid`; `save_pid` (line 46) and `get_pid` of `process_identifier.rs` build the same path |
| Marker.CheckProcessStatus | src/utils/process.rs:32-39 | a missing marker reads as `None`; `Some(p)` only when the trimmed text is `p` written the way `u32::from_str` accepts |
| Marker.StatusIff | src/utils/process_identifier.rs:12-19 | the marker reads as `Some(p)` if and only if it exists and its trimmed text is an optional `+`, zeros and the decimal `p` |
| Text.ParseU32Accepts | src/utils/process.rs:34 | `parse::<u32>` succeeds with `p` exactly on an optional `+`, any leading zeros and the decimal digits of `p` |
| Text.ParseRefuses | src/utils/process.rs:34 | a minus sign, inner white space, the empty text and a lone `+` are refused |
| Text.ParseOverflow | src/utils/process.rs:34 | a value past `u32::MAX` is refused, not wrapped |
| Text.ParseDecimal | src/utils/process.rs:51 | the text `write!` produces for a `u32` parses back to it |
| Marker.SaveThenCheck | src/utils/process_identifier.rs:21-30 | after `save_pid(p)` overwrites the marker with the decimal `p`, `status` reads `Some(p)` whatever the marker held before |
| Marker.MarkerWithPlusAndZeros | src/utils/process.rs:32-39 | a marker holding `+007` reads as pid 7 |
| Marker.MarkerOverflow | src/utils/process.rs:32-39 | a marker holding a number past `u32::MAX` reads as no daemon |
| Marker.SavePid | src/utils/process.rs:45-54 | succeeds exactly when the root exists, and then changes only the marker, which reads back the pid through `check_process_status`; otherwise it panics and changes nothing |
| Marker.ClearPid | src/utils/process.rs:41-43 | succeeds exactly when the marker existed and panics otherwise; either way the marker is gone and reads as `None` and nothing else changes |
| Marker.StopProcess | src/utils/process.rs:15-30 | with no readable marker, no `kill` and `Err("No backup processes found.")`; otherwise `kill` for the marker's pid only, `Ok` exactly when it exits successfully, the kill or spawn error otherwise; it never writes |
| Uptime.NormalizeLocale | src/utils/process.rs:90-96 | the two loops apply every weekday replacement, in table order, then every month replacement |
| Uptime.NormalizeKeepsOtherText | src/utils/process_identifier.rs:67-98 | text with none of the nineteen Portuguese keys comes out unchanged |
| Uptime.NormalizeTranslates | src/utils/process.rs:65-96 | each of the seven weekday and twelve month abbreviations in Portuguese, on its own, comes out as its English abbreviation |
| Uptime.NormalizeKeepsLength | src/utils/process.rs:65-96 | every key is replaced by a text of its own length, so the length is kept |
| Uptime.TruncMod | src/utils/process.rs:106-108 | Rust's `%`: the quotient times the divisor plus the remainder gives back the dividend, and the remainder has the dividend's sign |
| Uptime.SplitParts | src/utils/process.rs:106-108 | the hours, minutes and seconds add back up to the elapsed seconds; minutes and seconds lie in 0..59 for a non-negative total and in -59..0 for a negative one |
| Uptime.Format | src/utils/process.rs:110 | the uptime text ends in `s` |
| Uptime.FormatNotFallback | src/utils/process.rs:112-114 | a formatted uptime never equals the fallback text |
| Uptime.GetProcessUptime | src/utils/process.rs:56-117 | returns the uptime text of the specification function `Uptime` |
| Uptime.UptimeFallbackIff | src/utils/process_identifier.rs:64-118 | `Unable to calculate time` comes back exactly when `ps` fails or its output does not parse; otherwise the text is the split of now minus the start |
| RestoreLog.LogPath | src/utils/process.rs:162 | the log is `.purrs` in the backup root |
| RestoreLog.LastRestored | src/utils/process.rs:244-253 | a result is a non-empty, white-space-free piece of the last line |
| RestoreLog.ReadLastRestored | src/utils/process.rs:241-258 | no log reads as `None`; a result is a non-empty, white-space-free name |
| RestoreLog.LogLinePieces | src/utils/process.rs:170-175 | a log line splits into `Backup`, `restored`, `form:` and the file name, when the name has no white space |
| RestoreLog.LastRestoredOfAppend | src/utils/process.rs:170-175 | appending the line for a non-empty, white-space-free `file`, with a stamp without a line feed, to a log of whole lines makes `file` what the reader returns |
| RestoreLog.AppendKeepsLinesComplete | src/utils/process.rs:170-175 | the log stays made of whole lines after each append |
| RestoreLog.ApplyBackup | src/utils/process.rs:119-183 | copies before replaying; the replay runs exactly when the copy succeeded and user and database are given; the log is appended only when both succeed; after that, for a non-empty, white-space-free file name, a stamp without a line feed and a log of whole lines, the reader returns the file; missing arguments and an unopenable log are panics |
| RestoreLog.ExtensionShape | src/utils/process.rs:194 | a name with extension `e` is a non-empty stem, `.` and `e`, and `e` has no dot |
| RestoreLog.ExtensionOf | src/utils/process.rs:194 | every non-empty stem, `.` and dot-free non-empty `e` has extension `e` |
| RestoreLog.ListedRows | src/utils/process.rs:188-215 | every row is the row of a listed entry, names a `.sql` file, and is labelled `last` exactly when it names the last restored backup |
| RestoreLog.ListedComplete | src/utils/process.rs:188-215 | every regular `.sql` entry with a creation time gets its row |
| RestoreLog.ListBackups | src/utils/process.rs:185-239 | the loop collects the rows of the specification function `Listed`, with the properties above |
| ProcessIdentifier.ProcPath | src/utils/process_identifier.rs:37 | the probed path starts with `/proc/` |
| ProcessIdentifier.ProcPathInjective | src/utils/process_identifier.rs:36-39 | different pids are probed at different paths |
| ProcessIdentifier.ProcessExistsLocal | src/utils/process_identifier.rs:36-39 | whether a pid is reported alive depends only on its own `/proc` entry |
| Marker.ClearedReadsNone | src/utils/process_identifier.rs:32-34 | after `kill` deletes the marker, `status` reads `None` |
| Marker.StopOkHasMarker | src/utils/process_identifier.rs:41-56 | `stop_process` is `Ok` only after `status` found a pid, and it leaves the marker in place |
| Scheduling.Schedule.ToDuration | src/utils/schedule.rs:15-26 | every duration is positive and a whole number of minutes |
| Scheduling.DurationTable | src/utils/schedule.rs:17-24 | the eight durations in seconds: 2592000, 604800, 518400, 86400, 43200, 3600, 1800, 60 |
| Scheduling.DurationDecreasing | src/utils/schedule.rs:15-26 | a variant declared later is strictly shorter |
| Scheduling.DurationInjective | src/utils/schedule.rs:15-26 | no two variants share a duration |
| Daemon.TickPeriodIsOneDay | src/main.rs:67 | the daemon's period is `OneDay` |
| Daemon.Dispatch | src/main.rs:21-65 | `--stats` wins over `--stop`, which wins over `--list-purrs`, then `--rpurry`, then the daemon |
| Daemon.ConnectionGiven | src/utils/args_struct.rs:8-15 | when the restore or daemon branch is taken, user, database and container are all given |
| Daemon.ArtifactInRoot | src/main.rs:73-77 | the artifact path is the backup root joined with the artifact name |
| Daemon.ArtifactListed | src/main.rs:73-77 | the artifact name has extension `sql`, so the listing shows it |
| Daemon.ArtifactNotMarker | src/main.rs:73-77 | an artifact path is never the marker path |
| Daemon.TickMarks | src/main.rs:91-92 | after a round the marker reads the daemon's pid, whatever the dump did |
| Daemon.Tick | src/main.rs:79-103 | missing arguments panic before anything is run or written; otherwise the one `docker` run is `exec <container> pg_dump -U <user> <database>`; the pid is saved first; the artifact is written only for a successful dump, with its output |
| Daemon.AfterTicksMarks | src/main.rs:69-104 | after one or more rounds the marker reads the daemon's pid |
| Daemon.AfterTicksFiles | src/main.rs:69-104 | after one or more rounds the files are the earlier ones, the marker and one artifact per successful dump; nothing is removed |
| Daemon.RunTicks | src/main.rs:69-104 | with the connection given and the root present, no round panics and the files are those of the specification function `AfterTicks` |
| Daemon.Launch | src/main.rs:12-105 | the root exists afterwards. Only the dispatched branch runs. Status reads the marker and writes nothing. Stop clears the marker exactly when `stop_process` is `Ok`, and that clear cannot fail. List returns the rows of `Listed`. Restore always returns normally: it replays only after a successful copy, and it appends the log line exactly when the replay succeeded, after which the reader returns the file. No other file changes. The daemon's rounds leave the marker on its pid |

## Left out

- Console output: the banners, colours, the listing table layout and every `println!`/`eprintln!` message that does not change state.
- Failures to spawn `ps` or `docker` (`expect` on `output()`), a failing `write!` after a successful `File::create`, and `create_dir_all` failing. The file system model cannot fail in those ways.
- File-system calls fail in the model only when the directory they write into is missing. `File::create` in `save_pid` failing inside an existing directory (permissions, a full disk) and `fs::write` of the artifact failing at src/main.rs:95 are not modelled; the artifact write's `Failed save the backup file` panic therefore never happens in `Daemon.Tick`, because the round has already saved the marker into the same directory.
- `$HOME` missing (`expect` in `get_bkp_path`). `home` is a parameter.
- Non-UTF-8 paths and output. Paths, file contents and command output are Unicode strings, and `from_utf8_lossy` is the identity.
- `chrono`: parsing the `ps` start time, the local clock and formatting time stamps. Each is a parameter: a parse function, `now` in seconds, and the formatted stamp strings, which the type `Daemon.Stamp` limits to the digits and `_` that `%d_%m_%Y_%H_%M` prints.
- `fs::metadata`, creation times and `read_dir`. The listing entries, with their kind and formatted creation time, are a parameter of `ListBackups`. The metadata `expect`s are not modelled.
- The tokio timer and the endless loop. `RunTicks` runs a given finite sequence of rounds in order; what happens between rounds is not modelled.
- Signals: `kill` is an external command whose outcome is a parameter; what it does to the daemon is not modelled.
- RestoreLog.ReadLastRestored: an empty file name, or one with white space in it, is not recovered by the reader (for an empty name the fourth piece of the line is the `-` of ` - Date: `); `LastRestoredOfAppend`, `ApplyBackup` and `Launch` state the round trip only for a non-empty, white-space-free name and a stamp without a line feed.
- Uptime.GetProcessUptime: the pid is passed to `ps` only through the `ps` parameter; the text of the `ps` command line is not modelled.
