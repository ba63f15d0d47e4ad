/** The command line of `purrgres` (`src/utils/args_struct.rs`), as the
    parsed values the program reads. */
module Cli {
  import opened Wrappers

  datatype Args = Args(
    user: Option<string>,
    database: Option<string>,
    container: Option<string>,
    stats: bool,
    stop: bool,
    listPurrs: bool,
    rpurry: Option<string>)

  /** The `required_unless_present_any` rule the argument parser enforces
      before `main` runs: user, database and container are all given unless
      one of `--stats`, `--stop` or `--list-purrs` is. */
  predicate Accepted(args: Args) {
    args.stats || args.stop || args.listPurrs ||
    (args.user.Some? && args.database.Some? && args.container.Some?)
  }
}
