/** What the daemon gets back from the external commands it runs (`kill`,
    `ps`, `docker`). The commands themselves are outside the model. */
module Commands {

  /** `Command::output()` of a command that ran: its exit status and what it
      printed. */
  datatype Output = Output(success: bool, stdout: string, stderr: string)

  /** A command whose start-up failure is reported rather than a panic: the
      exit status, or the reason it could not be started. */
  datatype Spawn = Exited(success: bool) | SpawnError(reason: string)
}
