/** `get_bkp_path`: the backup root every file of the tool lives in. The value
    of `$HOME` is a parameter. */
module Paths {
  import opened Fs

  const ROOT_NAME := ".purrgres"

  /** `$HOME/.purrgres`. */
  function BackupPath(home: string): (root: string)
    ensures |root| > 0 && root[|root| - 1] == 's'
  {
    Join(home, ROOT_NAME)
  }
}
