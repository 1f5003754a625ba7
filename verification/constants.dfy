/** The plugin's configuration constants that the modelled logic reads. */
module Constants {

  /** Minimum number of bytes in a valid bit of code. */
  const FUNC_MIN_LENGTH: nat := 1
}
