/**
 * The settings the scraper reads from its configuration file, passed as an immutable value:
 * the configured retry count and the output columns. The pauses are named, not timed (see
 * `Browser.Delay`), and the folders belong to the file system, which is not modelled.
 */
module Settings {
  datatype Config = Config(maxRetries: nat, columns: seq<string>)
}
