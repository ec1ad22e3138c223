/** A row of the `logs` table. */
module Logs {
  import opened Common

  /**
   * One stored observation. Columns may be null, hence the options. The
   * timestamp is the parsed ISO-8601 column, as seconds on a common clock.
   */
  datatype LogRow = LogRow(
    username: Option<string>,
    pcName: Option<string>,
    activeWindow: Option<string>,
    timestamp: int,
    imageUrl: Option<string>)
}
