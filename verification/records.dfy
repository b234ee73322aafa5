/** The raw event-log record both hopper checkers read: one JSON object per
    log line, of which only four fields matter. A field the line does not
    carry is `None`. */
module Records {
  import opened Wrappers

  datatype Record = Record(
    addr: Option<string>,    // source address, e.g. "ctrl1.feeder_2" or "hopper"
    time: Option<int>,       // epoch milliseconds
    feeding: Option<bool>,   // present on feeder commands
    up: Option<bool>         // present on hopper switch observations
  )

  /** The Python exceptions the checkers can raise on a record they do not
      expect; any of them aborts the whole pass. */
  datatype Fault =
    | KeyError(key: string)  // `record[key]` on a missing field
    | IndexError             // `split("_")[1]` on a name without '_'
    | TypeError              // `t - None` when no rise has been seen
}
