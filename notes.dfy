/** The one entity of the application, a note, and the errors its store reports. */
module Notes {
  import opened Wrappers

  /** An instant, as Go's time.Time. Only equality of instants matters to the
      model; the calendar and the clock are not modelled. */
  type Time = int

  /** The value of an unset time.Time field (Go's zero time). */
  const ZeroTime: Time := 0

  /** A row of the `notes` table. `updatedTime` is None until the note is
      first updated (the column is nullable, the Go field a pointer). */
  datatype Note = Note(
    id: int,
    img: string,
    title: string,
    content: string,
    createdTime: Time,
    updatedTime: Option<Time>)

  /** What a statement against the store can fail with. */
  datatype Error =
    | NoRows              // a single-row query matched no row
    | Full                // AUTOINCREMENT has already issued the largest row id
    | Driver(msg: string) // any other failure reported by the database driver

  /** The text of `err.Error()` for each error: a driver's message is passed
      on unchanged, and the two errors of the engine have fixed texts that no
      other error of the engine shares. */
  function ErrorText(e: Error): (text: string)
    ensures e.Driver? ==> text == e.msg
    ensures !e.Driver? ==> (text == "sql: no rows in result set" <==> e == NoRows)
    ensures !e.Driver? ==> (text == "database or disk is full" <==> e == Full)
  {
    match e
    case NoRows => "sql: no rows in result set"
    case Full => "database or disk is full"
    case Driver(msg) => msg
  }
}
