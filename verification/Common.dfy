/** What several parts of the model share. */
module Common {
  datatype Option<+T> = None | Some(value: T)

  /** Seconds from 1970-01-01 to 2000-01-01. */
  const EPOCH_TO_30_YEAR: nat := 946684800

  /** Places in the schedule table. */
  const MAX_EVENT_ORDER: nat := 400

  /** Bytes of the buffer that the download reads into and the file actor writes from. */
  const BUFFER_SIZE: nat := 8192

  function One(b: bool): nat { if b then 1 else 0 }

  /** The pieces one after the other. */
  function Flatten<T>(pieces: seq<seq<T>>): seq<T> {
    if pieces == [] then [] else Flatten(pieces[..|pieces| - 1]) + pieces[|pieces| - 1]
  }
}
