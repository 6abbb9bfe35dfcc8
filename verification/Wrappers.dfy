/** What every component uses for Rust's `Option` and `Result`, and for files written whole. */
module Wrappers {
  datatype Option<+T> = None | Some(value: T)
  datatype Result<+T, +E> = Ok(value: T) | Err(error: E)

  /** A JSON file on disk. `Torn` exists but does not parse. */
  datatype JsonFile<+T> = Absent | Torn | Holds(value: T)

  /** How a whole-file write ends: done, refused before truncation, or cut short. */
  datatype WriteFault = Written | Refused | CutShort

  function WriteFile<T>(file: JsonFile<T>, content: T, w: WriteFault): JsonFile<T> {
    match w
    case Written => Holds(content)
    case Refused => file
    case CutShort => Torn
  }
}
