/** What `read_c3d` returns: an error dictionary, or Info with the two tables. */
module Outputs {
  import opened Wrappers

  /**
   * The error kinds the three `except` clauses of read_c3d produce.
   * TextDecodeError and ShapeError are ValueErrors raised inside Python's codec,
   * numpy or pandas; their message text comes from those libraries.
   */
  datatype DecodeError =
    | FileDoesNotExist
    | ReadingError
    | NoForcePlateData
    | TextDecodeError
    | ShapeError
    | Undiscovered

  /** The `'Error'` string of the result dictionary, when the decoder fixes it. */
  function ErrorMessage(e: DecodeError): Option<string>
  {
    match e
    case FileDoesNotExist => Some("File does not exist")
    case ReadingError => Some("Reading Error of file")
    case NoForcePlateData => Some("No ForcePlate Data in C3D please check file")
    case Undiscovered => Some("Previously undiscovered error")
    case TextDecodeError => None
    case ShapeError => None
  }

  /**
   * A value of the Info dictionary: Python's None, the list [None], a
   * `string_array`, the plain string fallback, or a `float_value`.
   */
  datatype InfoValue =
    | NoneValue
    | NoneList
    | Strings(strings: seq<string>)
    | Text(text: string)
    | Number(number: real)

  type Info = map<string, InfoValue>

  /** A data frame without its time index: column labels and rows of samples. */
  datatype Table = Table(columns: seq<string>, rows: seq<seq<real>>)

  /** `MoCap` / `GRF`: the empty list when sample data is not read, else a table. */
  datatype Data = NotRead | Frame(table: Table)

  /** The result dictionary: {'Error': ...} alone, or MoCap, GRF and Info. */
  datatype Output =
    | Failure(error: DecodeError)
    | Success(info: Info, mocap: Data, grf: Data)
}
