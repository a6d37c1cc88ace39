/** Option and Result, and the ways a run of one of the ingestion scripts can end
    early. The scripts report every failure as console text; here each kind of
    failure is a constructor, so that contracts can say which one happens. */
module Wrappers {

  datatype Option<+T> = None | Some(value: T)

  datatype Result<+T, +E> = Success(value: T) | Failure(error: E)

  /** How a run of a script ended. */
  datatype Outcome = Done | Failed(failure: Failure)

  /** Why a run stopped. The first group are the checks the scripts make
      themselves; the second group are exceptions Python raises on data of the
      wrong shape. */
  datatype Failure =
    | BlockArity(number: nat, lineCount: nat)  // "Block {i+1} has {len(block)} lines"
    | BlocksNotThreeLines(numbers: seq<nat>)   // convert.py: every offending block number
    | IndexFileMissing                         // "{INDEX_JSON_PATH} not found."
    | IndexFileInvalid                         // "{INDEX_JSON_PATH} is invalid."
    | NoEntry(id: string)                      // "No entry with ID: ..."
    | MissingTextFile(language: string)       // "Missing file: ..."
    | LineCountMismatch                        // "Mismatch in line counts across language files."
    | FileNotFound                             // FileNotFoundError
    | JsonDecodeError                          // json.JSONDecodeError
    | TypeError
    | AttributeError
    | KeyError(key: string)
    | IndexError
    | StopIteration
}
