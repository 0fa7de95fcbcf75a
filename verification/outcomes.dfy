/** Failure-compatible result types shared by every module of the model.

    The scripts never recover from an error: a malformed line, an empty event
    list or a missing key ends the process (`sys.exit()` after a message, or an
    uncaught Python exception). Each of those exits is an `Error` value here. */
module Outcomes {

  datatype Option<+T> = None | Some(value: T)

  /** How a script run ends when it does not produce its value. */
  datatype Error =
    | WrongFormat          // "Wrong format." followed by sys.exit()
    | NoEvent              // "Error: No event!" followed by sys.exit()
    | ZeroDivision         // ZeroDivisionError
    | TypeError            // TypeError (None used as a number or as a file name)
    | IndexError           // IndexError (list index out of range)
    | KeyError(key: string)
    | ValueError           // ValueError (dict() given a one-element tuple)
    | IOError(path: string)
    | InvalidPath(index: nat) // SmokeError("invalid path ... for operation <index> ...")
    | Diverges             // a loop that never terminates

  datatype Result<+T> = Ok(value: T) | Err(error: Error) {
    predicate IsFailure() {
      Err?
    }

    function PropagateFailure<U>(): Result<U>
      requires Err?
    {
      Err(error)
    }

    function Extract(): T
      requires Ok?
    {
      value
    }
  }

  /** The files a script can open, each as its sequence of lines (without
      line terminators). */
  type FileSystem = map<string, seq<string>>

  /** `open(path)` followed by iteration over the lines. */
  function ReadLines(fs: FileSystem, path: string): (r: Result<seq<string>>)
    ensures r.Ok? <==> path in fs
    ensures r.Ok? ==> r.value == fs[path]
    ensures r.Err? ==> r.error == IOError(path)
  {
    if path in fs then Ok(fs[path]) else Err(IOError(path))
  }
}
