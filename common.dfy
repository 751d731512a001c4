/** Shared vocabulary of the enrichment pipeline: the exceptions the program can
    raise, the values a row cell can hold, and the shape of files on disk. */
module Common {

  datatype Option<+T> = None | Some(value: T)

  /** The Python exceptions that can escape from the core. */
  datatype Error =
    | KeyError(key: string)
    | ValueError(text: string)
    | TypeError
    | ZeroDivisionError
    | StopAsyncIteration
    | HttpStatusError(status: int)
    | FileNotFoundError(name: string)
    | IsADirectoryError(name: string)

  /** A value, or the exception that stopped its computation. */
  datatype Result<+T> = Ok(value: T) | Err(error: Error) {
    predicate IsFailure() {
      Err?
    }

    function PropagateFailure<U>(): Result<U>
      requires Err?
    {
      Err(error)
    }

    function Extract(): T
      requires Ok?
    {
      value
    }
  }

  /** The completion of a call that returns nothing. */
  datatype Outcome = Pass | Fail(error: Error)

  /** A cell of a row dictionary: a string read from a CSV file, a float
      computed by the enrichment, or None (the reader's fill for a short record). */
  datatype Value = Str(s: string) | Float(x: real) | NoneValue

  /** A row dictionary, from column name to cell. */
  type Row = map<string, Value>

  /** One CSV record as the csv module reads or writes it: a list of fields. */
  type Record = seq<string>

  /** An entry of a directory: a regular file holding CSV records, or a sub-directory. */
  datatype Entry = File(records: seq<Record>) | Folder

  /** All the records of a sequence of record lists, in order. */
  function Flatten(parts: seq<seq<Record>>): (all: seq<Record>)
  {
    if parts == [] then [] else parts[0] + Flatten(parts[1..])
  }

  lemma {:induction false} FlattenSnoc(parts: seq<seq<Record>>, last: seq<Record>)
    ensures Flatten(parts + [last]) == Flatten(parts) + last
  {
    if parts == [] {
      assert parts + [last] == [last];
    } else {
      assert (parts + [last])[1..] == parts[1..] + [last];
      FlattenSnoc(parts[1..], last);
    }
  }

  function Min(a: int, b: int): int
  {
    if a < b then a else b
  }
}
