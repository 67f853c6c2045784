/** Shared vocabulary of the checksum tool: bytes, results and the one error type
    that every component reports. */
module Common {

  /** An unsigned 8-bit value, as produced by a digest. */
  newtype byte = x: int | 0 <= x < 256

  datatype Option<+T> = None | Some(value: T)

  datatype Result<+T, +E> = Ok(value: T) | Err(error: E)

  /** The kinds of operating-system IO failure the model distinguishes. */
  datatype IoError = NotFound | PermissionDenied | InvalidData | OtherIo(code: nat)

  type IoResult<T> = Result<T, IoError>

  /** Which side of an illegal comparison was seen first. */
  datatype ComparisonKind = Dir | File | Hash

  /** Why a tree comparison was refused. */
  datatype OperationKind = Child

  /** Every error variant the tool raises. */
  datatype Error =
    | HashFile
    | UnknownAlgorithm(name: string)
    | IllegalComparison(kind: ComparisonKind)
    | InvalidOperation(operation: OperationKind)
    | Io(cause: IoError)

  /** Index of the first `Err` in `items`, or `|items|` when every item is `Ok`. */
  function FirstErr<T, E>(items: seq<Result<T, E>>): (k: nat)
    ensures k <= |items|
    ensures forall j :: 0 <= j < k ==> items[j].Ok?
    ensures k < |items| ==> items[k].Err?
  {
    if items == [] then 0
    else if items[0].Err? then 0
    else 1 + FirstErr(items[1..])
  }

  /** `FirstErr` is the one index before which all items are `Ok` and at
      which (unless it is the end) the item is an `Err`. */
  lemma FirstErrIs<T, E>(items: seq<Result<T, E>>, k: nat)
    requires k <= |items|
    requires forall j :: 0 <= j < k ==> items[j].Ok?
    requires k < |items| ==> items[k].Err?
    ensures FirstErr(items) == k
  {
  }
}
