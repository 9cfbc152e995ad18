/** Bytes, words, and the outcome types shared by the postings codec. */
module Bytes {

  type byte = b: int | 0 <= b < 0x100
  type u32 = w: int | 0 <= w < 0x1_0000_0000

  const U32_LIMIT := 0x1_0000_0000

  datatype PostingsBlockError = UnexpectedEof | VarintOverflow | NotMonotonic | MalformedBlock

  /** What a public operation returns. */
  datatype Result<+T> = Success(value: T) | Failure(error: PostingsBlockError) {
    predicate IsFailure() { Failure? }
    function PropagateFailure<U>(): Result<U>
      requires Failure?
    {
      Failure(error)
    }
    function Extract(): T
      requires Success?
    {
      value
    }
  }

  /** What reading from the front of a byte string yields: a value and the bytes left over,
      or the first error met. */
  datatype Parse<+T> = Ok(value: T, rest: seq<byte>) | Err(error: PostingsBlockError) {
    predicate IsFailure() { Err? }
    function PropagateFailure<U>(): Parse<U>
      requires Err?
    {
      Err(error)
    }
    function Extract(): (T, seq<byte>)
      requires Ok?
    {
      (value, rest)
    }
  }

  /** How reading some bytes (`short`) relates to reading them followed by `tail` (`long`): a
      value read stays read and leaves `tail` untouched; running out of input means that only
      bytes of `tail` could complete the value; any other error stays that error. */
  ghost predicate Extends<T>(short: Parse<T>, long: Parse<T>, tail: seq<byte>) {
    match short
    case Ok(v, rest) => long == Ok(v, rest + tail)
    case Err(UnexpectedEof) => long.Ok? ==> |long.rest| < |tail|
    case Err(e) => long == Err(e)
  }

  /** A reader working at a position inside `bytes` agrees with the parse of the bytes from
      that position on. */
  ghost predicate Agrees<T>(bytes: seq<byte>, r: Result<T>, position: nat, spec: Parse<T>) {
    match spec
    case Ok(v, rest) => r == Success(v) && position <= |bytes| && rest == bytes[position..]
    case Err(e) => r == Failure(e)
  }

  ghost predicate StrictlyIncreasing(s: seq<int>) {
    forall i, j :: 0 <= i < j < |s| ==> s[i] < s[j]
  }
}
