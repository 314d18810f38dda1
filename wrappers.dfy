/** Failure-carrying results shared by every module of the model.
    A JavaScript `throw new Error(msg)` becomes `Err(msg)`; `null` becomes `None`. */
module Wrappers {

  datatype Option<+T> = None | Some(value: T)

  datatype Result<+T> = Ok(value: T) | Err(msg: string)

  /** The message of an error that is caught and re-thrown as
      `new Error(prefix + error.message)`. */
  function Rethrow<T>(prefix: string, r: Result<T>): (r': Result<T>)
    ensures r.Ok? ==> r' == r
    ensures r.Err? ==> r' == Err(prefix + r.msg)
  {
    match r
    case Ok(v) => Ok(v)
    case Err(m) => Err(prefix + m)
  }
}

/** Bytes as the values of a `Uint8Array` element. */
module Bytes {

  type uint8 = x: int | 0 <= x < 256

  /** `String.fromCharCode(b)` for a byte: the character whose code is `b`. */
  function CharOf(b: uint8): (c: char)
    ensures c as int == b
  {
    b as char
  }

  /** True when every character of `s` has a code below 256, i.e. `s` is a
      "binary string" as `btoa` accepts and `atob` produces. */
  predicate IsBinary(s: string)
  {
    forall i :: 0 <= i < |s| ==> s[i] as int < 256
  }

  /** The byte string whose i-th character is `String.fromCharCode(bs[i])`. */
  function BinaryOf(bs: seq<uint8>): (s: string)
    ensures |s| == |bs| && IsBinary(s)
    ensures forall i :: 0 <= i < |bs| ==> s[i] as int == bs[i]
  {
    seq(|bs|, i requires 0 <= i < |bs| => CharOf(bs[i]))
  }

  /** The codes `s.charCodeAt(i)` of a binary string, one byte per character. */
  function CodesOf(s: string): (bs: seq<uint8>)
    requires IsBinary(s)
    ensures |bs| == |s|
    ensures forall i :: 0 <= i < |s| ==> bs[i] == s[i] as int
  {
    seq(|s|, i requires 0 <= i < |s| => s[i] as int as uint8)
  }

  lemma CodesOfBinaryOf(bs: seq<uint8>)
    ensures CodesOf(BinaryOf(bs)) == bs
  {
  }
}
