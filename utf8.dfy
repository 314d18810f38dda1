/** UTF-8 as `TextEncoder.encode` produces it (RFC 3629), and the strict decoder
    that inverts it (`new TextDecoder('utf-8', { fatal: true })`). */
module Utf8 {
  import opened Wrappers
  import opened Bytes

  predicate IsAscii(s: string)
  {
    forall i :: 0 <= i < |s| ==> s[i] as int < 128
  }

  predicate IsContinuation(b: uint8)
  {
    0x80 <= b < 0xC0
  }

  /** The one to four bytes of a scalar value, most significant first. */
  function EncodeChar(c: char): (bs: seq<uint8>)
    ensures 1 <= |bs| <= 4
    ensures |bs| == 1 <==> c as int < 128
  {
    var v := c as int;
    var a, q1 := v % 64, v / 64;
    var b, q2 := q1 % 64, q1 / 64;
    var d, q3 := q2 % 64, q2 / 64;
    if v < 0x80 then [v]
    else if v < 0x800 then [0xC0 + q1, 0x80 + a]
    else if v < 0x10000 then [0xE0 + q2, 0x80 + b, 0x80 + a]
    else [0xF0 + q3, 0x80 + d, 0x80 + b, 0x80 + a]
  }

  /** `TextEncoder.prototype.encode`. */
  function Encode(s: string): (bs: seq<uint8>)
    ensures |bs| >= |s|
  {
    if s == [] then [] else EncodeChar(s[0]) + Encode(s[1..])
  }

  /** Reads one scalar value at the front of `bs`: the character and the number of
      bytes it took; `None` for an invalid, overlong, surrogate or truncated sequence. */
  function DecodeOne(bs: seq<uint8>): (r: Option<(char, nat)>)
    requires |bs| > 0
    ensures r.Some? ==> 1 <= r.value.1 <= |bs| && r.value.1 <= 4
  {
    var b0: int := bs[0];
    if b0 < 0x80 then Some((b0 as char, 1))
    else if 0xC0 <= b0 < 0xE0 && |bs| >= 2 && IsContinuation(bs[1]) then
      var v := (b0 - 0xC0) * 64 + (bs[1] as int - 0x80);
      if v >= 0x80 then Some((v as char, 2)) else None
    else if 0xE0 <= b0 < 0xF0 && |bs| >= 3 && IsContinuation(bs[1]) && IsContinuation(bs[2]) then
      var v := ((b0 - 0xE0) * 64 + (bs[1] as int - 0x80)) * 64 + (bs[2] as int - 0x80);
      if v >= 0x800 && !(0xD800 <= v < 0xE000) then Some((v as char, 3)) else None
    else if 0xF0 <= b0 < 0xF8 && |bs| >= 4 && IsContinuation(bs[1]) && IsContinuation(bs[2])
            && IsContinuation(bs[3]) then
      var v := (((b0 - 0xF0) * 64 + (bs[1] as int - 0x80)) * 64 + (bs[2] as int - 0x80)) * 64 + (bs[3] as int - 0x80);
      if 0x10000 <= v < 0x110000 then Some((v as char, 4)) else None
    else None
  }

  /** Strict decoding of a whole byte sequence. */
  function Decode(bs: seq<uint8>): Option<string>
    decreases |bs|
  {
    if bs == [] then Some([])
    else
      match DecodeOne(bs)
      case None => None
      case Some((c, n)) =>
        match Decode(bs[n..])
        case None => None
        case Some(rest) => Some([c] + rest)
  }

  lemma DecodeOneEncodeChar(c: char, rest: seq<uint8>)
    ensures DecodeOne(EncodeChar(c) + rest) == Some((c, |EncodeChar(c)|))
  {
    var v := c as int;
    var a, q1 := v % 64, v / 64;
    var b, q2 := q1 % 64, q1 / 64;
    var d, q3 := q2 % 64, q2 / 64;
    var bs := EncodeChar(c) + rest;
    if v < 0x80 {
    } else if v < 0x800 {
      assert q1 < 32;
      assert bs[0] == 0xC0 + q1 && bs[1] == 0x80 + a;
    } else if v < 0x10000 {
      assert q2 < 16;
      assert bs[0] == 0xE0 + q2 && bs[1] == 0x80 + b && bs[2] == 0x80 + a;
      assert (q2 * 64 + b) * 64 + a == v;
    } else {
      assert q1 < 0x110000 / 64 && q2 < 0x110000 / 4096 && q3 < 5;
      assert bs[0] == 0xF0 + q3 && bs[1] == 0x80 + d && bs[2] == 0x80 + b && bs[3] == 0x80 + a;
      assert ((q3 * 64 + d) * 64 + b) * 64 + a == v;
    }
  }

  lemma DecodeCons(c: char, t: seq<uint8>, rest: string)
    requires Decode(t) == Some(rest)
    ensures Decode(EncodeChar(c) + t) == Some([c] + rest)
  {
    var bs := EncodeChar(c) + t;
    DecodeOneEncodeChar(c, t);
    assert bs[|EncodeChar(c)|..] == t;
  }

  /** Strict decoding inverts `TextEncoder` for every string. */
  lemma {:induction false} DecodeEncode(s: string)
    ensures Decode(Encode(s)) == Some(s)
  {
    if s != [] {
      DecodeEncode(s[1..]);
      DecodeCons(s[0], Encode(s[1..]), s[1..]);
      assert [s[0]] + s[1..] == s;
    }
  }

  /** The encoding has one byte per character exactly when the string is ASCII,
      and then byte i is the code of character i. */
  lemma {:induction false} EncodeLengthIffAscii(s: string)
    ensures |Encode(s)| == |s| <==> IsAscii(s)
    ensures IsAscii(s) ==> forall i :: 0 <= i < |s| ==> Encode(s)[i] == s[i] as int
  {
    if s != [] {
      EncodeLengthIffAscii(s[1..]);
      assert forall i :: 1 <= i < |s| ==> s[i] == s[1..][i - 1];
      if IsAscii(s) {
        assert IsAscii(s[1..]);
        assert Encode(s) == [s[0] as int] + Encode(s[1..]);
      } else if s[0] as int < 128 {
        assert !IsAscii(s[1..]);
      }
    }
  }
}
