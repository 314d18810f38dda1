/** Base 64 encoding as defined in section 4 of RFC 4648: what `btoa` computes on a
    binary string and what `atob` inverts. */
module Base64 {
  import opened Wrappers
  import opened Bytes

  /** The character for a 6-bit value (Table 1 of RFC 4648). */
  function Sextet(k: int): (c: char)
    requires 0 <= k < 64
  {
    if k < 26 then ('A' as int + k) as char
    else if k < 52 then ('a' as int + k - 26) as char
    else if k < 62 then ('0' as int + k - 52) as char
    else if k == 62 then '+'
    else '/'
  }

  predicate IsAlphabet(c: char)
  {
    'A' <= c <= 'Z' || 'a' <= c <= 'z' || '0' <= c <= '9' || c == '+' || c == '/'
  }

  /** The 6-bit value of an alphabet character. */
  function ValueOf(c: char): (v: int)
    requires IsAlphabet(c)
    ensures 0 <= v < 64 && Sextet(v) == c
  {
    if 'A' <= c <= 'Z' then c as int - 'A' as int
    else if 'a' <= c <= 'z' then c as int - 'a' as int + 26
    else if '0' <= c <= '9' then c as int - '0' as int + 52
    else if c == '+' then 62
    else 63
  }

  lemma ValueOfSextet(k: int)
    requires 0 <= k < 64
    ensures IsAlphabet(Sextet(k)) && ValueOf(Sextet(k)) == k
  {
  }

  /** Encodes three bytes as four characters. */
  function EncodeBlock(b0: uint8, b1: uint8, b2: uint8): seq<char>
  {
    [Sextet(b0 / 4), Sextet((b0 % 4) * 16 + b1 / 16), Sextet((b1 % 16) * 4 + b2 / 64), Sextet(b2 % 64)]
  }

  /** The encoding of `bs`, padded with '=' to a multiple of four characters. */
  function Encode(bs: seq<uint8>): (s: string)
    ensures |s| == 4 * ((|bs| + 2) / 3)
    decreases |bs|
  {
    if |bs| == 0 then []
    else if |bs| == 1 then [Sextet(bs[0] / 4), Sextet((bs[0] % 4) * 16), '=', '=']
    else if |bs| == 2 then
      [Sextet(bs[0] / 4), Sextet((bs[0] % 4) * 16 + bs[1] / 16), Sextet((bs[1] % 16) * 4), '=']
    else EncodeBlock(bs[0], bs[1], bs[2]) + Encode(bs[3..])
  }

  /** Four alphabet characters back to three bytes. */
  function DecodeBlock(c0: char, c1: char, c2: char, c3: char): Option<seq<uint8>>
  {
    if IsAlphabet(c0) && IsAlphabet(c1) && IsAlphabet(c2) && IsAlphabet(c3) then
      var v0, v1, v2, v3 := ValueOf(c0), ValueOf(c1), ValueOf(c2), ValueOf(c3);
      Some([v0 * 4 + v1 / 16, (v1 % 16) * 16 + v2 / 4, (v2 % 4) * 64 + v3])
    else None
  }

  /** The final group of four characters, which may carry one or two '='. */
  function DecodeLast(c0: char, c1: char, c2: char, c3: char): Option<seq<uint8>>
  {
    if c2 == '=' && c3 == '=' then
      if IsAlphabet(c0) && IsAlphabet(c1) then Some([ValueOf(c0) * 4 + ValueOf(c1) / 16]) else None
    else if c3 == '=' then
      if IsAlphabet(c0) && IsAlphabet(c1) && IsAlphabet(c2) then
        var v0, v1, v2 := ValueOf(c0), ValueOf(c1), ValueOf(c2);
        Some([v0 * 4 + v1 / 16, (v1 % 16) * 16 + v2 / 4])
      else None
    else DecodeBlock(c0, c1, c2, c3)
  }

  /** Decoding; `None` for a length that is not a multiple of four, a character
      outside the alphabet, or padding anywhere but at the end. */
  function Decode(s: string): Option<seq<uint8>>
    decreases |s|
  {
    if |s| == 0 then Some([])
    else if |s| < 4 then None
    else if |s| == 4 then DecodeLast(s[0], s[1], s[2], s[3])
    else
      match DecodeBlock(s[0], s[1], s[2], s[3])
      case None => None
      case Some(head) =>
        match Decode(s[4..])
        case None => None
        case Some(tail) => Some(head + tail)
  }

  lemma BlockRoundTrip(b0: uint8, b1: uint8, b2: uint8)
    ensures DecodeBlock(Sextet(b0 / 4), Sextet((b0 % 4) * 16 + b1 / 16),
                        Sextet((b1 % 16) * 4 + b2 / 64), Sextet(b2 % 64)) == Some([b0, b1, b2])
  {
    var x, y, z, w := b0 / 4, (b0 % 4) * 16 + b1 / 16, (b1 % 16) * 4 + b2 / 64, b2 % 64;
    SextetsOfBytes(b0, b1, b2);
    DecodeSextets(x, y, z, w);
  }

  /** The four 6-bit groups of three bytes give the bytes back. */
  lemma SextetsOfBytes(b0: uint8, b1: uint8, b2: uint8)
    ensures var x, y, z, w := b0 / 4, (b0 % 4) * 16 + b1 / 16, (b1 % 16) * 4 + b2 / 64, b2 % 64;
      && 0 <= x < 64 && 0 <= y < 64 && 0 <= z < 64 && 0 <= w < 64
      && x * 4 + y / 16 == b0 as int && (y % 16) * 16 + z / 4 == b1 as int && (z % 4) * 64 + w == b2 as int
  {
    var y, z := (b0 % 4) * 16 + b1 / 16, (b1 % 16) * 4 + b2 / 64;
    assert y / 16 == b0 % 4 && y % 16 == b1 / 16;
    assert z / 4 == b1 % 16 && z % 4 == b2 / 64;
  }

  /** Decoding four alphabet characters reads their 6-bit values back. */
  lemma DecodeSextets(x: int, y: int, z: int, w: int)
    requires 0 <= x < 64 && 0 <= y < 64 && 0 <= z < 64 && 0 <= w < 64
    requires 0 <= x * 4 + y / 16 < 256 && 0 <= (y % 16) * 16 + z / 4 < 256 && 0 <= (z % 4) * 64 + w < 256
    ensures DecodeBlock(Sextet(x), Sextet(y), Sextet(z), Sextet(w))
            == Some([(x * 4 + y / 16) as uint8, ((y % 16) * 16 + z / 4) as uint8, ((z % 4) * 64 + w) as uint8])
  {
    ValueOfSextet(x); ValueOfSextet(y); ValueOfSextet(z); ValueOfSextet(w);
  }

  lemma OneByteRoundTrip(b0: uint8)
    ensures Decode(Encode([b0])) == Some([b0])
  {
    var y := (b0 % 4) * 16;
    ValueOfSextet(b0 / 4); ValueOfSextet(y);
    assert y / 16 == b0 % 4;
    var s := Encode([b0]);
    assert s == [Sextet(b0 / 4), Sextet(y), '=', '='];
  }

  lemma TwoBytesRoundTrip(b0: uint8, b1: uint8)
    ensures Decode(Encode([b0, b1])) == Some([b0, b1])
  {
    var y, z := (b0 % 4) * 16 + b1 / 16, (b1 % 16) * 4;
    ValueOfSextet(b0 / 4); ValueOfSextet(y); ValueOfSextet(z);
    assert y / 16 == b0 % 4 && y % 16 == b1 / 16 && z / 4 == b1 % 16;
    var s := Encode([b0, b1]);
    assert s == [Sextet(b0 / 4), Sextet(y), Sextet(z), '='];
  }

  lemma ThreeBytesRoundTrip(b0: uint8, b1: uint8, b2: uint8)
    ensures Decode(Encode([b0, b1, b2])) == Some([b0, b1, b2])
  {
    var s := Encode([b0, b1, b2]);
    assert [b0, b1, b2][3..] == [];
    assert s == EncodeBlock(b0, b1, b2);
    BlockRoundTrip(b0, b1, b2);
    ValueOfSextet((b1 % 16) * 4 + b2 / 64); ValueOfSextet(b2 % 64);
    assert DecodeLast(s[0], s[1], s[2], s[3]) == DecodeBlock(s[0], s[1], s[2], s[3]);
  }

  /** Decoding a string of more than four characters splits off its first block. */
  lemma DecodeSplit(h: string, t: string)
    requires |h| == 4 && |t| > 0
    ensures Decode(h + t) ==
      match DecodeBlock(h[0], h[1], h[2], h[3])
      case None => None
      case Some(head) => (match Decode(t) case None => None case Some(tail) => Some(head + tail))
  {
    var s := h + t;
    assert s[4..] == t;
    assert s[0] == h[0] && s[1] == h[1] && s[2] == h[2] && s[3] == h[3];
  }

  /** A full leading block followed by a tail that already round-trips. */
  lemma BlockThenTail(b0: uint8, b1: uint8, b2: uint8, t: string, rest: seq<uint8>)
    requires |t| > 0 && Decode(t) == Some(rest)
    ensures Decode(EncodeBlock(b0, b1, b2) + t) == Some([b0, b1, b2] + rest)
  {
    var head := EncodeBlock(b0, b1, b2);
    BlockRoundTrip(b0, b1, b2);
    assert DecodeBlock(head[0], head[1], head[2], head[3]) == Some([b0, b1, b2]);
    DecodeSplit(head, t);
  }

  /** The last group: one, two or three bytes. */
  lemma ShortRoundTrip(bs: seq<uint8>)
    requires |bs| <= 3
    ensures Decode(Encode(bs)) == Some(bs)
  {
    if |bs| == 1 {
      SingleRoundTrip(bs);
    } else if |bs| == 2 {
      PairRoundTrip(bs);
    } else if |bs| == 3 {
      TripleRoundTrip(bs);
    }
  }

  lemma SingleRoundTrip(bs: seq<uint8>)
    requires |bs| == 1
    ensures Decode(Encode(bs)) == Some(bs)
  {
    assert [bs[0]] == bs;
    OneByteRoundTrip(bs[0]);
  }

  lemma PairRoundTrip(bs: seq<uint8>)
    requires |bs| == 2
    ensures Decode(Encode(bs)) == Some(bs)
  {
    assert [bs[0], bs[1]] == bs;
    TwoBytesRoundTrip(bs[0], bs[1]);
  }

  lemma TripleRoundTrip(bs: seq<uint8>)
    requires |bs| == 3
    ensures Decode(Encode(bs)) == Some(bs)
  {
    assert [bs[0], bs[1], bs[2]] == bs;
    ThreeBytesRoundTrip(bs[0], bs[1], bs[2]);
  }

  /** More than three bytes encode as a full block followed by the rest. */
  lemma EncodeCons(bs: seq<uint8>, t: string)
    requires |bs| > 3 && t == Encode(bs[3..])
    ensures Encode(bs) == EncodeBlock(bs[0], bs[1], bs[2]) + t && |t| > 0
  {
  }

  /** A leading block in front of a tail that already round-trips. */
  lemma LongRoundTrip(bs: seq<uint8>, t: string)
    requires |bs| > 3 && t == Encode(bs[3..]) && Decode(t) == Some(bs[3..])
    ensures Decode(Encode(bs)) == Some(bs)
  {
    EncodeCons(bs, t);
    BlockThenTail(bs[0], bs[1], bs[2], t, bs[3..]);
    assert [bs[0], bs[1], bs[2]] + bs[3..] == bs;
  }

  /** Decoding inverts encoding for every byte sequence. */
  lemma {:induction false} DecodeEncode(bs: seq<uint8>)
    ensures Decode(Encode(bs)) == Some(bs)
    decreases |bs|
  {
    if |bs| <= 3 {
      ShortRoundTrip(bs);
    } else {
      DecodeEncode(bs[3..]);
      LongRoundTrip(bs, Encode(bs[3..]));
    }
  }

  /** Every character of an encoding is an alphabet character or '='; in
      particular the encoding is ASCII. */
  lemma {:induction false} EncodeIsAscii(bs: seq<uint8>)
    ensures forall i :: 0 <= i < |Encode(bs)| ==> IsAlphabet(Encode(bs)[i]) || Encode(bs)[i] == '='
    ensures forall i :: 0 <= i < |Encode(bs)| ==> Encode(bs)[i] as int < 128
    decreases |bs|
  {
    if |bs| > 2 {
      EncodeIsAscii(bs[3..]);
      var b0, b1, b2 := bs[0], bs[1], bs[2];
      ValueOfSextet(b0 / 4); ValueOfSextet((b0 % 4) * 16 + b1 / 16);
      ValueOfSextet((b1 % 16) * 4 + b2 / 64); ValueOfSextet(b2 % 64);
    } else if |bs| > 0 {
      ValueOfSextet(bs[0] / 4); ValueOfSextet((bs[0] % 4) * 16);
      if |bs| == 2 {
        ValueOfSextet((bs[0] % 4) * 16 + bs[1] / 16); ValueOfSextet((bs[1] % 16) * 4);
      }
    }
  }
}
