/**
 * Standard base64 with padding (section 4 of RFC 4648), used by inline data
 * to name itself as a `data:` URI (RFC 2397) in `PolicyUrl()`. Decoding is
 * not part of the resolver; it is here as the inverse the encoding is
 * checked against.
 */
module Base64 {
  import opened Wrappers

  /** A 6-bit value, the index of one base64 character. */
  type sextet = i: int | 0 <= i < 64

  /** The base64 alphabet: A-Z, a-z, 0-9, '+', '/'. */
  function Char(i: sextet): char
  {
    if i < 26 then ('A' as int + i) as char
    else if i < 52 then ('a' as int + (i - 26)) as char
    else if i < 62 then ('0' as int + (i - 52)) as char
    else if i == 62 then '+'
    else '/'
  }

  function Index(c: char): Option<sextet>
  {
    if 'A' <= c <= 'Z' then Some(c as int - 'A' as int)
    else if 'a' <= c <= 'z' then Some(c as int - 'a' as int + 26)
    else if '0' <= c <= '9' then Some(c as int - '0' as int + 52)
    else if c == '+' then Some(62)
    else if c == '/' then Some(63)
    else None
  }

  lemma IndexOfChar(i: sextet)
    ensures Index(Char(i)) == Some(i) && Char(i) != '='
  {
  }

  /** Three octets as four characters. */
  function Quad(b0: byte, b1: byte, b2: byte): string
  {
    [Char(b0 / 4), Char(b0 % 4 * 16 + b1 / 16), Char(b1 % 16 * 4 + b2 / 64), Char(b2 % 64)]
  }

  /** The last two octets, padded with one '='. */
  function Pair(b0: byte, b1: byte): string
  {
    [Char(b0 / 4), Char(b0 % 4 * 16 + b1 / 16), Char(b1 % 16 * 4), '=']
  }

  /** The last single octet, padded with two '='. */
  function Single(b0: byte): string
  {
    [Char(b0 / 4), Char(b0 % 4 * 16), '=', '=']
  }

  /** Go's `base64.StdEncoding.EncodeToString`. */
  function Encode(bs: seq<byte>): string
    decreases |bs|
  {
    if |bs| == 0 then ""
    else if |bs| == 1 then Single(bs[0])
    else if |bs| == 2 then Pair(bs[0], bs[1])
    else Quad(bs[0], bs[1], bs[2]) + Encode(bs[3..])
  }

  /** Reads padded standard base64 back into octets; `None` for text that is not. */
  function Decode(s: string): Option<seq<byte>>
    decreases |s|
  {
    if |s| == 0 then Some([])
    else if |s| < 4 || Index(s[0]).None? || Index(s[1]).None? then None
    else
      var c0, c1 := Index(s[0]).value, Index(s[1]).value;
      var b0: byte := c0 * 4 + c1 / 16;
      if |s| == 4 && s[2] == '=' && s[3] == '=' then Some([b0])
      else if Index(s[2]).None? then None
      else
        var c2 := Index(s[2]).value;
        var b1: byte := c1 % 16 * 16 + c2 / 4;
        if |s| == 4 && s[3] == '=' then Some([b0, b1])
        else if Index(s[3]).None? then None
        else
          var b2: byte := c2 % 4 * 64 + Index(s[3]).value;
          match Decode(s[4..])
          case Some(rest) => Some([b0, b1, b2] + rest)
          case None => None
  }

  /** Standard padded base64 has four characters per started group of three octets. */
  lemma {:induction false} EncodeLength(bs: seq<byte>)
    ensures |Encode(bs)| == 4 * ((|bs| + 2) / 3)
    decreases |bs|
  {
    if |bs| > 2 {
      EncodeLength(bs[3..]);
      assert (|bs| + 2) / 3 == (|bs[3..]| + 2) / 3 + 1;
    }
  }

  lemma DecodeSingle(b0: byte)
    ensures Decode(Single(b0)) == Some([b0])
  {
    var c0, c1 := b0 / 4, b0 % 4 * 16;
    IndexOfChar(c0);
    IndexOfChar(c1);
    var s := Single(b0);
    assert s[0] == Char(c0) && s[1] == Char(c1) && s[2] == '=' && s[3] == '=';
    assert c0 * 4 + c1 / 16 == b0;
  }

  lemma DecodePair(b0: byte, b1: byte)
    ensures Decode(Pair(b0, b1)) == Some([b0, b1])
  {
    var c0, c1, c2 := b0 / 4, b0 % 4 * 16 + b1 / 16, b1 % 16 * 4;
    IndexOfChar(c0);
    IndexOfChar(c1);
    IndexOfChar(c2);
    var s := Pair(b0, b1);
    assert s[0] == Char(c0) && s[1] == Char(c1) && s[2] == Char(c2) && s[3] == '=';
    assert c0 * 4 + c1 / 16 == b0;
    assert c1 % 16 * 16 + c2 / 4 == b1;
  }

  /** The sextets of three octets put back together give the octets. */
  lemma QuadArithmetic(b0: byte, b1: byte, b2: byte)
    ensures (b0 / 4) * 4 + (b0 % 4 * 16 + b1 / 16) / 16 == b0
    ensures (b0 % 4 * 16 + b1 / 16) % 16 * 16 + (b1 % 16 * 4 + b2 / 64) / 4 == b1
    ensures (b1 % 16 * 4 + b2 / 64) % 4 * 64 + b2 % 64 == b2
  {
  }

  /** How `Decode` reads a full group of four characters. */
  lemma DecodeFullGroup(s: string, c0: sextet, c1: sextet, c2: sextet, c3: sextet)
    requires |s| >= 4
    requires Index(s[0]) == Some(c0) && Index(s[1]) == Some(c1)
    requires Index(s[2]) == Some(c2) && Index(s[3]) == Some(c3)
    ensures Decode(s) == match Decode(s[4..])
                         case Some(rest) =>
                           Some([c0 * 4 + c1 / 16, c1 % 16 * 16 + c2 / 4, c2 % 4 * 64 + c3] + rest)
                         case None => None
  {
  }

  lemma DecodeQuad(b0: byte, b1: byte, b2: byte, rest: string, tail: seq<byte>)
    requires Decode(rest) == Some(tail)
    ensures Decode(Quad(b0, b1, b2) + rest) == Some([b0, b1, b2] + tail)
  {
    var s := Quad(b0, b1, b2) + rest;
    var c0, c1, c2, c3 := b0 / 4, b0 % 4 * 16 + b1 / 16, b1 % 16 * 4 + b2 / 64, b2 % 64;
    IndexOfChar(c0);
    IndexOfChar(c1);
    IndexOfChar(c2);
    IndexOfChar(c3);
    assert s[0] == Char(c0) && s[1] == Char(c1) && s[2] == Char(c2) && s[3] == Char(c3);
    assert s[4..] == rest;
    DecodeFullGroup(s, c0, c1, c2, c3);
    QuadArithmetic(b0, b1, b2);
  }

  /** The last group of one or two octets decodes back. */
  lemma RoundTripShort(bs: seq<byte>)
    requires 1 <= |bs| <= 2
    ensures Decode(Encode(bs)) == Some(bs)
  {
    if |bs| == 1 {
      DecodeSingle(bs[0]);
      assert [bs[0]] == bs;
    } else {
      DecodePair(bs[0], bs[1]);
      assert [bs[0], bs[1]] == bs;
    }
  }

  /** A full group of three octets decodes back in front of what follows. */
  lemma RoundTripGroup(bs: seq<byte>)
    requires |bs| > 2 && Decode(Encode(bs[3..])) == Some(bs[3..])
    ensures Decode(Encode(bs)) == Some(bs)
  {
    var tail := bs[3..];
    var rest := Encode(tail);
    assert Encode(bs) == Quad(bs[0], bs[1], bs[2]) + rest;
    DecodeQuad(bs[0], bs[1], bs[2], rest, tail);
    assert [bs[0], bs[1], bs[2]] + tail == bs;
  }

  /** Decoding undoes encoding. */
  lemma {:induction false} RoundTrip(bs: seq<byte>)
    ensures Decode(Encode(bs)) == Some(bs)
    decreases |bs|
  {
    if 1 <= |bs| <= 2 {
      RoundTripShort(bs);
    } else if |bs| > 2 {
      RoundTrip(bs[3..]);
      RoundTripGroup(bs);
    }
  }
}
