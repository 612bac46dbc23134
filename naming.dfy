/**
 * Destination naming (source.go, `uniqueDestination` and `uniqueDir`).
 *
 * A remote source is fetched into `root/subdir/token`, where the token is the
 * first nine characters of the lower-case hexadecimal spelling of a SHA-224
 * digest (FIPS 180-4) of `url + "/" + now`. The digest itself and the clock are
 * outside the model: the digest is a parameter, any function from strings to
 * 28 octets, and `now` is the clock's text.
 */
module Naming {
  import opened Wrappers
  import opened Paths

  const HexDigits: string := "0123456789abcdef"

  /** Length of the token `uniqueDir` keeps. */
  const TokenLength: nat := 9

  /** A SHA-224 digest: 28 octets. */
  type Digest224 = d: seq<byte> | |d| == 28 witness seq(28, i => 0)

  function HexByte(b: byte): string
  {
    [HexDigits[b / 16], HexDigits[b % 16]]
  }

  /** Lower-case hexadecimal, two digits per octet, as Go's `%x` verb prints a byte array. */
  function Hex(bs: seq<byte>): (h: string)
    ensures |h| == 2 * |bs|
    ensures forall i | 0 <= i < |h| :: h[i] in HexDigits
  {
    if bs == [] then "" else HexByte(bs[0]) + Hex(bs[1..])
  }

  /** The value of one hexadecimal digit, if `c` is one. */
  function HexValue(c: char): Option<int>
  {
    if '0' <= c <= '9' then Some(c as int - '0' as int)
    else if 'a' <= c <= 'f' then Some(c as int - 'a' as int + 10)
    else None
  }

  /** Reads back octets from lower-case hexadecimal; `None` for odd length or a non-digit. */
  function UnHex(h: string): Option<seq<byte>>
  {
    if h == [] then Some([])
    else if |h| == 1 then None
    else match (HexValue(h[0]), HexValue(h[1]), UnHex(h[2..]))
      case (Some(hi), Some(lo), Some(rest)) => Some([hi * 16 + lo] + rest)
      case _ => None
  }

  lemma HexValueOfDigit(k: int)
    requires 0 <= k < 16
    ensures HexValue(HexDigits[k]) == Some(k)
  {
  }

  /** The two digits of one octet read back as that octet. */
  lemma HexByteRoundTrip(b: byte)
    ensures HexValue(HexByte(b)[0]).Some? && HexValue(HexByte(b)[1]).Some?
    ensures HexValue(HexByte(b)[0]).value * 16 + HexValue(HexByte(b)[1]).value == b
  {
    HexValueOfDigit(b / 16);
    HexValueOfDigit(b % 16);
  }

  /** Reading two digits of `b` in front of the hex of `tail`. */
  lemma UnHexCons(digits: string, rest: string, b: byte, tail: seq<byte>)
    requires |digits| == 2 && HexValue(digits[0]).Some? && HexValue(digits[1]).Some?
    requires HexValue(digits[0]).value * 16 + HexValue(digits[1]).value == b
    requires UnHex(rest) == Some(tail)
    ensures UnHex(digits + rest) == Some([b] + tail)
  {
    var h := digits + rest;
    assert h[0] == digits[0] && h[1] == digits[1] && h[2..] == rest;
  }

  /** `UnHex` is the inverse of `Hex`. */
  lemma {:induction false} HexRoundTrip(bs: seq<byte>)
    ensures UnHex(Hex(bs)) == Some(bs)
  {
    if bs != [] {
      assert Hex(bs) == HexByte(bs[0]) + Hex(bs[1..]);
      HexByteRoundTrip(bs[0]);
      HexRoundTrip(bs[1..]);
      UnHexCons(HexByte(bs[0]), Hex(bs[1..]), bs[0], bs[1..]);
      assert [bs[0]] + bs[1..] == bs;
    }
  }

  /** Hex of a prefix is the prefix of the hex. */
  lemma {:induction false} HexPrefix(bs: seq<byte>, n: nat)
    requires n <= |bs|
    ensures Hex(bs[..n]) == Hex(bs)[..2 * n]
  {
    if n > 0 {
      assert bs[..n][0] == bs[0];
      assert bs[..n][1..] == bs[1..][..n - 1];
      HexPrefix(bs[1..], n - 1);
    }
  }

  /** Go's `uniqueDir`: nine hexadecimal digits of the digest of `input + "/" + now`. */
  function UniqueDir(digest: string -> Digest224, input: string, now: string): (token: string)
    ensures |token| == TokenLength
    ensures forall i | 0 <= i < |token| :: token[i] in HexDigits
    ensures |Hex(digest(input + "/" + now))| == 56
    ensures token <= Hex(digest(input + "/" + now))
  {
    Hex(digest(input + "/" + now))[..TokenLength]
  }

  /** The token fixes the first four octets of the digest it was cut from. */
  lemma TokenDeterminesDigestPrefix(digest: string -> Digest224, input: string, now: string)
    ensures UnHex(UniqueDir(digest, input, now)[..8]) == Some(digest(input + "/" + now)[..4])
  {
    var d := digest(input + "/" + now);
    var token := UniqueDir(digest, input, now);
    assert token[..8] == Hex(d)[..8];
    HexPrefix(d, 4);
    HexRoundTrip(d[..4]);
  }

  /** A token is a single plain path element: path cleaning never alters it. */
  lemma TokenIsPlainName(digest: string -> Digest224, input: string, now: string)
    ensures PlainName(UniqueDir(digest, input, now))
  {
    var token := UniqueDir(digest, input, now);
    assert forall i | 0 <= i < |token| :: token[i] != '/';
  }

  /** Go's `uniqueDestination`: `path.Join(root, subdir, uniqueDir(url))`. */
  function UniqueDestination(digest: string -> Digest224, root: string, subdir: string,
                             url: string, now: string): string
  {
    Join([root, subdir, UniqueDir(digest, url, now)])
  }

  /** The directory a destination under `root/subdir` lives in. */
  function ParentDir(root: string, subdir: string): string
  {
    if root == "" && subdir == "" then "." else Join([root, subdir])
  }

  /** The parent of a destination is `root/subdir`, whatever the url and the clock. */
  lemma ParentOfUniqueDestination(digest: string -> Digest224, root: string, subdir: string,
                                  url: string, now: string)
    ensures Dir(UniqueDestination(digest, root, subdir, url, now)) == ParentDir(root, subdir)
  {
    TokenIsPlainName(digest, url, now);
    JoinParent(root, subdir, UniqueDir(digest, url, now));
  }

  /** Two destinations under the same root and subdirectory share their parent. */
  lemma SameParent(digest: string -> Digest224, root: string, subdir: string,
                   url1: string, now1: string, url2: string, now2: string)
    ensures Dir(UniqueDestination(digest, root, subdir, url1, now1))
         == Dir(UniqueDestination(digest, root, subdir, url2, now2))
  {
    ParentOfUniqueDestination(digest, root, subdir, url1, now1);
    ParentOfUniqueDestination(digest, root, subdir, url2, now2);
  }
}
