/** Small value types shared by every module of the resolver model. */
module Wrappers {

  /** A value that may be absent; `None` also stands for Go's `nil` error. */
  datatype Option<+T> = None | Some(value: T)

  /** One octet, as in Go's `[]byte`. */
  type byte = b: int | 0 <= b < 256

  /** The octets of an ASCII string (Go's `[]byte(s)` for ASCII text). */
  function AsciiBytes(s: string): (bs: seq<byte>)
    requires forall i | 0 <= i < |s| :: s[i] as int < 128
    ensures |bs| == |s|
    ensures forall i | 0 <= i < |s| :: bs[i] == s[i] as int
  {
    seq(|s|, i requires 0 <= i < |s| => s[i] as int)
  }
}
