/** Bytes, and 32-bit little-endian words made of them. */
module Octets {
  import opened Arithmetic

  newtype byte = x: int | 0 <= x < 256

  function Le32(x: int): (s: seq<byte>)
    requires 0 <= x < W32
    ensures |s| == 4
  {
    [(x % 256) as byte, (x / 256 % 256) as byte, (x / 65536 % 256) as byte, (x / 16777216) as byte]
  }

  function FromLe32(s: seq<byte>): (x: int)
    requires |s| == 4
    ensures 0 <= x < W32
  {
    s[0] as int + 256 * (s[1] as int) + 65536 * (s[2] as int) + 16777216 * (s[3] as int)
  }

  lemma {:induction false} Le32RoundTrip(x: int)
    requires 0 <= x < W32
    ensures FromLe32(Le32(x)) == x
  {
    var a := x / 256;
    var b := a / 256;
    assert x / 65536 == b && x / 16777216 == b / 256;
  }

  /** The lowest byte comes first. */
  lemma LowestFirst(s: seq<byte>)
    requires |s| == 4
    ensures var x := FromLe32(s);
            x % 256 == s[0] as int && x / 256 % 256 == s[1] as int && x / 65536 % 256 == s[2] as int && x / 16777216 == s[3] as int
  {
    var d := s[3] as int;
    var c := s[2] as int + 256 * d;
    var b := s[1] as int + 256 * c;
    var x := FromLe32(s);
    assert x == s[0] as int + 256 * b;
    assert x / 256 == b && b / 256 == c && c / 256 == d;
    assert x / 65536 == c && x / 16777216 == d;
  }

  function Zeros(n: int): (z: seq<byte>)
    requires 0 <= n
    ensures |z| == n && forall i | 0 <= i < n :: z[i] == 0
  {
    seq(n, i => 0)
  }

  /** PAD4: the next multiple of four. */
  function Pad4(n: int): (p: int)
    requires 0 <= n
    ensures n <= p < n + 4
  {
    (n + 3) - (n + 3) % 4
  }

  lemma PadMultiple(n: int)
    requires 0 <= n
    ensures Pad4(n) % 4 == 0
  {
  }

  function Padded(s: seq<byte>): (p: seq<byte>)
    ensures |p| == Pad4(|s|) && s <= p
  {
    s + Zeros(Pad4(|s|) - |s|)
  }

  /** `s` with `d` written over it from `at` on. */
  function Overwrite(s: seq<byte>, at: int, d: seq<byte>): (r: seq<byte>)
    requires 0 <= at && at + |d| <= |s|
    ensures |r| == |s|
  {
    s[..at] + d + s[at + |d|..]
  }

  lemma OverwriteJoin(s: seq<byte>, at: int, d: seq<byte>, e: seq<byte>)
    requires 0 <= at && at + |d| + |e| <= |s|
    ensures Overwrite(Overwrite(s, at, d), at + |d|, e) == Overwrite(s, at, d + e)
  {
  }
}
