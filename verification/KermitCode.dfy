/** Control prefixing as in section 6.4 of the Kermit Protocol Manual, and the streaming
    translation back. */
module KermitCode {
  import opened Octets

  const HASH: byte := 0x23

  /** ktrans: what a character stands for after the prefix. */
  function Ktrans(c: byte): byte {
    if c / 32 % 4 == 2 then c - 64
    else if c % 128 == 63 then c + 64
    else c
  }

  /** After the prefix, the columns of letters stand for control characters, the question
      mark for DEL, and everything else for itself, whatever the eighth bit is. */
  lemma KtransIs(c: byte)
    ensures 64 <= c % 128 <= 95 ==> Ktrans(c) % 128 == c % 128 - 64
    ensures c % 128 == 63 ==> Ktrans(c) % 128 == 127
    ensures !(63 <= c % 128 <= 95) ==> Ktrans(c) == c
    ensures Ktrans(c) / 128 == c / 128
  {
  }

  // ------------------------------------------------------------------
  // The sender

  /** Characters of the control range, with or without the eighth bit. */
  predicate Control(c: byte) {
    c % 128 < 32 || c % 128 == 127
  }

  /** The character with bit 6 inverted. */
  function Ctl(c: byte): byte {
    if c / 64 % 2 == 1 then c - 64 else c + 64
  }

  /** These come through when they are sent after themselves. */
  predicate Usable(q: byte) {
    !(63 <= q % 128 <= 95)
  }

  function EncodeByte(c: byte, q: byte): seq<byte> {
    if Control(c) then [q, Ctl(c)]
    else if c % 128 == q % 128 then [q, c]
    else [c]
  }

  /** The control characters and DEL, with or without the eighth bit, are sent after the
      prefix with bit 6 inverted; the prefix is sent after itself; all else is sent as it is. */
  lemma EncodedByte(c: byte, q: byte)
    ensures c % 128 < 32 ==> EncodeByte(c, q) == [q, c + 64]
    ensures c % 128 == 127 ==> EncodeByte(c, q) == [q, c - 64]
    ensures 32 <= c % 128 < 127 && c % 128 == q % 128 ==> EncodeByte(c, q) == [q, c]
    ensures 32 <= c % 128 < 127 && c % 128 != q % 128 ==> EncodeByte(c, q) == [c]
  {
  }

  function Encode(data: seq<byte>, q: byte): seq<byte> {
    if data == [] then [] else EncodeByte(data[0], q) + Encode(data[1..], q)
  }

  // ------------------------------------------------------------------
  // The receiver

  /** One call of k_data_char: what it passes on, and whether a prefix is pending. */
  function KDataChar(escape: bool, q: byte, c: byte): (seq<byte>, bool) {
    if escape then ([Ktrans(c)], false)
    else if c == q then ([], true)
    else ([c], false)
  }

  function Unescape(escape: bool, q: byte, s: seq<byte>): (seq<byte>, bool)
    decreases s
  {
    if s == [] then ([], escape)
    else
      var (front, e) := Unescape(escape, q, s[..|s| - 1]);
      var (d, e') := KDataChar(e, q, s[|s| - 1]);
      (front + d, e')
  }

  /** The translation goes on where it left off. */
  lemma {:induction false} UnescapeJoin(escape: bool, q: byte, a: seq<byte>, b: seq<byte>)
    ensures var (d1, e1) := Unescape(escape, q, a);
            var (d2, e2) := Unescape(e1, q, b);
            Unescape(escape, q, a + b) == (d1 + d2, e2)
    decreases b
  {
    if b == [] {
      assert a + b == a;
      assert Unescape(escape, q, a).0 + [] == Unescape(escape, q, a).0;
    } else {
      hide KDataChar;
      var n := |b| - 1;
      UnescapeJoin(escape, q, a, b[..n]);
      assert (a + b)[..|a| + n] == a + b[..n];
      var (d1, e1) := Unescape(escape, q, a);
      var (d2, e2) := Unescape(e1, q, b[..n]);
      var (d, e) := KDataChar(e2, q, b[n]);
      assert d1 + d2 + d == d1 + (d2 + d);
    }
  }

  lemma UnescapeOne(escape: bool, q: byte, c: byte)
    ensures Unescape(escape, q, [c]) == KDataChar(escape, q, c)
  {
    assert [c][..0] == [];
    assert Unescape(escape, q, []) == ([], escape);
    assert [] + KDataChar(escape, q, c).0 == KDataChar(escape, q, c).0;
  }

  lemma UnescapePrefixed(q: byte, c: byte)
    ensures Unescape(false, q, [q, c]) == ([Ktrans(c)], false)
  {
    UnescapeOne(false, q, q);
    UnescapeOne(true, q, c);
    UnescapeJoin(false, q, [q], [c]);
    assert [q, c] == [q] + [c];
    assert [] + [Ktrans(c)] == [Ktrans(c)];
  }

  /** Prefixed or not, every byte comes through. */
  lemma ByteComesThrough(c: byte, q: byte)
    requires Usable(q)
    ensures Unescape(false, q, EncodeByte(c, q)) == ([c], false)
  {
    if Control(c) {
      UnescapePrefixed(q, Ctl(c));
      CtlUndone(c);
    } else if c % 128 == q % 128 {
      UnescapePrefixed(q, c);
    } else {
      UnescapeOne(false, q, c);
    }
  }

  lemma CtlUndone(c: byte)
    requires Control(c)
    ensures Ktrans(Ctl(c)) == c
  {
  }

  /** The whole stream comes through. */
  lemma {:induction false} StreamComesThrough(data: seq<byte>, q: byte)
    requires Usable(q)
    ensures Unescape(false, q, Encode(data, q)) == (data, false)
  {
    if data != [] {
      ByteComesThrough(data[0], q);
      StreamComesThrough(data[1..], q);
      UnescapeJoin(false, q, EncodeByte(data[0], q), Encode(data[1..], q));
      assert [data[0]] + data[1..] == data;
    }
  }

  /** The sender never uses the characters the receiver rejects. */
  lemma {:induction false} EncodedPrintable(data: seq<byte>, q: byte, i: nat)
    requires (33 <= q <= 62 || 96 <= q <= 126) && i < |Encode(data, q)|
    ensures Encode(data, q)[i] >= 32
  {
    var n := |EncodeByte(data[0], q)|;
    if i >= n {
      EncodedPrintable(data[1..], q, i - n);
    }
  }

  /** Exactly those: any other prefix does not come through itself. */
  lemma {:induction false} PrefixLost(q: byte)
    requires !Usable(q)
    ensures Unescape(false, q, Encode([q], q)).0 != [q]
  {
    UnescapePrefixed(q, q);
    assert Encode([q], q) == EncodeByte(q, q) + [] == [q, q];
  }

  /** The prefixes the manual allows are usable, and nothing sent with them is rejected. */
  lemma ManualPrefix(data: seq<byte>, q: byte)
    requires 33 <= q <= 62 || 96 <= q <= 126
    ensures Unescape(false, q, Encode(data, q)) == (data, false)
    ensures forall i {:trigger Encode(data, q)[i]} | 0 <= i < |Encode(data, q)| :: Encode(data, q)[i] >= 32
  {
    hide Encode, Unescape;
    StreamComesThrough(data, q);
    forall i | 0 <= i < |Encode(data, q)| ensures Encode(data, q)[i] >= 32 {
      EncodedPrintable(data, q, i);
    }
  }
}
