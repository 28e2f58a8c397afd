/** The on-disk format of an environment image: inodes one after the other, each a
    header, a padded name, a trailer with the mode, and padded contents. */
module EnvFormat {
  import opened Arithmetic
  import opened Octets

  const INODE_MAGIC := 0x67a8c78d
  const INODE_END_MAGIC := 0x68a8c78d
  const MODE_RWX := 0x1ff      // S_IRWXU | S_IRWXG | S_IRWXO
  const MODE_LINK := 0xa1ff    // the same with S_IFLNK
  const HEADER := 12           // sizeof(struct envfs_inode)
  const TRAILER := 8           // sizeof(struct envfs_inode_end)

  /** One entry of an image: a name, what is stored for it, and a mode. */
  datatype Inode = Inode(name: seq<byte>, buf: seq<byte>, mode: int)

  /** A C string: no zero byte inside. */
  ghost predicate CString(s: seq<byte>) {
    forall i | 0 <= i < |s| :: s[i] != 0
  }

  predicate IsLink(mode: int) {
    mode / 4096 % 16 == 10
  }

  /** A link is told by bits 12 to 15 of the mode alone. */
  lemma LinkMode(high: nat, kind: nat, low: nat)
    requires kind < 16 && low < 4096
    ensures IsLink(65536 * high + 4096 * kind + low) <==> kind == 10
  {
    var mode := 65536 * high + 4096 * kind + low;
    assert mode / 4096 == 16 * high + kind;
  }

  /** What the format can hold. */
  ghost predicate Storable(e: Inode) {
    CString(e.name) && Pad4(|e.name| + 1) + TRAILER < W32 && |e.buf| < W32 && 0 <= e.mode < W32
  }

  function EncodeInode(e: Inode): (r: seq<byte>)
    requires Storable(e)
    ensures |r| == InodeSize(e)
  {
    Head(|e.buf|, Pad4(|e.name| + 1) + TRAILER) + Padded(e.name + [0]) + Trail(e.mode) + Padded(e.buf)
  }

  function Head(size: int, headerlen: int): (r: seq<byte>)
    requires 0 <= size < W32 && 0 <= headerlen < W32
    ensures |r| == HEADER
  {
    Le32(INODE_MAGIC) + Le32(size) + Le32(headerlen)
  }

  function Trail(mode: int): (r: seq<byte>)
    requires 0 <= mode < W32
    ensures |r| == TRAILER
  {
    Le32(INODE_END_MAGIC) + Le32(mode)
  }

  /** The size the first pass of envfs_save computes for an entry. */
  function InodeSize(e: Inode): (n: int)
    ensures 24 <= n
  {
    Pad4(|e.buf|) + HEADER + Pad4(|e.name| + 1) + TRAILER
  }

  function Encode(es: seq<Inode>): (r: seq<byte>)
    requires forall i | 0 <= i < |es| :: Storable(es[i])
  {
    if es == [] then [] else assert Storable(es[0]); EncodeInode(es[0]) + Encode(es[1..])
  }

  // ------------------------------------------------------------------
  // Reading

  datatype Parsed = Found(e: Inode, rest: seq<byte>) | BadMagic | BadEndMagic | Truncated

  /** Length of the C string at the front, or -1 if it does not end. */
  function StrLen(s: seq<byte>): (n: int)
    ensures -1 <= n < |s|
    ensures 0 <= n ==> s[n] == 0 && CString(s[..n])
    ensures n == -1 ==> CString(s)
  {
    if s == [] then -1
    else if s[0] == 0 then 0
    else var n := StrLen(s[1..]);
         if n == -1 then -1 else assert s[..n + 1] == [s[0]] + s[1..][..n]; n + 1
  }

  lemma {:induction false} StrLenIs(s: seq<byte>, t: seq<byte>)
    requires CString(s)
    ensures StrLen(s + [0] + t) == |s|
  {
    if s == [] {
      assert s + [0] + t == [0] + t;
    } else {
      assert (s + [0] + t)[1..] == s[1..] + [0] + t;
      StrLenIs(s[1..], t);
    }
  }

  /** The target of a link: the C string at the front of the stored bytes, or all of them
      when the string ends in the padding. */
  function LinkTarget(buf: seq<byte>): (r: seq<byte>)
    ensures CString(r)
  {
    var n := StrLen(buf);
    if n == -1 then buf else buf[..n]
  }

  /** Whether the string ends in the stored bytes or the padding behind them. */
  predicate Terminated(buf: seq<byte>) {
    StrLen(buf) != -1 || |buf| % 4 != 0
  }

  /** One round of the decoder's loop up to where it acts on the entry.  `legacy`
      images (major version 0) have no trailer.  Where the original would read past
      the end of the image, or of a link's padding, the result is Truncated. */
  function ParseInode(buf: seq<byte>, legacy: bool): (p: Parsed)
    ensures p.Found? ==> |p.rest| < |buf|
  {
    if |buf| < HEADER then Truncated else
    if FromLe32(buf[0..4]) != INODE_MAGIC then BadMagic else
    ParseBody(buf[HEADER..], FromLe32(buf[4..8]), FromLe32(buf[8..12]), legacy)
  }

  function ParseBody(body: seq<byte>, size: int, headerlen: int, legacy: bool): (p: Parsed)
    requires 0 <= size && 0 <= headerlen
    ensures p.Found? ==> |p.rest| <= |body|
  {
    var namelen := StrLen(body);
    if namelen == -1 then Truncated else
    var at := Pad4(namelen + 1);
    if !legacy && |body| < at + TRAILER then Truncated else
    var end := if legacy then INODE_END_MAGIC else FromLe32(body[at..at + 4]);
    var mode := if legacy then MODE_RWX else FromLe32(body[at + 4..at + 8]);
    if end != INODE_END_MAGIC then BadEndMagic else
    var full := Pad4(headerlen);
    if |body| < full + Pad4(size) then Truncated else
    var data := body[full..];
    if IsLink(mode) && RunsOn(data, size) then Truncated else
    Found(Inode(body[..namelen], data[..size], mode), data[Pad4(size)..])
  }

  /** A string of `size` bytes that does not end in the padding behind them. */
  predicate RunsOn(data: seq<byte>, size: int)
    requires 0 <= size && Pad4(size) <= |data|
  {
    size % 4 != 0 && data[size] != 0 && StrLen(data[..size]) == -1
  }

  lemma HeadFields(size: int, headerlen: int, rest: seq<byte>)
    requires 0 <= size < W32 && 0 <= headerlen < W32
    ensures var buf := Head(size, headerlen) + rest;
            && FromLe32(buf[0..4]) == INODE_MAGIC && FromLe32(buf[4..8]) == size && FromLe32(buf[8..12]) == headerlen
            && buf[HEADER..] == rest
  {
    var buf := Head(size, headerlen) + rest;
    assert buf[0..4] == Le32(INODE_MAGIC) && buf[4..8] == Le32(size) && buf[8..12] == Le32(headerlen);
    Le32RoundTrip(INODE_MAGIC);
    Le32RoundTrip(size);
    Le32RoundTrip(headerlen);
  }

  lemma TrailFields(mode: int, before: seq<byte>, rest: seq<byte>)
    requires 0 <= mode < W32
    ensures var buf := before + (Trail(mode) + rest);
            FromLe32(buf[|before|..|before| + 4]) == INODE_END_MAGIC && FromLe32(buf[|before| + 4..|before| + 8]) == mode
  {
    var buf := before + (Trail(mode) + rest);
    assert buf[|before|..|before| + 4] == Le32(INODE_END_MAGIC) && buf[|before| + 4..|before| + 8] == Le32(mode);
    Le32RoundTrip(INODE_END_MAGIC);
    Le32RoundTrip(mode);
  }

  lemma PaddedName(name: seq<byte>, rest: seq<byte>)
    requires CString(name)
    ensures StrLen(Padded(name + [0]) + rest) == |name| && (Padded(name + [0]) + rest)[..|name|] == name
  {
    var z := Zeros(Pad4(|name| + 1) - (|name| + 1));
    assert Padded(name + [0]) + rest == name + [0] + (z + rest);
    StrLenIs(name, z + rest);
  }

  lemma PaddedData(before: seq<byte>, buf: seq<byte>, rest: seq<byte>)
    ensures var all := before + (Padded(buf) + rest);
            var data := all[|before|..];
            Pad4(|buf|) <= |data| && data[..|buf|] == buf && data[Pad4(|buf|)..] == rest && !RunsOn(data, |buf|)
  {
    var all := before + (Padded(buf) + rest);
    assert all[|before|..] == Padded(buf) + rest;
  }

  lemma PadTwice(n: int)
    requires 0 <= n
    ensures Pad4(Pad4(n) + TRAILER) == Pad4(n) + TRAILER
  {
  }

  /** The fields of an encoded entry are where the decoder looks for them. */
  ghost predicate Fields(body: seq<byte>, e: Inode, rest: seq<byte>) {
    var at, n := Pad4(|e.name| + 1), |e.buf|;
    && StrLen(body) == |e.name| && body[..|e.name|] == e.name && at + TRAILER + Pad4(n) <= |body|
    && FromLe32(body[at..at + 4]) == INODE_END_MAGIC && FromLe32(body[at + 4..at + 8]) == e.mode
    && var data := body[at + TRAILER..]; data[..n] == e.buf && data[Pad4(n)..] == rest && !RunsOn(data, n)
  }

  lemma EncodedFields(e: Inode, rest: seq<byte>)
    requires Storable(e)
    ensures Fields(Padded(e.name + [0]) + (Trail(e.mode) + (Padded(e.buf) + rest)), e, rest)
  {
    hide Trail, StrLen, FromLe32, Padded, CString, IsLink, RunsOn, Pad4;
    var name, trail, data := Padded(e.name + [0]), Trail(e.mode), Padded(e.buf) + rest;
    PaddedName(e.name, trail + data);
    TrailFields(e.mode, name, data);
    PaddedData(name + trail, e.buf, rest);
    assert name + (trail + data) == (name + trail) + data;
  }

  lemma ParseFields(body: seq<byte>, e: Inode, rest: seq<byte>)
    requires Fields(body, e, rest)
    ensures ParseBody(body, |e.buf|, Pad4(|e.name| + 1) + TRAILER, false) == Found(e, rest)
  {
    hide StrLen, FromLe32, IsLink, RunsOn, Pad4;
    PadTwice(|e.name| + 1);
  }

  /** Reading what was written gives the entry back and stops right behind it. */
  lemma ParseEncoded(e: Inode, rest: seq<byte>)
    requires Storable(e)
    ensures ParseInode(EncodeInode(e) + rest, false) == Found(e, rest)
  {
    hide Head, Trail, FromLe32, Padded, CString, Pad4, ParseBody, Fields;
    var headerlen := Pad4(|e.name| + 1) + TRAILER;
    var body := Padded(e.name + [0]) + (Trail(e.mode) + (Padded(e.buf) + rest));
    assert EncodeInode(e) + rest == Head(|e.buf|, headerlen) + body;
    HeadFields(|e.buf|, headerlen, body);
    EncodedFields(e, rest);
    ParseFields(body, e, rest);
  }

  /** The bytes of an entry, field by field: magic, size and header length, the name, the
      second magic and the mode, and the contents. */
  lemma EncodedLayout(e: Inode)
    requires Storable(e)
    ensures var s, n, at := EncodeInode(e), |e.name|, 12 + Pad4(|e.name| + 1);
            && |s| == at + 8 + Pad4(|e.buf|)
            && FromLe32(s[0..4]) == 0x67a8c78d && FromLe32(s[4..8]) == |e.buf| && FromLe32(s[8..12]) == Pad4(n + 1) + 8
            && s[12..12 + n] == e.name && s[12 + n] == 0
            && FromLe32(s[at..at + 4]) == 0x68a8c78d && FromLe32(s[at + 4..at + 8]) == e.mode
            && s[at + 8..at + 8 + |e.buf|] == e.buf
  {
    hide Head, Trail, FromLe32, Padded, CString, Pad4;
    var headerlen := Pad4(|e.name| + 1) + TRAILER;
    var name, trail, data := Padded(e.name + [0]), Trail(e.mode), Padded(e.buf);
    var s := EncodeInode(e);
    assert s == Head(|e.buf|, headerlen) + (name + trail + data);
    HeadFields(|e.buf|, headerlen, name + trail + data);
    TrailFields(e.mode, Head(|e.buf|, headerlen) + name, data);
    assert s == (Head(|e.buf|, headerlen) + name) + (trail + data);
    assert name[..|e.name| + 1] == e.name + [0];
    assert data[..|e.buf|] == e.buf;
  }

  /** An entry of an old image: there is no trailer, and every entry is a file. */
  function EncodeLegacy(name: seq<byte>, buf: seq<byte>): seq<byte>
    requires Pad4(|name| + 1) < W32 && |buf| < W32
  {
    Head(|buf|, Pad4(|name| + 1)) + (Padded(name + [0]) + Padded(buf))
  }

  lemma ParseLegacy(name: seq<byte>, buf: seq<byte>, rest: seq<byte>)
    requires CString(name) && Pad4(|name| + 1) < W32 && |buf| < W32
    ensures ParseInode(EncodeLegacy(name, buf) + rest, true) == Found(Inode(name, buf, 0x1ff), rest)
  {
    hide Head, FromLe32, Padded, CString, Pad4, StrLen, RunsOn;
    var front, data := Padded(name + [0]), Padded(buf) + rest;
    assert EncodeLegacy(name, buf) + rest == Head(|buf|, Pad4(|name| + 1)) + (front + data);
    HeadFields(|buf|, Pad4(|name| + 1), front + data);
    PaddedName(name, data);
    PaddedData(front, buf, rest);
    PadPadded(|name| + 1);
  }

  lemma PadPadded(n: int)
    requires 0 <= n
    ensures Pad4(Pad4(n)) == Pad4(n)
  {
  }

  /** Where a magic is wrong, the entry is not read. */
  lemma WrongMagic(buf: seq<byte>, legacy: bool)
    requires HEADER <= |buf|
    ensures FromLe32(buf[0..4]) != 0x67a8c78d ==> ParseInode(buf, legacy) == BadMagic
  {
  }

  lemma WrongEndMagic(buf: seq<byte>)
    requires HEADER <= |buf| && FromLe32(buf[0..4]) == 0x67a8c78d
    ensures var n := StrLen(buf[12..]);
            0 <= n && 12 + Pad4(n + 1) + 8 <= |buf| && FromLe32(buf[12 + Pad4(n + 1)..12 + Pad4(n + 1) + 4]) != 0x68a8c78d ==>
              ParseInode(buf, false) == BadEndMagic
  {
    hide StrLen, FromLe32, Pad4;
    var n := StrLen(buf[12..]);
    if 0 <= n && 12 + Pad4(n + 1) + 8 <= |buf| {
      assert buf[12..][Pad4(n + 1)..Pad4(n + 1) + 4] == buf[12 + Pad4(n + 1)..12 + Pad4(n + 1) + 4];
    }
  }
}
