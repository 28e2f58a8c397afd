/** Environment images: envfs_save writes one in two passes, envfs_load reads it and
    replays its entries on a tree. */
module EnvImage {
  import opened Octets
  import opened EnvFormat
  import opened EnvTree

  const MAGIC := 0x798fba79
  const MAJOR: byte := 1
  const MINOR: byte := 0
  const SUPER := 28

  type u32 = x: int | 0 <= x < 0x1_0000_0000

  /** The checksum is any function of the bytes it covers. */
  type Crc = seq<byte> -> u32

  /** The superblock without its own checksum: magic, priority, data checksum, data
      size, version, a reserved field and flags. */
  function SuperFront(size: u32, flags: u32, crc: u32): (r: seq<byte>)
    ensures |r| == SUPER - 4
  {
    Le32(MAGIC) + Le32(0) + Le32(crc) + Le32(size) + [MAJOR, MINOR, 0, 0] + Le32(flags)
  }

  function Superblock(size: u32, flags: u32, data: seq<byte>, crc: Crc): (r: seq<byte>)
    ensures |r| == SUPER
  {
    var front := SuperFront(size, flags, crc(data));
    front + Le32(crc(front))
  }

  predicate ForceBuiltIn(flags: u32) { flags % 2 == 1 }

  /** What fits: every entry, and the size of all. */
  ghost predicate AllStorable(es: seq<Inode>) {
    (forall i | 0 <= i < |es| :: Storable(es[i])) && |Encode(es)| < 0x8000_0000
  }

  /** The image envfs_save writes. */
  ghost function Image(es: seq<Inode>, flags: u32, crc: Crc): (r: seq<byte>)
    requires AllStorable(es)
  {
    var data := if ForceBuiltIn(flags) then [] else Encode(es);
    Superblock(|data|, flags, data, crc) + data
  }

  // ------------------------------------------------------------------
  // Saving

  lemma {:induction false} EncodeSplit(es: seq<Inode>, k: int)
    requires 0 <= k <= |es| && forall i | 0 <= i < |es| :: Storable(es[i])
    ensures Encode(es) == Encode(es[..k]) + Encode(es[k..])
    decreases k
  {
    hide EncodeInode, Storable;
    if k == 0 {
      assert es[..0] == [] && es[0..] == es;
    } else {
      var e, a, b := es[0], es[..k], es[k..];
      assert Storable(e);
      EncodeSplit(es[1..], k - 1);
      assert a[1..] == es[1..][..k - 1] && es[1..][k - 1..] == b && a[0] == e;
      assert Encode(es) == EncodeInode(e) + (Encode(a[1..]) + Encode(b));
    }
  }

  lemma EncodeNext(es: seq<Inode>, k: int)
    requires 0 <= k < |es| && forall i | 0 <= i < |es| :: Storable(es[i])
    ensures Storable(es[k]) && Encode(es[..k + 1]) == Encode(es[..k]) + EncodeInode(es[k])
  {
    var fs := es[..k + 1];
    assert Storable(es[k]);
    EncodeSplit(fs, k);
    assert fs[..k] == es[..k] && fs[k..] == [es[k]];
    assert Encode([es[k]]) == EncodeInode(es[k]) + Encode([]) by { assert [es[k]][1..] == []; }
  }

  /** The first pass: how many bytes the entries will take. */
  method SizePass(es: seq<Inode>) returns (size: int)
    requires forall i | 0 <= i < |es| :: Storable(es[i])
    ensures size == |Encode(es)|
  {
    size := 0;
    var k := 0;
    while k < |es|
      invariant 0 <= k <= |es| && size == |Encode(es[..k])|
    {
      EncodeNext(es, k);
      size := size + InodeSize(es[k]);
      k := k + 1;
    }
    assert es[..|es|] == es;
  }

  /** Zeros need not be written where there are zeros. */
  lemma OverwriteZeros(s: seq<byte>, at: int, d: seq<byte>, n: int)
    requires 0 <= at && 0 <= n && at + |d| + n <= |s|
    requires forall x | at <= x < at + |d| + n :: s[x] == 0
    ensures Overwrite(s, at, d) == Overwrite(s, at, d + Zeros(n))
  {
  }

  /** memcpy into a buffer. */
  method Put(buf: array<byte>, at: int, d: seq<byte>)
    requires 0 <= at && at + |d| <= buf.Length
    modifies buf
    ensures buf[..] == Overwrite(old(buf[..]), at, d)
  {
    var i := 0;
    while i < |d|
      invariant 0 <= i <= |d|
      invariant forall k | 0 <= k < buf.Length :: buf[k] == if at <= k < at + i then d[k - at] else old(buf[k])
    {
      buf[at + i] := d[i];
      i := i + 1;
    }
  }

  /** The writes of envfs_save_inode into a zeroed buffer make up one encoded entry. */
  lemma InodeWrites(s: seq<byte>, w: int, e: Inode)
    requires Storable(e) && 0 <= w && w + InodeSize(e) <= |s|
    requires forall x | w <= x < w + InodeSize(e) :: s[x] == 0
    ensures var at := w + HEADER + Pad4(|e.name| + 1);
            var s1 := Overwrite(s, w, Head(|e.buf|, Pad4(|e.name| + 1) + TRAILER));
            var s2 := Overwrite(s1, w + HEADER, e.name + [0]);
            var s3 := Overwrite(s2, at, Trail(e.mode));
            Overwrite(s3, at + TRAILER, e.buf) == Overwrite(s, w, EncodeInode(e))
  {
    hide Overwrite, Head, Trail, Zeros, Pad4;
    var h, name, t := Head(|e.buf|, Pad4(|e.name| + 1) + TRAILER), e.name + [0], Trail(e.mode);
    var zn, zb := Pad4(|e.name| + 1) - (|e.name| + 1), Pad4(|e.buf|) - |e.buf|;
    OverwriteJoin(s, w, h, name);
    OverwriteZeros(s, w, h + name, zn);
    assert h + name + Zeros(zn) == h + Padded(name);
    OverwriteJoin(s, w, h + Padded(name), t);
    OverwriteJoin(s, w, h + Padded(name) + t, e.buf);
    OverwriteZeros(s, w, h + Padded(name) + t + e.buf, zb);
    assert h + Padded(name) + t + e.buf + Zeros(zb) == h + Padded(name) + t + Padded(e.buf);
  }

  /** envfs_save_inode: writes an entry at `writep` and advances it. */
  method SaveInode(buf: array<byte>, writep: int, e: Inode) returns (w: int)
    requires Storable(e) && 0 <= writep && writep + InodeSize(e) <= buf.Length
    requires forall x | writep <= x < writep + InodeSize(e) :: buf[x] == 0
    modifies buf
    ensures w == writep + InodeSize(e) && buf[..] == Overwrite(old(buf[..]), writep, EncodeInode(e))
  {
    hide Overwrite, Head, Trail, Pad4;
    var namelen := |e.name| + 1;
    ghost var s := buf[..];
    InodeWrites(s, writep, e);
    w := writep;
    Put(buf, w, Head(|e.buf|, Pad4(namelen) + TRAILER));
    w := w + HEADER;
    Put(buf, w, e.name + [0]);
    w := w + Pad4(namelen);
    Put(buf, w, Trail(e.mode));
    w := w + TRAILER;
    Put(buf, w, e.buf);
    w := w + Pad4(|e.buf|);
  }

  lemma BeyondOverwrite(s: seq<byte>, at: int, d: seq<byte>, n: int)
    requires 0 <= at && 0 <= n && at + |d| + n <= |s| && forall x | at <= x < |s| :: s[x] == 0
    ensures forall x | at + |d| <= x < at + |d| + n :: Overwrite(s, at, d)[x] == 0
  {
  }

  /** The second pass: all entries, one behind the other. */
  method SaveInodes(buf: array<byte>, from: int, es: seq<Inode>) returns (writep: int)
    requires 0 <= from && (forall i | 0 <= i < |es| :: Storable(es[i])) && buf.Length == from + |Encode(es)|
    requires forall x | from <= x < buf.Length :: buf[x] == 0
    modifies buf
    ensures writep == buf.Length && buf[..] == Overwrite(old(buf[..]), from, Encode(es))
  {
    hide Overwrite, EncodeInode, InodeSize, Encode, Storable;
    ghost var s := buf[..];
    writep := from;
    assert Encode(es[..0]) == [] && s == Overwrite(s, from, Encode(es[..0])) by { NothingWritten(s, from, es); }
    var k := 0;
    while k < |es|
      invariant 0 <= k <= |es| && writep == from + |Encode(es[..k])|
      invariant |Encode(es[..k])| <= |Encode(es)| && buf[..] == Overwrite(s, from, Encode(es[..k]))
    {
      EncodeNext(es, k);
      EncodeSplit(es, k + 1);
      BeyondOverwrite(s, from, Encode(es[..k]), InodeSize(es[k]));
      forall x | writep <= x < writep + InodeSize(es[k]) ensures buf[x] == 0 {
        assert buf[x] == buf[..][x];
      }
      writep := SaveInode(buf, writep, es[k]);
      OverwriteJoin(s, from, Encode(es[..k]), EncodeInode(es[k]));
      k := k + 1;
    }
    assert es[..|es|] == es;
  }

  lemma NothingWritten(s: seq<byte>, from: int, es: seq<Inode>)
    requires 0 <= from <= |s| && forall i | 0 <= i < |es| :: Storable(es[i])
    ensures Encode(es[..0]) == [] && Overwrite(s, from, Encode(es[..0])) == s
  {
  }

  /** envfs_save up to the finished buffer: sizes first, then the copies, then the
      checksums; the copies end exactly where the size said. */
  method Save(es: seq<Inode>, flags: u32, crc: Crc) returns (image: array<byte>)
    requires AllStorable(es)
    ensures fresh(image) && image[..] == Image(es, flags, crc)
  {
    hide EncodeInode, InodeSize, Encode, SuperFront, Storable;
    var size := 0;
    if !ForceBuiltIn(flags) {
      size := SizePass(es);
    }
    ghost var data := if ForceBuiltIn(flags) then [] else Encode(es);
    image := new byte[SUPER + size](i => 0);
    var writep := SUPER;
    if !ForceBuiltIn(flags) {
      writep := SaveInodes(image, writep, es);
    }
    assert writep == image.Length && image[SUPER..] == data;
    var front := SuperFront(size, flags, crc(image[SUPER..]));
    Put(image, 0, front);
    assert image[..SUPER - 4] == front && image[SUPER..] == data;
    Put(image, SUPER - 4, Le32(crc(image[..SUPER - 4])));
    assert image[..] == front + Le32(crc(front)) + data;
  }

  // ------------------------------------------------------------------
  // Loading

  datatype Outcome = Loaded | ReadError | Eio | Premature | OutOfBounds | WroteThroughLink | OpenError

  /** The directories that are empty at the end are removed. */
  function Pruned(f: Files): Files {
    f.(dirs := set d | d in f.dirs && IsDir(f.tree, d))
  }

  /** The loop of envfs_load_data: parse an inode, act on it, go on behind it. */
  function ReplayBytes(f: Files, buf: seq<byte>, legacy: bool, noOverwrite: bool, see: Resolver): (Files, Outcome)
    decreases |buf|
  {
    if buf == [] then (Pruned(f), Loaded) else
    match ParseInode(buf, legacy)
    case BadMagic => (f, Eio)
    case BadEndMagic => (f, Eio)
    case Truncated => (f, OutOfBounds)
    case Found(e, rest) =>
      match Apply(f, e, noOverwrite, see)
      case ThroughLink => (f, WroteThroughLink)
      case OpenFails => (f, OpenError)
      case Overrun => (f, OutOfBounds)
      case Ok(g) => ReplayBytes(g, rest, legacy, noOverwrite, see)
  }

  /** envfs_check_super */
  predicate SuperOk(image: seq<byte>, crc: Crc)
    requires SUPER <= |image|
  {
    FromLe32(image[0..4]) == MAGIC && crc(image[..SUPER - 4]) == FromLe32(image[SUPER - 4..SUPER])
  }

  /** envfs_check_data */
  predicate DataOk(image: seq<byte>, data: seq<byte>, crc: Crc)
    requires SUPER <= |image|
  {
    crc(data) == FromLe32(image[8..12])
  }

  /** envfs_load_from_buf */
  function LoadBuffer(f: Files, image: seq<byte>, noOverwrite: bool, see: Resolver, crc: Crc): (Files, Outcome) {
    if |image| < SUPER then (f, OutOfBounds) else
    if !SuperOk(image, crc) then (f, Eio) else
    var size := FromLe32(image[12..16]);
    if |image| < SUPER + size then (f, OutOfBounds) else
    var data := image[SUPER..SUPER + size];
    if !DataOk(image, data, crc) then (f, Eio) else
    ReplayBytes(f, data, image[16] < 1, noOverwrite, see)
  }

  /** defaultenv_load: the built-in images one after the other, up to the first that fails. */
  function LoadBuiltIn(f: Files, images: seq<seq<byte>>, noOverwrite: bool, see: Resolver, crc: Crc): (Files, Outcome)
    decreases images
  {
    if images == [] then (f, Loaded) else
    var r := LoadBuffer(f, images[0], noOverwrite, see, crc);
    if r.1 == Loaded then LoadBuiltIn(r.0, images[1..], noOverwrite, see, crc) else r
  }

  /** envfs_load with the image at hand and the images that are built in. */
  function LoadImage(f: Files, image: seq<byte>, builtIn: seq<seq<byte>>, noOverwrite: bool, see: Resolver, crc: Crc): (Files, Outcome) {
    if |image| < SUPER then (f, ReadError) else
    if !SuperOk(image, crc) then (f, Eio) else
    if ForceBuiltIn(FromLe32(image[20..24])) then LoadBuiltIn(f, builtIn, false, see, crc) else
    var size := FromLe32(image[12..16]);
    if |image| < SUPER + size then (f, Premature) else
    var data := image[SUPER..SUPER + size];
    if !DataOk(image, data, crc) then (f, Eio) else
    ReplayBytes(f, data, image[16] < 1, noOverwrite, see)
  }

  /** In the bytes of an image: the magic stands at its front, and the word at 24 is the
      checksum of the 24 bytes before it. */
  ghost predicate SuperIntact(image: seq<byte>, crc: Crc)
    requires 28 <= |image|
  {
    FromLe32(image[0..4]) == 0x798fba79 && FromLe32(image[24..28]) == crc(image[..24])
  }

  /** The word at 8 is the checksum of the data, whose size is the word at 12. */
  ghost predicate DataIntact(image: seq<byte>, crc: Crc)
    requires 28 <= |image| && 28 + FromLe32(image[12..16]) <= |image|
  {
    FromLe32(image[8..12]) == crc(image[28..28 + FromLe32(image[12..16])])
  }

  class Directory {
    var files: Files

    constructor (f: Files)
      ensures files == f
    {
      files := f;
    }

    /** envfs_load_data */
    method LoadData(buf: seq<byte>, legacy: bool, noOverwrite: bool, see: Resolver) returns (ret: Outcome)
      modifies this
      ensures (files, ret) == ReplayBytes(old(files), buf, legacy, noOverwrite, see)
    {
      hide ParseInode, Apply, Pruned;
      var rest := buf;
      while rest != []
        invariant ReplayBytes(files, rest, legacy, noOverwrite, see) == ReplayBytes(old(files), buf, legacy, noOverwrite, see)
        decreases |rest|
      {
        var p := ParseInode(rest, legacy);
        match p
        case BadMagic => return Eio;
        case BadEndMagic => return Eio;
        case Truncated => return OutOfBounds;
        case Found(e, tail) =>
          var a := Apply(files, e, noOverwrite, see);
          if a == ThroughLink {
            return WroteThroughLink;
          } else if a == OpenFails {
            return OpenError;
          } else if a == Overrun {
            return OutOfBounds;
          }
          files, rest := a.value, tail;
      }
      files := Pruned(files);
      return Loaded;
    }

    /** envfs_load_from_buf */
    method LoadFromBuf(image: seq<byte>, noOverwrite: bool, see: Resolver, crc: Crc) returns (ret: Outcome)
      modifies this
      ensures (files, ret) == LoadBuffer(old(files), image, noOverwrite, see, crc)
      ensures |image| < 28 ==> ret == OutOfBounds && files == old(files)
      ensures 28 <= |image| && !SuperIntact(image, crc) ==> ret == Eio && files == old(files)
      ensures 28 <= |image| && SuperIntact(image, crc) && |image| < 28 + FromLe32(image[12..16]) ==> ret == OutOfBounds && files == old(files)
      ensures 28 <= |image| && SuperIntact(image, crc) && 28 + FromLe32(image[12..16]) <= |image| ==>
        if DataIntact(image, crc) then (files, ret) == ReplayBytes(old(files), image[28..28 + FromLe32(image[12..16])], image[16] == 0, noOverwrite, see)
        else ret == Eio && files == old(files)
    {
      hide ReplayBytes;
      if |image| < SUPER {
        return OutOfBounds;
      }
      if !SuperOk(image, crc) {
        return Eio;
      }
      var size := FromLe32(image[12..16]);
      if |image| < SUPER + size {
        return OutOfBounds;
      }
      var data := image[SUPER..SUPER + size];
      if !DataOk(image, data, crc) {
        return Eio;
      }
      ret := LoadData(data, image[16] < 1, noOverwrite, see);
    }

    /** defaultenv_load */
    method DefaultenvLoad(images: seq<seq<byte>>, noOverwrite: bool, see: Resolver, crc: Crc) returns (ret: Outcome)
      modifies this
      ensures (files, ret) == LoadBuiltIn(old(files), images, noOverwrite, see, crc)
    {
      hide LoadBuffer;
      var i := 0;
      while i < |images|
        invariant 0 <= i <= |images|
        invariant LoadBuiltIn(files, images[i..], noOverwrite, see, crc) == LoadBuiltIn(old(files), images, noOverwrite, see, crc)
      {
        ret := LoadFromBuf(images[i], noOverwrite, see, crc);
        if ret != Loaded {
          return;
        }
        i := i + 1;
      }
      return Loaded;
    }

    /** envfs_load */
    method Load(image: seq<byte>, builtIn: seq<seq<byte>>, noOverwrite: bool, see: Resolver, crc: Crc) returns (ret: Outcome)
      modifies this
      ensures (files, ret) == LoadImage(old(files), image, builtIn, noOverwrite, see, crc)
      ensures |image| < 28 ==> ret == ReadError && files == old(files)
      ensures 28 <= |image| && !SuperIntact(image, crc) ==> ret == Eio && files == old(files)
      ensures 28 <= |image| && SuperIntact(image, crc) && image[20] % 2 == 1 ==>
        (files, ret) == LoadBuiltIn(old(files), builtIn, false, see, crc)
      ensures 28 <= |image| < 28 + FromLe32(image[12..16]) && SuperIntact(image, crc) && image[20] % 2 == 0 ==> ret == Premature && files == old(files)
      ensures 28 <= |image| && SuperIntact(image, crc) && image[20] % 2 == 0 && 28 + FromLe32(image[12..16]) <= |image| ==>
        if DataIntact(image, crc) then (files, ret) == ReplayBytes(old(files), image[28..28 + FromLe32(image[12..16])], image[16] == 0, noOverwrite, see)
        else ret == Eio && files == old(files)
    {
      hide ReplayBytes, LoadBuiltIn;
      if |image| < SUPER {
        return ReadError;
      }
      if !SuperOk(image, crc) {
        return Eio;
      }
      if ForceBuiltIn(FromLe32(image[20..24])) {
        ret := DefaultenvLoad(builtIn, false, see, crc);
        return;
      }
      var size := FromLe32(image[12..16]);
      if |image| < SUPER + size {
        return Premature;
      }
      var data := image[SUPER..SUPER + size];
      if !DataOk(image, data, crc) {
        return Eio;
      }
      ret := LoadData(data, image[16] < 1, noOverwrite, see);
    }
  }

  /** How the load of entries ends, given how their replay does. */
  ghost predicate Ends(b: (Files, Outcome), r: Applied<Files>) {
    match r
    case Ok(g) => b == (Pruned(g), Loaded)
    case ThroughLink => b.1 == WroteThroughLink
    case OpenFails => b.1 == OpenError
    case Overrun => b.1 == OutOfBounds
  }

  /** Decoding what was encoded replays exactly those entries and uses up exactly
      those bytes. */
  lemma {:induction false} ReplayEncoded(f: Files, es: seq<Inode>, noOverwrite: bool, see: Resolver)
    requires forall i | 0 <= i < |es| :: Storable(es[i])
    ensures Ends(ReplayBytes(f, Encode(es), false, noOverwrite, see), Replay(f, es, noOverwrite, see))
    decreases es
  {
    hide EncodeInode, ParseInode, Apply, Storable, Pruned;
    if es != [] {
      assert Storable(es[0]);
      ParseEncoded(es[0], Encode(es[1..]));
      assert EncodeInode(es[0]) != [] by { EncodedNotEmpty(es[0]); }
      var a := Apply(f, es[0], noOverwrite, see);
      if a.Ok? {
        ReplayEncoded(a.value, es[1..], noOverwrite, see);
      }
    }
  }

  lemma EncodedNotEmpty(e: Inode)
    requires Storable(e)
    ensures EncodeInode(e) != []
  {
  }

  lemma FrontFields(size: u32, flags: u32, crc: u32)
    ensures var front := SuperFront(size, flags, crc);
            && front[0..4] == Le32(MAGIC) && front[4..8] == Le32(0) && front[8..12] == Le32(crc) && front[12..16] == Le32(size)
            && front[16..20] == [1, 0, 0, 0] && front[20..24] == Le32(flags)
  {
    hide Le32;
  }

  /** The superblock, field by field. */
  lemma SuperFields(size: u32, flags: u32, data: seq<byte>, crc: Crc)
    ensures var image := Superblock(size, flags, data, crc) + data;
            && |image| == SUPER + |data| && FromLe32(image[0..4]) == 0x798fba79 && FromLe32(image[4..8]) == 0 && FromLe32(image[8..12]) == crc(data)
            && FromLe32(image[12..16]) == size && image[16..20] == [1, 0, 0, 0] && FromLe32(image[20..24]) == flags
            && FromLe32(image[SUPER - 4..SUPER]) == crc(image[..SUPER - 4]) && image[SUPER..] == data
  {
    hide SuperFront, Le32;
    var front := SuperFront(size, flags, crc(data));
    var image := Superblock(size, flags, data, crc) + data;
    FrontFields(size, flags, crc(data));
    Le32RoundTrip(MAGIC);
    Le32RoundTrip(0);
    Le32RoundTrip(crc(data));
    Le32RoundTrip(size);
    Le32RoundTrip(flags);
    Le32RoundTrip(crc(front));
    assert image[..SUPER - 4] == front;
    assert image[0..4] == front[0..4] && image[4..8] == front[4..8] && image[16..20] == front[16..20] && image[8..12] == front[8..12] && image[12..16] == front[12..16] && image[20..24] == front[20..24];
    assert image[SUPER - 4..SUPER] == Le32(crc(front));
  }

  /** Entries that are intact are replayed whatever follows them. */
  lemma {:induction false} ReplayPrefix(f: Files, es: seq<Inode>, rest: seq<byte>, noOverwrite: bool, see: Resolver)
    requires forall i | 0 <= i < |es| :: Storable(es[i])
    ensures var r := Replay(f, es, noOverwrite, see);
            r.Ok? ==> ReplayBytes(f, Encode(es) + rest, false, noOverwrite, see) == ReplayBytes(r.value, rest, false, noOverwrite, see)
    decreases es
  {
    hide EncodeInode, ParseInode, Apply, Storable, Pruned;
    if es == [] {
      assert Encode(es) + rest == rest;
    } else {
      assert Storable(es[0]);
      var tail := Encode(es[1..]) + rest;
      assert Encode(es) + rest == EncodeInode(es[0]) + tail;
      ParseEncoded(es[0], tail);
      assert EncodeInode(es[0]) != [] by { EncodedNotEmpty(es[0]); }
      var a := Apply(f, es[0], noOverwrite, see);
      if a.Ok? {
        ReplayPrefix(a.value, es[1..], rest, noOverwrite, see);
      }
    }
  }

  /** An entry without its magic ends the load; those before it are in place. */
  lemma DamagedEntry(f: Files, es: seq<Inode>, rest: seq<byte>, noOverwrite: bool, see: Resolver)
    requires (forall i | 0 <= i < |es| :: Storable(es[i])) && 12 <= |rest| && FromLe32(rest[0..4]) != 0x67a8c78d
    ensures var r := Replay(f, es, noOverwrite, see);
            r.Ok? ==> ReplayBytes(f, Encode(es) + rest, false, noOverwrite, see) == (r.value, Eio)
  {
    hide ParseInode, Apply, Storable, Replay;
    ReplayPrefix(f, es, rest, noOverwrite, see);
    WrongMagic(rest, false);
  }

  /** Loading an intact image comes down to replaying its entries. */
  lemma LoadSaved(f: Files, builtIn: seq<seq<byte>>, es: seq<Inode>, noOverwrite: bool, see: Resolver, crc: Crc)
    requires AllStorable(es)
    ensures Ends(LoadImage(f, Image(es, 0, crc), builtIn, noOverwrite, see, crc), Replay(f, es, noOverwrite, see))
    ensures LoadImage(f, Image(es, 0, crc), builtIn, noOverwrite, see, crc) == LoadBuffer(f, Image(es, 0, crc), noOverwrite, see, crc)
  {
    hide Superblock, Encode, ReplayBytes, Replay, Storable, Ends, LoadBuiltIn;
    var data := Encode(es);
    SuperFields(|data|, 0, data, crc);
    var image := Image(es, 0, crc);
    assert image[SUPER..SUPER + |data|] == data;
    ReplayEncoded(f, es, noOverwrite, see);
  }

  /** The load ends well and leaves exactly this tree, with no empty directory. */
  ghost predicate LoadGives(b: (Files, Outcome), env: Tree) {
    b.1 == Loaded && b.0.tree == env && forall d {:trigger d in b.0.dirs} | d in b.0.dirs :: IsDir(env, d)
  }

  lemma EndsGives(b: (Files, Outcome), r: Applied<Files>, env: Tree)
    requires Ends(b, r)
    ensures LoadGives(b, env) <==> Gives(r, env)
  {
  }

  /** Saving a tree and loading the image onto the default tree gives the tree back,
      exactly when no path of one tree is a directory of the other, nothing is disguised
      and every entry brings what was saved. */
  lemma SaveLoad(w: Trees, es: seq<Inode>, k: nat, builtIn: seq<seq<byte>>, see: Resolver, crc: Crc)
    requires ProperTrees(w) && Delta(w, es, k) && AllStorable(es)
    ensures LoadGives(LoadImage(Laid(w.dflt), Image(es, 0, crc), builtIn, false, see, crc), w.env) <==>
            && NoClash(w.dflt, w.env) && NoDirInPlace(w) && NoDisguise(w)
            && AllReplaceable(WithoutNamed(w.dflt, es[..k]), w.env, w.size, es[k..], see)
  {
    hide *;
    LoadSaved(Laid(w.dflt), builtIn, es, false, see, crc);
    EndsGives(LoadImage(Laid(w.dflt), Image(es, 0, crc), builtIn, false, see, crc), Replay(Laid(w.dflt), es, false, see), w.env);
    ReplayDelta(w, es, k, see);
  }

  // ------------------------------------------------------------------
  // The built-in environment

  /** A built-in image: the tree it was made from, the sizes its links had there, and its
      entries. */
  datatype BuiltIn = BuiltIn(tree: Tree, size: Sizes, es: seq<Inode>)

  ghost predicate ProperBuiltIn(d: BuiltIn) {
    ProperTree(d.tree) && Lists(d.tree, d.size, d.es) && AllStorable(d.es)
  }

  ghost function Built(d: BuiltIn, crc: Crc): seq<byte>
    requires ProperBuiltIn(d)
  {
    Image(d.es, 0, crc)
  }

  ghost predicate AllProper(ds: seq<BuiltIn>) {
    forall i {:trigger ds[i]} | 0 <= i < |ds| :: ProperBuiltIn(ds[i])
  }

  ghost function Images(ds: seq<BuiltIn>, crc: Crc): seq<seq<byte>>
    requires AllProper(ds)
  {
    if ds == [] then [] else [Built(ds[0], crc)] + Images(ds[1..], crc)
  }

  function Overlaid(t: Tree, ds: seq<BuiltIn>): Tree
    decreases ds
  {
    if ds == [] then t else Overlaid(t + ds[0].tree, ds[1..])
  }

  /** Each image in turn lays its tree over what is there. */
  ghost predicate EachLaid(f: Files, t: Tree, ds: seq<BuiltIn>, noOverwrite: bool, see: Resolver, crc: Crc)
    requires AllProper(ds)
    decreases ds
  {
    ds == [] ||
    var r := LoadBuffer(f, Built(ds[0], crc), noOverwrite, see, crc);
    LoadGives(r, t + ds[0].tree) && EachLaid(r.0, t + ds[0].tree, ds[1..], noOverwrite, see, crc)
  }

  ghost predicate LaysOver(t: Tree, d: BuiltIn, see: Resolver)
    requires ProperBuiltIn(d)
  {
    assert Right(t + d.tree, d.size, d.es);
    NoClash(t, d.tree) && AllReplaceable(t, t + d.tree, d.size, d.es, see)
  }

  ghost predicate AllLayOver(t: Tree, ds: seq<BuiltIn>, see: Resolver)
    requires AllProper(ds)
    decreases ds
  {
    ds == [] || (LaysOver(t, ds[0], see) && AllLayOver(t + ds[0].tree, ds[1..], see))
  }

  lemma PrunedLaid(f: Files)
    requires Complete(f)
    ensures Pruned(f) == Laid(f.tree)
  {
    forall d ensures d in Pruned(f).dirs <==> d in DirsOf(f.tree) {
      DirsOfTree(f.tree, d);
    }
  }

  lemma OneLaid(t: Tree, d: BuiltIn, see: Resolver, crc: Crc)
    requires ProperTree(t) && ProperBuiltIn(d)
    ensures var r := LoadBuffer(Laid(t), Built(d, crc), false, see, crc);
            && (LoadGives(r, t + d.tree) <==> LaysOver(t, d, see))
            && (LoadGives(r, t + d.tree) ==> r.0 == Laid(t + d.tree) && ProperTree(t + d.tree))
  {
    hide LoadBuffer, LoadImage, Image, Replay, ProperTree, AllStorable, NoClash, AllReplaceable, Laid, Pruned, Complete;
    LoadSaved(Laid(t), [], d.es, false, see, crc);
    var b := LoadBuffer(Laid(t), Built(d, crc), false, see, crc);
    var r := Replay(Laid(t), d.es, false, see);
    EndsGives(b, r, t + d.tree);
    ReplayOver(t, d.tree, d.size, d.es, see);
    if r.Ok? {
      LaidComplete(t);
      ReplayComplete(Laid(t), d.es, false, see);
      PrunedLaid(r.value);
    }
    if LaysOver(t, d, see) {
      OverlayProper(t, d.tree);
    }
  }

  /** The built-in images: each lays its tree over what is there exactly when, in turn, no
      path of one is a directory of the other and each entry brings what it should. */
  lemma {:induction false} AllLaid(t: Tree, ds: seq<BuiltIn>, see: Resolver, crc: Crc)
    requires ProperTree(t) && AllProper(ds)
    ensures EachLaid(Laid(t), t, ds, false, see, crc) <==> AllLayOver(t, ds, see)
    ensures AllLayOver(t, ds, see) ==> LoadBuiltIn(Laid(t), Images(ds, crc), false, see, crc) == (Laid(Overlaid(t, ds)), Loaded)
    decreases ds
  {
    hide LoadBuffer, Built, ProperTree, ProperBuiltIn, LaysOver, Laid;
    if ds != [] {
      assert AllProper(ds[1..]) && ProperBuiltIn(ds[0]);
      OneLaid(t, ds[0], see, crc);
      if LaysOver(t, ds[0], see) {
        AllLaid(t + ds[0].tree, ds[1..], see, crc);
        assert Images(ds, crc)[1..] == Images(ds[1..], crc);
      }
    }
  }

  /** An image saved with the force-built-in flag makes the built-in trees be laid over
      whatever is there, whatever its own entries are. */
  lemma SaveLoadBuiltIn(t: Tree, ds: seq<BuiltIn>, es: seq<Inode>, noOverwrite: bool, see: Resolver, crc: Crc)
    requires ProperTree(t) && AllProper(ds) && AllStorable(es)
    ensures var b := LoadImage(Laid(t), Image(es, 1, crc), Images(ds, crc), noOverwrite, see, crc);
            && (EachLaid(Laid(t), t, ds, false, see, crc) <==> AllLayOver(t, ds, see))
            && (AllLayOver(t, ds, see) ==> LoadGives(b, Overlaid(t, ds)))
            && (|ds| == 1 && LoadGives(b, Overlaid(t, ds)) ==> AllLayOver(t, ds, see))
  {
    hide *;
    BuiltInReplayed(Laid(t), Images(ds, crc), es, noOverwrite, see, crc);
    AllLaid(t, ds, see, crc);
    LaidGives(Overlaid(t, ds));
    if |ds| == 1 {
      OnlyOne(t, ds, see, crc);
    }
  }

  lemma LaidGives(t: Tree)
    ensures LoadGives((Laid(t), Loaded), t)
  {
    hide DirsOf, IsDir;
    forall d | d in DirsOf(t) ensures IsDir(t, d) {
      DirsOfTree(t, d);
    }
  }

  lemma OnlyOne(t: Tree, ds: seq<BuiltIn>, see: Resolver, crc: Crc)
    requires ProperTree(t) && AllProper(ds) && |ds| == 1
    ensures LoadGives(LoadBuiltIn(Laid(t), Images(ds, crc), false, see, crc), Overlaid(t, ds)) ==> AllLayOver(t, ds, see)
  {
    hide LoadBuffer, Built, ProperTree, ProperBuiltIn, LaysOver, Laid, LoadGives, LoadBuiltIn;
    var d := ds[0];
    assert ProperBuiltIn(d) && ds == [d] && ds[1..] == [];
    OneLaid(t, d, see, crc);
    assert Images(ds, crc) == [Built(d, crc)];
    OneImage(Laid(t), Built(d, crc), see, crc);
    assert Overlaid(t, ds) == t + d.tree by { assert Overlaid(t + d.tree, []) == t + d.tree; }
  }

  lemma OneImage(f: Files, image: seq<byte>, see: Resolver, crc: Crc)
    ensures LoadBuiltIn(f, [image], false, see, crc) == LoadBuffer(f, image, false, see, crc)
  {
    hide LoadBuffer;
    var r := LoadBuffer(f, image, false, see, crc);
    assert [image][1..] == [] && LoadBuiltIn(r.0, [], false, see, crc) == (r.0, Loaded);
  }

  lemma BuiltInReplayed(f: Files, builtIn: seq<seq<byte>>, es: seq<Inode>, noOverwrite: bool, see: Resolver, crc: Crc)
    requires AllStorable(es)
    ensures LoadImage(f, Image(es, 1, crc), builtIn, noOverwrite, see, crc) == LoadBuiltIn(f, builtIn, false, see, crc)
  {
    hide Superblock, Encode, ReplayBytes, LoadBuiltIn;
    SuperFields(0, 1, [], crc);
  }
}
