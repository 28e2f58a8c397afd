/** A device as one array of bytes. */
module FlatBytes {
  import opened CacheState
  import opened Octets

  ghost function Flat(v: seq<Block>): seq<byte> {
    if v == [] then [] else Flat(v[..|v| - 1]) + v[|v| - 1]
  }

  /** The bytes of the device. */
  function Size(g: Geometry): int {
    g.n * g.bs
  }

  lemma MulStep(a: int, b: int)
    ensures (a + 1) * b == a * b + b && (a - 1) * b == a * b - b
  {
  }

  /** Block `b` begins at byte `pos`. */
  ghost predicate BlockAt(bs: int, b: int, pos: int) {
    b * bs == pos
  }

  lemma NextBlockAt(bs: int, b: int, pos: int)
    requires BlockAt(bs, b, pos)
    ensures BlockAt(bs, b + 1, pos + bs)
  {
    MulStep(b, bs);
  }

  /** `left` bytes are `k` whole blocks and less than one more. */
  ghost predicate WholeBlocks(bs: int, k: int, left: int) {
    0 <= k && k * bs <= left < k * bs + bs
  }

  lemma WholeBlocksStep(bs: int, k: int, left: int)
    requires WholeBlocks(bs, k, left) && 0 < bs
    ensures 0 < k ==> bs <= left && WholeBlocks(bs, k - 1, left - bs)
    ensures k == 0 ==> left < bs
  {
    MulStep(k, bs);
    if 0 < k {
      assert 0 <= (k - 1) * bs;
    }
  }

  lemma DivideIntoBlocks(bs: int, left: int)
    requires 0 < bs && 0 <= left
    ensures WholeBlocks(bs, left / bs, left) && (left < bs ==> left / bs == 0)
  {
    assert left == (left / bs) * bs + left % bs;
  }

  /** The block in which byte `pos` lies. */
  lemma FindBlock(bs: int, pos: int)
    requires 0 < bs && 0 <= pos
    ensures 0 <= pos / bs && 0 <= pos % bs < bs && BlockAt(bs, pos / bs, pos - pos % bs)
  {
  }

  lemma {:induction false} FlatLength(g: Geometry, v: seq<Block>)
    requires AllSized(g, v)
    ensures |Flat(v)| == |v| * g.bs
  {
    if v != [] {
      FlatLength(g, v[..|v| - 1]);
      MulStep(|v| - 1, g.bs);
    }
  }

  /** A block behind the last one begins behind all bytes. */
  lemma BehindAll(g: Geometry, b: int, pos: int)
    requires BlockAt(g.bs, b, pos) && g.n <= b && 0 < g.bs
    ensures Size(g) <= pos
  {
    MulOrder(g.n, b, g.bs);
  }

  lemma InsideIff(g: Geometry, b: int, pos: int, i: int)
    requires BlockAt(g.bs, b, pos) && 0 <= i < g.bs
    ensures b < g.n <==> pos + i < Size(g)
  {
    if b < g.n {
      MulOrder(b + 1, g.n, g.bs);
      MulStep(b, g.bs);
    } else {
      MulOrder(g.n, b, g.bs);
    }
  }

  lemma MulOrder(a: int, b: int, c: int)
    requires a <= b && 0 < c
    ensures a * c <= b * c
  {
  }

  lemma {:induction false} FlatConcat(v: seq<Block>, w: seq<Block>)
    ensures Flat(v + w) == Flat(v) + Flat(w)
  {
    if w == [] {
      assert v + w == v;
    } else {
      FlatConcat(v, w[..|w| - 1]);
      assert (v + w)[..|v + w| - 1] == v + w[..|w| - 1];
    }
  }

  /** Block `b` lies at `b * bs`, between the blocks before and after it. */
  lemma FlatAround(g: Geometry, v: seq<Block>, b: int)
    requires AllSized(g, v) && 0 <= b < |v|
    ensures Flat(v) == Flat(v[..b]) + v[b] + Flat(v[b + 1..])
    ensures |Flat(v[..b])| == b * g.bs && |v[b]| == g.bs && 0 <= b * g.bs && b * g.bs + g.bs <= |Flat(v)|
  {
    assert v == v[..b] + ([v[b]] + v[b + 1..]);
    FlatConcat(v[..b], [v[b]] + v[b + 1..]);
    FlatConcat([v[b]], v[b + 1..]);
    assert Flat([v[b]]) == v[b] by { assert [v[b]][..0] == []; }
    FlatLength(g, v[..b]);
  }

  /** Bytes `i` to `j` of block `b`. */
  lemma FlatPart(g: Geometry, v: seq<Block>, b: int, i: int, j: int)
    requires AllSized(g, v) && 0 <= b < |v| && 0 <= i <= j <= g.bs
    ensures |v[b]| == g.bs && 0 <= b * g.bs && b * g.bs + j <= |Flat(v)|
    ensures Flat(v)[b * g.bs + i..b * g.bs + j] == v[b][i..j]
  {
    FlatAround(g, v, b);
  }

  lemma FlatOverwrite(g: Geometry, v: seq<Block>, b: int, i: int, d: seq<byte>)
    requires AllSized(g, v) && 0 <= b < |v| && 0 <= i && i + |d| <= g.bs
    ensures |v[b]| == g.bs && 0 <= b * g.bs && b * g.bs + i + |d| <= |Flat(v)|
    ensures AllSized(g, v[b := Overwrite(v[b], i, d)])
    ensures Flat(v[b := Overwrite(v[b], i, d)]) == Overwrite(Flat(v), b * g.bs + i, d)
  {
    var w := v[b := Overwrite(v[b], i, d)];
    FlatAround(g, v, b);
    FlatAround(g, w, b);
    assert w[..b] == v[..b] && w[b + 1..] == v[b + 1..];
  }

  /** `buf` is what the device shows from `offset` on. */
  ghost predicate ReadFrom(v: seq<Block>, offset: int, buf: seq<byte>) {
    buf != [] ==> 0 <= offset && offset + |buf| <= |Flat(v)| && Flat(v)[offset..offset + |buf|] == buf
  }

  lemma ReadNothing(v: seq<Block>, offset: int)
    ensures ReadFrom(v, offset, [])
  {
  }

  lemma ReadStep(g: Geometry, v: seq<Block>, offset: int, buf: seq<byte>, b: int, i: int, j: int)
    requires AllSized(g, v) && 0 <= b < |v| && 0 <= i <= j <= g.bs && 0 <= offset
    requires ReadFrom(v, offset, buf) && BlockAt(g.bs, b, offset + |buf| - i)
    ensures |v[b]| == g.bs && ReadFrom(v, offset, buf + v[b][i..j])
  {
    FlatPart(g, v, b, i, j);
    var f, p, q := Flat(v), offset + |buf|, offset + |buf| + (j - i);
    assert f[offset..p] + f[p..q] == f[offset..q];
  }

  /** The device shows `w`, which is `v` with `buf` written from `offset` on. */
  ghost predicate WrittenTo(v: seq<Block>, offset: int, buf: seq<byte>, w: seq<Block>) {
    if buf == [] then w == v else 0 <= offset && offset + |buf| <= |Flat(v)| && Flat(w) == Overwrite(Flat(v), offset, buf)
  }

  lemma WriteNothing(v: seq<Block>, offset: int, buf: seq<byte>)
    ensures WrittenTo(v, offset, buf[..0], v)
  {
  }

  lemma WholeOverwrite(g: Geometry, v: seq<Block>, b: int, x: Block)
    requires AllSized(g, v) && 0 <= b < |v| && |x| == g.bs
    ensures |v[b]| == g.bs && Overwrite(v[b], 0, x) == x
  {
  }

  lemma WriteStep(g: Geometry, v: seq<Block>, offset: int, buf: seq<byte>, w: seq<Block>, b: int, i: int, d: seq<byte>)
    requires AllSized(g, w) && 0 <= b < |w| && 0 <= i && i + |d| <= g.bs && 0 <= offset
    requires WrittenTo(v, offset, buf, w) && BlockAt(g.bs, b, offset + |buf| - i)
    ensures |w[b]| == g.bs && WrittenTo(v, offset, buf + d, w[b := Overwrite(w[b], i, d)])
  {
    FlatOverwrite(g, w, b, i, d);
    if d == [] {
      assert Overwrite(w[b], i, d) == w[b] && w[b := w[b]] == w && buf + d == buf;
    } else if buf == [] {
      assert buf + d == d;
    } else {
      OverwriteJoin(Flat(v), offset, buf, d);
    }
  }

  lemma ReadWithin(g: Geometry, v: seq<Block>, offset: int, buf: seq<byte>)
    requires AllSized(g, v) && |v| == g.n && ReadFrom(v, offset, buf) && buf != []
    ensures offset + |buf| <= Size(g)
  {
    FlatLength(g, v);
  }

  lemma WriteWithin(g: Geometry, v: seq<Block>, offset: int, buf: seq<byte>, w: seq<Block>)
    requires AllSized(g, v) && |v| == g.n && WrittenTo(v, offset, buf, w) && buf != []
    ensures offset + |buf| <= Size(g)
  {
    FlatLength(g, v);
  }
}
