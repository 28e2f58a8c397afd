/** What it means for the cached chunks and the device to show the same contents,
    and how the steps of the cache keep it so. */
module CacheState {
  import opened Arithmetic
  import opened Octets
  import opened UseList

  type Block = seq<byte>

  /** Bytes per block, blocks per chunk, blocks of the device. */
  datatype Geometry = Geometry(bs: int, rd: int, n: int) {
    ghost predicate Ok() { 0 < bs && 0 < rd && 0 <= n }
  }

  datatype Chunk = Chunk(data: seq<Block>, start: int, dirty: bool)

  /** The first block of the chunk range that holds `b`: `b & ~blkmask`. */
  function StartOf(rd: int, b: int): (s: int)
    requires 0 < rd && 0 <= b
    ensures 0 <= s <= b < s + rd
  {
    b - b % rd
  }

  /** An aligned range that contains `b` is the one that starts at StartOf. */
  lemma StartOfUnique(rd: int, b: int, s: int)
    requires 0 < rd && 0 <= s <= b < s + rd && s % rd == 0
    ensures StartOf(rd, b) == s
  {
    assert b == rd * (s / rd) + (b - s);
    DivMod(b, rd, s / rd, b - s);
  }

  lemma StartOfAligned(rd: int, b: int)
    requires 0 < rd && 0 <= b
    ensures StartOf(rd, b) % rd == 0
  {
    assert StartOf(rd, b) == rd * (b / rd) + 0;
    DivMod(StartOf(rd, b), rd, b / rd, 0);
  }

  /** The blocks of a chunk that exist on the device: the last chunk may be short. */
  function IoLen(g: Geometry, start: int): int {
    if g.rd <= g.n - start then g.rd else g.n - start
  }

  predicate AllSized(g: Geometry, s: seq<Block>) {
    forall b | 0 <= b < |s| :: |s[b]| == g.bs
  }

  ghost predicate Sized(g: Geometry, disk: seq<Block>, chunks: seq<Chunk>, view: seq<Block>) {
    && g.Ok() && |disk| == |view| == g.n && |chunks| == CHUNKS
    && AllSized(g, disk) && AllSized(g, view)
    && (forall c | 0 <= c < CHUNKS :: |chunks[c].data| == g.rd && AllSized(g, chunks[c].data))
  }

  /** A buffered chunk is aligned, shows the contents, and is not ahead of the
      device unless it is dirty. */
  ghost predicate Shows(g: Geometry, disk: seq<Block>, ch: Chunk, view: seq<Block>)
    requires g.Ok() && |disk| == |view| == g.n && |ch.data| == g.rd
  {
    && 0 <= ch.start < g.n && ch.start % g.rd == 0
    && (forall b | ch.start <= b < ch.start + IoLen(g, ch.start) :: ch.data[b - ch.start] == view[b])
    && (!ch.dirty ==> forall b | ch.start <= b < ch.start + IoLen(g, ch.start) :: disk[b] == view[b])
  }

  ghost predicate Uncached(g: Geometry, chunks: seq<Chunk>, s: set<int>, b: int)
    requires g.Ok() && |chunks| == CHUNKS && 0 <= b
  {
    forall c {:trigger c in s} | c in s && 0 <= c < CHUNKS :: chunks[c].start != StartOf(g.rd, b)
  }

  /** Through the chunks `s` the device shows the contents `view`. */
  ghost predicate Coherent(g: Geometry, disk: seq<Block>, chunks: seq<Chunk>, s: set<int>, view: seq<Block>) {
    && Sized(g, disk, chunks, view)
    && (forall c {:trigger c in s} | c in s :: 0 <= c < CHUNKS && Shows(g, disk, chunks[c], view))
    && (forall c, d {:trigger c in s, d in s} | c in s && d in s && c != d :: chunks[c].start != chunks[d].start)
    && (forall c | 0 <= c < CHUNKS && c !in s :: !chunks[c].dirty)
    && (forall b {:trigger view[b]} | 0 <= b < g.n && Uncached(g, chunks, s, b) :: disk[b] == view[b])
  }

  /** The device after blocks were written from `start` on. */
  function WriteRange(disk: seq<Block>, start: int, data: seq<Block>): (r: seq<Block>)
    requires 0 <= start && start + |data| <= |disk|
    ensures |r| == |disk|
    ensures forall b | 0 <= b < |disk| :: r[b] == if start <= b < start + |data| then data[b - start] else disk[b]
  {
    disk[..start] + data + disk[start + |data|..]
  }

  /** Blocks outside [start, start + len) are the same. */
  predicate SameElsewhere(g: Geometry, disk: seq<Block>, disk': seq<Block>, start: int, len: int) {
    && |disk'| == |disk| && AllSized(g, disk')
    && (forall b | 0 <= b < |disk| && !(start <= b < start + len) :: disk'[b] == disk[b])
  }

  /** Ranges of different buffered chunks do not meet. */
  lemma Disjoint(g: Geometry, disk: seq<Block>, chunks: seq<Chunk>, s: set<int>, view: seq<Block>, c: int, d: int, b: int)
    requires Coherent(g, disk, chunks, s, view) && c in s && d in s && c != d
    requires chunks[c].start <= b < chunks[c].start + g.rd
    ensures !(chunks[d].start <= b < chunks[d].start + g.rd)
  {
    StartOfUnique(g.rd, b, chunks[c].start);
    if chunks[d].start <= b < chunks[d].start + g.rd {
      StartOfUnique(g.rd, b, chunks[d].start);
    }
  }

  /** A failed write may have spoilt the device where the dirty chunk lies; the
      contents are as before. */
  lemma WriteFailed(g: Geometry, disk: seq<Block>, chunks: seq<Chunk>, s: set<int>, view: seq<Block>, c: int, disk': seq<Block>)
    requires Coherent(g, disk, chunks, s, view) && c in s && chunks[c].dirty
    requires SameElsewhere(g, disk, disk', chunks[c].start, IoLen(g, chunks[c].start))
    ensures Coherent(g, disk', chunks, s, view)
  {
    forall d | d in s ensures Shows(g, disk', chunks[d], view) {
      SpoiltElsewhere(g, disk, chunks, s, view, c, disk', d);
    }
    forall b | 0 <= b < g.n && Uncached(g, chunks, s, b) ensures disk'[b] == view[b] {
      if chunks[c].start <= b < chunks[c].start + IoLen(g, chunks[c].start) {
        StartOfUnique(g.rd, b, chunks[c].start);
      }
    }
  }

  lemma SpoiltElsewhere(g: Geometry, disk: seq<Block>, chunks: seq<Chunk>, s: set<int>, view: seq<Block>, c: int, disk': seq<Block>, d: int)
    requires Coherent(g, disk, chunks, s, view) && c in s && d in s && (chunks[c].dirty || c != d)
    requires SameElsewhere(g, disk, disk', chunks[c].start, IoLen(g, chunks[c].start))
    ensures Shows(g, disk', chunks[d], view)
  {
    if c != d {
      forall b | chunks[d].start <= b < chunks[d].start + IoLen(g, chunks[d].start) ensures disk'[b] == disk[b] {
        Disjoint(g, disk, chunks, s, view, d, c, b);
      }
    }
  }

  /** The device after a chunk was written back. */
  function FlushedDisk(g: Geometry, disk: seq<Block>, ch: Chunk): (r: seq<Block>)
    requires g.Ok() && |disk| == g.n && |ch.data| == g.rd && 0 <= ch.start < g.n
    ensures |r| == |disk|
  {
    WriteRange(disk, ch.start, ch.data[..IoLen(g, ch.start)])
  }

  lemma FlushedSame(g: Geometry, disk: seq<Block>, ch: Chunk)
    requires g.Ok() && |disk| == g.n && |ch.data| == g.rd && 0 <= ch.start < g.n && AllSized(g, disk) && AllSized(g, ch.data)
    ensures SameElsewhere(g, disk, FlushedDisk(g, disk, ch), ch.start, IoLen(g, ch.start))
    ensures forall b | ch.start <= b < ch.start + IoLen(g, ch.start) :: FlushedDisk(g, disk, ch)[b] == ch.data[b - ch.start]
  {
  }

  /** A successful write makes the chunk clean. */
  lemma WrittenBack(g: Geometry, disk: seq<Block>, chunks: seq<Chunk>, s: set<int>, view: seq<Block>, c: int)
    requires Coherent(g, disk, chunks, s, view) && c in s
    ensures Coherent(g, FlushedDisk(g, disk, chunks[c]), chunks[c := chunks[c].(dirty := false)], s, view)
  {
    var ch := chunks[c];
    FlushedSame(g, disk, ch);
    var disk' := FlushedDisk(g, disk, ch);
    var chunks' := chunks[c := ch.(dirty := false)];
    hide FlushedDisk;
    forall d | d in s ensures Shows(g, disk', chunks'[d], view) {
      if d != c {
        SpoiltElsewhere(g, disk, chunks, s, view, c, disk', d);
      }
    }
    forall b | 0 <= b < g.n && Uncached(g, chunks', s, b) ensures disk'[b] == view[b] {
      assert Uncached(g, chunks, s, b);
      if ch.start <= b < ch.start + IoLen(g, ch.start) {
        StartOfUnique(g.rd, b, ch.start);
      }
    }
  }

  /** A clean chunk can be dropped. */
  lemma Dropped(g: Geometry, disk: seq<Block>, chunks: seq<Chunk>, s: set<int>, view: seq<Block>, c: int)
    requires Coherent(g, disk, chunks, s, view) && c in s && !chunks[c].dirty
    ensures Coherent(g, disk, chunks, s - {c}, view)
  {
    forall b | 0 <= b < g.n && Uncached(g, chunks, s - {c}, b) ensures disk[b] == view[b] {
      if chunks[c].start == StartOf(g.rd, b) {
        assert chunks[c].start <= b < chunks[c].start + IoLen(g, chunks[c].start);
      } else {
        forall d | d in s && 0 <= d < CHUNKS ensures chunks[d].start != StartOf(g.rd, b) {
          assert d == c || d in s - {c};
        }
        assert Uncached(g, chunks, s, b);
      }
    }
  }

  /** A chunk filled from the device can be added. */
  lemma Loaded(g: Geometry, disk: seq<Block>, chunks: seq<Chunk>, s: set<int>, view: seq<Block>, c: int, ch: Chunk)
    requires Coherent(g, disk, chunks, s, view) && 0 <= c < CHUNKS && c !in s
    requires 0 <= ch.start < g.n && ch.start % g.rd == 0 && !ch.dirty && |ch.data| == g.rd && AllSized(g, ch.data)
    requires forall b | ch.start <= b < ch.start + IoLen(g, ch.start) :: ch.data[b - ch.start] == disk[b]
    requires Uncached(g, chunks, s, ch.start)
    ensures Coherent(g, disk, chunks[c := ch], s + {c}, view)
  {
    var chunks' := chunks[c := ch];
    StartOfUnique(g.rd, ch.start, ch.start);
    forall b | ch.start <= b < ch.start + IoLen(g, ch.start) ensures disk[b] == view[b] {
      StartOfUnique(g.rd, b, ch.start);
      assert Uncached(g, chunks, s, b);
    }
    forall b | 0 <= b < g.n && Uncached(g, chunks', s + {c}, b) ensures disk[b] == view[b] {
      forall d | d in s && 0 <= d < CHUNKS ensures chunks[d].start != StartOf(g.rd, b) {
        assert d in s + {c};
      }
      assert Uncached(g, chunks, s, b);
    }
    forall d, e | d in s + {c} && e in s + {c} && d != e ensures chunks'[d].start != chunks'[e].start {
      assert d in s || d == c;
      assert e in s || e == c;
    }
  }

  /** A block written into a chunk, which becomes dirty, changes the contents there
      and nowhere else. */
  lemma PutBlock(g: Geometry, disk: seq<Block>, chunks: seq<Chunk>, s: set<int>, view: seq<Block>, c: int, b: int, x: Block)
    requires Coherent(g, disk, chunks, s, view) && c in s && |x| == g.bs
    requires 0 <= b < g.n && chunks[c].start <= b < chunks[c].start + g.rd
    ensures var ch := chunks[c];
            Coherent(g, disk, chunks[c := ch.(data := ch.data[b - ch.start := x], dirty := true)], s, view[b := x])
  {
    var ch := chunks[c];
    var ch' := ch.(data := ch.data[b - ch.start := x], dirty := true);
    var chunks', view' := chunks[c := ch'], view[b := x];
    StartOfUnique(g.rd, b, ch.start);
    forall d | d in s ensures Shows(g, disk, chunks'[d], view') {
      if d != c {
        Disjoint(g, disk, chunks, s, view, c, d, b);
      }
    }
    forall b' | 0 <= b' < g.n && Uncached(g, chunks', s, b') ensures disk[b'] == view'[b'] {
      assert Uncached(g, chunks, s, b');
    }
  }

  /** With no dirty chunk the device itself has the contents. */
  lemma {:induction false} AllClean(g: Geometry, disk: seq<Block>, chunks: seq<Chunk>, s: set<int>, view: seq<Block>)
    requires Coherent(g, disk, chunks, s, view)
    requires forall c | c in s :: 0 <= c < CHUNKS && !chunks[c].dirty
    ensures disk == view
  {
    forall b | 0 <= b < g.n ensures disk[b] == view[b] {
      if !Uncached(g, chunks, s, b) {
        var c :| c in s && 0 <= c < CHUNKS && chunks[c].start == StartOf(g.rd, b);
        assert chunks[c].start <= b < chunks[c].start + IoLen(g, chunks[c].start);
      }
    }
  }

  lemma IdleClean(g: Geometry, disk: seq<Block>, chunks: seq<Chunk>, s: set<int>, view: seq<Block>, c: int)
    requires Coherent(g, disk, chunks, s, view) && 0 <= c < CHUNKS && c !in s
    ensures |chunks| == CHUNKS && !chunks[c].dirty
  {
  }

  lemma CoherentGeometry(g: Geometry, disk: seq<Block>, chunks: seq<Chunk>, s: set<int>, view: seq<Block>)
    requires Coherent(g, disk, chunks, s, view)
    ensures g.Ok() && |disk| == |view| == g.n && |chunks| == CHUNKS && AllSized(g, disk) && AllSized(g, view)
    ensures forall c | 0 <= c < CHUNKS :: |chunks[c].data| == g.rd && AllSized(g, chunks[c].data)
  {
  }

  /** A block no buffered chunk covers has no buffered chunk at its range. */
  lemma NotCovered(g: Geometry, disk: seq<Block>, chunks: seq<Chunk>, s: set<int>, view: seq<Block>, b: int)
    requires Coherent(g, disk, chunks, s, view) && 0 <= b
    requires forall c | c in s :: !(0 <= c < CHUNKS && chunks[c].start <= b < chunks[c].start + g.rd)
    ensures Uncached(g, chunks, s, b)
  {
  }

  lemma UncachedKept(g: Geometry, chunks: seq<Chunk>, s: set<int>, chunks': seq<Chunk>, s': set<int>, b: int)
    requires g.Ok() && |chunks| == |chunks'| == CHUNKS && 0 <= b && Uncached(g, chunks, s, b) && s' <= s
    requires forall d | 0 <= d < CHUNKS :: chunks'[d].start == chunks[d].start
    ensures Uncached(g, chunks', s', StartOf(g.rd, b))
  {
    StartOfAligned(g.rd, b);
    StartOfUnique(g.rd, StartOf(g.rd, b), StartOf(g.rd, b));
    forall c | c in s' && 0 <= c < CHUNKS ensures chunks'[c].start != StartOf(g.rd, b) {
      assert c in s;
    }
  }

  /** What a chunk outside the lists holds does not matter, as long as it is clean. */
  lemma Refilled(g: Geometry, disk: seq<Block>, chunks: seq<Chunk>, s: set<int>, view: seq<Block>, c: int, ch: Chunk)
    requires Coherent(g, disk, chunks, s, view) && 0 <= c < CHUNKS && c !in s
    requires !ch.dirty && |ch.data| == g.rd && AllSized(g, ch.data)
    ensures Coherent(g, disk, chunks[c := ch], s, view)
  {
    forall b | 0 <= b < g.n && Uncached(g, chunks[c := ch], s, b) ensures disk[b] == view[b] {
      assert Uncached(g, chunks, s, b);
    }
  }

  lemma SameCover(g: Geometry, disk: seq<Block>, chunks: seq<Chunk>, s: set<int>, view: seq<Block>, c: int, d: int, b: int)
    requires Coherent(g, disk, chunks, s, view) && c in s && d in s
    requires chunks[c].start <= b < chunks[c].start + g.rd && chunks[d].start <= b < chunks[d].start + g.rd
    ensures c == d
  {
    if c != d {
      Disjoint(g, disk, chunks, s, view, c, d, b);
    }
  }

  /** Chunk `c` after block `b` was overwritten in its buffer. */
  function Poked(chunks: seq<Chunk>, c: int, b: int, x: Block): (r: seq<Chunk>)
    requires 0 <= c < |chunks| && chunks[c].start <= b < chunks[c].start + |chunks[c].data|
    ensures |r| == |chunks| && forall d | 0 <= d < |chunks| :: r[d].start == chunks[d].start && r[d].dirty == chunks[d].dirty && |r[d].data| == |chunks[d].data|
  {
    chunks[c := chunks[c].(data := chunks[c].data[b - chunks[c].start := x])]
  }

  lemma PokedTwice(chunks: seq<Chunk>, c: int, b: int, x: Block)
    requires 0 <= c < |chunks| && chunks[c].start <= b < chunks[c].start + |chunks[c].data|
    ensures Poked(Poked(chunks, c, b, x), c, b, x) == Poked(chunks, c, b, x)
  {
    var d, k := chunks[c].data, b - chunks[c].start;
    assert d[k := x][k := x] == d[k := x];
  }

  /** What the chunk shows at a block it covers. */
  lemma ShowsBlock(g: Geometry, disk: seq<Block>, chunks: seq<Chunk>, s: set<int>, view: seq<Block>, c: int, b: int)
    requires Coherent(g, disk, chunks, s, view) && c in s && 0 <= c < |chunks| && chunks[c].start <= b < chunks[c].start + g.rd && 0 <= b < g.n
    ensures |chunks[c].data| == g.rd && |view| == g.n && chunks[c].data[b - chunks[c].start] == view[b] && |view[b]| == g.bs
  {
  }

  lemma PokedDirty(chunks: seq<Chunk>, c: int, b: int, x: Block)
    requires 0 <= c < |chunks| && chunks[c].start <= b < chunks[c].start + |chunks[c].data|
    ensures var p := Poked(chunks, c, b, x);
            p[c := p[c].(dirty := true)] == chunks[c := chunks[c].(data := chunks[c].data[b - chunks[c].start := x], dirty := true)]
  {
  }

  function EmptyChunk(g: Geometry): Chunk
    requires 0 <= g.bs && 0 <= g.rd
  {
    Chunk(seq(g.rd, k => seq(g.bs, i => 0)), 0, false)
  }

  lemma NothingCached(g: Geometry, disk: seq<Block>)
    requires g.Ok() && |disk| == g.n && AllSized(g, disk)
    ensures Coherent(g, disk, seq(CHUNKS, c => EmptyChunk(g)), {}, disk)
  {
  }
}
