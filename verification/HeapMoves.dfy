/** The steps the allocator takes, one lemma each: which words change, and that
    the arena is again well formed with the expected chunks free and in use. */
module HeapMoves {
  import opened Arena
  import opened BinSearch
  import opened HeapInvariant

  /** `r` is newly in use with room for `nb` words; what was in use before still
      is, with the same contents. */
  ghost predicate Allocated(c: Layout, mem: seq<int>, d: Layout, mem': seq<int>, r: int, nb: int) {
    && r !in Live(c) && r in d && nb <= d[r].size < nb + MINSIZE
    && Live(d) == Live(c) + {r}
    && Undisturbed(c, mem, d, mem', Live(c))
  }

  /** `p` is no longer in use; all else is as it was. */
  ghost predicate Released(c: Layout, mem: seq<int>, d: Layout, mem': seq<int>, p: int) {
    && Live(d) == Live(c) - {p}
    && Undisturbed(c, mem, d, mem', Live(c) - {p})
  }

  /** An allocation after a step that left everything in use alone. */
  lemma AllocatedAfter(c: Layout, mem: seq<int>, c1: Layout, mem1: seq<int>, d: Layout, mem': seq<int>, r: int, nb: int)
    requires Live(c1) == Live(c) && Undisturbed(c, mem, c1, mem1, Live(c)) && Allocated(c1, mem1, d, mem', r, nb)
    ensures Allocated(c, mem, d, mem', r, nb)
  {
    hide Live;
    UndisturbedTrans(c, mem, c1, mem1, d, mem', Live(c));
  }

  /** A whole free chunk comes into use. */
  lemma TakeChunk(c: Layout, top: int, mem: seq<int>, v: int, nb: int)
    requires Physical(c, top, mem) && v in Frees(c, top) && nb <= Frees(c, top)[v] < nb + MINSIZE
    ensures var hi := v + c[v].size; hi in c && 0 <= hi && hi + 1 < |mem|
    ensures var hi := v + c[v].size;
            var mem' := mem[hi + 1 := SizeField(mem[hi + 1]) + 1];
            var d := Fuse(c, v, hi, true);
            Physical(d, top, mem') && Frees(d, top) == Frees(c, top) - {v} && Allocated(c, mem, d, mem', v, nb)
  {
    hide Tiled, Tags, Coalesced, Fuse, Split, FreesOutside, LiveOutside;
    var hi := v + c[v].size;
    ReadTags(c, top, mem, v);
    ReadTags(c, top, mem, hi);
    EmptyRegion(c, top, v);
    RegionStep(c, top, mem, v, v);
    FuseRegion(c, top, mem, mem[hi + 1 := SizeField(mem[hi + 1]) + 1], v, hi, true);
  }

  /** The words after a free chunk was split into `nb` words in use and a free rest. */
  function SplitWords(mem: seq<int>, v: int, nb: int, rest: int): seq<int>
    requires 0 <= v && 4 <= nb && 4 <= rest && v + nb + rest < |mem|
  {
    mem[v + 1 := nb + 1][v + nb + 1 := rest + 1][v + nb + rest := rest]
  }

  lemma SplitFree(c: Layout, top: int, mem: seq<int>, v: int, nb: int)
    requires Physical(c, top, mem) && v in Frees(c, top)
    requires 4 <= nb && nb % 2 == 0 && nb + MINSIZE <= c[v].size
    ensures 0 <= v && v + c[v].size < |mem|
    ensures v + nb !in Frees(c, top)
    ensures var mem' := SplitWords(mem, v, nb, c[v].size - nb);
            var d := Split(c, v, v + nb, v + c[v].size, true, false);
            && Physical(d, top, mem') && Allocated(c, mem, d, mem', v, nb)
            && Frees(d, top) == (Frees(c, top) - {v})[v + nb := c[v].size - nb]
  {
    hide Tiled, Tags, Coalesced, Fuse, Split, FreesOutside, LiveOutside;
    var hi := v + c[v].size;
    ReadTags(c, top, mem, v);
    ReadTags(c, top, mem, hi);
    EmptyRegion(c, top, v);
    RegionStep(c, top, mem, v, v);
    OneChunk(c, top, |mem|, v);
    SplitRegion(c, top, mem, SplitWords(mem, v, nb, c[v].size - nb), v, v + nb, hi, false);
  }

  /** The front of top comes into use. */
  lemma SplitTop(c: Layout, top: int, mem: seq<int>, nb: int)
    requires Physical(c, top, mem) && 4 <= nb && nb % 2 == 0 && nb + MINSIZE <= c[top].size
    ensures 0 <= top && top + c[top].size == |mem|
    ensures var mem' := mem[top + 1 := nb + 1][top + nb + 1 := c[top].size - nb + 1];
            var d := Split(c, top, top + nb, |mem|, true, false);
            && Physical(d, top + nb, mem') && Allocated(c, mem, d, mem', top, nb)
            && Frees(d, top + nb) == Frees(c, top)
  {
    hide Tiled, Tags, Coalesced, Fuse, Split, FreesOutside, LiveOutside;
    TopThere(c, top, mem);
    ReadTags(c, top, mem, top);
    EmptyRegion(c, top, top);
    RegionStep(c, top, mem, top, top);
    SplitRegion(c, top, mem, mem[top + 1 := nb + 1][top + nb + 1 := c[top].size - nb + 1], top, top + nb, |mem|, false);
  }

  // ------------------------------------------------------------------
  // Giving a chunk back

  /** Where the free chunk begins that `p` becomes part of. */
  ghost function MergedLo(c: Layout, p: int): int
    requires p in c
  {
    if PrevUsed(c, p) then p else c[p].prev
  }

  /** Where it ends. */
  ghost function MergedHi(c: Layout, top: int, p: int): int
    requires p in c
  {
    var next := p + c[p].size;
    if next in c && !c[next].used then next + c[next].size else next
  }

  /** What the tags around a chunk in use tell about the chunk before it. */
  lemma ReadBack(c: Layout, top: int, mem: seq<int>, p: int)
    requires Physical(c, top, mem) && p in c && c[p].used
    ensures 0 <= p && p + 1 < |mem| && p !in Frees(c, top)
    ensures var lo := MergedLo(c, p);
            && (mem[p + 1] % 2 == 1 <==> lo == p)
            && (lo != p ==> lo == p - mem[p] && 0 <= lo && lo + 1 < p && lo in Frees(c, top)
                            && SizeField(mem[lo + 1]) == Frees(c, top)[lo] == mem[p])
            && lo in c && mem[lo + 1] == c[lo].size + 1 && lo % 2 == 0
  {
    hide Tiled, Tags, Coalesced;
    ReadTags(c, top, mem, p);
    ReadTags(c, top, mem, MergedLo(c, p));
  }

  /** ... and about the chunk after it. */
  lemma ReadForward(c: Layout, top: int, mem: seq<int>, p: int)
    requires Physical(c, top, mem) && p in c && c[p].used && p + c[p].size != top
    ensures var next, hi := p + c[p].size, MergedHi(c, top, p);
            && 0 <= next && next + 1 < |mem| && next in c && SizeField(mem[next + 1]) == c[next].size
            && 0 <= next + c[next].size && next + c[next].size + 1 < |mem| && hi % 2 == 0
            && (mem[next + c[next].size + 1] % 2 == 1 <==> hi == next)
            && (if hi == next then next !in Frees(c, top)
                else hi == next + c[next].size && next in Frees(c, top) && Frees(c, top)[next] == c[next].size)
  {
    hide Tiled, Tags, Coalesced;
    var next := p + c[p].size;
    ReadTags(c, top, mem, p);
    ReadTags(c, top, mem, next);
    ReadTags(c, top, mem, next + c[next].size);
  }

  /** A chunk can get `nb` words where it is: with the free chunk before it, or also with
      what is behind it, but not all of top. */
  ghost predicate Resizable(c: Layout, top: int, p: int, nb: int)
    requires p in c
  {
    var next, room := p + c[p].size, MergedHi(c, top, p) - MergedLo(c, p);
    nb <= next - MergedLo(c, p) || nb + (if next == top then MINSIZE else 0) <= room
  }

  /** It is enough to take in what is behind. */
  ghost predicate Extendable(c: Layout, top: int, p: int, nb: int)
    requires p in c
  {
    nb <= c[p].size || nb + (if p + c[p].size == top then MINSIZE else 0) <= MergedHi(c, top, p) - p
  }

  /** A chunk that is large enough stays. */
  lemma LargeEnough(c: Layout, top: int, mem: seq<int>, p: int, nb: int)
    requires Physical(c, top, mem) && p in c && nb <= c[p].size
    ensures Resizable(c, top, p, nb) && Extendable(c, top, p, nb)
  {
    hide Tiled, Tags, Coalesced;
    ReadTags(c, top, mem, p);
    if !PrevUsed(c, p) {
      ReadTags(c, top, mem, c[p].prev);
    }
  }

  /** The room for that, read off the tags at the end of the arena. */
  lemma ReadRoomAtTop(c: Layout, top: int, mem: seq<int>, p: int, nb: int)
    requires Physical(c, top, mem) && p in c && c[p].used && p + c[p].size == top
    ensures 0 <= p && p + 1 < |mem| && top in c
    ensures var back := if mem[p + 1] % 2 == 0 then mem[p] else 0;
            && 0 <= back && MergedLo(c, p) == p - back
            && (Resizable(c, top, p, nb) <==> nb <= back + c[p].size || nb + MINSIZE <= c[top].size + back + c[p].size)
            && (Extendable(c, top, p, nb) <==> nb <= c[p].size || nb + MINSIZE <= c[top].size + c[p].size)
  {
    hide Tiled, Tags, Coalesced;
    ReadTags(c, top, mem, p);
    ReadBack(c, top, mem, p);
    ReadTags(c, top, mem, top);
  }

  /** And inside it. */
  lemma ReadRoomInside(c: Layout, top: int, mem: seq<int>, p: int, nb: int)
    requires Physical(c, top, mem) && p in c && c[p].used && p + c[p].size != top
    ensures 0 <= p && p + 1 < |mem| && p + c[p].size in c
    ensures var back := if mem[p + 1] % 2 == 0 then mem[p] else 0;
            var ahead := if MergedHi(c, top, p) == p + c[p].size then 0 else c[p + c[p].size].size;
            && 0 <= back && 0 <= ahead && MergedLo(c, p) == p - back
            && (Resizable(c, top, p, nb) <==> nb <= ahead + back + c[p].size)
            && (Extendable(c, top, p, nb) <==> nb <= ahead + c[p].size)
  {
    hide Tiled, Tags, Coalesced;
    ReadTags(c, top, mem, p);
    ReadBack(c, top, mem, p);
    ReadTags(c, top, mem, p + c[p].size);
  }

  /** The region from MergedLo to the end of `p`. */
  lemma BackRegion(c: Layout, top: int, mem: seq<int>, p: int)
    requires Physical(c, top, mem) && p in c
    ensures var lo := MergedLo(c, p);
            && lo in c && 0 <= lo && lo + 4 <= p + c[p].size <= |mem| && PrevUsed(c, lo)
            && FreesOutside(c, top, lo, p + c[p].size) == Frees(c, top) - {lo, p}
            && LiveOutside(c, lo, p + c[p].size) == Live(c) - {p}
  {
    hide Tiled, Tags, Coalesced, FreesOutside, LiveOutside;
    var lo := MergedLo(c, p);
    ReadTags(c, top, mem, p);
    EmptyRegion(c, top, lo);
    if lo != p {
      ReadTags(c, top, mem, lo);
      RegionStep(c, top, mem, lo, lo);
    }
    RegionStep(c, top, mem, lo, p);
  }

  lemma ReleaseIntoTop(c: Layout, top: int, mem: seq<int>, p: int)
    requires Physical(c, top, mem) && p in c && c[p].used && p + c[p].size == top
    ensures var lo := MergedLo(c, p);
            && lo in c && 0 <= lo && lo + 1 < |mem|
            && var mem', d := mem[lo + 1 := |mem| - lo + 1], Fuse(c, lo, |mem|, false);
            && Physical(d, lo, mem') && Released(c, mem, d, mem', p)
            && Frees(d, lo) == Frees(c, top) - {lo}
  {
    hide Tiled, Tags, Coalesced, FreesOutside, LiveOutside, Fuse;
    TopThere(c, top, mem);
    var lo := MergedLo(c, p);
    BackRegion(c, top, mem, p);
    ReadTags(c, top, mem, top);
    RegionStep(c, top, mem, lo, top);
    FuseRegion(c, top, mem, mem[lo + 1 := |mem| - lo + 1], lo, |mem|, false);
  }

  /** The words after a chunk was given back: the inuse bit at `next` is cleared,
      then head and foot of the merged chunk are set. */
  function ReleaseWords(mem: seq<int>, lo: int, next: int, nextsz: int, hi: int): (r: seq<int>)
    requires 0 <= lo && lo + 4 <= next <= hi && hi + 1 < |mem|
    ensures |r| == |mem|
  {
    mem[next + 1 := nextsz][lo + 1 := hi - lo + 1][hi := hi - lo]
  }

  lemma ReleaseBounds(c: Layout, top: int, mem: seq<int>, p: int)
    requires Physical(c, top, mem) && p in c && c[p].used && p + c[p].size != top
    ensures var lo, next, hi := MergedLo(c, p), p + c[p].size, MergedHi(c, top, p);
            && lo in c && 0 <= lo && lo + 4 <= next <= hi && hi + 1 < |mem| && hi in c && next in c
            && (hi == next <==> c[next].used) && (hi == next || hi == next + c[next].size)
            && PrevUsed(c, lo) && c[hi].used
            && FreesOutside(c, top, lo, hi) == Frees(c, top) - {lo, p, next}
            && LiveOutside(c, lo, hi) == Live(c) - {p}
  {
    hide Tiled, Tags, Coalesced, FreesOutside, LiveOutside;
    var lo, next := MergedLo(c, p), p + c[p].size;
    BackRegion(c, top, mem, p);
    ReadTags(c, top, mem, p);
    ReadTags(c, top, mem, next);
    if !c[next].used {
      ReadTags(c, top, mem, next + c[next].size);
      RegionStep(c, top, mem, lo, next);
    }
  }

  lemma Release(c: Layout, top: int, mem: seq<int>, p: int)
    requires Physical(c, top, mem) && p in c && c[p].used && p + c[p].size != top
    ensures var lo, next, hi := MergedLo(c, p), p + c[p].size, MergedHi(c, top, p);
            && lo in c && 0 <= lo && lo + 4 <= next <= hi && hi + 1 < |mem| && next in c
            && var mem', d := ReleaseWords(mem, lo, next, c[next].size, hi), Fuse(c, lo, hi, false);
            && Physical(d, top, mem') && Released(c, mem, d, mem', p)
            && Frees(d, top) == (Frees(c, top) - {lo, next})[lo := hi - lo]
  {
    hide Tiled, Tags, Coalesced, FreesOutside, LiveOutside, Fuse;
    var lo, next, hi := MergedLo(c, p), p + c[p].size, MergedHi(c, top, p);
    ReadTags(c, top, mem, p);
    ReleaseBounds(c, top, mem, p);
    ReadTags(c, top, mem, next);
    ReadTags(c, top, mem, hi);
    FuseRegion(c, top, mem, ReleaseWords(mem, lo, next, c[next].size, hi), lo, hi, false);
  }

  // ------------------------------------------------------------------
  // Memory from the system

  function Zeros(n: nat): (z: seq<int>)
    ensures |z| == n
  {
    seq(n, i => 0)
  }

  /** Before the first extension nothing is free and nothing is in use. */
  lemma NothingYet(d: Layout, mem': seq<int>)
    ensures Frees(map[], 0) == map[] && Live(map[]) == {} && Undisturbed(map[], [], d, mem', {})
  {
  }

  lemma FirstTop(n: int)
    requires MINSIZE <= n && n % 2 == 0
    ensures var c: Layout, mem := map[0 := Chunk(n, false, 0)], Zeros(n)[1 := n + 1];
            Physical(c, 0, mem) && Frees(c, 0) == map[] && Live(c) == {}
  {
  }

  /** Top grows by `n` words at its end. */
  lemma ExtendTop(c: Layout, top: int, mem: seq<int>, n: nat)
    requires Physical(c, top, mem) && n % 2 == 0
    ensures top in c && 0 <= top && top + 1 < |mem|
    ensures var mem' := (mem + Zeros(n))[top + 1 := c[top].size + n + 1];
            var d := c[top := c[top].(size := c[top].size + n)];
            && Physical(d, top, mem') && Frees(d, top) == Frees(c, top) && Live(d) == Live(c)
            && Undisturbed(c, mem, d, mem', Live(c))
  {
    hide Tags, Coalesced, Zeros;
    ReadTags(c, top, mem, top);
    var mem' := (mem + Zeros(n))[top + 1 := c[top].size + n + 1];
    var d := c[top := c[top].(size := c[top].size + n)];
    ExtendTiled(c, top, |mem|, n);
    ExtendTags(c, top, mem, n);
    ExtendCoalesced(c, top, mem, n);
    hide Tiled;
    forall p | p in Live(c) ensures SameUser(c, mem, d, mem', p) {
      LiveNotTop(c, top, mem, p);
      ReadSize(c, top, mem, p);
      ChunksApart(c, top, mem, p, top);
    }
  }

  lemma ExtendTags(c: Layout, top: int, mem: seq<int>, n: nat)
    requires Physical(c, top, mem) && n % 2 == 0 && top in c && 0 <= top && top + 1 < |mem|
    requires Tiled(c[top := c[top].(size := c[top].size + n)], top, |mem| + n)
    ensures Tags(c[top := c[top].(size := c[top].size + n)], top, (mem + Zeros(n))[top + 1 := c[top].size + n + 1])
  {
    hide Coalesced, Zeros;
    var mem' := (mem + Zeros(n))[top + 1 := c[top].size + n + 1];
    var d := c[top := c[top].(size := c[top].size + n)];
    ReadTags(c, top, mem, top);
    forall p | p in d ensures HeadOk(d, top, mem', p) && FootOk(d, top, mem', p) {
      InBounds(c, top, |mem|, p);
      InBounds(d, top, |mem'|, p);
      assert HeadOk(c, top, mem, p) && FootOk(c, top, mem, p);
    }
  }

  lemma ExtendTiled(c: Layout, top: int, end: int, n: nat)
    requires Tiled(c, top, end) && n % 2 == 0
    ensures Tiled(c[top := c[top].(size := c[top].size + n)], top, end + n)
  {
    hide ChunkOk, Apart;
    var d := c[top := c[top].(size := c[top].size + n)];
    forall p | p in d ensures ChunkOk(d, top, end + n, p) {
      ExtendChunkOk(c, top, end, n, p);
    }
    forall p, q | p in d && q in d ensures Apart(d, p, q) {
      ExtendApart(c, top, end, n, p, q);
    }
  }

  lemma ExtendChunkOk(c: Layout, top: int, end: int, n: nat, p: int)
    requires Tiled(c, top, end) && n % 2 == 0 && p in c
    ensures ChunkOk(c[top := c[top].(size := c[top].size + n)], top, end + n, p)
  {
    assert ChunkOk(c, top, end, p);
    InBounds(c, top, end, p);
    if p != 0 {
      InBounds(c, top, end, c[p].prev);
      assert c[p].prev != top by { assert ChunkOk(c, top, end, top); }
    }
  }

  lemma ExtendApart(c: Layout, top: int, end: int, n: nat, p: int, q: int)
    requires Tiled(c, top, end) && p in c && q in c
    ensures Apart(c[top := c[top].(size := c[top].size + n)], p, q)
  {
    InBounds(c, top, end, q);
    assert Apart(c, p, q) && ChunkOk(c, top, end, top);
  }

  lemma ExtendCoalesced(c: Layout, top: int, mem: seq<int>, n: nat)
    requires Physical(c, top, mem)
    ensures Coalesced(c[top := c[top].(size := c[top].size + n)], top)
  {
    hide Tiled, Tags;
  }

  // ------------------------------------------------------------------
  // realloc

  /** The first `n` user words of chunk `r` are those chunk `p` had. */
  ghost predicate Copied(mem: seq<int>, p: int, mem': seq<int>, r: int, n: int) {
    forall x {:trigger CopiedAt(mem, p, mem', r, x)} {:trigger mem'[x]} | r + 2 <= x < r + 2 + n :: CopiedAt(mem, p, mem', r, x)
  }

  ghost predicate CopiedAt(mem: seq<int>, p: int, mem': seq<int>, r: int, x: int) {
    0 <= x < |mem'| && 0 <= x - r + p < |mem| && mem'[x] == mem[x - r + p]
  }

  function Min(a: int, b: int): int { if a <= b then a else b }

  /** Chunk `p` became chunk `r` with room for `nb` words, keeping what fits of its
      contents; all else in use is as it was. */
  ghost predicate Moved(c: Layout, mem: seq<int>, d: Layout, mem': seq<int>, p: int, r: int, nb: int) {
    && p in c && r !in Live(c) - {p} && r in d && nb <= d[r].size < nb + MINSIZE
    && Live(d) == Live(c) - {p} + {r}
    && Undisturbed(c, mem, d, mem', Live(c) - {p})
    && Copied(mem, p, mem', r, Min(c[p].size, d[r].size) - 1)
  }

  /** Writing user words of a chunk in use disturbs neither the tags nor any other
      chunk in use. */
  lemma UserWrite(c: Layout, top: int, mem: seq<int>, mem': seq<int>, q: int)
    requires Physical(c, top, mem) && q in c && c[q].used && |mem'| == |mem|
    requires forall x | 0 <= x < |mem| && !(q + 2 <= x <= q + c[q].size) :: mem'[x] == mem[x]
    ensures Physical(c, top, mem')
    ensures Undisturbed(c, mem, c, mem', Live(c) - {q})
  {
    hide Coalesced;
    forall p | p in c ensures HeadOk(c, top, mem', p) && FootOk(c, top, mem', p) {
      InBounds(c, top, |mem|, p);
      assert HeadOk(c, top, mem, p) && FootOk(c, top, mem, p) && Apart(c, p, q) && Apart(c, q, p);
    }
    forall p | p in Live(c) - {q} ensures SameUser(c, mem, c, mem', p) {
      assert Apart(c, p, q) && Apart(c, q, p);
    }
  }

  lemma UndisturbedSub(c: Layout, mem: seq<int>, d: Layout, mem': seq<int>, keep: set<int>, less: set<int>)
    requires Undisturbed(c, mem, d, mem', keep) && less <= keep
    ensures Undisturbed(c, mem, d, mem', less)
  {
  }

  /** After the region from `lo` to `hi` around `p` was settled as one chunk. */
  lemma SettledMoved(c: Layout, m: seq<int>, mem: seq<int>, d: Layout, mem': seq<int>, p: int, lo: int, hi: int, nb: int)
    requires p in c && lo <= p && p + c[p].size <= hi && lo + 2 <= |mem| == |m| == |mem'| && 0 <= lo && hi <= |mem|
    requires LiveOutside(c, lo, hi) == Live(c) - {p} && Live(d) == LiveOutside(c, lo, hi) + {lo} && lo < hi
    requires Undisturbed(c, m, d, mem', LiveOutside(c, lo, hi))
    requires lo in d && nb <= d[lo].size < nb + MINSIZE && lo + d[lo].size < |mem|
    requires forall x | lo + 2 <= x <= lo + d[lo].size && 0 <= x < |mem| :: mem'[x] == mem[x]
    requires Copied(m, p, mem, lo, c[p].size - 1)
    ensures Moved(c, m, d, mem', p, lo, nb)
  {
    InsideNotOutside(c, lo, hi, lo);
    hide Live, LiveOutside, Undisturbed;
    forall x | lo + 2 <= x < lo + 2 + (Min(c[p].size, d[lo].size) - 1) ensures CopiedAt(m, p, mem', lo, x) {
      assert CopiedAt(m, p, mem, lo, x);
    }
  }

  /** The region from `p` over its free successor. */
  lemma ForwardRegion(c: Layout, top: int, mem: seq<int>, p: int)
    requires Physical(c, top, mem) && p in c && c[p].used && p + c[p].size in Frees(c, top)
    ensures var next := p + c[p].size;
            && next in c && next + c[next].size in c && next + c[next].size + 1 < |mem|
            && FreesOutside(c, top, p, next + c[next].size) == Frees(c, top) - {next}
            && LiveOutside(c, p, next + c[next].size) == Live(c) - {p}
  {
    hide Tiled, Tags, Coalesced, FreesOutside, LiveOutside;
    var next := p + c[p].size;
    ReadTags(c, top, mem, p);
    ReadTags(c, top, mem, next);
    ReadTags(c, top, mem, next + c[next].size);
    EmptyRegion(c, top, p);
    RegionStep(c, top, mem, p, p);
    RegionStep(c, top, mem, p, next);
  }

  /** The region of `p` alone. */
  lemma OwnRegion(c: Layout, top: int, mem: seq<int>, p: int)
    requires Physical(c, top, mem) && p in c && c[p].used
    ensures p + c[p].size in c && p + c[p].size + 1 < |mem|
    ensures FreesOutside(c, top, p, p + c[p].size) == Frees(c, top)
    ensures LiveOutside(c, p, p + c[p].size) == Live(c) - {p}
  {
    hide Tiled, Tags, Coalesced, FreesOutside, LiveOutside;
    ReadTags(c, top, mem, p);
    ReadTags(c, top, mem, p + c[p].size);
    EmptyRegion(c, top, p);
    RegionStep(c, top, mem, p, p);
  }

  /** The region from the free predecessor of `p` to its end, or to the end of its
      free successor. */
  lemma BackwardRegion(c: Layout, top: int, mem: seq<int>, p: int, both: bool)
    requires Physical(c, top, mem) && p in c && c[p].used && !PrevUsed(c, p)
    requires both ==> p + c[p].size in Frees(c, top)
    ensures var lo, next := c[p].prev, p + c[p].size;
            && lo in c && 0 <= lo && lo + 4 <= p && lo % 2 == 0 && lo in Frees(c, top) && lo != next
            && next in c && 0 <= next && next + 1 < |mem|
            && var hi := if both then next + c[next].size else next;
            && hi in c && hi + 1 < |mem|
            && FreesOutside(c, top, lo, hi) == (if both then Frees(c, top) - {lo} - {next} else Frees(c, top) - {lo})
            && LiveOutside(c, lo, hi) == Live(c) - {p}
  {
    hide Tiled, Tags, Coalesced, FreesOutside, LiveOutside;
    var lo, next := c[p].prev, p + c[p].size;
    ReadTags(c, top, mem, p);
    ReadTags(c, top, mem, lo);
    ReadTags(c, top, mem, next);
    BackRegion(c, top, mem, p);
    if both {
      ReadTags(c, top, mem, next + c[next].size);
      RegionStep(c, top, mem, lo, next);
    }
  }

  /** The region from `lo`, which is `p` or its free predecessor, to the end of top. */
  lemma TopRegion(c: Layout, top: int, mem: seq<int>, p: int, back: bool)
    requires Physical(c, top, mem) && p in c && c[p].used && p + c[p].size == top
    requires back ==> !PrevUsed(c, p)
    ensures var lo := if back then c[p].prev else p;
            && lo in c && 0 <= lo && lo + 4 <= top && lo % 2 == 0 && (back ==> lo in Frees(c, top) && lo + 4 <= p)
            && FreesOutside(c, top, lo, |mem|) == (if back then Frees(c, top) - {lo} else Frees(c, top))
            && LiveOutside(c, lo, |mem|) == Live(c) - {p}
  {
    hide Tiled, Tags, Coalesced, FreesOutside, LiveOutside;
    TopThere(c, top, mem);
    ReadTags(c, top, mem, p);
    ReadTags(c, top, mem, top);
    var lo := if back then c[p].prev else p;
    ReadTags(c, top, mem, lo);
    if back {
      BackRegion(c, top, mem, p);
    } else {
      EmptyRegion(c, top, p);
      RegionStep(c, top, mem, p, p);
    }
    RegionStep(c, top, mem, lo, top);
  }

  function TopCutWords(mem: seq<int>, lo: int, nb: int): (r: seq<int>)
    requires 0 <= lo && 4 <= nb && lo + nb + MINSIZE <= |mem|
    ensures |r| == |mem| && forall x | 0 <= x < |mem| && x != lo + 1 && x != lo + nb + 1 :: r[x] == mem[x]
  {
    mem[lo + nb + 1 := |mem| - lo - nb + 1][lo + 1 := nb + mem[lo + 1] % 2]
  }

  lemma TopCut(c: Layout, top: int, m: seq<int>, mem: seq<int>, lo: int, nb: int)
    requires Physical(c, top, m) && lo in c && SameOutside(m, mem, lo, |m|)
    requires 0 <= lo && lo % 2 == 0 && 4 <= nb && nb % 2 == 0 && lo + nb + MINSIZE <= |m| && mem[lo + 1] == m[lo + 1]
    ensures var d, mem' := Split(c, lo, lo + nb, |m|, true, false), TopCutWords(mem, lo, nb);
            && Physical(d, lo + nb, mem') && lo in d && d[lo].size == nb
            && Frees(d, lo + nb) == FreesOutside(c, top, lo, |m|)
            && Live(d) == LiveOutside(c, lo, |m|) + {lo} && Undisturbed(c, m, d, mem', LiveOutside(c, lo, |m|))
  {
    hide Tiled, Tags, Coalesced, FreesOutside, LiveOutside, Split;
    ReadTags(c, top, m, lo);
    SplitRegion(c, top, m, TopCutWords(mem, lo, nb), lo, lo + nb, |m|, false);
  }

  /** Two neighbours in use. */
  lemma JoinRegion(c: Layout, top: int, mem: seq<int>, p: int)
    requires Physical(c, top, mem) && p in c && c[p].used && p + c[p].size in Live(c)
    ensures var q := p + c[p].size;
            && q in c && q + c[q].size in c && 0 <= q && q + c[q].size + 1 < |mem|
            && FreesOutside(c, top, p, q + c[q].size) == Frees(c, top)
            && LiveOutside(c, p, q + c[q].size) == Live(c) - {p} - {q}
  {
    hide Tiled, Tags, Coalesced, FreesOutside, LiveOutside;
    var q := p + c[p].size;
    ReadTags(c, top, mem, p);
    ReadTags(c, top, mem, q);
    ReadTags(c, top, mem, q + c[q].size);
    EmptyRegion(c, top, p);
    RegionStep(c, top, mem, p, p);
    RegionStep(c, top, mem, p, q);
  }

  /** An allocation right behind `p` was joined to it. */
  lemma JoinMoved(c: Layout, m: seq<int>, c1: Layout, m1: seq<int>, d: Layout, mem': seq<int>, p: int, q: int, nb: int)
    requires p in Live(c) && Allocated(c, m, c1, m1, q, nb) && 0 <= p && p + c[p].size < |m| && |mem'| == |m1|
    requires Live(d) == Live(c1) - {p} - {q} + {p} && Undisturbed(c1, m1, d, mem', Live(c1) - {p} - {q})
    requires p in d && c[p].size <= nb <= d[p].size < nb + MINSIZE
    requires forall x | p + 2 <= x <= p + d[p].size && 0 <= x < |mem'| :: mem'[x] == m1[x]
    ensures Moved(c, m, d, mem', p, p, nb)
  {
    assert p in c && SameUser(c, m, c1, m1, p);
    hide Live;
    assert Live(c1) - {p} - {q} == Live(c) - {p};
    UndisturbedSub(c, m, c1, m1, Live(c), Live(c) - {p});
    UndisturbedTrans(c, m, c1, m1, d, mem', Live(c) - {p});
    assert Live(d) == Live(c) - {p} + {p};
    StayedCopied(c, m, c1, m1, mem', p, d[p].size);
  }

  lemma StayedCopied(c: Layout, m: seq<int>, c1: Layout, m1: seq<int>, mem': seq<int>, p: int, size: int)
    requires p in c && SameUser(c, m, c1, m1, p) && 0 <= p && p + c[p].size < |m| && |mem'| == |m1| && c[p].size <= size
    requires forall x | p + 2 <= x <= p + size && 0 <= x < |mem'| :: mem'[x] == m1[x]
    ensures Copied(m, p, mem', p, Min(c[p].size, size) - 1)
  {
    var n := Min(c[p].size, size) - 1;
    forall x | p + 2 <= x < p + 2 + n ensures CopiedAt(m, p, mem', p, x) {
      var w := m[x];
      assert m1[x] == w;
      assert mem'[x] == w;
    }
  }

  /** The contents of `p` were copied to a new allocation and `p` was freed. */
  lemma CopyMoved(c: Layout, m: seq<int>, c1: Layout, m1: seq<int>, m2: seq<int>, d: Layout, m3: seq<int>, p: int, q: int, nb: int)
    requires p in Live(c) && Allocated(c, m, c1, m1, q, nb) && 0 <= p && p + c[p].size < |m|
    requires Undisturbed(c1, m1, c1, m2, Live(c1) - {q}) && Released(c1, m2, d, m3, p)
    requires c[p].size <= nb && 0 <= q && q + c1[q].size < |m2|
    requires forall x | q + 2 <= x < q + 2 + c[p].size - 1 && 0 <= x - q + p < |m1| && 0 <= x < |m2| :: m2[x] == m1[x - q + p]
    ensures Moved(c, m, d, m3, p, q, nb)
  {
    assert p in c && SameUser(c, m, c1, m1, p);
    assert q in Live(c1) - {p} && SameUser(c1, m2, d, m3, q);
    hide Live;
    var keep := Live(c) - {p};
    UndisturbedSub(c, m, c1, m1, Live(c), keep);
    UndisturbedSub(c1, m1, c1, m2, Live(c1) - {q}, keep);
    UndisturbedSub(c1, m2, d, m3, Live(c1) - {p}, keep);
    UndisturbedTrans(c, m, c1, m1, c1, m2, keep);
    UndisturbedTrans(c, m, c1, m2, d, m3, keep);
    assert Live(d) == Live(c) - {p} + {q};
    forall x | q + 2 <= x < q + 2 + (Min(c[p].size, d[q].size) - 1) ensures CopiedAt(m, p, m3, q, x) {
      var w := m[x - q + p];
      assert m1[x - q + p] == w;
      var v := m2[x];
      assert m3[x] == v;
    }
  }

  lemma AllocatedSize(c: Layout, mem: seq<int>, d: Layout, mem': seq<int>, r: int, nb: int)
    requires Allocated(c, mem, d, mem', r, nb)
    ensures r in d && nb <= d[r].size && r in Live(d) && r !in Live(c)
  {
  }

  lemma AllocatedThere(c: Layout, mem: seq<int>, d: Layout, mem': seq<int>, p: int, r: int, nb: int)
    requires Allocated(c, mem, d, mem', r, nb) && p in Live(c)
    ensures p in c && p in d && d[p].size == c[p].size && p in Live(d) && r in Live(d) && r != p
  {
    assert SameUser(c, mem, d, mem', p);
  }

  lemma ChunksApart(c: Layout, top: int, mem: seq<int>, p: int, q: int)
    requires Physical(c, top, mem) && p in c && q in c && p != q
    ensures p + c[p].size <= q || q + c[q].size <= p
  {
    assert Apart(c, p, q) && Apart(c, q, p);
  }

  /** A new allocation whose front was given back and whose rest was cut to size. */
  lemma AlignedAllocated(c: Layout, m: seq<int>, c1: Layout, m1: seq<int>, q: int, want: int,
                         c2: Layout, m2: seq<int>, r: int, d: Layout, m3: seq<int>, nb: int)
    requires Allocated(c, m, c1, m1, q, want)
    requires Live(c2) == Live(c1) - {q} + {r} && r !in Live(c1) - {q} && Undisturbed(c1, m1, c2, m2, Live(c1) - {q})
    requires Moved(c2, m2, d, m3, r, r, nb)
    ensures Allocated(c, m, d, m3, r, nb)
  {
    hide Live, Copied;
    assert Live(c1) - {q} == Live(c) == Live(c2) - {r};
    UndisturbedTrans(c, m, c1, m1, c2, m2, Live(c));
    UndisturbedTrans(c, m, c2, m2, d, m3, Live(c));
  }
}
