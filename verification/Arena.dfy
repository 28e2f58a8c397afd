/** The physical side of the allocator: how chunks tile the arena and what the
    boundary tags in memory say about them.

    Every address and every size is counted in words of SIZE_SZ bytes, relative
    to the first chunk of the arena.  A chunk at `p` has its size word at `p + 1`
    (sizes are even, so the lowest bit carries PREV_INUSE) and, while it is in
    use, owns the words `p + 2 .. p + size` inclusive: the last of these is the
    `prev_size` word of the next chunk, which is a footer only while the chunk
    is free.
 */
module Arena {

  const MINSIZE := 4

  /** What is really there at an address.  `prev` is the address of the chunk
      physically before (meaningless for the chunk at 0). */
  datatype Chunk = Chunk(size: int, used: bool, prev: int)

  type Layout = map<int, Chunk>

  ghost predicate ChunkOk(c: Layout, top: int, end: int, p: int)
    requires p in c
  {
    && 0 <= p && p % 2 == 0
    && MINSIZE <= c[p].size && c[p].size % 2 == 0 && p + c[p].size <= end
    && (p != 0 ==> c[p].prev in c && c[p].prev + c[c[p].prev].size == p)
    && (if p == top then p + c[p].size == end && !c[p].used
        else p + c[p].size in c && c[p + c[p].size].prev == p)
  }

  /** The chunks follow each other without gap or overlap from 0 to `end`, and
      the last one is `top`. */
  ghost predicate Tiled(c: Layout, top: int, end: int) {
    && 0 in c && top in c
    && (forall p {:trigger ChunkOk(c, top, end, p)} | p in c :: ChunkOk(c, top, end, p))
    && (forall p, q {:trigger Apart(c, p, q)} | p in c && q in c :: Apart(c, p, q))
  }

  ghost predicate Apart(c: Layout, p: int, q: int)
    requires p in c && q in c
  {
    p < q ==> p + c[p].size <= q
  }

  ghost predicate PrevUsed(c: Layout, p: int)
    requires p in c
  {
    p == 0 || (c[p].prev in c && c[c[p].prev].used)
  }

  ghost function Head(c: Layout, p: int): int
    requires p in c
  {
    c[p].size + if PrevUsed(c, p) then 1 else 0
  }

  /** Size words and PREV_INUSE bits of all chunks, and footers of the free
      ones, agree with the layout. */
  ghost predicate Tags(c: Layout, top: int, mem: seq<int>)
    requires Tiled(c, top, |mem|)
  {
    && (forall p {:trigger HeadOk(c, top, mem, p)} | p in c :: HeadOk(c, top, mem, p))
    && (forall p {:trigger FootOk(c, top, mem, p)} | p in c :: FootOk(c, top, mem, p))
  }

  ghost predicate HeadOk(c: Layout, top: int, mem: seq<int>, p: int)
    requires Tiled(c, top, |mem|) && p in c
  {
    InBounds(c, top, |mem|, p);
    mem[p + 1] == Head(c, p)
  }

  ghost predicate FootOk(c: Layout, top: int, mem: seq<int>, p: int)
    requires Tiled(c, top, |mem|) && p in c
  {
    InBounds(c, top, |mem|, p);
    !c[p].used && p != top ==> mem[p + c[p].size] == c[p].size
  }

  lemma InBounds(c: Layout, top: int, end: int, p: int)
    requires Tiled(c, top, end) && p in c
    ensures 0 <= p && p + 4 <= p + c[p].size <= end
    ensures p <= top
    ensures p != top ==> p + c[p].size <= top < end
    ensures p != 0 ==> c[p].prev in c
  {
    assert ChunkOk(c, top, end, p);
    assert ChunkOk(c, top, end, top);
    assert Apart(c, p, top) && Apart(c, top, p);
  }

  /** No two free chunks touch and no free chunk borders top. */
  ghost predicate Coalesced(c: Layout, top: int)
  {
    forall p | p in c && !c[p].used && p != top :: p + c[p].size in c && c[p + c[p].size].used
  }

  ghost function Frees(c: Layout, top: int): map<int, int> {
    map p | p in c && !c[p].used && p != top :: c[p].size
  }

  // ------------------------------------------------------------------
  // Turning the region [lo, hi) into one chunk, or into two.

  ghost predicate Region(c: Layout, end: int, lo: int, hi: int) {
    lo in c && lo < hi && (hi in c || hi == end)
  }

  ghost function Fuse(c: Layout, lo: int, hi: int, used: bool): Layout
    requires lo in c
  {
    map q | q in c && !(lo < q < hi) ::
      if q == lo then Chunk(hi - lo, used, c[lo].prev)
      else if q == hi then c[q].(prev := lo)
      else c[q]
  }

  /** Splits the chunk at `p` in two at `mid`. */
  ghost function Cut(c: Layout, p: int, mid: int, usedLo: bool, usedHi: bool): Layout
    requires p in c
  {
    var hi := p + c[p].size;
    var d := c[p := Chunk(mid - p, usedLo, c[p].prev)][mid := Chunk(hi - mid, usedHi, p)];
    if hi in d then d[hi := d[hi].(prev := mid)] else d
  }

  lemma FuseTiled(c: Layout, top: int, end: int, lo: int, hi: int, used: bool)
    requires Tiled(c, top, end) && Region(c, end, lo, hi)
    requires hi == end ==> !used
    ensures Tiled(Fuse(c, lo, hi, used), if hi == end then lo else top, end)
  {
    var d := Fuse(c, lo, hi, used);
    var top' := if hi == end then lo else top;
    forall p | p in d ensures ChunkOk(d, top', end, p) {
      FuseChunkOk(c, top, end, lo, hi, used, p);
    }
    forall p, q | p in d && q in d ensures Apart(d, p, q) {
      FuseApart(c, top, end, lo, hi, used, p, q);
    }
    RegionEdges(c, top, end, lo, hi);
  }

  lemma FuseChunkOk(c: Layout, top: int, end: int, lo: int, hi: int, used: bool, p: int)
    requires Tiled(c, top, end) && Region(c, end, lo, hi)
    requires hi == end ==> !used
    requires p in Fuse(c, lo, hi, used)
    ensures ChunkOk(Fuse(c, lo, hi, used), if hi == end then lo else top, end, p)
  {
    RegionEdges(c, top, end, lo, hi);
    if p == lo {
      if lo != 0 {
        OutsideRegion(c, top, end, lo, hi, c[lo].prev);
      }
    } else {
      OutsideRegion(c, top, end, lo, hi, p);
    }
  }

  lemma FuseApart(c: Layout, top: int, end: int, lo: int, hi: int, used: bool, p: int, q: int)
    requires Tiled(c, top, end) && Region(c, end, lo, hi)
    requires p in Fuse(c, lo, hi, used) && q in Fuse(c, lo, hi, used)
    ensures Apart(Fuse(c, lo, hi, used), p, q)
  {
    assert Apart(c, p, q) && Apart(c, p, lo);
  }

  lemma RegionEdges(c: Layout, top: int, end: int, lo: int, hi: int)
    requires Tiled(c, top, end) && Region(c, end, lo, hi)
    ensures 0 <= lo && lo % 2 == 0 && hi % 2 == 0 && lo + MINSIZE <= lo + c[lo].size <= hi <= end
    ensures lo != 0 ==> c[lo].prev in c && c[lo].prev + c[c[lo].prev].size == lo && c[lo].prev < lo
    ensures hi != end ==> hi <= top
    ensures top < end
  {
    InBounds(c, top, end, lo);
    InBounds(c, top, end, top);
    assert ChunkOk(c, top, end, lo) && ChunkOk(c, top, end, top);
    if lo != 0 {
      InBounds(c, top, end, c[lo].prev);
    }
    if hi in c {
      InBounds(c, top, end, hi);
      assert ChunkOk(c, top, end, hi) && Apart(c, lo, hi);
    }
  }

  /** A chunk outside the region has both neighbours outside it, or is next to it. */
  lemma OutsideRegion(c: Layout, top: int, end: int, lo: int, hi: int, p: int)
    requires Tiled(c, top, end) && Region(c, end, lo, hi)
    requires p in c && !(lo <= p < hi)
    ensures ChunkOk(c, top, end, p)
    ensures p != 0 && p != hi ==> !(lo <= c[p].prev < hi)
    ensures p != top ==> !(lo < p + c[p].size < hi)
    ensures p < lo ==> p + c[p].size <= lo && p != top
  {
    RegionEdges(c, top, end, lo, hi);
    InBounds(c, top, end, p);
    assert ChunkOk(c, top, end, p) && Apart(c, p, lo);
    if p != 0 {
      assert ChunkOk(c, top, end, c[p].prev) && Apart(c, c[p].prev, lo);
      if hi in c {
        assert Apart(c, c[p].prev, hi);
      }
    }
  }

  lemma CutTiled(c: Layout, top: int, end: int, p: int, mid: int, usedLo: bool, usedHi: bool)
    requires Tiled(c, top, end) && p in c
    requires p + MINSIZE <= mid && mid + MINSIZE <= p + c[p].size && mid % 2 == 0
    requires p == top ==> !usedHi
    ensures Tiled(Cut(c, p, mid, usedLo, usedHi), if p == top then mid else top, end)
  {
    var d := Cut(c, p, mid, usedLo, usedHi);
    var top' := if p == top then mid else top;
    forall q | q in d ensures ChunkOk(d, top', end, q) {
      CutChunkOk(c, top, end, p, mid, usedLo, usedHi, q);
    }
    forall q, r | q in d && r in d ensures Apart(d, q, r) {
      CutApart(c, top, end, p, mid, usedLo, usedHi, q, r);
    }
  }

  lemma CutChunkOk(c: Layout, top: int, end: int, p: int, mid: int, usedLo: bool, usedHi: bool, q: int)
    requires Tiled(c, top, end) && p in c
    requires p + MINSIZE <= mid && mid + MINSIZE <= p + c[p].size && mid % 2 == 0
    requires p == top ==> !usedHi
    requires q in Cut(c, p, mid, usedLo, usedHi)
    ensures ChunkOk(Cut(c, p, mid, usedLo, usedHi), if p == top then mid else top, end, q)
  {
    assert ChunkOk(c, top, end, p);
    assert mid in c ==> Apart(c, p, mid);
    if q != mid {
      assert ChunkOk(c, top, end, q);
      if q != p {
        assert Apart(c, p, q) && Apart(c, q, p);
      }
    }
  }

  lemma CutApart(c: Layout, top: int, end: int, p: int, mid: int, usedLo: bool, usedHi: bool, q: int, r: int)
    requires Tiled(c, top, end) && p in c
    requires p < mid < p + c[p].size
    requires q in Cut(c, p, mid, usedLo, usedHi) && r in Cut(c, p, mid, usedLo, usedHi)
    ensures Apart(Cut(c, p, mid, usedLo, usedHi), q, r)
  {
    if q in c {
      assert Apart(c, q, p) && Apart(c, p, q);
      if r in c {
        assert Apart(c, q, r);
      }
    }
    if r in c {
      assert Apart(c, p, r) && Apart(c, r, p);
    }
  }

  // ------------------------------------------------------------------
  // Tags after a change inside one region.

  /** Memory agrees outside the words a change of the region [lo, hi) may touch:
      everything after the first word of the region up to the size word at `hi`. */
  ghost predicate SameOutside(mem: seq<int>, mem': seq<int>, lo: int, hi: int) {
    && |mem| == |mem'|
    && (forall x | 0 <= x < |mem| && (x <= lo || hi + 1 < x) :: mem'[x] == mem[x])
  }

  /** Layouts agree outside the region [lo, hi). */
  ghost predicate SameChunksOutside(c: Layout, d: Layout, lo: int, hi: int) {
    && (forall p | p in d && (p < lo || hi < p) :: p in c && c[p] == d[p])
    && (lo in c && lo in d && c[lo].prev == d[lo].prev)
    && (hi in d ==> hi in c && c[hi].size == d[hi].size && c[hi].used == d[hi].used)
  }

  lemma RegionTags(c: Layout, top: int, mem: seq<int>, d: Layout, top': int, mem': seq<int>, lo: int, hi: int)
    requires Tiled(c, top, |mem|) && Tags(c, top, mem) && Region(c, |mem|, lo, hi)
    requires SameOutside(mem, mem', lo, hi) && SameChunksOutside(c, d, lo, hi)
    requires Tiled(d, top', |mem'|)
    requires top' == if hi == |mem| then top' else top
    requires hi == |mem| ==> lo <= top'
    requires forall p {:trigger HeadOk(d, top', mem', p)} | p in d && lo <= p <= hi :: HeadOk(d, top', mem', p)
    requires forall p {:trigger FootOk(d, top', mem', p)} | p in d && lo <= p < hi :: FootOk(d, top', mem', p)
    ensures Tags(d, top', mem')
  {
    forall p | p in d ensures HeadOk(d, top', mem', p) && FootOk(d, top', mem', p) {
      InBounds(d, top', |mem'|, p);
      if p < lo || hi < p {
        InBounds(c, top, |mem|, p);
        OutsideRegion(c, top, |mem|, lo, hi, p);
        assert HeadOk(c, top, mem, p) && FootOk(c, top, mem, p);
        if p != 0 {
          InBounds(c, top, |mem|, c[p].prev);
        }
      } else if p == hi {
        assert FootOk(c, top, mem, p);
      }
    }
  }

  ghost predicate WordIs(mem: seq<int>, a: int, v: int) {
    0 <= a < |mem| && mem[a] == v
  }

  function Bit(b: bool): int { if b then 1 else 0 }

  ghost function TopAfter(top: int, end: int, last: int, hi: int): int {
    if hi == end then last else top
  }

  lemma FuseTags(c: Layout, top: int, mem: seq<int>, mem': seq<int>, lo: int, hi: int, used: bool)
    requires Tiled(c, top, |mem|) && Tags(c, top, mem) && Region(c, |mem|, lo, hi)
    requires SameOutside(mem, mem', lo, hi)
    requires hi == |mem| ==> !used
    requires WordIs(mem', lo + 1, hi - lo + Bit(PrevUsed(c, lo)))
    requires hi != |mem| ==> WordIs(mem', hi + 1, c[hi].size + Bit(used))
    requires hi != |mem| && !used ==> WordIs(mem', hi, hi - lo)
    ensures Tiled(Fuse(c, lo, hi, used), TopAfter(top, |mem|, lo, hi), |mem'|)
    ensures Tags(Fuse(c, lo, hi, used), TopAfter(top, |mem|, lo, hi), mem')
  {
    var d, top' := Fuse(c, lo, hi, used), TopAfter(top, |mem|, lo, hi);
    FuseTiled(c, top, |mem|, lo, hi, used);
    RegionEdges(c, top, |mem|, lo, hi);
    forall p | p in d && lo <= p <= hi ensures HeadOk(d, top', mem', p) && (p < hi ==> FootOk(d, top', mem', p)) {
      assert p == lo || p == hi;
      InBounds(d, top', |mem'|, p);
    }
    RegionTags(c, top, mem, d, top', mem', lo, hi);
  }

  /** The region [lo, hi) becomes the two chunks [lo, mid) and [mid, hi). */
  ghost function Split(c: Layout, lo: int, mid: int, hi: int, usedLo: bool, usedHi: bool): Layout
    requires lo in c
  {
    Cut(Fuse(c, lo, hi, false), lo, mid, usedLo, usedHi)
  }

  lemma SplitTags(c: Layout, top: int, mem: seq<int>, mem': seq<int>, lo: int, mid: int, hi: int, usedLo: bool, usedHi: bool)
    requires Tiled(c, top, |mem|) && Tags(c, top, mem) && Region(c, |mem|, lo, hi)
    requires lo + MINSIZE <= mid && mid + MINSIZE <= hi && mid % 2 == 0
    requires SameOutside(mem, mem', lo, hi)
    requires usedLo && (hi == |mem| ==> !usedHi)
    requires WordIs(mem', lo + 1, mid - lo + Bit(PrevUsed(c, lo)))
    requires WordIs(mem', mid + 1, hi - mid + 1)
    requires hi != |mem| ==> WordIs(mem', hi + 1, c[hi].size + Bit(usedHi))
    requires hi != |mem| && !usedHi ==> WordIs(mem', hi, hi - mid)
    ensures Tiled(Split(c, lo, mid, hi, usedLo, usedHi), TopAfter(top, |mem|, mid, hi), |mem'|)
    ensures Tags(Split(c, lo, mid, hi, usedLo, usedHi), TopAfter(top, |mem|, mid, hi), mem')
  {
    var f, top1 := Fuse(c, lo, hi, false), TopAfter(top, |mem|, lo, hi);
    var d, top' := Split(c, lo, mid, hi, usedLo, usedHi), TopAfter(top, |mem|, mid, hi);
    RegionEdges(c, top, |mem|, lo, hi);
    FuseTiled(c, top, |mem|, lo, hi, false);
    CutTiled(f, top1, |mem|, lo, mid, usedLo, usedHi);
    forall p | p in d && lo <= p <= hi ensures HeadOk(d, top', mem', p) && (p < hi ==> FootOk(d, top', mem', p)) {
      assert p == lo || p == mid || p == hi;
      InBounds(d, top', |mem'|, p);
    }
    RegionTags(c, top, mem, d, top', mem', lo, hi);
  }

  // ------------------------------------------------------------------
  // Free chunks after a change inside one region.

  /** The free chunks outside [lo, hi). */
  ghost function FreesOutside(c: Layout, top: int, lo: int, hi: int): map<int, int> {
    map p | p in Frees(c, top) && !(lo <= p < hi) :: c[p].size
  }

  lemma FuseFrees(c: Layout, top: int, end: int, lo: int, hi: int, used: bool)
    requires Tiled(c, top, end) && Region(c, end, lo, hi) && (hi == end ==> !used)
    ensures Frees(Fuse(c, lo, hi, used), TopAfter(top, end, lo, hi)) ==
            if used || hi == end then FreesOutside(c, top, lo, hi) else FreesOutside(c, top, lo, hi)[lo := hi - lo]
  {
    RegionEdges(c, top, end, lo, hi);
    InBounds(c, top, end, lo);
  }

  lemma SplitFrees(c: Layout, top: int, end: int, lo: int, mid: int, hi: int, usedHi: bool)
    requires Tiled(c, top, end) && Region(c, end, lo, hi) && (hi == end ==> !usedHi)
    requires lo + MINSIZE <= mid && mid + MINSIZE <= hi && mid % 2 == 0
    ensures Frees(Split(c, lo, mid, hi, true, usedHi), TopAfter(top, end, mid, hi)) ==
            if usedHi || hi == end then FreesOutside(c, top, lo, hi) else FreesOutside(c, top, lo, hi)[mid := hi - mid]
  {
    RegionEdges(c, top, end, lo, hi);
    InBounds(c, top, end, lo);
  }

  // ------------------------------------------------------------------
  // Chunks in use after a change inside one region.

  ghost function Live(c: Layout): set<int> {
    set p | p in c && c[p].used
  }

  /** The chunks in use outside [lo, hi). */
  ghost function LiveOutside(c: Layout, lo: int, hi: int): set<int> {
    set p | p in c && c[p].used && !(lo <= p < hi)
  }

  lemma FuseLive(c: Layout, top: int, end: int, lo: int, hi: int, used: bool)
    requires Tiled(c, top, end) && Region(c, end, lo, hi)
    ensures Live(Fuse(c, lo, hi, used)) == LiveOutside(c, lo, hi) + if used then {lo} else {}
    ensures forall p | p in LiveOutside(c, lo, hi) :: p in Fuse(c, lo, hi, used) && Fuse(c, lo, hi, used)[p].size == c[p].size
  {
  }

  lemma SplitLive(c: Layout, top: int, end: int, lo: int, mid: int, hi: int, usedHi: bool)
    requires Tiled(c, top, end) && Region(c, end, lo, hi) && lo < mid < hi
    ensures Live(Split(c, lo, mid, hi, true, usedHi)) == LiveOutside(c, lo, hi) + {lo} + if usedHi then {mid} else {}
    ensures var d := Split(c, lo, mid, hi, true, usedHi);
            && lo in d && d[lo] == Chunk(mid - lo, true, c[lo].prev)
            && mid in d && d[mid] == Chunk(hi - mid, usedHi, lo)
    ensures forall p | p in LiveOutside(c, lo, hi) ::
              p in Split(c, lo, mid, hi, true, usedHi) && Split(c, lo, mid, hi, true, usedHi)[p].size == c[p].size
  {
  }

  // ------------------------------------------------------------------
  // User data

  /** Chunk `p` keeps its place, its size and all its user words. */
  ghost predicate SameUser(c: Layout, mem: seq<int>, d: Layout, mem': seq<int>, p: int) {
    && p in c && p in d && c[p].size == d[p].size
    && (forall x | 0 <= x < |mem| && p + 2 <= x <= p + c[p].size :: x < |mem'| && mem'[x] == mem[x])
  }

  ghost predicate Undisturbed(c: Layout, mem: seq<int>, d: Layout, mem': seq<int>, keep: set<int>) {
    forall p {:trigger p in keep} {:trigger SameUser(c, mem, d, mem', p)} | p in keep :: SameUser(c, mem, d, mem', p)
  }

  lemma UndisturbedRefl(c: Layout, mem: seq<int>)
    ensures Undisturbed(c, mem, c, mem, Live(c))
  {
  }

  lemma UndisturbedTrans(c: Layout, mem: seq<int>, c1: Layout, mem1: seq<int>, c2: Layout, mem2: seq<int>, keep: set<int>)
    requires Undisturbed(c, mem, c1, mem1, keep) && Undisturbed(c1, mem1, c2, mem2, keep)
    ensures Undisturbed(c, mem, c2, mem2, keep)
  {
    forall p | p in keep ensures SameUser(c, mem, c2, mem2, p) {
      assert SameUser(c, mem, c1, mem1, p) && SameUser(c1, mem1, c2, mem2, p);
    }
  }

  /** A change inside [lo, hi) leaves every chunk in use outside undisturbed. */
  lemma RegionUndisturbed(c: Layout, top: int, mem: seq<int>, d: Layout, mem': seq<int>, lo: int, hi: int)
    requires Tiled(c, top, |mem|) && Region(c, |mem|, lo, hi) && SameOutside(mem, mem', lo, hi)
    requires forall p {:trigger p in LiveOutside(c, lo, hi)} | p in LiveOutside(c, lo, hi) :: p in d && d[p].size == c[p].size
    ensures Undisturbed(c, mem, d, mem', LiveOutside(c, lo, hi))
  {
    forall p | p in LiveOutside(c, lo, hi) ensures SameUser(c, mem, d, mem', p) {
      OutsideRegion(c, top, |mem|, lo, hi, p);
      InBounds(c, top, |mem|, p);
    }
  }
}
