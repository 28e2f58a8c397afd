/** The invariant of the whole heap and how it moves when a region of the arena
    is turned into one chunk or into two. */
module HeapInvariant {
  import opened Arena
  import opened BinSearch

  ghost predicate Physical(c: Layout, top: int, mem: seq<int>) {
    Tiled(c, top, |mem|) && Tags(c, top, mem) && Coalesced(c, top)
  }

  // ------------------------------------------------------------------
  // Reading the tags

  lemma ReadTags(c: Layout, top: int, mem: seq<int>, p: int)
    requires Physical(c, top, mem) && p in c
    ensures 0 <= p && p % 2 == 0 && 4 <= c[p].size && c[p].size % 2 == 0 && p + c[p].size <= |mem|
    ensures SizeField(mem[p + 1]) == c[p].size
    ensures p != 0 ==> c[p].prev in c && c[p].prev + c[c[p].prev].size == p
    ensures mem[p + 1] % 2 == 1 <==> PrevUsed(c, p)
    ensures mem[p + 1] == c[p].size + Bit(PrevUsed(c, p))
    ensures !PrevUsed(c, p) ==> p != 0 && mem[p] == c[c[p].prev].size == p - c[p].prev && c[p].prev in Frees(c, top) && c[p].used
    ensures !c[p].used ==> PrevUsed(c, p)
    ensures !c[p].used && p != top ==> c[p + c[p].size].used && p + c[p].size != top
    ensures p == top <==> p + c[p].size == |mem|
    ensures p == top ==> !c[p].used
    ensures p != top ==> p + c[p].size in c && c[p + c[p].size].prev == p
  {
    InBounds(c, top, |mem|, p);
    InBounds(c, top, |mem|, top);
    assert ChunkOk(c, top, |mem|, p) && ChunkOk(c, top, |mem|, top) && HeadOk(c, top, mem, p);
    if !PrevUsed(c, p) {
      var q := c[p].prev;
      InBounds(c, top, |mem|, q);
      assert ChunkOk(c, top, |mem|, q) && FootOk(c, top, mem, q);
      if q != 0 {
        assert ChunkOk(c, top, |mem|, c[q].prev);
      }
    }
  }

  lemma ReadSize(c: Layout, top: int, mem: seq<int>, p: int)
    requires Physical(c, top, mem) && p in c
    ensures 0 <= p && p + 1 < |mem| && SizeField(mem[p + 1]) == c[p].size && 4 <= c[p].size && p % 2 == c[p].size % 2 == 0
    ensures p + c[p].size <= |mem|
  {
    ReadTags(c, top, mem, p);
  }

  /** A chunk that borders top, and top itself. */
  lemma ReadEnd(c: Layout, top: int, mem: seq<int>, p: int)
    requires Physical(c, top, mem) && p in c && p + c[p].size == top
    ensures 0 <= p && p + 1 < |mem| && SizeField(mem[p + 1]) == c[p].size
    ensures top in c && 0 <= top && top + 1 < |mem| && SizeField(mem[top + 1]) == c[top].size && top + c[top].size == |mem|
  {
    TopThere(c, top, mem);
    ReadTags(c, top, mem, p);
    ReadTags(c, top, mem, top);
  }

  lemma LiveNotTop(c: Layout, top: int, mem: seq<int>, p: int)
    requires Physical(c, top, mem) && p in Live(c)
    ensures p in c && p != top && p + c[p].size < |mem|
  {
    ReadTags(c, top, mem, p);
  }

  lemma FreeThere(c: Layout, top: int, p: int)
    requires p in Frees(c, top)
    ensures p in c && !c[p].used && p != top && Frees(c, top)[p] == c[p].size
  {
  }

  lemma TopNotFree(c: Layout, top: int)
    ensures top !in Frees(c, top)
  {
  }

  lemma TopThere(c: Layout, top: int, mem: seq<int>)
    requires Physical(c, top, mem)
    ensures top in c
  {
  }

  lemma FreeSizes(c: Layout, top: int, mem: seq<int>)
    requires Physical(c, top, mem)
    ensures SizesAt(mem, Frees(c, top))
  {
    forall p | p in Frees(c, top) ensures 0 <= p && p + 1 < |mem| && SizeField(mem[p + 1]) == Frees(c, top)[p] {
      ReadTags(c, top, mem, p);
    }
  }

  /** Only the chunk itself starts inside a chunk. */
  lemma OneChunk(c: Layout, top: int, end: int, p: int)
    requires Tiled(c, top, end) && p in c
    ensures forall q {:trigger q in c} | q in c && p <= q < p + c[p].size :: q == p
  {
    forall q | q in c && p <= q < p + c[p].size ensures q == p {
      assert Apart(c, p, q);
    }
  }

  // ------------------------------------------------------------------
  // One chunk from a region

  lemma FuseCoalesced(c: Layout, top: int, end: int, lo: int, hi: int, used: bool)
    requires Tiled(c, top, end) && Coalesced(c, top) && Region(c, end, lo, hi)
    requires hi == end ==> !used
    requires !used ==> PrevUsed(c, lo) && (hi == end || c[hi].used)
    ensures Coalesced(Fuse(c, lo, hi, used), TopAfter(top, end, lo, hi))
  {
    var d := Fuse(c, lo, hi, used);
    RegionEdges(c, top, end, lo, hi);
    forall p | p in d && !d[p].used && p != TopAfter(top, end, lo, hi)
      ensures p + d[p].size in d && d[p + d[p].size].used
    {
      if p != lo {
        OutsideRegion(c, top, end, lo, hi, p);
        InBounds(c, top, end, p);
        assert p != top;
      }
    }
  }

  lemma FuseRegion(c: Layout, top: int, mem: seq<int>, mem': seq<int>, lo: int, hi: int, used: bool)
    requires Physical(c, top, mem) && Region(c, |mem|, lo, hi) && SameOutside(mem, mem', lo, hi)
    requires hi == |mem| ==> !used
    requires !used ==> PrevUsed(c, lo) && (hi == |mem| || c[hi].used)
    requires WordIs(mem', lo + 1, hi - lo + Bit(PrevUsed(c, lo)))
    requires hi != |mem| ==> WordIs(mem', hi + 1, c[hi].size + Bit(used))
    requires hi != |mem| && !used ==> WordIs(mem', hi, hi - lo)
    ensures Physical(Fuse(c, lo, hi, used), TopAfter(top, |mem|, lo, hi), mem')
    ensures lo in Fuse(c, lo, hi, used) && Fuse(c, lo, hi, used)[lo] == Chunk(hi - lo, used, c[lo].prev)
    ensures Live(Fuse(c, lo, hi, used)) == LiveOutside(c, lo, hi) + if used then {lo} else {}
    ensures Undisturbed(c, mem, Fuse(c, lo, hi, used), mem', LiveOutside(c, lo, hi))
    ensures Frees(Fuse(c, lo, hi, used), TopAfter(top, |mem|, lo, hi)) ==
            if used || hi == |mem| then FreesOutside(c, top, lo, hi) else FreesOutside(c, top, lo, hi)[lo := hi - lo]
  {
    FuseTags(c, top, mem, mem', lo, hi, used);
    FuseCoalesced(c, top, |mem|, lo, hi, used);
    FuseFrees(c, top, |mem|, lo, hi, used);
    FuseLive(c, top, |mem|, lo, hi, used);
    RegionUndisturbed(c, top, mem, Fuse(c, lo, hi, used), mem', lo, hi);
  }

  // ------------------------------------------------------------------
  // Two chunks from a region

  lemma SplitCoalesced(c: Layout, top: int, end: int, lo: int, mid: int, hi: int, usedHi: bool)
    requires Tiled(c, top, end) && Coalesced(c, top) && Region(c, end, lo, hi)
    requires lo + MINSIZE <= mid && mid + MINSIZE <= hi && mid % 2 == 0
    requires hi == end ==> !usedHi
    requires !usedHi ==> hi == end || c[hi].used
    ensures Coalesced(Split(c, lo, mid, hi, true, usedHi), TopAfter(top, end, mid, hi))
  {
    hide Split, Tiled;
    var d := Split(c, lo, mid, hi, true, usedHi);
    forall p | p in d && !d[p].used && p != TopAfter(top, end, mid, hi)
      ensures p + d[p].size in d && d[p + d[p].size].used
    {
      SplitUsedNext(c, top, end, lo, mid, hi, usedHi, p);
    }
  }

  lemma SplitUsedNext(c: Layout, top: int, end: int, lo: int, mid: int, hi: int, usedHi: bool, p: int)
    requires Tiled(c, top, end) && Coalesced(c, top) && Region(c, end, lo, hi)
    requires lo + MINSIZE <= mid && mid + MINSIZE <= hi && mid % 2 == 0
    requires hi == end ==> !usedHi
    requires !usedHi ==> hi == end || c[hi].used
    requires var d := Split(c, lo, mid, hi, true, usedHi); p in d && !d[p].used && p != TopAfter(top, end, mid, hi)
    ensures var d := Split(c, lo, mid, hi, true, usedHi); p + d[p].size in d && d[p + d[p].size].used
  {
    RegionEdges(c, top, end, lo, hi);
    if p != lo && p != mid {
      OutsideRegion(c, top, end, lo, hi, p);
      InBounds(c, top, end, p);
      assert p != top;
    }
  }

  lemma SplitRegion(c: Layout, top: int, mem: seq<int>, mem': seq<int>, lo: int, mid: int, hi: int, usedHi: bool)
    requires Physical(c, top, mem) && Region(c, |mem|, lo, hi) && SameOutside(mem, mem', lo, hi)
    requires lo + MINSIZE <= mid && mid + MINSIZE <= hi && mid % 2 == 0
    requires hi == |mem| ==> !usedHi
    requires !usedHi ==> hi == |mem| || c[hi].used
    requires WordIs(mem', lo + 1, mid - lo + Bit(PrevUsed(c, lo)))
    requires WordIs(mem', mid + 1, hi - mid + 1)
    requires hi != |mem| ==> WordIs(mem', hi + 1, c[hi].size + Bit(usedHi))
    requires hi != |mem| && !usedHi ==> WordIs(mem', hi, hi - mid)
    ensures Physical(Split(c, lo, mid, hi, true, usedHi), TopAfter(top, |mem|, mid, hi), mem')
    ensures var d := Split(c, lo, mid, hi, true, usedHi);
            && lo in d && d[lo] == Chunk(mid - lo, true, c[lo].prev)
            && mid in d && d[mid] == Chunk(hi - mid, usedHi, lo)
    ensures Live(Split(c, lo, mid, hi, true, usedHi)) == LiveOutside(c, lo, hi) + {lo} + if usedHi then {mid} else {}
    ensures Undisturbed(c, mem, Split(c, lo, mid, hi, true, usedHi), mem', LiveOutside(c, lo, hi))
    ensures Frees(Split(c, lo, mid, hi, true, usedHi), TopAfter(top, |mem|, mid, hi)) ==
            if usedHi || hi == |mem| then FreesOutside(c, top, lo, hi) else FreesOutside(c, top, lo, hi)[mid := hi - mid]
  {
    hide Tiled, Tags, Coalesced, Split, FreesOutside, LiveOutside;
    SplitTags(c, top, mem, mem', lo, mid, hi, true, usedHi);
    SplitCoalesced(c, top, |mem|, lo, mid, hi, usedHi);
    SplitFrees(c, top, |mem|, lo, mid, hi, usedHi);
    SplitLive(c, top, |mem|, lo, mid, hi, usedHi);
    RegionUndisturbed(c, top, mem, Split(c, lo, mid, hi, true, usedHi), mem', lo, hi);
  }

  // ------------------------------------------------------------------
  // Which chunks a region covers, one chunk at a time

  lemma EmptyRegion(c: Layout, top: int, lo: int)
    ensures FreesOutside(c, top, lo, lo) == Frees(c, top)
    ensures LiveOutside(c, lo, lo) == Live(c)
  {
  }

  lemma InsideNotOutside(c: Layout, lo: int, hi: int, x: int)
    requires lo <= x < hi
    ensures x !in LiveOutside(c, lo, hi)
  {
  }

  lemma RegionStep(c: Layout, top: int, mem: seq<int>, lo: int, p: int)
    requires Physical(c, top, mem) && p in c && lo <= p
    ensures FreesOutside(c, top, lo, p + c[p].size) == FreesOutside(c, top, lo, p) - {p}
    ensures LiveOutside(c, lo, p + c[p].size) == LiveOutside(c, lo, p) - {p}
  {
    hide Tiled, Tags, Coalesced;
    ReadTags(c, top, mem, p);
    OneChunk(c, top, |mem|, p);
  }
}
