/** Consequences of the heap invariant, seen by walking the arena from its first
    chunk to top. */
module ArenaWalk {
  import opened Arena
  import opened HeapInvariant

  /** The chunks from `p` on, in address order. */
  ghost function Walk(c: Layout, top: int, mem: seq<int>, p: int): (s: seq<int>)
    requires Physical(c, top, mem) && p in c
    ensures s != [] && s[0] == p
    decreases |mem| - p
  {
    ReadTags(c, top, mem, p);
    if p == top then [p] else [p] + Walk(c, top, mem, p + c[p].size)
  }

  ghost function SumSizes(c: Layout, s: seq<int>): int {
    if s == [] then 0 else (if s[0] in c then c[s[0]].size else 0) + SumSizes(c, s[1..])
  }

  /** The walk passes every chunk from `p` on, and only chunks. */
  lemma {:induction false} WalkCovers(c: Layout, top: int, mem: seq<int>, p: int)
    requires Physical(c, top, mem) && p in c
    ensures forall q :: q in Walk(c, top, mem, p) <==> q in c && p <= q
    decreases |mem| - p
  {
    ReadTags(c, top, mem, p);
    TopThere(c, top, mem);
    ReadTags(c, top, mem, top);
    OneChunk(c, top, |mem|, p);
    if p == top {
      forall q | q in c && p <= q ensures q == p {
        ReadTags(c, top, mem, q);
      }
    } else {
      WalkCovers(c, top, mem, p + c[p].size);
    }
  }

  lemma {:induction false} WalkSums(c: Layout, top: int, mem: seq<int>, p: int)
    requires Physical(c, top, mem) && p in c
    ensures SumSizes(c, Walk(c, top, mem, p)) == |mem| - p
    decreases |mem| - p
  {
    ReadTags(c, top, mem, p);
    if p != top {
      var rest := Walk(c, top, mem, p + c[p].size);
      assert Walk(c, top, mem, p)[1..] == rest;
      WalkSums(c, top, mem, p + c[p].size);
    } else {
      assert Walk(c, top, mem, p) == [p];
    }
  }

  /** The chunks tile the arena exactly: walking over the sizes meets every chunk,
      and the sizes add up to the whole arena. */
  lemma Tiling(c: Layout, top: int, mem: seq<int>)
    requires Physical(c, top, mem)
    ensures 0 in c
    ensures forall q :: q in Walk(c, top, mem, 0) <==> q in c
    ensures SumSizes(c, Walk(c, top, mem, 0)) == |mem|
  {
    WalkCovers(c, top, mem, 0);
    forall q | q in c ensures 0 <= q {
      ReadTags(c, top, mem, q);
    }
    WalkSums(c, top, mem, 0);
  }

  lemma {:induction false} SameWalk(c: Layout, d: Layout, top: int, mem: seq<int>, p: int)
    requires Physical(c, top, mem) && Physical(d, top, mem) && p in c && p in d
    ensures Walk(c, top, mem, p) == Walk(d, top, mem, p)
    decreases |mem| - p
  {
    ReadTags(c, top, mem, p);
    ReadTags(d, top, mem, p);
    if p != top {
      SameWalk(c, d, top, mem, p + c[p].size);
    }
  }

  lemma ZeroThere(c: Layout, top: int, mem: seq<int>)
    requires Physical(c, top, mem)
    ensures 0 in c
  {
  }

  /** The words in memory and the position of top determine which chunks there are,
      how large they are and which of them are in use. */
  lemma TagsDetermineLayout(c: Layout, d: Layout, top: int, mem: seq<int>)
    requires Physical(c, top, mem) && Physical(d, top, mem)
    ensures c.Keys == d.Keys
    ensures forall p | p in c :: c[p].size == d[p].size && c[p].used == d[p].used
  {
    hide Tiled, Tags, Coalesced;
    ZeroThere(c, top, mem);
    ZeroThere(d, top, mem);
    SameWalk(c, d, top, mem, 0);
    Tiling(c, top, mem);
    Tiling(d, top, mem);
    forall p ensures p in c <==> p in d {
      assert p in Walk(c, top, mem, 0) <==> p in Walk(d, top, mem, 0);
    }
    forall p | p in c ensures c[p].size == d[p].size && c[p].used == d[p].used {
      SameChunk(c, d, top, mem, p);
    }
  }

  lemma SameChunk(c: Layout, d: Layout, top: int, mem: seq<int>, p: int)
    requires Physical(c, top, mem) && Physical(d, top, mem) && p in c && p in d
    ensures c[p].size == d[p].size && c[p].used == d[p].used
  {
    hide Tiled, Tags, Coalesced;
    ReadTags(c, top, mem, p);
    ReadTags(d, top, mem, p);
    if p != top {
      ReadTags(c, top, mem, p + c[p].size);
      ReadTags(d, top, mem, p + c[p].size);
    }
  }
}
