/** The allocator itself: `malloc`, `free`, `realloc` and `memalign` over one
    arena that grows at its end. */
module Malloc {
  import opened Arena
  import opened Arithmetic
  import opened Bins
  import opened BlockWord
  import opened BinSearch
  import opened HeapInvariant
  import opened HeapMoves
  import opened Alignment
  import opened Requests

  datatype Pointer = NULL | Mem(chunk: int)

  /** Every chunk in use has room for the bytes it was requested with, next to its
      size word. */
  ghost predicate AskedFits(sz: WordSize, c: Layout, asked: map<int, int>) {
    && asked.Keys == Live(c)
    && (forall p {:trigger p in asked} | p in asked :: p in c && 0 <= asked[p] && asked[p] + sz <= Bytes(sz, c[p].size))
  }

  lemma AskedAllocated(sz: WordSize, c: Layout, mem: seq<int>, d: Layout, mem': seq<int>, asked: map<int, int>, r: int, nb: int, bytes: int)
    requires AskedFits(sz, c, asked) && Allocated(c, mem, d, mem', r, nb)
    requires 0 <= bytes && bytes + sz <= Bytes(sz, nb)
    ensures AskedFits(sz, d, asked[r := bytes])
  {
    hide Live;
    forall p | p in asked ensures p in d && d[p].size == c[p].size {
      assert SameUser(c, mem, d, mem', p);
    }
  }

  lemma AskedSame(sz: WordSize, c: Layout, mem: seq<int>, d: Layout, mem': seq<int>, asked: map<int, int>)
    requires AskedFits(sz, c, asked) && Live(d) == Live(c) && Undisturbed(c, mem, d, mem', Live(c))
    ensures AskedFits(sz, d, asked)
  {
    hide Live;
    forall p | p in asked ensures p in d && d[p].size == c[p].size {
      assert SameUser(c, mem, d, mem', p);
    }
  }

  lemma AskedReleased(sz: WordSize, c: Layout, mem: seq<int>, d: Layout, mem': seq<int>, asked: map<int, int>, r: int)
    requires AskedFits(sz, c, asked) && Released(c, mem, d, mem', r)
    ensures AskedFits(sz, d, asked - {r})
  {
    hide Live;
    forall p | p in asked && p != r ensures p in d && d[p].size == c[p].size {
      assert SameUser(c, mem, d, mem', p);
    }
  }

  lemma AskedMoved(sz: WordSize, c: Layout, mem: seq<int>, d: Layout, mem': seq<int>, asked: map<int, int>, p: int, r: int, nb: int, bytes: int)
    requires AskedFits(sz, c, asked) && Moved(c, mem, d, mem', p, r, nb)
    requires 0 <= bytes && bytes + sz <= Bytes(sz, nb)
    ensures AskedFits(sz, d, (asked - {p})[r := bytes])
  {
    hide Live, Copied;
    forall q | q in asked && q != p ensures q in d && d[q].size == c[q].size {
      assert SameUser(c, mem, d, mem', q);
    }
  }

  lemma NoBins(sz: WordSize, bins: seq<seq<int>>)
    requires |bins| == NAV && forall i | 0 <= i < NAV :: bins[i] == []
    ensures Indexed(sz, Frees(map[], 0), bins) && Marked(bins, 0) && 0 < Pow2(32)
    ensures AskedFits(sz, map[], map[]) && Live(map[]) == {}
  {
  }

  lemma SomeFits(f: map<int, int>, nb: int, p: int)
    requires p in f && nb <= f[p]
    ensures !NoneFits(f, nb)
  {
  }

  ghost predicate RemainderFits(f: map<int, int>, bins: seq<seq<int>>, nb: int) {
    |bins| == NAV && exists r :: r in bins[LAST_REMAINDER] && r in f && nb <= f[r]
  }

  /** Which free chunk serves a request: one in the request's own bin that fits without a
      split, if there is one; else the last remainder, if it is large enough; else the
      smallest that fits. */
  ghost predicate Chosen(sz: WordSize, f: map<int, int>, bins: seq<seq<int>>, nb: int, p: int) {
    && |bins| == NAV && p in f && nb <= f[p]
    && if !NoExact(sz, f, bins, nb) then Exact(sz, f, bins, nb, p)
       else if RemainderFits(f, bins, nb) then bins[LAST_REMAINDER] == [p]
       else SmallestFit(f, nb, p)
  }

  /** Where a freed chunk goes: with its free neighbours it becomes part of top, or one free
      chunk.  That one is the last remainder if one of them was, which else stays as it is. */
  ghost predicate GivenBack(c: Layout, top: int, f: map<int, int>, bins: seq<seq<int>>, p: int,
                            top': int, f': map<int, int>, bins': seq<seq<int>>) {
    && p in c && |bins| == |bins'| == NAV
    && var lo, next, hi, r, r' := MergedLo(c, p), p + c[p].size, MergedHi(c, top, p), bins[LAST_REMAINDER], bins'[LAST_REMAINDER];
       if next == top then top' == lo && f' == f - {lo} && r' == (if lo != p && lo in r then [] else r)
       else
         && top' == top && f' == (f - {lo, next})[lo := hi - lo]
         && r' == if (lo != p && lo in r) || (hi != next && next in r) then [lo] else r
  }

  /** Freeing a rest that was just split off leaves the front and all others. */
  lemma RestFreed(c: Layout, m: seq<int>, c1: Layout, m1: seq<int>, d: Layout, m2: seq<int>, keep: set<int>, lo: int, rest: int)
    requires Undisturbed(c, m, c1, m1, keep) && Live(c1) == keep + {lo} + {rest} && rest !in keep && rest != lo
    requires Released(c1, m1, d, m2, rest)
    ensures Live(d) == keep + {lo} && Undisturbed(c, m, d, m2, keep) && SameUser(c1, m1, d, m2, lo)
  {
    hide Live;
    UndisturbedSub(c1, m1, d, m2, Live(c1) - {rest}, keep);
    UndisturbedTrans(c, m, c1, m1, d, m2, keep);
  }

  class Heap {
    const sz: WordSize
    const limit: int  // end of the memory sbrk may hand out, in bytes

    var mem: seq<int>        // the arena, word by word
    var base: int            // word address of the first chunk
    var brk: int             // end of the memory handed out so far, in bytes
    var sbrked: bool         // sbrk_base is set
    var top: int
    var bins: seq<seq<int>>  // index 1 is last_remainder
    var binblocks: nat

    ghost var chunks: Layout
    ghost var asked: map<int, int>  // the bytes each live pointer was requested with

    ghost function FreeMap(): map<int, int>
      reads this
    {
      Frees(chunks, top)
    }

    /** The bins index the free chunks. */
    ghost predicate IndexOk()
      reads this
    {
      |bins| == NAV && Indexed(sz, FreeMap(), bins) && Marked(bins, binblocks) && binblocks < Pow2(32)
    }

    /** Layout, tags and bins agree; before the first extension there is nothing. */
    ghost predicate Sound()
      reads this
    {
      && IndexOk()
      && (if mem == [] then chunks == map[] && top == 0 && binblocks == 0 else Physical(chunks, top, mem))
    }

    /** The arena ends where the memory obtained from sbrk ends. */
    ghost predicate BrkOk()
      reads this
    {
      base % 2 == 0 && 0 < brk && (mem != [] ==> sbrked && brk == Bytes(sz, base + |mem|))
    }

    ghost predicate Valid()
      reads this
    {
      && Sound()
      && BrkOk()
      && AskedFits(sz, chunks, asked)
    }

    /** chunk2mem, in bytes. */
    function Address(p: int): int
      reads this`base
    {
      Bytes(sz, base + p + 2)
    }

    /** Before anything was allocated. */
    constructor (wordSize: WordSize, start: int, end: int)
      requires 0 < start
      ensures Valid() && sz == wordSize && brk == start && limit == end && Live(chunks) == {} && mem == [] && asked == map[]
    {
      hide Indexed, Marked, Frees, Physical, Live, AskedFits;
      sz, limit := wordSize, end;
      mem, base, brk, sbrked, top := [], 0, start, false, 0;
      bins, binblocks := seq(NAV, i => []), 0;
      chunks, asked := map[], map[];
      new;
      NoBins(sz, bins);
    }

    /** A client stores a word in memory it was given. */
    method Store(ptr: Pointer, i: int, v: int)
      requires Valid() && ptr.Mem? && ptr.chunk in Live(chunks)
      requires 0 <= i < chunks[ptr.chunk].size - 1
      modifies this`mem
      ensures Valid() && |mem| == |old(mem)|
      ensures 0 <= ptr.chunk + 2 + i < |mem| && mem == old(mem)[ptr.chunk + 2 + i := v]
      ensures Undisturbed(chunks, old(mem), chunks, mem, Live(chunks) - {ptr.chunk})
    {
      hide Physical, Indexed, Marked, Frees, AskedFits;
      LiveThere(ptr.chunk);
      LiveNotTop(chunks, top, mem, ptr.chunk);
      ReadSize(chunks, top, mem, ptr.chunk);
      UserWrite(chunks, top, mem, mem[ptr.chunk + 2 + i := v], ptr.chunk);
      mem := mem[ptr.chunk + 2 + i := v];
    }

    /** What every reachable state promises its clients: an allocation is aligned,
        lies in the memory obtained, is as large as was asked for, and shares no
        word with another one. */
    lemma Allocations(p: int, q: int)
      requires Valid() && p in asked && q in asked
      ensures Address(p) % (2 * sz) == 0
      ensures p in chunks && q in chunks
      ensures Address(p) + asked[p] <= brk && asked[p] <= Bytes(sz, chunks[p].size - 1)
      ensures p != q ==>
        || Address(p) + Bytes(sz, chunks[p].size - 1) <= Address(q) - sz
        || Address(q) + Bytes(sz, chunks[q].size - 1) <= Address(p) - sz
    {
      hide Physical, Indexed, Marked, Frees;
      LiveThere(p);
      LiveThere(q);
      LiveNotTop(chunks, top, mem, p);
      ReadSize(chunks, top, mem, p);
      ReadSize(chunks, top, mem, q);
      if p != q {
        ChunksApart(chunks, top, mem, p, q);
      }
      EvenAddress(sz, base + p + 2);
    }

    // ----------------------------------------------------------------
    // Lists

    /** Takes a free chunk off the list it is in. */
    method Unlink(p: int, ghost f: map<int, int>)
      requires Indexed(sz, f, bins) && Marked(bins, binblocks) && p in f
      requires 0 <= p && p + 1 < |mem| && SizeField(mem[p + 1]) == f[p]
      modifies this`bins
      ensures Indexed(sz, f - {p}, bins) && Marked(bins, binblocks) && |bins| == |old(bins)| == NAV
      ensures p in old(bins)[LAST_REMAINDER] ==> bins == old(bins)[LAST_REMAINDER := []]
      ensures p !in old(bins)[LAST_REMAINDER] ==> bins[LAST_REMAINDER] == old(bins)[LAST_REMAINDER]
    {
      assert Homed(sz, f, bins, p);
      var i := Home(sz, bins, p, SizeField(mem[p + 1]));
      assert ListOk(sz, f, i, bins[i]);
      WithoutOrdered(f, bins[i], p);
      UnlinkIndexed(sz, f, bins, i, p);
      bins := bins[i := Without(bins[i], p)];
    }

    /** Puts a free chunk in the bin of its size: behind all larger ones and in
        front of those of the same size. */
    method Frontlink(p: int, size: int, ghost f: map<int, int>) returns (ghost k: int)
      requires |bins| == NAV && Indexed(sz, f, bins) && Marked(bins, binblocks) && binblocks < Pow2(32)
      requires p !in f && 4 <= size && size % 2 == 0 && SizesAt(mem, f)
      modifies this`bins, this`binblocks
      ensures Indexed(sz, f[p := size], bins) && Marked(bins, binblocks) && binblocks < Pow2(32)
      ensures |bins| == |old(bins)| == NAV
      ensures var i := BinOf(sz, size);
              FrontOf(f, old(bins)[i], k, size) && bins == old(bins)[i := InsertAt(old(bins)[i], k, p)]
    {
      hide Indexed, Marked, SizesAt, TestBit, Pow2, FrontOf, InsertAt;
      var idx := BinOf(sz, size);
      var s := bins[idx];
      var at := 0;
      if Bytes(sz, size) < MAX_SMALLBIN_SIZE {
        FrontOfSmall(sz, f, bins, idx, size);
        binblocks := Mark(idx);
      } else if s == [] {
        FrontOfEmpty(f, size);
        binblocks := Mark(idx);
      } else {
        ListedFree(sz, f, bins, idx);
        at := SkipLarger(s, size, f);
      }
      k := at;
      LinkIndexed(sz, f, bins, idx, at, p, size);
      MarkedInsert(bins, binblocks, idx, InsertAt(s, at, p));
      FrontOfRange(f, s, at, size);
      bins := bins[idx := InsertAt(s, at, p)];
    }

    /** The position of the first chunk that is not larger than `size`. */
    method SkipLarger(s: seq<int>, size: int, ghost f: map<int, int>) returns (at: int)
      requires SizesAt(mem, f) && forall j | 0 <= j < |s| :: s[j] in f
      ensures FrontOf(f, s, at, size)
    {
      at := 0;
      while at < |s| && size < SizeField(mem[s[at] + 1])
        invariant 0 <= at <= |s|
        invariant forall j | 0 <= j < at :: s[j] in f && size < f[s[j]]
      {
        at := at + 1;
      }
    }

    /** mark_binblock */
    method Mark(idx: int) returns (w: nat)
      requires |bins| == NAV && 2 <= idx < NAV && binblocks < Pow2(32) && Marked(bins, binblocks)
      ensures w < Pow2(32) && Marked(bins, w) && TestBit(w, idx / BINBLOCKWIDTH)
      ensures forall b: nat :: TestBit(w, b) <==> b == idx / BINBLOCKWIDTH || TestBit(binblocks, b)
    {
      w := SetBit(binblocks, idx / BINBLOCKWIDTH);
      SetBitBound(binblocks, idx / BINBLOCKWIDTH, 32);
      forall b: nat ensures TestBit(w, b) <==> b == idx / BINBLOCKWIDTH || TestBit(binblocks, b) {
        SetBitTest(binblocks, idx / BINBLOCKWIDTH, b);
      }
    }

    // ----------------------------------------------------------------
    // Handing out a free chunk

    /** Hands out all of a free chunk. */
    method Take(victim: int, ghost nb: int)
      requires Physical(chunks, top, mem) && IndexOk() && victim in FreeMap() && nb <= FreeMap()[victim] < nb + MINSIZE
      modifies this`mem, this`bins, this`chunks
      ensures Physical(chunks, top, mem) && IndexOk() && |mem| == |old(mem)|
      ensures Allocated(old(chunks), old(mem), chunks, mem, victim, nb)
    {
      hide Physical, Indexed, Marked, Frees, Allocated, Fuse;
      FreeThere(chunks, top, victim);
      ReadTags(chunks, top, mem, victim);
      TakeChunk(chunks, top, mem, victim, nb);
      Unlink(victim, FreeMap());
      var next := victim + SizeField(mem[victim + 1]);
      mem := mem[next + 1 := SizeField(mem[next + 1]) + 1];
      chunks := Fuse(chunks, victim, next, true);
    }

    /** Hands out the first `nb` words of a free chunk; the rest becomes the last
        remainder. */
    method SplitVictim(victim: int, nb: int)
      requires Physical(chunks, top, mem) && IndexOk() && victim in FreeMap()
      requires 4 <= nb && nb % 2 == 0 && nb + MINSIZE <= FreeMap()[victim]
      requires bins[LAST_REMAINDER] == [] || victim in bins[LAST_REMAINDER]
      modifies this`mem, this`bins, this`chunks
      ensures Physical(chunks, top, mem) && IndexOk() && |mem| == |old(mem)|
      ensures Allocated(old(chunks), old(mem), chunks, mem, victim, nb)
      ensures victim + nb in FreeMap() && FreeMap()[victim + nb] == old(FreeMap())[victim] - nb
      ensures bins[LAST_REMAINDER] == [victim + nb]
    {
      hide Physical, Indexed, Marked, Frees, Allocated, Split;
      FreeThere(chunks, top, victim);
      ReadTags(chunks, top, mem, victim);
      SplitFree(chunks, top, mem, victim, nb);
      var rest := SizeField(mem[victim + 1]) - nb;
      ghost var f := FreeMap();
      Unlink(victim, f);
      assert bins[LAST_REMAINDER := []] == bins;
      LinkLastRemainder(victim + nb, rest, f - {victim});
      chunks := Split(chunks, victim, victim + nb, victim + chunks[victim].size, true, false);
      mem := SplitWords(mem, victim, nb, rest);
    }

    /** Places `p` as the last remainder, in an empty or overwritten list. */
    method LinkLastRemainder(p: int, size: int, ghost f: map<int, int>)
      requires |bins| == NAV && Indexed(sz, f, bins[LAST_REMAINDER := []]) && Marked(bins, binblocks)
      requires p !in f && 4 <= size && size % 2 == 0
      modifies this`bins
      ensures Indexed(sz, f[p := size], bins) && Marked(bins, binblocks)
      ensures bins == old(bins)[LAST_REMAINDER := [p]]
    {
      RelinkIndexed(sz, f, bins, p, size);
      bins := bins[LAST_REMAINDER := [p]];
    }

    // ----------------------------------------------------------------
    // malloc

    lemma FreeNeedsArena(p: int)
      requires Sound() && p in FreeMap()
      ensures Physical(chunks, top, mem)
    {
    }

    /** Nothing in use changed since the given state. */
    ghost predicate Same(c: Layout, m: seq<int>)
      reads this
    {
      Live(chunks) == Live(c) && Undisturbed(c, m, chunks, mem, Live(c))
    }

    /** Uses the last remainder if it is big enough; if not, puts it in its bin. */
    method TryLastRemainder(nb: int, start: int) returns (victim: int)
      requires Sound() && 4 <= nb && nb % 2 == 0 && StartAt(sz, FreeMap(), bins, nb, start) && NoExact(sz, FreeMap(), bins, nb)
      modifies this`mem, this`bins, this`binblocks, this`chunks
      ensures Sound() && |mem| == |old(mem)|
      ensures victim == -1 ==> chunks == old(chunks) && mem == old(mem) && !RemainderFits(old(FreeMap()), old(bins), nb)
      ensures victim == -1 ==> bins[LAST_REMAINDER] == [] && StartAt(sz, FreeMap(), bins, nb, start)
      ensures victim != -1 ==> Allocated(old(chunks), old(mem), chunks, mem, victim, nb)
      ensures victim != -1 ==> Chosen(sz, old(FreeMap()), old(bins), nb, victim)
    {
      hide Physical, Indexed, Marked, Frees, StartAt, NoExact, Live, Undisturbed;
      victim := -1;
      if bins[LAST_REMAINDER] == [] {
        return;
      }
      var v := bins[LAST_REMAINDER][0];
      assert v in bins[LAST_REMAINDER];
      AloneInRemainder(sz, FreeMap(), bins, v);
      FreeNeedsArena(v);
      FreeThere(chunks, top, v);
      ReadTags(chunks, top, mem, v);
      var size := SizeField(mem[v + 1]);
      if size - nb >= MINSIZE {  // re-split
        SplitVictim(v, nb);
        victim := v;
      } else if size - nb >= 0 {  // exhaust
        Take(v, nb);
        victim := v;
      } else {
        BinLastRemainder(v, size, nb, start);
      }
    }

    method BinLastRemainder(v: int, size: int, nb: int, start: int)
      requires Physical(chunks, top, mem) && IndexOk() && StartAt(sz, FreeMap(), bins, nb, start)
      requires |bins| == NAV && v in FreeMap() && size == FreeMap()[v] < nb && bins[LAST_REMAINDER] == [v]
      modifies this`bins, this`binblocks
      ensures IndexOk() && bins[LAST_REMAINDER] == [] && StartAt(sz, FreeMap(), bins, nb, start)
    {
      hide Physical, Indexed, Marked, Frees, StartAt;
      ghost var f, bins0 := FreeMap(), bins;
      FreeSizes(chunks, top, mem);
      FreeThere(chunks, top, v);
      ReadTags(chunks, top, mem, v);
      assert v in bins[LAST_REMAINDER];
      Unlink(v, f);
      ghost var k := Frontlink(v, size, f - {v});
      StartAtKept(sz, f, bins0, nb, start, v, BinOf(sz, size), k);
      assert (f - {v})[v := size] == f;
    }

    /** Takes the smallest chunk in the bins that fits. */
    method TryBins(nb: int, start: int) returns (victim: int)
      requires Sound() && 4 <= nb && nb % 2 == 0 && StartAt(sz, FreeMap(), bins, nb, start) && bins[LAST_REMAINDER] == []
      modifies this`mem, this`bins, this`binblocks, this`chunks
      ensures Sound() && |mem| == |old(mem)|
      ensures victim == -1 ==> chunks == old(chunks) && mem == old(mem)
      ensures victim == -1 ==> NoneFits(FreeMap(), nb)
      ensures victim != -1 ==> Allocated(old(chunks), old(mem), chunks, mem, victim, nb)
      ensures victim != -1 ==> SmallestFit(old(FreeMap()), nb, victim) && victim in old(FreeMap())
    {
      hide Physical, Indexed, Marked, Frees, StartAt, Live, Undisturbed, NothingFits;
      ghost var f := FreeMap();
      SizesOrEmpty();
      var idx, k;
      binblocks, idx, k := ScanBins(sz, mem, bins, binblocks, nb, start, f);
      victim := -1;
      if k == -1 {
        AllTooSmall(sz, f, bins, nb);
        return;
      }
      victim := bins[idx][k];
      BestOfAll(sz, f, bins, nb, victim);
      FreeNeedsArena(victim);
      if SizeField(mem[victim + 1]) - nb >= MINSIZE {
        SplitVictim(victim, nb);
      } else {
        Take(victim, nb);
      }
    }

    lemma SizesOrEmpty()
      requires Sound()
      ensures SizesAt(mem, FreeMap())
    {
      if mem != [] {
        FreeSizes(chunks, top, mem);
      }
    }

    /** sbrk: memory ends `increment` bytes further on, unless that is too far. */
    method Sbrk(increment: int) returns (old_brk: int)
      requires 0 <= increment && 0 < brk
      modifies this`brk
      ensures if old(brk) + increment <= limit then old_brk == old(brk) && brk == old(brk) + increment
              else old_brk == 0 && brk == old(brk)
    {
      if brk + increment > limit {
        return 0;
      }
      old_brk := brk;
      brk := brk + increment;
    }

    /** Extends top with memory from sbrk, or creates it. */
    method ExtendHeap(nb: int) returns (ok: bool)
      requires Sound() && BrkOk() && 4 <= nb && nb % 2 == 0
      modifies this`mem, this`base, this`brk, this`sbrked, this`top, this`chunks
      ensures Sound() && BrkOk() && FreeMap() == old(FreeMap()) && Same(old(chunks), old(mem))
      ensures ok <==> !CannotExtend(sz, old(sbrked), old(mem) != [], old(brk), nb, limit)
      ensures ok ==> mem != [] && NextBreak(sz, old(sbrked), old(mem) != [], old(brk), nb, brk)
      ensures ok ==> Physical(chunks, top, mem) && top in chunks && nb + MINSIZE <= chunks[top].size
      ensures !ok ==> mem == old(mem) && top == old(top) && chunks == old(chunks)
    {
      hide Physical, Indexed, Marked, Frees, Live, Undisturbed, PageUp, AlignUp, Bytes, Words, Aligned, NextBreak, CannotExtend;
      UndisturbedRefl(chunks, mem);
      CannotExtendIff(sz, sbrked, mem != [], brk, nb, limit);
      ghost var b := NewBrk(sz, sbrked, mem != [], brk, nb);
      NewBrkIs(sz, sbrked, mem != [], brk, nb, b);
      ok := false;
      var size := Bytes(sz, nb + MINSIZE);
      BytesAdd(sz, 0, nb + MINSIZE);
      if sbrked {
        PageUpAligned(sz, size);
        size := PageUp(size);
        WholeWords(sz, size);
      }
      var start := Sbrk(size);
      if start != 0 {
        if mem != [] {  // add bytes to current top
          BytesAdd(sz, nb + MINSIZE, Words(sz, size));
          BytesAdd(sz, base + |mem|, Words(sz, size));
          GrowTop(Words(sz, size));
          ok := true;
        } else {
          ok := NewArena(start, size, nb);
          NothingYet(chunks, mem);
        }
      }
    }

    method GrowTop(n: int)
      requires Physical(chunks, top, mem) && 0 <= n && n % 2 == 0
      modifies this`mem, this`chunks
      ensures Physical(chunks, top, mem) && FreeMap() == old(FreeMap()) && Same(old(chunks), old(mem))
      ensures |mem| == |old(mem)| + n
      ensures top in chunks && n + MINSIZE <= chunks[top].size
    {
      hide Physical, Frees, Live, Undisturbed;
      TopThere(chunks, top, mem);
      ReadTags(chunks, top, mem, top);
      ExtendTop(chunks, top, mem, n);
      mem := (mem + Zeros(n))[top + 1 := SizeField(mem[top + 1]) + n + 1];
      chunks := chunks[top := chunks[top].(size := chunks[top].size + n)];
    }

    /** Lays out the first top chunk, aligned, up to a page boundary. */
    method NewArena(start: int, size: int, nb: int) returns (ok: bool)
      requires mem == [] && chunks == map[] && top == 0 && 4 <= nb
      requires 0 < start && 0 <= size && brk == start + size && Bytes(sz, nb + MINSIZE) <= size
      modifies this`mem, this`base, this`brk, this`sbrked, this`top, this`chunks
      ensures ok <==> PageUp(AlignUp(sz, start) + size) <= limit
      ensures ok ==> Physical(chunks, top, mem) && FreeMap() == map[] && Live(chunks) == {} && mem != []
      ensures ok ==> top in chunks && nb + MINSIZE <= chunks[top].size
      ensures ok ==> brk == PageUp(AlignUp(sz, start) + size) == Bytes(sz, base + |mem|) && base % 2 == 0
      ensures ok ==> Bytes(sz, base) == AlignUp(sz, start)
      ensures !ok ==> mem == old(mem) && top == old(top) && chunks == old(chunks) && base == old(base) && brk == old(brk)
      ensures sbrked
    {
      hide PageUp, AlignUp, Words, Bytes, Physical;
      sbrked := true;
      var first := AlignUp(sz, start);
      ArenaGeometry(sz, start, size, nb);
      var correction := first - start + PageUp(first + size) - (first + size);
      var new_brk := Sbrk(correction);
      if new_brk == 0 {
        return false;
      }
      base := Words(sz, first);
      var n := Words(sz, new_brk - first + correction);
      FirstTop(n);
      top, mem := 0, Zeros(n)[1 := n + 1];
      chunks := map[0 := Chunk(n, false, 0)];
      return true;
    }

    /** chunksize(top); the initial top is the header of bin 0, whose size field
        is binblocks. */
    method TopSize() returns (size: int)
      requires Sound()
      ensures mem == [] ==> size == 0
      ensures mem != [] ==> top in chunks && size == chunks[top].size && size % 2 == 0
    {
      if mem == [] {
        return binblocks;
      }
      TopThere(chunks, top, mem);
      ReadTags(chunks, top, mem, top);
      size := SizeField(mem[top + 1]);
    }

    /** There is no top, or no room in it for the request and a smallest chunk. */
    ghost predicate TopTooSmall(nb: int)
      reads this
    {
      mem == [] || top !in chunks || chunks[top].size < nb + MINSIZE
    }

    /** No free chunk fits, top is too small, and extending it would pass the end of the
        memory. */
    ghost predicate NoRoom(nb: int)
      reads this
    {
      NoneFits(FreeMap(), nb) && TopTooSmall(nb) && CannotExtend(sz, sbrked, mem != [], brk, nb, limit)
    }

    /** Splits the request off top, after extending it if need be. */
    method TakeTop(nb: int) returns (victim: int)
      requires Sound() && BrkOk() && 4 <= nb && nb % 2 == 0
      modifies this`mem, this`base, this`brk, this`sbrked, this`top, this`chunks
      ensures Sound() && BrkOk() && FreeMap() == old(FreeMap())
      ensures victim == -1 <==> old(TopTooSmall(nb)) && CannotExtend(sz, old(sbrked), old(mem) != [], old(brk), nb, limit)
      ensures victim == -1 ==> Same(old(chunks), old(mem))
      ensures victim != -1 ==> victim !in old(FreeMap()) && Allocated(old(chunks), old(mem), chunks, mem, victim, nb)
    {
      hide Physical, Indexed, Marked, Frees, Live, Undisturbed, CannotExtend, Bytes;
      ghost var c0, m0 := chunks, mem;
      UndisturbedRefl(chunks, mem);
      victim := -1;
      var size := TopSize();
      if size - nb < MINSIZE {
        var ok := ExtendHeap(nb);
        size := TopSize();
        if size - nb < MINSIZE {
          return;
        }
      }
      ghost var c1, m1 := chunks, mem;
      victim := CarveTop(nb, size);
      AllocatedAfter(c0, m0, c1, m1, chunks, mem, victim, nb);
    }

    method CarveTop(nb: int, size: int) returns (victim: int)
      requires Physical(chunks, top, mem) && IndexOk() && top in chunks && size == chunks[top].size
      requires 4 <= nb && nb % 2 == 0 && nb + MINSIZE <= size
      modifies this`mem, this`top, this`chunks
      ensures Physical(chunks, top, mem) && IndexOk() && |mem| == |old(mem)|
      ensures FreeMap() == old(FreeMap()) && 0 <= victim == old(top) && victim !in FreeMap()
      ensures Allocated(old(chunks), old(mem), chunks, mem, victim, nb)
    {
      hide Physical, Indexed, Marked, Frees, Allocated, Split;
      TopNotFree(chunks, top);
      victim := top;
      SplitTop(chunks, top, mem, nb);
      mem := mem[top + 1 := nb + 1][top + nb + 1 := size - nb + 1];
      chunks := Split(chunks, top, top + nb, |mem|, true, false);
      top := top + nb;
    }

    /** malloc for a padded size. */
    method MallocChunk(nb: int) returns (victim: int)
      requires Sound() && BrkOk() && 4 <= nb && nb % 2 == 0
      modifies this`mem, this`base, this`brk, this`sbrked, this`top, this`chunks, this`bins, this`binblocks
      ensures Sound() && BrkOk()
      ensures victim != -1 ==> Allocated(old(chunks), old(mem), chunks, mem, victim, nb)
      ensures victim in old(FreeMap()) ==> Chosen(sz, old(FreeMap()), old(bins), nb, victim)
      ensures victim !in old(FreeMap()) ==> NoneFits(old(FreeMap()), nb)
      ensures victim == -1 ==> victim !in old(FreeMap()) && Same(old(chunks), old(mem))
      ensures victim == -1 <==> old(NoRoom(nb))
    {
      hide Physical, Indexed, Marked, Frees, Live, Undisturbed, CannotExtend, StartAt, NoneFits;
      ghost var f := FreeMap();
      SizesOrEmpty();
      var start;
      victim, start := ExactFit(sz, mem, bins, nb, f);
      if victim != -1 {
        SomeFits(f, nb, victim);
        FreeNeedsArena(victim);
        Take(victim, nb);
        return;
      }
      victim := TryLastRemainder(nb, start);
      if victim != -1 {
        SomeFits(f, nb, victim);
        return;
      }
      victim := TryBins(nb, start);
      if victim != -1 {
        SomeFits(f, nb, victim);
        return;
      }
      victim := TakeTop(nb);
    }

    method Malloc(bytes: int) returns (r: Pointer)
      requires Valid()
      modifies this
      ensures Valid()
      ensures bytes < 0 ==> r == NULL && unchanged(this)
      ensures r.Mem? ==> Allocated(old(chunks), old(mem), chunks, mem, r.chunk, Words(sz, Request2Size(sz, bytes)))
      ensures r.Mem? ==> asked == old(asked)[r.chunk := bytes]
      ensures r == NULL ==> Same(old(chunks), old(mem)) && asked == old(asked)
      ensures r == NULL <==> bytes < 0 || old(NoRoom(Words(sz, Request2Size(sz, bytes))))
    {
      hide Physical, Indexed, Marked, Frees, Live, Undisturbed, CannotExtend, AskedFits, Allocated, Bytes, Words, Request2Size;
      UndisturbedRefl(chunks, mem);
      if bytes < 0 {
        return NULL;
      }
      var nb := Words(sz, Request2Size(sz, bytes));
      RequestWords(sz, bytes);
      ghost var c0, m0 := chunks, mem;
      var victim := MallocChunk(nb);
      if victim == -1 {
        AskedSame(sz, c0, m0, chunks, mem, asked);
        return NULL;
      }
      r := Mem(victim);
      AskedAllocated(sz, c0, m0, chunks, mem, asked, victim, nb, bytes);
      asked := asked[victim := bytes];
    }

    // ----------------------------------------------------------------
    // free

    /** Gives a chunk back, merged with its free neighbours. */
    method FreeChunk(p: int)
      requires Physical(chunks, top, mem) && IndexOk() && p in chunks && chunks[p].used
      modifies this`mem, this`top, this`chunks, this`bins, this`binblocks
      ensures Physical(chunks, top, mem) && IndexOk() && |mem| == |old(mem)|
      ensures Released(old(chunks), old(mem), chunks, mem, p)
      ensures GivenBack(old(chunks), old(top), old(FreeMap()), old(bins), p, top, FreeMap(), bins)
    {
      hide GivenBack, Released;
      ReadTags(chunks, top, mem, p);
      if p + SizeField(mem[p + 1]) == top {
        FreeIntoTop(p);
      } else {
        FreeMiddle(p);
      }
    }

    /** Merges with top. */
    method FreeIntoTop(p: int)
      requires Physical(chunks, top, mem) && IndexOk() && p in chunks && chunks[p].used && p + chunks[p].size == top
      modifies this`mem, this`top, this`chunks, this`bins
      ensures Physical(chunks, top, mem) && IndexOk() && |mem| == |old(mem)|
      ensures Released(old(chunks), old(mem), chunks, mem, p)
      ensures GivenBack(old(chunks), old(top), old(FreeMap()), old(bins), p, top, FreeMap(), bins)
    {
      hide Physical, Indexed, Marked, Frees, Released, Fuse, MergedLo;
      ReadBack(chunks, top, mem, p);
      ReleaseIntoTop(chunks, top, mem, p);
      ReadEnd(chunks, top, mem, p);
      ghost var f := FreeMap();
      var lo, size := p, SizeField(mem[p + 1]) + SizeField(mem[top + 1]);
      if mem[p + 1] % 2 == 0 {  // consolidate backward
        lo := p - mem[p];
        size := size + mem[p];
        Unlink(lo, f);
      }
      assert Indexed(sz, f - {lo}, bins) by {
        assert lo == p ==> f - {lo} == f;
      }
      mem := mem[lo + 1 := size + 1];
      chunks := Fuse(chunks, lo, |mem|, false);
      top := lo;
    }

    /** Merges with free neighbours and goes into a bin, or becomes part of the
        last remainder if one of them was it. */
    method FreeMiddle(p: int)
      requires Physical(chunks, top, mem) && IndexOk() && p in chunks && chunks[p].used && p + chunks[p].size != top
      modifies this`mem, this`chunks, this`bins, this`binblocks
      ensures Physical(chunks, top, mem) && IndexOk() && |mem| == |old(mem)|
      ensures Released(old(chunks), old(mem), chunks, mem, p)
      ensures GivenBack(old(chunks), old(top), old(FreeMap()), old(bins), p, top, FreeMap(), bins)
    {
      hide Physical, Indexed, Marked, Frees, Released, Fuse, MergedLo, MergedHi, SizesAt, FrontOf, InsertAt, SizeField, Pow2, ReleaseWords;
      ghost var f := FreeMap();
      var lo, next, hi := Neighbours(p);
      Release(chunks, top, mem, p);
      var islr := Detach(lo, p, next, hi, f);
      mem := ReleaseWords(mem, lo, next, SizeField(mem[next + 1]), hi);
      chunks := Fuse(chunks, lo, hi, false);
      if !islr {
        FreeSizes(chunks, top, mem);
        SizesWithout(mem, f - {lo, next}, lo, hi - lo);
        ghost var k := Frontlink(lo, hi - lo, f - {lo, next});
      }
    }

    /** Reads off the tags where the merged chunk will begin and end. */
    method Neighbours(p: int) returns (lo: int, next: int, hi: int)
      requires Physical(chunks, top, mem) && p in chunks && chunks[p].used && p + chunks[p].size != top
      ensures lo == MergedLo(chunks, p) && next == p + chunks[p].size && hi == MergedHi(chunks, top, p)
      ensures next in chunks && 0 <= next && next + 1 < |mem| && SizeField(mem[next + 1]) == chunks[next].size
      ensures 4 <= hi - lo && (hi - lo) % 2 == 0 && lo < next
      ensures if lo == p then lo !in FreeMap() else lo in FreeMap() && 0 <= lo && lo + 1 < |mem| && SizeField(mem[lo + 1]) == FreeMap()[lo]
      ensures if hi == next then next !in FreeMap() else next in FreeMap() && FreeMap()[next] == chunks[next].size
    {
      hide Physical, Frees, MergedLo, MergedHi;
      ReadBack(chunks, top, mem, p);
      ReadForward(chunks, top, mem, p);
      ReadSize(chunks, top, mem, p);
      ReleaseBounds(chunks, top, mem, p);
      lo, next := p, p + SizeField(mem[p + 1]);
      hi := next;
      if mem[p + 1] % 2 == 0 {
        lo := p - mem[p];
      }
      var nextsz := SizeField(mem[next + 1]);
      if mem[next + nextsz + 1] % 2 == 0 {
        hi := next + nextsz;
      }
      EvenDifference(lo, hi);
    }

    /** Takes the free neighbours of `p` off their lists, the one before at `lo`
        (unless `lo == p`) and the one after at `next` (unless `hi == next`); true
        if last_remainder now holds the merged chunk. */
    method Detach(lo: int, p: int, next: int, hi: int, ghost f: map<int, int>) returns (islr: bool)
      requires |bins| == NAV && Indexed(sz, f, bins) && Marked(bins, binblocks)
      requires lo < next <= hi && 4 <= hi - lo && (hi - lo) % 2 == 0
      requires if lo == p then lo !in f else lo in f && 0 <= lo && lo + 1 < |mem| && SizeField(mem[lo + 1]) == f[lo]
      requires if hi == next then next !in f else next in f && 0 <= next && next + 1 < |mem| && SizeField(mem[next + 1]) == f[next]
      modifies this`bins
      ensures |bins| == NAV && Marked(bins, binblocks)
      ensures Indexed(sz, if islr then (f - {lo, next})[lo := hi - lo] else f - {lo, next}, bins)
      ensures islr <==> (lo != p && lo in old(bins)[LAST_REMAINDER]) || (hi != next && next in old(bins)[LAST_REMAINDER])
      ensures bins[LAST_REMAINDER] == if islr then [lo] else old(bins)[LAST_REMAINDER]
    {
      hide Indexed, Marked;
      islr := false;
      ghost var g := f;
      if lo != p {  // consolidate backward
        if lo in bins[LAST_REMAINDER] {
          islr := true;  // keep as last_remainder
          AloneInRemainder(sz, f, bins, lo);
        } else {
          Unlink(lo, f);
          g := f - {lo};
        }
      }
      if hi != next {  // consolidate forward
        if !islr && next in bins[LAST_REMAINDER] {
          islr := true;
          ReplaceRemainder(sz, g, bins, next, lo, hi - lo);
          ReplaceMarked(bins, binblocks, lo);
          bins := bins[LAST_REMAINDER := [lo]];
          assert (g - {next})[lo := hi - lo] == (f - {lo, next})[lo := hi - lo];
          return;
        }
        Unlink(next, g);
        g := g - {next};
      }
      if islr {
        ResizeRemainder(sz, g, bins, lo, hi - lo);
        assert (g - {lo})[lo := hi - lo] == (f - {lo, next})[lo := hi - lo];
      } else {
        assert g == f - {lo, next};
      }
    }

    method Free(ptr: Pointer)
      requires Valid() && (ptr.Mem? ==> ptr.chunk in Live(chunks))
      modifies this
      ensures Valid()
      ensures ptr == NULL ==> unchanged(this)
      ensures ptr.Mem? ==> Released(old(chunks), old(mem), chunks, mem, ptr.chunk) && asked == old(asked) - {ptr.chunk}
      ensures ptr.Mem? ==> GivenBack(old(chunks), old(top), old(FreeMap()), old(bins), ptr.chunk, top, FreeMap(), bins)
      ensures brk == old(brk) && base == old(base) && |mem| == |old(mem)|
    {
      hide Physical, Indexed, Marked, Frees, Released, AskedFits, GivenBack, Live, Bytes, Pow2;
      if ptr == NULL {
        return;
      }
      LiveThere(ptr.chunk);
      ghost var c0, m0 := chunks, mem;
      FreeChunk(ptr.chunk);
      AskedReleased(sz, c0, m0, chunks, mem, asked, ptr.chunk);
      asked := asked - {ptr.chunk};
    }

    lemma LiveThere(p: int)
      requires Sound() && p in Live(chunks)
      ensures Physical(chunks, top, mem) && p in chunks && chunks[p].used
    {
    }

    // ----------------------------------------------------------------
    // realloc

    /** memcpy, in ascending order: right also for overlapping words that move down. */
    method CopyWords(dst: int, src: int, n: int)
      requires 0 <= n && 0 <= dst && dst + n <= |mem| && 0 <= src && src + n <= |mem|
      requires dst <= src || src + n <= dst
      modifies this`mem
      ensures |mem| == |old(mem)|
      ensures forall x | dst <= x < dst + n :: mem[x] == old(mem)[x - dst + src]
      ensures forall x | 0 <= x < |mem| && !(dst <= x < dst + n) :: mem[x] == old(mem)[x]
    {
      var i := 0;
      while i < n
        invariant 0 <= i <= n && |mem| == |old(mem)|
        invariant forall x | dst <= x < dst + i :: mem[x] == old(mem)[x - dst + src]
        invariant forall x | 0 <= x < |mem| && !(dst <= x < dst + i) :: mem[x] == old(mem)[x]
      {
        mem := mem[dst + i := mem[src + i]];
        i := i + 1;
      }
    }

    /** The region from `lo` to `hi` is about to become one chunk in use: its free
        chunks are off their lists and user words inside it may have moved since
        memory was `m`. */
    ghost predicate Pending(lo: int, hi: int, m: seq<int>)
      reads this
    {
      && Physical(chunks, top, m) && Region(chunks, |m|, lo, hi) && hi in chunks
      && SameOutside(m, mem, lo, hi) && 0 <= lo && hi + 1 < |m| && mem[lo + 1] == m[lo + 1] && mem[hi + 1] == m[hi + 1]
      && |bins| == NAV && Indexed(sz, FreesOutside(chunks, top, lo, hi), bins) && Marked(bins, binblocks) && binblocks < Pow2(32)
    }

    /** The common end of realloc: the region from `lo` to `hi` becomes a chunk in
        use, and what exceeds `nb` words by a whole chunk is freed. */
    method Settle(lo: int, hi: int, nb: int, ghost m: seq<int>)
      requires Pending(lo, hi, m)
      requires 4 <= nb <= hi - lo && nb % 2 == 0 && lo % 2 == 0
      modifies this`mem, this`top, this`chunks, this`bins, this`binblocks
      ensures Physical(chunks, top, mem) && IndexOk() && |mem| == |old(mem)|
      ensures lo in chunks && chunks[lo].size == (if hi - lo - nb >= MINSIZE then nb else hi - lo)
      ensures Live(chunks) == LiveOutside(old(chunks), lo, hi) + {lo}
      ensures Undisturbed(old(chunks), m, chunks, mem, LiveOutside(old(chunks), lo, hi))
      ensures forall x | lo + 2 <= x <= lo + chunks[lo].size && 0 <= x < |mem| :: mem[x] == old(mem)[x]
    {
      if hi - lo - nb >= MINSIZE {
        SettleSplit(lo, hi, nb, m);
      } else {
        SettleWhole(lo, hi, m);
      }
    }

    method SettleWhole(lo: int, hi: int, ghost m: seq<int>)
      requires Pending(lo, hi, m)
      modifies this`mem, this`chunks
      ensures Physical(chunks, top, mem) && IndexOk() && |mem| == |old(mem)|
      ensures lo in chunks && chunks[lo].size == hi - lo
      ensures Live(chunks) == LiveOutside(old(chunks), lo, hi) + {lo}
      ensures Undisturbed(old(chunks), m, chunks, mem, LiveOutside(old(chunks), lo, hi))
      ensures forall x | lo + 2 <= x <= hi && 0 <= x < |mem| :: mem[x] == old(mem)[x]
    {
      hide Physical, Indexed, Marked, Frees, FreesOutside, Live, LiveOutside, Undisturbed, Fuse;
      ReadTags(chunks, top, m, lo);
      ReadTags(chunks, top, m, hi);
      mem := mem[lo + 1 := hi - lo + mem[lo + 1] % 2][hi + 1 := SizeField(mem[hi + 1]) + 1];
      FuseRegion(chunks, top, m, mem, lo, hi, true);
      chunks := Fuse(chunks, lo, hi, true);
    }

    method SettleSplit(lo: int, hi: int, nb: int, ghost m: seq<int>)
      requires Pending(lo, hi, m)
      requires 4 <= nb && nb % 2 == 0 && nb + MINSIZE <= hi - lo && lo % 2 == 0
      modifies this`mem, this`top, this`chunks, this`bins, this`binblocks
      ensures Physical(chunks, top, mem) && IndexOk() && |mem| == |old(mem)|
      ensures lo in chunks && chunks[lo].size == nb
      ensures Live(chunks) == LiveOutside(old(chunks), lo, hi) + {lo}
      ensures Undisturbed(old(chunks), m, chunks, mem, LiveOutside(old(chunks), lo, hi))
      ensures forall x | lo + 2 <= x <= lo + nb && 0 <= x < |mem| :: mem[x] == old(mem)[x]
    {
      hide Physical, Indexed, Marked, Frees, FreesOutside, Live, LiveOutside, Undisturbed, Released;
      ghost var c0, keep := chunks, LiveOutside(chunks, lo, hi);
      CutRegion(lo, lo + nb, hi, m);
      ghost var c1, m1 := chunks, mem;
      FreeChunk(lo + nb);
      InsideNotOutside(c0, lo, hi, lo + nb);
      RestFreed(c0, m, c1, m1, chunks, mem, keep, lo, lo + nb);
    }

    /** The region from `lo` to `hi` becomes two chunks in use. */
    method CutRegion(lo: int, mid: int, hi: int, ghost m: seq<int>)
      requires Pending(lo, hi, m)
      requires lo + MINSIZE <= mid && mid + MINSIZE <= hi && mid % 2 == 0
      modifies this`mem, this`chunks
      ensures Physical(chunks, top, mem) && IndexOk() && |mem| == |old(mem)|
      ensures lo in chunks && mid in chunks && chunks[lo].used && chunks[mid].used
      ensures chunks[lo].size == mid - lo && chunks[mid].size == hi - mid
      ensures Live(chunks) == LiveOutside(old(chunks), lo, hi) + {lo} + {mid}
      ensures Undisturbed(old(chunks), m, chunks, mem, LiveOutside(old(chunks), lo, hi))
      ensures forall x | lo + 2 <= x <= hi && x != mid + 1 && 0 <= x < |mem| :: mem[x] == old(mem)[x]
    {
      hide Physical, Indexed, Marked, Frees, FreesOutside, Live, LiveOutside, Undisturbed, Split;
      ReadTags(chunks, top, m, lo);
      ReadTags(chunks, top, m, hi);
      mem := mem[lo + 1 := mid - lo + mem[lo + 1] % 2][mid + 1 := hi - mid + 1][hi + 1 := SizeField(mem[hi + 1]) + 1];
      SplitRegion(chunks, top, m, mem, lo, mid, hi, true);
      chunks := Split(chunks, lo, mid, hi, true, true);
    }

    /** Fewer words in the same place. */
    method Shrink(p: int, nb: int)
      requires Physical(chunks, top, mem) && IndexOk() && p in chunks && chunks[p].used
      requires 4 <= nb <= chunks[p].size && nb % 2 == 0
      modifies this`mem, this`top, this`chunks, this`bins, this`binblocks
      ensures Physical(chunks, top, mem) && IndexOk() && |mem| == |old(mem)|
      ensures Moved(old(chunks), old(mem), chunks, mem, p, p, nb)
    {
      hide Physical, Indexed, Marked, Frees, FreesOutside, Live, LiveOutside, Undisturbed, Moved;
      ghost var c0, m0 := chunks, mem;
      OwnRegion(chunks, top, mem, p);
      ReadSize(chunks, top, mem, p);
      Settle(p, p + SizeField(mem[p + 1]), nb, m0);
      ReadSize(chunks, top, mem, p);
      LiveNotTop(chunks, top, mem, p);
      SettledMoved(c0, m0, m0, chunks, mem, p, p, p + c0[p].size, nb);
    }

    /** Into the free chunk that follows. */
    method GrowForward(p: int, nb: int)
      requires Physical(chunks, top, mem) && IndexOk() && p in chunks && chunks[p].used
      requires p + chunks[p].size in FreeMap() && nb <= chunks[p].size + FreeMap()[p + chunks[p].size] && 4 <= nb && nb % 2 == 0
      modifies this`mem, this`top, this`chunks, this`bins, this`binblocks
      ensures Physical(chunks, top, mem) && IndexOk() && |mem| == |old(mem)|
      ensures Moved(old(chunks), old(mem), chunks, mem, p, p, nb)
    {
      hide Physical, Indexed, Marked, Frees, FreesOutside, Live, LiveOutside, Undisturbed, Moved;
      ghost var c0, m0 := chunks, mem;
      ReadSize(chunks, top, mem, p);
      var next := p + SizeField(mem[p + 1]);
      ForwardRegion(chunks, top, mem, p);
      FreeThere(chunks, top, next);
      ReadSize(chunks, top, mem, next);
      var hi := next + SizeField(mem[next + 1]);
      Unlink(next, FreeMap());
      Settle(p, hi, nb, m0);
      ReadSize(chunks, top, mem, p);
      LiveNotTop(chunks, top, mem, p);
      SettledMoved(c0, m0, m0, chunks, mem, p, p, hi, nb);
    }

    /** Shifts the user words of `p` down to `lo`, inside the region up to `hi`. */
    method ShiftDown(lo: int, p: int, size: int, hi: int)
      requires 0 <= lo && lo + 4 <= p && 4 <= size && p + size <= hi && hi + 1 < |mem|
      modifies this`mem
      ensures SameOutside(old(mem), mem, lo, hi) && |mem| == |old(mem)| && mem[lo + 1] == old(mem)[lo + 1] && mem[hi + 1] == old(mem)[hi + 1]
      ensures Copied(old(mem), p, mem, lo, size - 1)
    {
      CopyWords(lo + 2, p + 2, size - 1);
      forall x | lo + 2 <= x < lo + 2 + (size - 1) ensures CopiedAt(old(mem), p, mem, lo, x) {
        assert mem[x] == old(mem)[x - (lo + 2) + (p + 2)];
      }
    }

    /** Back into the free chunk before, and with `both` also into the one after. */
    method MoveBack(p: int, both: bool, nb: int) returns (lo: int)
      requires Physical(chunks, top, mem) && IndexOk() && p in chunks && chunks[p].used && !PrevUsed(chunks, p)
      requires both ==> p + chunks[p].size in FreeMap()
      requires chunks[p].size < nb && nb % 2 == 0 && 4 <= nb
      requires chunks[p].prev in chunks
      requires nb <= p - chunks[p].prev + chunks[p].size + (if both then FreeMap()[p + chunks[p].size] else 0)
      modifies this`mem, this`top, this`chunks, this`bins, this`binblocks
      ensures Physical(chunks, top, mem) && IndexOk() && |mem| == |old(mem)|
      ensures 0 <= lo == old(chunks[p].prev) && Moved(old(chunks), old(mem), chunks, mem, p, lo, nb)
    {
      hide Physical, Indexed, Marked, Frees, FreesOutside, Live, LiveOutside, Undisturbed, Moved, PrevUsed, Copied;
      ghost var c0, m0, f := chunks, mem, FreeMap();
      ReadTags(chunks, top, mem, p);
      BackwardRegion(chunks, top, mem, p, both);
      lo := p - mem[p];
      var size := SizeField(mem[p + 1]);
      var hi := p + size;
      if both {
        FreeThere(chunks, top, hi);
        ReadSize(chunks, top, mem, hi);
        hi := hi + SizeField(mem[hi + 1]);
      }
      DetachRegion(lo, p + size, both, f);
      ShiftDown(lo, p, size, hi);
      ghost var m1 := mem;
      Settle(lo, hi, nb, m0);
      ReadSize(chunks, top, mem, lo);
      LiveNotTop(chunks, top, mem, lo);
      SettledMoved(c0, m0, m1, chunks, mem, p, lo, hi, nb);
    }

    method DetachRegion(lo: int, next: int, both: bool, ghost f: map<int, int>)
      requires Physical(chunks, top, mem) && f == FreeMap() && IndexOk() && lo in f && lo != next && (both ==> next in f)
      modifies this`bins
      ensures |bins| == NAV && Marked(bins, binblocks)
      ensures Indexed(sz, if both then f - {lo} - {next} else f - {lo}, bins)
    {
      hide Physical, Indexed, Marked, Frees;
      FreeThere(chunks, top, lo);
      ReadSize(chunks, top, mem, lo);
      Unlink(lo, f);
      if both {
        FreeThere(chunks, top, next);
        ReadSize(chunks, top, mem, next);
        Unlink(next, f - {lo});
      }
    }

    /** Into top, with `back` also into the free chunk before. */
    method GrowIntoTop(p: int, back: bool, nb: int) returns (lo: int)
      requires Physical(chunks, top, mem) && IndexOk() && p in chunks && chunks[p].used && p + chunks[p].size == top
      requires back ==> !PrevUsed(chunks, p) && chunks[p].prev in chunks
      requires chunks[p].size < nb && nb % 2 == 0 && 4 <= nb
      requires nb + MINSIZE <= |mem| - (if back then chunks[p].prev else p)
      modifies this`mem, this`top, this`chunks, this`bins
      ensures Physical(chunks, top, mem) && IndexOk() && |mem| == |old(mem)|
      ensures 0 <= lo == (if back then old(chunks[p].prev) else p) && Moved(old(chunks), old(mem), chunks, mem, p, lo, nb)
    {
      hide Physical, Indexed, Marked, Frees, FreesOutside, Live, LiveOutside, Undisturbed, Moved, PrevUsed;
      ghost var c0, m0, f := chunks, mem, FreeMap();
      ReadTags(chunks, top, mem, p);
      TopRegion(chunks, top, mem, p, back);
      lo := p;
      if back {
        lo := p - mem[p];
        FreeThere(chunks, top, lo);
        ReadSize(chunks, top, mem, lo);
        Unlink(lo, f);
        CopyWords(lo + 2, p + 2, SizeField(mem[p + 1]) - 1);
      }
      ghost var m1 := mem;
      CutTopRegion(lo, nb, m0);
      SettledMoved(c0, m0, m1, chunks, mem, p, lo, |mem|, nb);
    }

    /** The region from `lo` to the end becomes a chunk in use and a new top. */
    method CutTopRegion(lo: int, nb: int, ghost m: seq<int>)
      requires Physical(chunks, top, m) && lo in chunks && SameOutside(m, mem, lo, |m|) && |mem| == |m|
      requires 0 <= lo && lo % 2 == 0 && 4 <= nb && nb % 2 == 0 && lo + nb + MINSIZE <= |m| && mem[lo + 1] == m[lo + 1]
      requires |bins| == NAV && Indexed(sz, FreesOutside(chunks, top, lo, |m|), bins) && Marked(bins, binblocks) && binblocks < Pow2(32)
      modifies this`mem, this`top, this`chunks
      ensures Physical(chunks, top, mem) && IndexOk() && |mem| == |old(mem)|
      ensures lo in chunks && chunks[lo].size == nb
      ensures Live(chunks) == LiveOutside(old(chunks), lo, |m|) + {lo}
      ensures Undisturbed(old(chunks), m, chunks, mem, LiveOutside(old(chunks), lo, |m|))
      ensures forall x | lo + 2 <= x <= lo + nb && 0 <= x < |mem| :: mem[x] == old(mem)[x]
    {
      hide Physical, Indexed, Marked, Frees, FreesOutside, Live, LiveOutside, Undisturbed, TopCutWords, Split, SameOutside;
      TopCut(chunks, top, m, mem, lo, nb);
      mem := TopCutWords(mem, lo, nb);
      chunks := Split(chunks, lo, lo + nb, |mem|, true, false);
      top := lo + nb;
    }

    /** All the ways to resize without a new allocation; -1 if there is none. */
    method Resize(p: int, nb: int) returns (r: int)
      requires Physical(chunks, top, mem) && IndexOk() && p in chunks && chunks[p].used && 4 <= nb && nb % 2 == 0
      modifies this`mem, this`top, this`chunks, this`bins, this`binblocks
      ensures Physical(chunks, top, mem) && IndexOk() && |mem| == |old(mem)|
      ensures r != -1 ==> Moved(old(chunks), old(mem), chunks, mem, p, r, nb)
      ensures r == -1 ==> unchanged(this) && chunks[p].size < nb
      ensures r == -1 <==> !old(Resizable(chunks, top, p, nb))
      ensures r != -1 ==> r == (if old(Extendable(chunks, top, p, nb)) then p else old(MergedLo(chunks, p)))
      ensures nb <= old(chunks[p].size) ==> r == p
    {
      hide Physical, Indexed, Marked, Frees, Moved, PrevUsed, Resizable, MergedHi;
      r := -1;
      ReadTags(chunks, top, mem, p);
      var size := SizeField(mem[p + 1]);
      if size >= nb {
        LargeEnough(chunks, top, mem, p, nb);
        Shrink(p, nb);
        return p;
      }
      var next := p + size;
      if next == top {
        r := ResizeAtTop(p, size, nb);
      } else {
        r := ResizeInside(p, size, nb);
      }
    }

    method ResizeAtTop(p: int, size: int, nb: int) returns (r: int)
      requires Physical(chunks, top, mem) && IndexOk() && p in chunks && chunks[p].used && 4 <= nb && nb % 2 == 0
      requires size == chunks[p].size < nb && p + size == top
      modifies this`mem, this`top, this`chunks, this`bins, this`binblocks
      ensures Physical(chunks, top, mem) && IndexOk() && |mem| == |old(mem)|
      ensures r != -1 ==> Moved(old(chunks), old(mem), chunks, mem, p, r, nb)
      ensures r == -1 ==> unchanged(this)
      ensures r == -1 <==> !old(Resizable(chunks, top, p, nb))
      ensures r != -1 ==> r == (if old(Extendable(chunks, top, p, nb)) then p else old(MergedLo(chunks, p)))
    {
      hide Physical, Indexed, Marked, Frees, Moved, PrevUsed, Resizable, Extendable, MergedLo;
      r := -1;
      ReadTags(chunks, top, mem, p);
      ReadEnd(chunks, top, mem, p);
      ReadRoomAtTop(chunks, top, mem, p, nb);
      var topsize := SizeField(mem[top + 1]);
      if topsize + size >= nb + MINSIZE {
        r := GrowIntoTop(p, false, nb);
      } else if mem[p + 1] % 2 == 0 {
        if topsize + mem[p] + size >= nb + MINSIZE {
          r := GrowIntoTop(p, true, nb);
        } else if mem[p] + size >= nb {
          r := MoveBack(p, false, nb);
        }
      }
    }

    method ResizeInside(p: int, size: int, nb: int) returns (r: int)
      requires Physical(chunks, top, mem) && IndexOk() && p in chunks && chunks[p].used && 4 <= nb && nb % 2 == 0
      requires size == chunks[p].size < nb && p + size != top
      modifies this`mem, this`top, this`chunks, this`bins, this`binblocks
      ensures Physical(chunks, top, mem) && IndexOk() && |mem| == |old(mem)|
      ensures r != -1 ==> Moved(old(chunks), old(mem), chunks, mem, p, r, nb)
      ensures r == -1 ==> unchanged(this)
      ensures r == -1 <==> !old(Resizable(chunks, top, p, nb))
      ensures r != -1 ==> r == (if old(Extendable(chunks, top, p, nb)) then p else old(MergedLo(chunks, p)))
    {
      hide Physical, Indexed, Marked, Frees, Moved, PrevUsed, MergedHi, Resizable, Extendable, MergedLo;
      r := -1;
      ReadTags(chunks, top, mem, p);
      ReadForward(chunks, top, mem, p);
      ReadRoomInside(chunks, top, mem, p, nb);
      var next := p + size;
      var nextsize := SizeField(mem[next + 1]);
      var fwd := mem[next + nextsize + 1] % 2 == 0;
      if fwd && nextsize + size >= nb {
        GrowForward(p, nb);
        r := p;
      } else if mem[p + 1] % 2 == 0 {
        if fwd && nextsize + mem[p] + size >= nb {
          r := MoveBack(p, true, nb);
        } else if mem[p] + size >= nb {
          r := MoveBack(p, false, nb);
        }
      }
    }

    /** A new allocation; joined if it lies right behind, else filled by a copy. */
    method Reallocate(p: int, nb: int) returns (r: int)
      requires Sound() && BrkOk() && p in Live(chunks)
      requires 4 <= nb && nb % 2 == 0 && chunks[p].size < nb
      modifies this`mem, this`base, this`brk, this`sbrked, this`top, this`chunks, this`bins, this`binblocks
      ensures Sound() && BrkOk()
      ensures r == -1 ==> Same(old(chunks), old(mem))
      ensures r == -1 <==> old(NoRoom(nb))
      ensures r != -1 ==> Moved(old(chunks), old(mem), chunks, mem, p, r, nb)
    {
      hide Physical, Indexed, Marked, Frees, Live, Undisturbed, Moved, CannotExtend, Bytes, NoneFits, Chosen, Allocated, NoRoom;
      ghost var c0, m0 := chunks, mem;
      LiveThere(p);
      LiveNotTop(chunks, top, mem, p);
      ReadSize(chunks, top, mem, p);
      var size := SizeField(mem[p + 1]);
      r := MallocChunk(nb);
      if r != -1 {
        AllocatedThere(c0, m0, chunks, mem, p, r, nb);
        LiveThere(p);
        LiveThere(r);
        if r == p + size {
          JoinBehind(p, r, nb, c0, m0);
          r := p;
        } else {
          CopyAway(p, r, nb, c0, m0);
        }
      }
    }

    method JoinBehind(p: int, q: int, nb: int, ghost c0: Layout, ghost m0: seq<int>)
      requires Physical(chunks, top, mem) && IndexOk() && 4 <= nb && nb % 2 == 0
      requires p in Live(c0) && c0[p].size < nb && 0 <= p && p + c0[p].size < |m0| && Allocated(c0, m0, chunks, mem, q, nb)
      requires p in Live(chunks) && q in Live(chunks) && p in c0 && p in chunks && chunks[p].size == c0[p].size && q == p + chunks[p].size
      modifies this`mem, this`top, this`chunks, this`bins, this`binblocks
      ensures Physical(chunks, top, mem) && IndexOk() && |mem| == |old(mem)|
      ensures Moved(c0, m0, chunks, mem, p, p, nb)
    {
      hide Physical, Indexed, Marked, Frees, FreesOutside, LiveOutside, Undisturbed, Moved, Allocated;
      ghost var c1, m1 := chunks, mem;
      JoinRegion(chunks, top, mem, p);
      ReadSize(chunks, top, mem, p);
      ReadSize(chunks, top, mem, q);
      AllocatedSize(c0, m0, chunks, mem, q, nb);
      var hi := q + SizeField(mem[q + 1]);
      Settle(p, hi, nb, m1);
      JoinMoved(c0, m0, c1, m1, chunks, mem, p, q, nb);
    }

    method CopyAway(p: int, q: int, nb: int, ghost c0: Layout, ghost m0: seq<int>)
      requires Physical(chunks, top, mem) && IndexOk() && 4 <= nb && nb % 2 == 0
      requires p in Live(c0) && c0[p].size < nb && 0 <= p && p + c0[p].size < |m0| && Allocated(c0, m0, chunks, mem, q, nb)
      requires p in Live(chunks) && q in Live(chunks) && p in c0 && p in chunks && chunks[p].size == c0[p].size && q != p
      modifies this`mem, this`top, this`chunks, this`bins, this`binblocks
      ensures Physical(chunks, top, mem) && IndexOk() && |mem| == |old(mem)|
      ensures Moved(c0, m0, chunks, mem, p, q, nb)
    {
      hide Physical, Indexed, Marked, Frees, Undisturbed, Moved, Allocated, Released;
      ghost var c1, m1 := chunks, mem;
      ReadSize(chunks, top, mem, p);
      ReadSize(chunks, top, mem, q);
      LiveNotTop(chunks, top, mem, p);
      LiveNotTop(chunks, top, mem, q);
      AllocatedSize(c0, m0, chunks, mem, q, nb);
      ChunksApart(chunks, top, mem, p, q);
      CopyWords(q + 2, p + 2, SizeField(mem[p + 1]) - 1);
      ghost var m2 := mem;
      UserWrite(chunks, top, m1, m2, q);
      FreeChunk(p);
      CopyMoved(c0, m0, c1, m1, m2, chunks, mem, p, q, nb);
    }

    /** The block can be resized without a new allocation; in particular it can be made
        smaller. */
    ghost predicate FitsInPlace(ptr: Pointer, bytes: int)
      reads this
    {
      ptr.Mem? && 0 <= bytes && ptr.chunk in chunks && Resizable(chunks, top, ptr.chunk, Words(sz, Request2Size(sz, bytes)))
    }

    /** It need not even move back. */
    ghost predicate StaysPut(ptr: Pointer, bytes: int)
      reads this
    {
      ptr.Mem? && 0 <= bytes && ptr.chunk in chunks && Extendable(chunks, top, ptr.chunk, Words(sz, Request2Size(sz, bytes)))
    }

    method Realloc(ptr: Pointer, bytes: int) returns (r: Pointer)
      requires Valid() && (ptr.Mem? ==> ptr.chunk in Live(chunks))
      modifies this
      ensures Valid()
      ensures bytes < 0 ==> r == NULL && unchanged(this)
      ensures ptr == NULL && r.Mem? ==> Allocated(old(chunks), old(mem), chunks, mem, r.chunk, Words(sz, Request2Size(sz, bytes)))
      ensures ptr == NULL && r.Mem? ==> asked == old(asked)[r.chunk := bytes]
      ensures ptr.Mem? && r.Mem? ==> Moved(old(chunks), old(mem), chunks, mem, ptr.chunk, r.chunk, Words(sz, Request2Size(sz, bytes)))
      ensures ptr.Mem? && r.Mem? ==> asked == (old(asked) - {ptr.chunk})[r.chunk := bytes]
      ensures r == NULL ==> Same(old(chunks), old(mem)) && asked == old(asked)
      ensures bytes < 0 || (r == NULL <==> old(NoRoom(Words(sz, Request2Size(sz, bytes)))) && !old(FitsInPlace(ptr, bytes)))
      ensures old(FitsInPlace(ptr, bytes)) ==> |mem| == |old(mem)|
      ensures old(FitsInPlace(ptr, bytes)) ==> r == Mem(if old(StaysPut(ptr, bytes)) then ptr.chunk else old(MergedLo(chunks, ptr.chunk)))
      ensures ptr.Mem? && 0 <= bytes && Words(sz, Request2Size(sz, bytes)) <= old(chunks[ptr.chunk].size) ==> r == ptr
    {
      hide Physical, Indexed, Marked, Frees, Live, Undisturbed, CannotExtend, AskedFits, Allocated, Moved, Bytes, Words, Request2Size, NoRoom, Resizable, Extendable, MergedLo;
      UndisturbedRefl(chunks, mem);
      if bytes < 0 {
        return NULL;
      }
      if ptr == NULL {
        r := Malloc(bytes);
        return;
      }
      var nb := Words(sz, Request2Size(sz, bytes));
      RequestWords(sz, bytes);
      ghost var c0, m0 := chunks, mem;
      LiveThere(ptr.chunk);
      var q := Resize(ptr.chunk, nb);
      if q == -1 {
        q := Reallocate(ptr.chunk, nb);
        if q == -1 {
          AskedSame(sz, c0, m0, chunks, mem, asked);
          return NULL;
        }
      }
      r := Mem(q);
      AskedMoved(sz, c0, m0, chunks, mem, asked, ptr.chunk, q, nb, bytes);
      asked := (asked - {ptr.chunk})[q := bytes];
    }

    // ----------------------------------------------------------------
    // memalign

    /** Gives back the words of a chunk in use before `mid`. */
    method TrimLead(p: int, mid: int)
      requires Physical(chunks, top, mem) && IndexOk() && p in chunks && chunks[p].used
      requires p + MINSIZE <= mid && mid + MINSIZE <= p + chunks[p].size && mid % 2 == 0
      modifies this`mem, this`top, this`chunks, this`bins, this`binblocks
      ensures Physical(chunks, top, mem) && IndexOk() && |mem| == |old(mem)|
      ensures mid in chunks && chunks[mid].used && chunks[mid].size == old(chunks[p].size) - (mid - p)
      ensures Live(chunks) == Live(old(chunks)) - {p} + {mid} && mid !in Live(old(chunks)) - {p}
      ensures Undisturbed(old(chunks), old(mem), chunks, mem, Live(old(chunks)) - {p})
    {
      hide Physical, Indexed, Marked, Frees, FreesOutside, LiveOutside, Undisturbed, Released;
      ghost var c0, m0 := chunks, mem;
      OwnRegion(chunks, top, mem, p);
      ReadSize(chunks, top, mem, p);
      var hi := p + SizeField(mem[p + 1]);
      CutRegion(p, mid, hi, m0);
      ghost var c1, m1 := chunks, mem;
      InsideNotOutside(c0, p, hi, p);
      InsideNotOutside(c0, p, hi, mid);
      FreeChunk(p);
      RestFreed(c0, m0, c1, m1, chunks, mem, LiveOutside(c0, p, hi), mid, p);
    }

    /** Allocates with room to spare and trims both ends. */
    method AlignedChunk(alignment: int, nb: int) returns (r: int)
      requires Sound() && BrkOk() && PowerOfTwo(alignment) && 2 * sz < alignment < W32 && 4 <= nb && nb % 2 == 0
      modifies this`mem, this`base, this`brk, this`sbrked, this`top, this`chunks, this`bins, this`binblocks
      ensures Sound() && BrkOk()
      ensures r == -1 ==> Same(old(chunks), old(mem))
      ensures r == -1 <==> old(NoRoom(AlignedWords(sz, alignment, nb)))
      ensures r != -1 ==> Allocated(old(chunks), old(mem), chunks, mem, r, nb) && Address(r) % alignment == 0
    {
      hide Physical, Indexed, Marked, Frees, Live, Undisturbed, Moved, CannotExtend, Bytes, Words, Request2Size, NoneFits, Chosen, Allocated, PowerOfTwo, NoRoom;
      ghost var c0, m0 := chunks, mem;
      PaddedRequest(sz, alignment, nb);
      var want := AlignedWords(sz, alignment, nb);
      var q := MallocChunk(want);
      if q == -1 {
        return -1;
      }
      ghost var c1, m1 := chunks, mem;
      AllocatedSize(c0, m0, chunks, mem, q, want);
      LiveThere(q);
      r := TrimToAligned(q, alignment, nb, want);
      ghost var c2, m2 := chunks, mem;
      Shrink(r, nb);
      AlignedAllocated(c0, m0, c1, m1, q, want, c2, m2, r, chunks, mem, nb);
    }

    method TrimToAligned(q: int, alignment: int, nb: int, want: int) returns (r: int)
      requires Physical(chunks, top, mem) && IndexOk() && q in chunks && chunks[q].used && want <= chunks[q].size && base % 2 == 0
      requires PowerOfTwo(alignment) && 2 * sz < alignment < W32 && 4 <= nb <= want && nb % 2 == 0
      requires Bytes(sz, nb) + alignment + Bytes(sz, MINSIZE) + sz <= Bytes(sz, want)
      modifies this`mem, this`top, this`chunks, this`bins, this`binblocks
      ensures Physical(chunks, top, mem) && IndexOk() && |mem| == |old(mem)|
      ensures 0 <= r && r in chunks && chunks[r].used && nb <= chunks[r].size && Address(r) % alignment == 0
      ensures Live(chunks) == Live(old(chunks)) - {q} + {r} && r !in Live(old(chunks)) - {q}
      ensures Undisturbed(old(chunks), old(mem), chunks, mem, Live(old(chunks)) - {q})
    {
      hide Physical, Indexed, Marked, Frees, Undisturbed, Bytes, Words, PowerOfTwo, Lead;
      UndisturbedRefl(chunks, mem);
      UndisturbedSub(chunks, mem, chunks, mem, Live(chunks), Live(chunks) - {q});
      ReadSize(chunks, top, mem, q);
      var m := Bytes(sz, base + q + 2);
      r := q;
      if m % alignment != 0 {
        var lead := Words(sz, Lead(sz, alignment, m));
        LeadWords(sz, alignment, base + q + 2, want, chunks[q].size, nb);
        r := q + lead;
        TrimLead(q, r);
      }
    }

    method Memalign(alignment: int, bytes: int) returns (r: Pointer)
      requires Valid() && PowerOfTwo(alignment) && alignment < W32
      modifies this
      ensures Valid()
      ensures bytes < 0 ==> r == NULL && unchanged(this)
      ensures r.Mem? ==> Allocated(old(chunks), old(mem), chunks, mem, r.chunk, Words(sz, Request2Size(sz, bytes)))
      ensures r.Mem? ==> asked == old(asked)[r.chunk := bytes] && 0 < alignment && Address(r.chunk) % alignment == 0
      ensures r == NULL ==> Same(old(chunks), old(mem)) && asked == old(asked)
      ensures bytes < 0 || (r == NULL <==> old(NoRoom(MemalignWords(sz, alignment, bytes))))
    {
      hide Physical, Indexed, Marked, Frees, Live, Undisturbed, CannotExtend, AskedFits, Allocated, Bytes, Words, Request2Size, PowerOfTwo, NoRoom, AlignedWords;
      UndisturbedRefl(chunks, mem);
      if bytes < 0 {
        return NULL;
      }
      if alignment <= 2 * sz {
        r := Malloc(bytes);
        if r.Mem? {
          AllocatedSize(old(chunks), old(mem), chunks, mem, r.chunk, Words(sz, Request2Size(sz, bytes)));
          LiveThere(r.chunk);
          ReadSize(chunks, top, mem, r.chunk);
          EvenAddress(sz, base + r.chunk + 2);
          SmallAlignment(sz, alignment, Address(r.chunk));
        }
        return;
      }
      var nb := Words(sz, Request2Size(sz, bytes));
      RequestWords(sz, bytes);
      ghost var c0, m0 := chunks, mem;
      var q := AlignedChunk(alignment, nb);
      if q == -1 {
        AskedSame(sz, c0, m0, chunks, mem, asked);
        return NULL;
      }
      r := Mem(q);
      AskedAllocated(sz, c0, m0, chunks, mem, asked, q, nb, bytes);
      asked := asked[q := bytes];
    }
  }
}
