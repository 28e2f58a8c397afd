/** The best-fit search of malloc over the bins, with its one-word index. */
module BinSearch {
  import opened Arithmetic
  import opened Bins
  import opened BlockWord

  /** Every non-empty bin has the bit of its block of four bins set. */
  ghost predicate Marked(bins: seq<seq<int>>, w: nat) {
    forall i {:trigger bins[i]} | 2 <= i < |bins| && bins[i] != [] :: TestBit(w, i / BINBLOCKWIDTH)
  }

  lemma MarkedInsert(bins: seq<seq<int>>, w: nat, i: int, s: seq<int>)
    requires Marked(bins, w) && 2 <= i < |bins| && (bins[i] != [] || TestBit(w, i / BINBLOCKWIDTH))
    ensures Marked(bins[i := s], w)
  {
  }

  lemma ReplaceMarked(bins: seq<seq<int>>, w: nat, p: int)
    requires |bins| == NAV && Marked(bins, w)
    ensures Marked(bins[LAST_REMAINDER := [p]], w)
  {
  }

  function SizeField(head: int): int { head - head % 2 }

  /** The size words in memory of the free chunks `f` are right. */
  ghost predicate SizesAt(mem: seq<int>, f: map<int, int>) {
    forall p {:trigger p in f} | p in f :: 0 <= p && p + 1 < |mem| && SizeField(mem[p + 1]) == f[p]
  }

  lemma SizesWithout(mem: seq<int>, f: map<int, int>, p: int, size: int)
    requires p !in f && SizesAt(mem, f[p := size])
    ensures SizesAt(mem, f)
  {
    forall q | q in f ensures 0 <= q && q + 1 < |mem| && SizeField(mem[q + 1]) == f[q] {
      assert q in f[p := size];
    }
  }

  ghost predicate NoFit(f: map<int, int>, s: seq<int>, nb: int) {
    forall p {:trigger p in s} | p in s :: p in f && f[p] < nb
  }

  /** No chunk in the bins of sizes is large enough. */
  ghost predicate NothingFits(f: map<int, int>, bins: seq<seq<int>>, nb: int) {
    forall i {:trigger bins[i]} | 2 <= i < |bins| :: NoFit(f, bins[i], nb)
  }

  /** `p` fits and no fitting chunk in the bins of sizes is smaller. */
  ghost predicate BestFit(f: map<int, int>, bins: seq<seq<int>>, nb: int, p: int) {
    && p in f && nb <= f[p]
    && (forall i, q {:trigger q in bins[i]} | 2 <= i < |bins| && q in bins[i] :: q in f && (nb <= f[q] ==> f[p] <= f[q]))
  }

  /** Scans one bin from its small end; the position of the first chunk that
      fits, or -1. */
  method ScanBin(mem: seq<int>, s: seq<int>, nb: int, ghost f: map<int, int>) returns (k: int)
    requires SizesAt(mem, f) && Ordered(f, s) && forall p | p in s :: p in f
    ensures -1 <= k < |s|
    ensures k == -1 ==> NoFit(f, s, nb)
    ensures k != -1 ==> s[k] in f && nb <= f[s[k]] && forall p | p in s && nb <= f[p] :: f[s[k]] <= f[p]
  {
    k := |s| - 1;
    while k >= 0
      invariant -1 <= k < |s|
      invariant forall j | k < j < |s| :: s[j] in f && f[s[j]] < nb
    {
      assert s[k] in s;
      if nb <= SizeField(mem[s[k] + 1]) {
        return;
      }
      k := k - 1;
    }
  }

  lemma BelowNoFit(sz: WordSize, f: map<int, int>, bins: seq<seq<int>>, nb: int, i: int)
    requires Indexed(sz, f, bins) && 4 <= nb && 2 <= i < BinOf(sz, nb)
    ensures NoFit(f, bins[i], nb)
  {
    forall p | p in bins[i] ensures p in f && f[p] < nb {
      assert ListOk(sz, f, i, bins[i]);
      if nb <= f[p] {
        BinOfMonotone(sz, nb, f[p]);
      }
    }
  }

  /** All chunks in a bin above that of the request fit. */
  lemma AboveFits(sz: WordSize, f: map<int, int>, bins: seq<seq<int>>, nb: int, i: int)
    requires Indexed(sz, f, bins) && 4 <= nb && BinOf(sz, nb) < i < NAV
    ensures forall p | p in bins[i] :: p in f && nb <= f[p]
  {
    forall p | p in bins[i] ensures p in f && nb <= f[p] {
      assert ListOk(sz, f, i, bins[i]);
      if f[p] < nb {
        BinOfMonotone(sz, f[p], nb);
      }
    }
  }

  ghost predicate BlockEmpty(bins: seq<seq<int>>, b: int) {
    forall i | BINBLOCKWIDTH * b <= i < BINBLOCKWIDTH * b + BINBLOCKWIDTH && 0 <= i < |bins| :: bins[i] == []
  }

  ghost predicate InBlock(i: int, b: nat) {
    BINBLOCKWIDTH * b <= i < BINBLOCKWIDTH * b + BINBLOCKWIDTH
  }

  ghost predicate EmptyBins(bins: seq<seq<int>>, a: int, b: int) {
    forall i | a <= i < b && 0 <= i < |bins| :: bins[i] == []
  }

  /** No chunk in the bins below `n` is large enough. */
  ghost predicate NoneBelow(f: map<int, int>, bins: seq<seq<int>>, nb: int, n: int) {
    forall i {:trigger bins[i]} | 2 <= i < n && i < |bins| :: NoFit(f, bins[i], nb)
  }

  /** Bits go only from blocks that are empty. */
  ghost predicate OnlyCleared(bins: seq<seq<int>>, w0: nat, w: nat) {
    forall b: nat {:trigger TestBit(w, b)} ::
      (TestBit(w, b) ==> TestBit(w0, b)) && (TestBit(w0, b) && !TestBit(w, b) ==> BlockEmpty(bins, b))
  }

  lemma NoneBelowExtend(f: map<int, int>, bins: seq<seq<int>>, nb: int, a: int, b: int)
    requires NoneBelow(f, bins, nb, a) && EmptyBins(bins, a, b)
    ensures NoneBelow(f, bins, nb, b)
  {
  }

  lemma UnmarkedEmpty(bins: seq<seq<int>>, w: nat, idx: int, block: nat)
    requires Marked(bins, w) && 2 <= idx && InBlock(idx, block) && !TestBit(w, block)
    ensures EmptyBins(bins, idx, BINBLOCKWIDTH * block + BINBLOCKWIDTH)
  {
  }

  lemma OnlyClearedStep(bins: seq<seq<int>>, w0: nat, w1: nat, w: nat, block: nat)
    requires OnlyCleared(bins, w0, w1)
    requires w == w1 || (w == ClearBit(w1, block) && BlockEmpty(bins, block))
    ensures OnlyCleared(bins, w0, w)
  {
    forall b: nat ensures TestBit(ClearBit(w1, block), b) <==> b != block && TestBit(w1, b) {
      ClearBitTest(w1, block, b);
    }
  }

  /** Walks to the next block with its bit set, passing only empty bins. */
  method NextMarked(bins: seq<seq<int>>, w: nat, idx0: int, block0: nat) returns (idx: int, block: nat)
    requires |bins| == NAV && Marked(bins, w) && w < Pow2(32)
    requires 2 <= idx0 == BINBLOCKWIDTH * block0 && Pow2(block0) <= w
    ensures idx0 <= idx == BINBLOCKWIDTH * block < NAV
    ensures TestBit(w, block)
    ensures EmptyBins(bins, idx0, idx)
  {
    ghost var j := BitAtOrAbove(w, block0);
    if 32 <= j {
      NoBitAbove(w, 32, j);
    }
    hide Marked, TestBit, Pow2;
    idx, block := idx0, block0;
    while !TestBit(w, block)
      invariant idx0 <= idx == BINBLOCKWIDTH * block && block <= j
      invariant EmptyBins(bins, idx0, idx)
      decreases j - block
    {
      UnmarkedEmpty(bins, w, idx, block);
      idx := idx + BINBLOCKWIDTH;
      block := block + 1;
    }
  }

  /** Tries the bins from `startidx` to the end of its block. */
  method ScanBlock(sz: WordSize, mem: seq<int>, bins: seq<seq<int>>, nb: int, start: int, startidx: int, block: nat, ghost f: map<int, int>)
    returns (idx: int, k: int)
    requires Indexed(sz, f, bins) && SizesAt(mem, f)
    requires 4 <= nb && 4 <= start <= startidx < NAV && InBlock(startidx, block)
    requires NoneBelow(f, bins, nb, startidx)
    requires BinOf(sz, nb) < start || (start == BinOf(sz, nb) && !NoFit(f, bins[start], nb))
    ensures k == -1 ==> idx == BINBLOCKWIDTH * block + BINBLOCKWIDTH
    ensures k == -1 ==> EmptyBins(bins, startidx, idx) && NoneBelow(f, bins, nb, idx)
    ensures k != -1 ==> 2 <= idx < NAV && 0 <= k < |bins[idx]| && BestFit(f, bins, nb, bins[idx][k])
  {
    assert |bins| == NAV;
    hide Indexed, SizesAt, NoFit, BestFit, BinOf;
    ghost var end := BINBLOCKWIDTH * block + BINBLOCKWIDTH;
    idx := startidx;
    while true
      invariant startidx <= idx < end
      invariant EmptyBins(bins, startidx, idx) && NoneBelow(f, bins, nb, idx)
      decreases end - idx
    {
      k := ScanAt(sz, mem, bins, nb, start, idx, f);
      if k != -1 {
        return;
      }
      idx := idx + 1;
      if idx % BINBLOCKWIDTH == 0 {
        return;
      }
    }
  }

  /** Scans bin `idx`; either its first fit is the best of all, or it is empty. */
  method ScanAt(sz: WordSize, mem: seq<int>, bins: seq<seq<int>>, nb: int, start: int, idx: int, ghost f: map<int, int>)
    returns (k: int)
    requires Indexed(sz, f, bins) && SizesAt(mem, f)
    requires 4 <= nb && 4 <= start <= idx < NAV
    requires NoneBelow(f, bins, nb, idx)
    requires BinOf(sz, nb) < start || (start == BinOf(sz, nb) && !NoFit(f, bins[start], nb))
    ensures -1 <= k < |bins[idx]|
    ensures k == -1 ==> bins[idx] == []
    ensures k != -1 ==> BestFit(f, bins, nb, bins[idx][k])
  {
    assert ListOk(sz, f, idx, bins[idx]);
    k := ScanBin(mem, bins[idx], nb, f);
    if k != -1 {
      FirstIsBest(sz, f, bins, nb, idx, k);
    } else {
      EmptyIfNoFit(sz, f, bins, nb, start, idx);
    }
  }

  /** From `start` on, a bin without a fitting chunk has no chunk. */
  lemma EmptyIfNoFit(sz: WordSize, f: map<int, int>, bins: seq<seq<int>>, nb: int, start: int, i: int)
    requires Indexed(sz, f, bins) && 4 <= nb && 2 <= start <= i < NAV
    requires BinOf(sz, nb) < start || (start == BinOf(sz, nb) && !NoFit(f, bins[start], nb))
    requires NoFit(f, bins[i], nb)
    ensures bins[i] == []
  {
    if bins[i] != [] && BinOf(sz, nb) < i {
      var p := bins[i][0];
      assert p in bins[i] && f[p] < nb;
      AboveFits(sz, f, bins, nb, i);
    }
  }

  lemma FirstIsBest(sz: WordSize, f: map<int, int>, bins: seq<seq<int>>, nb: int, idx: int, k: int)
    requires Indexed(sz, f, bins) && 4 <= nb && 2 <= idx < NAV && 0 <= k < |bins[idx]|
    requires NoneBelow(f, bins, nb, idx)
    requires bins[idx][k] in f && nb <= f[bins[idx][k]]
    requires forall p | p in bins[idx] && p in f && nb <= f[p] :: f[bins[idx][k]] <= f[p]
    ensures BestFit(f, bins, nb, bins[idx][k])
  {
    var p := bins[idx][k];
    assert p in bins[idx];
    forall i, q | 2 <= i < |bins| && q in bins[i] ensures q in f && (nb <= f[q] ==> f[p] <= f[q]) {
      assert ListOk(sz, f, i, bins[i]) && ListOk(sz, f, idx, bins[idx]);
      if idx < i && f[q] < f[p] {
        BinOfMonotone(sz, f[q], f[p]);
      }
    }
  }

  /** Clears the bit of a block whose bins from `startidx` on are empty, if the
      bins before are empty too. */
  method ClearBlock(bins: seq<seq<int>>, binblocks: nat, startidx: int, block: nat) returns (w: nat)
    requires |bins| == NAV && Marked(bins, binblocks)
    requires 4 <= startidx < NAV && InBlock(startidx, block)
    requires EmptyBins(bins, startidx, BINBLOCKWIDTH * block + BINBLOCKWIDTH)
    ensures Marked(bins, w)
    ensures w == binblocks || (w == ClearBit(binblocks, block) && BlockEmpty(bins, block))
  {
    w := binblocks;
    var s := startidx;
    while true
      invariant BINBLOCKWIDTH * block <= s <= startidx
      invariant forall i | s <= i < BINBLOCKWIDTH * block + BINBLOCKWIDTH :: bins[i] == []
      decreases s
    {
      if s % BINBLOCKWIDTH == 0 {
        w := ClearBit(binblocks, block);
        forall i | 2 <= i < |bins| && bins[i] != [] ensures TestBit(w, i / BINBLOCKWIDTH) {
          ClearBitTest(binblocks, block, i / BINBLOCKWIDTH);
        }
        return;
      }
      s := s - 1;
      if bins[s] != [] {
        return;
      }
    }
  }

  lemma EmptyAbove(bins: seq<seq<int>>, w: nat, block: nat, i: int)
    requires Marked(bins, w) && w < Pow2(block) && 2 <= i < |bins| && block <= i / BINBLOCKWIDTH
    ensures bins[i] == []
  {
    NoBitAbove(w, block, i / BINBLOCKWIDTH);
  }

  /** A word that passes the comparison with a clear lowest bit passes the next. */
  lemma NextBlock(w: nat, block: nat)
    requires Pow2(block) <= w && !TestBit(w, block)
    ensures Pow2(block + 1) <= w
  {
    var j := BitAtOrAbove(w, block);
    if w < Pow2(block + 1) {
      NoBitAbove(w, block + 1, j);
    }
  }

  lemma {:induction false} ClearBitLess(w: nat, k: nat)
    ensures ClearBit(w, k) <= w
  {
    if k > 0 {
      ClearBitLess(w / 2, k - 1);
    }
  }

  /** The search of malloc: from bin `start` upwards, skipping blocks of four
      bins whose bit is clear and clearing the bits of blocks found empty.  It
      refines a linear search through all bins: it finds nothing only if nothing
      fits, and what it finds is the smallest chunk that fits. */
  method ScanBins(sz: WordSize, mem: seq<int>, bins: seq<seq<int>>, binblocks: nat, nb: int, start: int, ghost f: map<int, int>)
    returns (w: nat, idx: int, k: int)
    requires Indexed(sz, f, bins) && SizesAt(mem, f) && Marked(bins, binblocks) && binblocks < Pow2(32)
    requires StartAt(sz, f, bins, nb, start)
    ensures Marked(bins, w) && w <= binblocks && OnlyCleared(bins, binblocks, w)
    ensures k == -1 ==> NothingFits(f, bins, nb)
    ensures k != -1 ==> 2 <= idx < NAV && 0 <= k < |bins[idx]| && BestFit(f, bins, nb, bins[idx][k])
  {
    assert |bins| == NAV && OnlyCleared(bins, binblocks, binblocks);
    hide Indexed, SizesAt, NoFit, NothingFits, BestFit, Marked, BlockEmpty, Pow2, TestBit, ClearBit, BinOf, EmptyBins, NoneBelow, OnlyCleared;
    w, idx, k := binblocks, start, -1;
    var block := idx / BINBLOCKWIDTH;
    if Pow2(block) <= w {
      idx, block := FirstMarked(bins, w, nb, start, block, f);
      while true
        invariant start <= idx < NAV && BINBLOCKWIDTH * block <= idx < BINBLOCKWIDTH * block + BINBLOCKWIDTH
        invariant Marked(bins, w) && w <= binblocks && OnlyCleared(bins, binblocks, w)
        invariant NoneBelow(f, bins, nb, idx)
        decreases NAV - idx
      {
        var startidx := idx;
        idx, k := ScanBlock(sz, mem, bins, nb, start, startidx, block, f);
        if k != -1 {
          return;
        }
        ghost var w0 := w;
        w := ClearBlock(bins, w, startidx, block);
        ClearBitLess(w0, block);
        OnlyClearedStep(bins, binblocks, w0, w, block);
        block := block + 1;
        if Pow2(block) <= w {
          ghost var from := idx;
          idx, block := NextMarked(bins, w, idx, block);
          NoneBelowExtend(f, bins, nb, from, idx);
        } else {
          break;
        }
      }
    }
    NothingLeft(f, bins, w, nb, idx, block);
  }

  /** Get to the first marked block */
  method FirstMarked(bins: seq<seq<int>>, w: nat, nb: int, start: int, block0: nat, ghost f: map<int, int>)
    returns (idx: int, block: nat)
    requires |bins| == NAV && Marked(bins, w) && w < Pow2(32)
    requires 4 <= start < NAV && InBlock(start, block0) && Pow2(block0) <= w
    requires NoneBelow(f, bins, nb, start)
    ensures start <= idx < NAV && InBlock(idx, block)
    ensures NoneBelow(f, bins, nb, idx)
  {
    idx, block := start, block0;
    if !TestBit(w, block) {
      hide Marked, Pow2, TestBit, EmptyBins, NoneBelow;
      ghost var from := BINBLOCKWIDTH * block + BINBLOCKWIDTH;
      UnmarkedEmpty(bins, w, idx, block);
      NoneBelowExtend(f, bins, nb, idx, from);
      idx := idx - idx % BINBLOCKWIDTH + BINBLOCKWIDTH;
      NextBlock(w, block);
      block := block + 1;
      idx, block := NextMarked(bins, w, idx, block);
      NoneBelowExtend(f, bins, nb, from, idx);
    }
  }

  lemma NothingLeft(f: map<int, int>, bins: seq<seq<int>>, w: nat, nb: int, idx: int, block: nat)
    requires Marked(bins, w) && w < Pow2(block) && |bins| == NAV
    requires NoneBelow(f, bins, nb, idx) && BINBLOCKWIDTH * block <= idx
    ensures NothingFits(f, bins, nb)
  {
    forall i | 2 <= i < |bins| ensures NoFit(f, bins[i], nb) {
      if idx <= i {
        EmptyAbove(bins, w, block, i);
      }
    }
  }

  // ------------------------------------------------------------------
  // The exact-fit step before the search

  /** Bins below `start` hold nothing that fits, and `start` is the first bin
      worth looking at. */
  ghost predicate StartAt(sz: WordSize, f: map<int, int>, bins: seq<seq<int>>, nb: int, start: int) {
    && |bins| == NAV && 4 <= nb && 4 <= start < NAV
    && NoneBelow(f, bins, nb, start)
    && (BinOf(sz, nb) < start || (start == BinOf(sz, nb) && !NoFit(f, bins[start], nb)))
  }

  lemma NoneBelowOwnBin(sz: WordSize, f: map<int, int>, bins: seq<seq<int>>, nb: int)
    requires Indexed(sz, f, bins) && 4 <= nb
    ensures NoneBelow(f, bins, nb, BinOf(sz, nb))
  {
    forall i | 2 <= i < BinOf(sz, nb) && i < |bins| ensures NoFit(f, bins[i], nb) {
      BelowNoFit(sz, f, bins, nb, i);
    }
  }

  /** A chunk that needs no splitting in the bin of the request, or for a small request in
      the next one. */
  ghost predicate Exact(sz: WordSize, f: map<int, int>, bins: seq<seq<int>>, nb: int, p: int) {
    && |bins| == NAV && p in f && 4 <= nb <= f[p] < nb + 4
    && (p in bins[BinOf(sz, nb)] || (Bytes(sz, nb) < MAX_SMALLBIN_SIZE - SMALLBIN_WIDTH && p in bins[BinOf(sz, nb) + 1]))
  }

  ghost predicate NoExact(sz: WordSize, f: map<int, int>, bins: seq<seq<int>>, nb: int) {
    forall p {:trigger Exact(sz, f, bins, nb, p)} :: !Exact(sz, f, bins, nb, p)
  }

  /** Looks for a chunk that needs no splitting in the bin of the request (for a
      small request also in the next one). */
  method ExactFit(sz: WordSize, mem: seq<int>, bins: seq<seq<int>>, nb: int, ghost f: map<int, int>)
    returns (victim: int, start: int)
    requires Indexed(sz, f, bins) && SizesAt(mem, f) && 4 <= nb && nb % 2 == 0
    ensures victim == -1 ==> StartAt(sz, f, bins, nb, start) && NoExact(sz, f, bins, nb)
    ensures victim != -1 ==> Exact(sz, f, bins, nb, victim) && victim !in bins[LAST_REMAINDER]
  {
    NoneBelowOwnBin(sz, f, bins, nb);
    var bytes := Bytes(sz, nb);
    BinIndexRange(bytes);
    if bytes < MAX_SMALLBIN_SIZE - SMALLBIN_WIDTH {
      victim, start := SmallFit(sz, bins, nb, f);
    } else {
      victim, start := LargeFit(sz, mem, bins, nb, f);
    }
  }

  method SmallFit(sz: WordSize, bins: seq<seq<int>>, nb: int, ghost f: map<int, int>)
    returns (victim: int, start: int)
    requires Indexed(sz, f, bins) && 4 <= nb && nb % 2 == 0 && Bytes(sz, nb) < MAX_SMALLBIN_SIZE - SMALLBIN_WIDTH
    requires NoneBelow(f, bins, nb, BinOf(sz, nb)) && -1 !in f
    ensures victim == -1 ==> StartAt(sz, f, bins, nb, start) && NoExact(sz, f, bins, nb)
    ensures victim != -1 ==> Exact(sz, f, bins, nb, victim) && victim !in bins[LAST_REMAINDER]
  {
    var idx := Bytes(sz, nb) / 8;
    assert idx == BinOf(sz, nb);
    var q := idx;
    if bins[q] == [] {
      q := q + 1;
    }
    if bins[q] != [] {
      victim, start := bins[q][|bins[q]| - 1], 0;
      SmallBin(sz, f, bins, q, victim);
      if victim in bins[LAST_REMAINDER] {
        OnlyHome(sz, f, bins, q, LAST_REMAINDER, victim);
      }
      assert Homed(sz, f, bins, victim);
      return;
    }
    victim, start := -1, idx + 2;
  }

  method LargeFit(sz: WordSize, mem: seq<int>, bins: seq<seq<int>>, nb: int, ghost f: map<int, int>)
    returns (victim: int, start: int)
    requires Indexed(sz, f, bins) && SizesAt(mem, f) && 4 <= nb && NoneBelow(f, bins, nb, BinOf(sz, nb))
    requires MAX_SMALLBIN_SIZE - SMALLBIN_WIDTH <= Bytes(sz, nb)
    ensures victim == -1 ==> StartAt(sz, f, bins, nb, start) && NoExact(sz, f, bins, nb)
    ensures victim != -1 ==> Exact(sz, f, bins, nb, victim) && victim !in bins[LAST_REMAINDER]
  {
    start := BinIndex(Bytes(sz, nb));
    var s := bins[start];
    assert ListOk(sz, f, start, s);
    victim := -1;
    var k := |s| - 1;
    while k >= 0
      invariant -1 <= k < |s|
      invariant forall j | k < j < |s| :: s[j] in f && f[s[j]] < nb
    {
      var v := s[k];
      assert v in s;
      var rest := SizeField(mem[v + 1]) - nb;
      if rest >= 4 {  // too big
        forall j | 0 <= j <= k ensures s[j] in f && nb + 4 <= f[s[j]] {
          assert s[j] in s;
        }
        NoneBetween(f, s, nb, k);
        return;
      } else if rest >= 0 {  // exact fit
        if v in bins[LAST_REMAINDER] {
          OnlyHome(sz, f, bins, start, LAST_REMAINDER, v);
        }
        victim := v;
        return;
      }
      k := k - 1;
    }
    assert NoFit(f, s, nb);
    start := start + 1;
  }

  lemma NoneBetween(f: map<int, int>, s: seq<int>, nb: int, k: int)
    requires 0 <= k < |s|
    requires forall j | 0 <= j <= k :: s[j] in f && nb + 4 <= f[s[j]]
    requires forall j | k < j < |s| :: s[j] in f && f[s[j]] < nb
    ensures forall p {:trigger p in s} | p in s :: p in f && !(nb <= f[p] < nb + 4)
  {
  }

  /** Moving a last remainder that is too small to its bin does not change where
      to start. */
  lemma StartAtKept(sz: WordSize, f: map<int, int>, bins: seq<seq<int>>, nb: int, start: int, v: int, i: int, k: int)
    requires StartAt(sz, f, bins, nb, start) && v in f && f[v] < nb && 2 <= i < NAV && 0 <= k <= |bins[i]|
    ensures StartAt(sz, f, bins[LAST_REMAINDER := []][i := InsertAt(bins[i], k, v)], nb, start)
  {
    var bins' := bins[LAST_REMAINDER := []][i := InsertAt(bins[i], k, v)];
    assert forall q | q in InsertAt(bins[i], k, v) :: q in bins[i] || q == v;
    forall j | 2 <= j < start ensures NoFit(f, bins'[j], nb) {
      assert NoFit(f, bins[j], nb);
    }
    if start == i && BinOf(sz, nb) == start {
      var q :| q in bins[start] && !(q in f && f[q] < nb);
      InsertKeeps(bins[start], k, v, q);
    }
  }

  lemma InsertKeeps(s: seq<int>, k: int, p: int, q: int)
    requires 0 <= k <= |s| && q in s
    ensures q in InsertAt(s, k, p)
  {
    var x :| 0 <= x < |s| && s[x] == q;
    assert InsertAt(s, k, p)[if x < k then x else x + 1] == q;
  }

  /** With last_remainder empty, the bins of sizes are all there is. */
  lemma AllTooSmall(sz: WordSize, f: map<int, int>, bins: seq<seq<int>>, nb: int)
    requires Indexed(sz, f, bins) && NothingFits(f, bins, nb) && bins[LAST_REMAINDER] == []
    ensures NoneFits(f, nb)
  {
    forall p | p in f ensures f[p] < nb {
      assert Homed(sz, f, bins, p);
      assert NoFit(f, bins[BinOf(sz, f[p])], nb);
    }
  }

  ghost predicate NoneFits(f: map<int, int>, nb: int) {
    forall p {:trigger p in f} | p in f :: f[p] < nb
  }

  ghost predicate SmallestFit(f: map<int, int>, nb: int, p: int) {
    p in f && nb <= f[p] && forall q {:trigger q in f} | q in f && nb <= f[q] :: f[p] <= f[q]
  }

  lemma BestOfAll(sz: WordSize, f: map<int, int>, bins: seq<seq<int>>, nb: int, p: int)
    requires Indexed(sz, f, bins) && BestFit(f, bins, nb, p) && bins[LAST_REMAINDER] == []
    ensures SmallestFit(f, nb, p)
  {
    forall q | q in f && nb <= f[q] ensures f[p] <= f[q] {
      assert Homed(sz, f, bins, q);
      assert q in bins[BinOf(sz, f[q])];
    }
  }
}
