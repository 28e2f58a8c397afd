/** Sizes and addresses: what a request comes to in words, and where pages and aligned
    addresses lie. */
module Requests {
  import opened Arena
  import opened Arithmetic
  import opened Bins
  import opened Alignment

  const PAGESIZE := 4096

  function PageUp(x: int): (r: int)
    ensures x <= r < x + PAGESIZE
  {
    x + (PAGESIZE - 1) - (x + (PAGESIZE - 1)) % 4096
  }

  /** The next address of malloc's alignment, two words; computed by correcting
      the misalignment of the user pointer two words further on. */
  function AlignUp(sz: WordSize, x: int): (r: int)
    ensures x <= r < x + 2 * sz
  {
    var misalign := if sz == 4 then (x + 8) % 8 else (x + 16) % 16;
    if misalign > 0 then x + 2 * sz - misalign else x
  }

  ghost predicate Aligned(sz: WordSize, x: int) {
    if sz == 4 then x % 8 == 0 else x % 16 == 0
  }

  lemma PageUpAligned(sz: WordSize, x: int)
    ensures PageUp(x) % PAGESIZE == 0 && Aligned(sz, PageUp(x))
  {
    var k := (x + 4095) / 4096;
    assert PageUp(x) == 4096 * k;
    if sz == 4 {
      Multiple8(512 * k);
    } else {
      Multiple16(256 * k);
    }
  }

  lemma AlignUpAligned(sz: WordSize, x: int)
    ensures Aligned(sz, AlignUp(sz, x))
  {
    if sz == 4 {
      var k := x / 8;
      assert AlignUp(sz, x) == if x % 8 == 0 then 8 * k else 8 * (k + 1);
      Multiple8(if x % 8 == 0 then k else k + 1);
    } else {
      var k := x / 16;
      assert AlignUp(sz, x) == if x % 16 == 0 then 16 * k else 16 * (k + 1);
      Multiple16(if x % 16 == 0 then k else k + 1);
    }
  }

  lemma EvenDifference(a: int, b: int)
    requires a % 2 == 0 && b % 2 == 0
    ensures (b - a) % 2 == 0
  {
  }

  lemma Multiple8(k: int)
    ensures (8 * k) % 8 == 0
  {
  }

  lemma Multiple16(k: int)
    ensures (16 * k) % 16 == 0
  {
  }

  /** `r` is the least multiple of `m` from `x` on. */
  ghost predicate LeastMultiple(m: int, x: int, r: int)
    requires 0 < m
  {
    r % m == 0 && x <= r < x + m
  }

  lemma LeastOnly(m: int, x: int, r: int, s: int)
    requires (m == 8 || m == 16 || m == 4096) && LeastMultiple(m, x, r) && LeastMultiple(m, x, s)
    ensures r == s
  {
  }

  /** Where memory has to end after it was extended for a chunk of `nb` words: with an arena
      it grows by the least number of whole pages for the chunk and a smallest one; the first
      arena starts at the next aligned address and ends at the next page boundary behind what
      is needed, which is itself rounded up after a first attempt. */
  ghost predicate NextBreak(sz: WordSize, sbrked: bool, arena: bool, brk: int, nb: int, r: int) {
    var need, alignment := sz * (nb + 4), if sz == 4 then 8 else 16;
    if arena then (if sbrked then LeastMultiple(4096, need, r - brk) else r - brk == need)
    else if sbrked then
      exists first, size :: LeastMultiple(alignment, brk, first) && LeastMultiple(4096, need, size) && LeastMultiple(4096, first + size, r)
    else
      exists first :: LeastMultiple(alignment, brk, first) && LeastMultiple(4096, first + need, r)
  }

  lemma Rounded(sz: WordSize, x: int)
    ensures LeastMultiple(4096, x, PageUp(x)) && LeastMultiple(if sz == 4 then 8 else 16, x, AlignUp(sz, x))
  {
    hide PageUp, AlignUp;
    PageUpAligned(sz, x);
    AlignUpAligned(sz, x);
  }

  lemma NewBrkNext(sz: WordSize, sbrked: bool, arena: bool, brk: int, nb: int)
    ensures NextBreak(sz, sbrked, arena, brk, nb, NewBrk(sz, sbrked, arena, brk, nb))
  {
    hide PageUp, AlignUp, LeastMultiple;
    var need, first := sz * (nb + 4), AlignUp(sz, brk);
    var size := if sbrked then PageUp(need) else need;
    assert Bytes(sz, nb + MINSIZE) == need;
    Rounded(sz, need);
    Rounded(sz, brk);
    Rounded(sz, first + size);
    if !arena {
      var r := NewBrk(sz, sbrked, arena, brk, nb);
      assert LeastMultiple(if sz == 4 then 8 else 16, brk, first) && LeastMultiple(4096, first + size, r);
    }
  }

  lemma NextBreakOnly(sz: WordSize, sbrked: bool, arena: bool, brk: int, nb: int, r: int, s: int)
    requires NextBreak(sz, sbrked, arena, brk, nb, r) && NextBreak(sz, sbrked, arena, brk, nb, s)
    ensures r == s
  {
    hide LeastMultiple;
    var need, alignment := sz * (nb + 4), if sz == 4 then 8 else 16;
    if arena && sbrked {
      LeastOnly(4096, need, r - brk, s - brk);
    } else if !arena && sbrked {
      var f, z :| LeastMultiple(alignment, brk, f) && LeastMultiple(4096, need, z) && LeastMultiple(4096, f + z, r);
      var g, y :| LeastMultiple(alignment, brk, g) && LeastMultiple(4096, need, y) && LeastMultiple(4096, g + y, s);
      LeastOnly(alignment, brk, f, g);
      LeastOnly(4096, need, z, y);
      LeastOnly(4096, f + z, r, s);
    } else if !arena {
      var f :| LeastMultiple(alignment, brk, f) && LeastMultiple(4096, f + need, r);
      var g :| LeastMultiple(alignment, brk, g) && LeastMultiple(4096, g + need, s);
      LeastOnly(alignment, brk, f, g);
      LeastOnly(4096, f + need, r, s);
    }
  }

  /** There is one such end, and NewBrk is it. */
  lemma NewBrkIs(sz: WordSize, sbrked: bool, arena: bool, brk: int, nb: int, r: int)
    ensures NextBreak(sz, sbrked, arena, brk, nb, r) <==> r == NewBrk(sz, sbrked, arena, brk, nb)
  {
    hide NextBreak, NewBrk;
    NewBrkNext(sz, sbrked, arena, brk, nb);
    if NextBreak(sz, sbrked, arena, brk, nb, r) {
      NextBreakOnly(sz, sbrked, arena, brk, nb, r, NewBrk(sz, sbrked, arena, brk, nb));
    }
  }

  /** Memory would have to end behind its limit. */
  ghost predicate CannotExtend(sz: WordSize, sbrked: bool, arena: bool, brk: int, nb: int, limit: int) {
    exists r :: NextBreak(sz, sbrked, arena, brk, nb, r) && limit < r
  }

  lemma CannotExtendIff(sz: WordSize, sbrked: bool, arena: bool, brk: int, nb: int, limit: int)
    ensures CannotExtend(sz, sbrked, arena, brk, nb, limit) <==> limit < NewBrk(sz, sbrked, arena, brk, nb)
  {
    hide NextBreak, NewBrk;
    NewBrkIs(sz, sbrked, arena, brk, nb, NewBrk(sz, sbrked, arena, brk, nb));
    if CannotExtend(sz, sbrked, arena, brk, nb, limit) {
      var r :| NextBreak(sz, sbrked, arena, brk, nb, r) && limit < r;
      NewBrkIs(sz, sbrked, arena, brk, nb, r);
    }
  }

  /** Where memory ends after it was extended for a chunk of `nb` words. */
  function NewBrk(sz: WordSize, sbrked: bool, arena: bool, brk: int, nb: int): int {
    var need := Bytes(sz, nb + MINSIZE);
    var size := if sbrked then PageUp(need) else need;
    if arena then brk + size else PageUp(AlignUp(sz, brk) + size)
  }

  /** Multiples of malloc's alignment are even numbers of words. */
  lemma WholeWords(sz: WordSize, b: int)
    requires Aligned(sz, b)
    ensures Bytes(sz, Words(sz, b)) == b && Words(sz, b) % 2 == 0
  {
    var k := if sz == 4 then b / 8 else b / 16;
    assert Words(sz, b) == 2 * k;
  }

  lemma RequestAligned(sz: WordSize, bytes: int)
    requires 0 <= bytes
    ensures Aligned(sz, Request2Size(sz, bytes))
  {
    assert Request2Size(sz, bytes) % (2 * sz) == 0;
  }

  lemma RequestWords(sz: WordSize, bytes: int)
    requires 0 <= bytes
    ensures var nb := Words(sz, Request2Size(sz, bytes));
            4 <= nb && nb % 2 == 0 && Bytes(sz, nb) == Request2Size(sz, bytes) && bytes + sz <= Bytes(sz, nb)
  {
    hide Request2Size, Aligned;
    RequestAligned(sz, bytes);
    WholeWords(sz, Request2Size(sz, bytes));
  }

  /** Even word addresses are multiples of malloc's alignment. */
  lemma EvenAddress(sz: WordSize, a: int)
    requires a % 2 == 0
    ensures Aligned(sz, Bytes(sz, a))
  {
    var k := a / 2;
    assert a == 2 * k;
  }

  /** What memalign asks for, to hold `nb` words at any alignment point. */
  function AlignedWords(sz: WordSize, alignment: int, nb: int): int
    requires 0 <= alignment && 0 <= nb
  {
    Words(sz, Request2Size(sz, Bytes(sz, nb) + alignment + Bytes(sz, MINSIZE)))
  }

  /** and for a number of bytes, small alignments being malloc's own. */
  function MemalignWords(sz: WordSize, alignment: int, bytes: int): int
    requires 0 <= alignment && 0 <= bytes
  {
    var nb := Words(sz, Request2Size(sz, bytes));
    if alignment <= 2 * sz then nb else AlignedWords(sz, alignment, nb)
  }

  /** In bytes: the least chunk for the padded request, the alignment and a smallest chunk. */
  lemma MemalignAsks(sz: WordSize, alignment: int, bytes: int)
    requires 0 <= alignment && 0 <= bytes
    ensures sz * MemalignWords(sz, alignment, bytes) ==
            if alignment <= 2 * sz then Request2Size(sz, bytes) else Request2Size(sz, Request2Size(sz, bytes) + alignment + 4 * sz)
  {
    hide Request2Size;
    RequestWords(sz, bytes);
    RequestWords(sz, Request2Size(sz, bytes) + alignment + 4 * sz);
  }

  lemma PaddedRequest(sz: WordSize, alignment: int, nb: int)
    requires 4 <= nb && 0 < alignment
    ensures var want := AlignedWords(sz, alignment, nb);
            4 <= want && want % 2 == 0 && Bytes(sz, nb) + alignment + Bytes(sz, MINSIZE) + sz <= Bytes(sz, want) && nb <= want
  {
    BytesAdd(sz, 0, nb);
    RequestWords(sz, Bytes(sz, nb) + alignment + Bytes(sz, MINSIZE));
    BytesAdd(sz, nb, Words(sz, Request2Size(sz, Bytes(sz, nb) + alignment + Bytes(sz, MINSIZE))));
  }

  /** The front to give back is at least a smallest chunk and leaves room for the
      request; what remains starts at a multiple of the alignment. */
  lemma LeadWords(sz: WordSize, alignment: int, a: int, want: int, size: int, nb: int)
    requires PowerOfTwo(alignment) && 2 * sz < alignment < W32 && a % 2 == 0 && Bytes(sz, a) % alignment != 0
    requires want <= size && Bytes(sz, nb) + alignment + Bytes(sz, MINSIZE) + sz <= Bytes(sz, want)
    ensures var lead := Words(sz, Lead(sz, alignment, Bytes(sz, a)));
            MINSIZE <= lead && lead + nb <= size && lead % 2 == 0 && Bytes(sz, a + lead) % alignment == 0
  {
    hide Bytes, Words, Lead, PowerOfTwo;
    EvenAddress(sz, a);
    LeadFits(sz, alignment, Bytes(sz, a));
    var b := Lead(sz, alignment, Bytes(sz, a));
    WholeWords(sz, b);
    var lead := Words(sz, b);
    BytesAdd(sz, a, lead);
    MinBytes(sz);
    BytesAdd(sz, MINSIZE, lead);
    BytesAdd(sz, lead, nb);
    BytesAdd(sz, want, size);
    BytesAdd(sz, lead + nb, size);
  }

  lemma MinBytes(sz: WordSize)
    ensures Bytes(sz, MINSIZE) == 4 * sz
  {
  }

  lemma BytesAdd(sz: WordSize, a: int, b: int)
    ensures Bytes(sz, a + b) == Bytes(sz, a) + Bytes(sz, b)
    ensures a <= b ==> Bytes(sz, a) <= Bytes(sz, b)
    ensures Bytes(sz, a) <= Bytes(sz, b) ==> a <= b
  {
  }

  /** The first top chunk: an even number of words from an aligned address to a
      page boundary. */
  lemma ArenaGeometry(sz: WordSize, start: int, size: int, nb: int)
    requires 4 <= nb && Bytes(sz, nb + MINSIZE) <= size
    ensures var first := AlignUp(sz, start);
            var end := PageUp(first + size);
            var base, n := Words(sz, first), Words(sz, end - first);
            && base % 2 == 0 && n % 2 == 0 && nb + MINSIZE <= n
            && Bytes(sz, base) == first && Bytes(sz, base + n) == end
  {
    hide AlignUp, PageUp, Bytes, Words, Aligned;
    var first := AlignUp(sz, start);
    var end := PageUp(first + size);
    AlignUpAligned(sz, start);
    PageUpAligned(sz, first + size);
    DifferenceAligned(sz, first, end);
    WholeWords(sz, first);
    WholeWords(sz, end - first);
    BytesAdd(sz, Words(sz, first), Words(sz, end - first));
    BytesAdd(sz, nb + MINSIZE, Words(sz, end - first));
  }

  lemma DifferenceAligned(sz: WordSize, a: int, b: int)
    requires Aligned(sz, a) && Aligned(sz, b)
    ensures Aligned(sz, b - a)
  {
    if sz == 4 {
      Multiple8(b / 8 - a / 8);
    } else {
      Multiple16(b / 16 - a / 16);
    }
  }
}
