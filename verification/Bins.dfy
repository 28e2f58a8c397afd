/** The size bins of the allocator: `bin_index`, the order inside a bin and the
    one-word index over blocks of four bins. */
module Bins {

  const NAV := 128
  const LAST_REMAINDER := 1
  const MAX_SMALLBIN_SIZE := 512
  const SMALLBIN_WIDTH := 8
  const BINBLOCKWIDTH := 4

  /** SIZE_SZ: four or eight bytes. */
  type WordSize = n: int | n == 4 || n == 8 witness 4

  function Bytes(sz: WordSize, words: int): int {
    if sz == 4 then 4 * words else 8 * words
  }

  function Words(sz: WordSize, bytes: int): int {
    if sz == 4 then bytes / 4 else bytes / 8
  }

  /** Pads a request to a chunk size, both in bytes. */
  function Request2Size(sz: WordSize, bytes: int): (r: int)
    requires 0 <= bytes
    ensures r % (2 * sz) == 0
    ensures 4 * sz <= r && bytes + sz <= r
    ensures forall n :: n % (2 * sz) == 0 && 4 * sz <= n && bytes + sz <= n ==> r <= n
  {
    var mask := 2 * sz - 1;
    var padded := bytes + (sz + mask);
    if padded < 4 * sz + mask then 4 * sz
    else if sz == 4 then padded - padded % 8 else padded - padded % 16
  }

  function BinIndex(size: int): (i: int)
    requires 0 <= size
  {
    if size / 512 == 0 then size / 8
    else if size / 512 <= 4 then 56 + size / 64
    else if size / 512 <= 20 then 91 + size / 512
    else if size / 512 <= 84 then 110 + size / 4096
    else if size / 512 <= 340 then 119 + size / 32768
    else if size / 512 <= 1364 then 124 + size / 262144
    else 126
  }

  lemma BinIndexRange(size: int)
    requires 16 <= size
    ensures 2 <= BinIndex(size) <= 126
    ensures BinIndex(size) < 64 <==> size < 512
  {
  }

  /** The bins as documented: of 8 bytes up to 512, then of 64, 512, 4096, 32768 and 262144
      bytes, and one for the rest. */
  lemma BinTable(s: int)
    requires 0 <= s
    ensures s < 512 ==> BinIndex(s) == s / 8
    ensures 512 <= s < 2560 ==> BinIndex(s) == 56 + s / 64
    ensures 2560 <= s < 10752 ==> BinIndex(s) == 91 + s / 512
    ensures 10752 <= s < 43520 ==> BinIndex(s) == 110 + s / 4096
    ensures 43520 <= s < 174592 ==> BinIndex(s) == 119 + s / 32768
    ensures 174592 <= s < 698880 ==> BinIndex(s) == 124 + s / 262144
    ensures 698880 <= s ==> BinIndex(s) == 126
  {
  }

  lemma BinIndexMonotone(a: int, b: int)
    requires 0 <= a <= b
    ensures BinIndex(a) <= BinIndex(b)
  {
  }

  /** The bin a free chunk of the given size (in words) belongs to. */
  function BinOf(sz: WordSize, size: int): (i: int)
    requires 4 <= size
    ensures 2 <= i <= 126
  {
    BinIndexRange(Bytes(sz, size));
    BinIndex(Bytes(sz, size))
  }

  lemma BinOfMonotone(sz: WordSize, a: int, b: int)
    requires 4 <= a <= b
    ensures BinOf(sz, a) <= BinOf(sz, b)
  {
    BinIndexMonotone(Bytes(sz, a), Bytes(sz, b));
  }

  // ------------------------------------------------------------------
  // Lists of free chunks

  function Without(s: seq<int>, p: int): (r: seq<int>)
    requires p in s
  {
    if s[0] == p then s[1..] else [s[0]] + Without(s[1..], p)
  }

  lemma {:induction false} WithoutAt(s: seq<int>, k: nat)
    requires k < |s| && forall i, j | 0 <= i < j < |s| :: s[i] != s[j]
    ensures Without(s, s[k]) == s[..k] + s[k + 1..]
  {
    if k > 0 {
      WithoutAt(s[1..], k - 1);
      assert s[1..][..k - 1] == s[1..k] && s[1..][k..] == s[k + 1..];
      assert [s[0]] + s[1..k] == s[..k];
    }
  }

  // ------------------------------------------------------------------
  // The bins as an index over the free chunks

  /** The chunk at `p` is free and may be linked in bin `i`. */
  ghost predicate Belongs(sz: WordSize, f: map<int, int>, i: int, p: int) {
    p in f && 4 <= f[p] && (i == LAST_REMAINDER || i == BinOf(sz, f[p]))
  }

  /** Each chunk once, the largest first. */
  ghost predicate Ordered(f: map<int, int>, s: seq<int>) {
    forall j, k | 0 <= j < k < |s| :: s[j] != s[k] && s[j] in f && s[k] in f && f[s[j]] >= f[s[k]]
  }

  ghost predicate ListOk(sz: WordSize, f: map<int, int>, i: int, s: seq<int>) {
    && (forall p {:trigger p in s} | p in s :: Belongs(sz, f, i, p))
    && Ordered(f, s)
    && (i == LAST_REMAINDER ==> |s| <= 1)
  }

  /** A free chunk is either in last_remainder or in the bin of its size. */
  ghost predicate Homed(sz: WordSize, f: map<int, int>, bins: seq<seq<int>>, p: int)
    requires |bins| == NAV && p in f
  {
    && 4 <= f[p] && f[p] % 2 == 0
    && (p in bins[LAST_REMAINDER] <==> p !in bins[BinOf(sz, f[p])])
  }

  /** `bins` holds exactly the free chunks `f` (address to size in words): each
      one once, either in the bin of its size or alone in last_remainder, and
      every bin is sorted. */
  ghost predicate Indexed(sz: WordSize, f: map<int, int>, bins: seq<seq<int>>) {
    && |bins| == NAV && bins[0] == []
    && (forall i {:trigger bins[i]} | 0 <= i < NAV :: ListOk(sz, f, i, bins[i]))
    && (forall p {:trigger Homed(sz, f, bins, p)} | p in f :: Homed(sz, f, bins, p))
  }

  lemma OnlyHome(sz: WordSize, f: map<int, int>, bins: seq<seq<int>>, i: int, j: int, p: int)
    requires Indexed(sz, f, bins) && 0 <= i < NAV && 0 <= j < NAV
    requires p in bins[i] && p in bins[j]
    ensures p in f && i == j
  {
    assert ListOk(sz, f, i, bins[i]) && ListOk(sz, f, j, bins[j]);
    assert Homed(sz, f, bins, p);
  }

  function RemoveAt(s: seq<int>, k: int): seq<int>
    requires 0 <= k < |s|
  {
    s[..k] + s[k + 1..]
  }

  lemma RemoveOrdered(f: map<int, int>, s: seq<int>, k: int)
    requires Ordered(f, s) && 0 <= k < |s|
    ensures Ordered(f - {s[k]}, RemoveAt(s, k))
    ensures forall q :: q in RemoveAt(s, k) <==> q in s && q != s[k]
  {
    var t := RemoveAt(s, k);
    assert forall x | 0 <= x < k :: t[x] == s[x];
    assert forall x | k <= x < |t| :: t[x] == s[x + 1];
    forall q | q in s && q != s[k] ensures q in t {
      var x :| 0 <= x < |s| && s[x] == q;
      assert t[if x < k then x else x - 1] == q;
    }
  }

  lemma WithoutOrdered(f: map<int, int>, s: seq<int>, p: int)
    requires Ordered(f, s) && p in s
    ensures Ordered(f - {p}, Without(s, p))
    ensures forall q :: q in Without(s, p) <==> q in s && q != p
    ensures |Without(s, p)| == |s| - 1
  {
    var k :| 0 <= k < |s| && s[k] == p;
    assert forall i, j | 0 <= i < j < |s| :: s[i] != s[j];
    WithoutAt(s, k);
    hide Without, Ordered;
    RemoveOrdered(f, s, k);
  }

  lemma UnlinkIndexed(sz: WordSize, f: map<int, int>, bins: seq<seq<int>>, i: int, p: int)
    requires Indexed(sz, f, bins) && 0 <= i < NAV && p in bins[i]
    ensures p in f
    ensures Indexed(sz, f - {p}, bins[i := Without(bins[i], p)])
  {
    var g, bins' := f - {p}, bins[i := Without(bins[i], p)];
    OnlyHome(sz, f, bins, i, i, p);
    WithoutOrdered(f, bins[i], p);
    forall j | 0 <= j < NAV ensures ListOk(sz, g, j, bins'[j]) {
      assert ListOk(sz, f, j, bins[j]);
      if j != i {
        if p in bins[j] {
          OnlyHome(sz, f, bins, i, j, p);
        }
        ListFrameMinus(sz, f, j, bins[j], p);
      } else {
        assert Ordered(g, bins'[i]);
      }
    }
    forall q | q in g ensures Homed(sz, g, bins', q) {
      assert Homed(sz, f, bins, q);
    }
  }

  lemma ListFrameMinus(sz: WordSize, f: map<int, int>, i: int, s: seq<int>, p: int)
    requires ListOk(sz, f, i, s) && p !in s
    ensures ListOk(sz, f - {p}, i, s)
  {
    forall q | q in s ensures Belongs(sz, f - {p}, i, q) {
      assert Belongs(sz, f, i, q);
    }
    forall k | 0 <= k < |s| ensures s[k] != p {
      var q := s[k];
      assert q in s;
    }
  }

  function InsertAt(s: seq<int>, k: int, p: int): seq<int>
    requires 0 <= k <= |s|
  {
    s[..k] + [p] + s[k..]
  }

  /** Position `k` is behind all chunks larger than `size` and before the others. */
  ghost predicate FrontOf(f: map<int, int>, s: seq<int>, k: int, size: int) {
    && 0 <= k <= |s|
    && (forall j | 0 <= j < k :: s[j] in f && size < f[s[j]])
    && (k < |s| ==> s[k] in f && f[s[k]] <= size)
  }

  lemma InsertOrdered(f: map<int, int>, s: seq<int>, k: int, p: int, size: int)
    requires Ordered(f, s) && p !in f && FrontOf(f, s, k, size)
    requires forall q | q in s :: q in f
    ensures Ordered(f[p := size], InsertAt(s, k, p))
    ensures forall q :: q in InsertAt(s, k, p) <==> q in s || q == p
  {
    var t := InsertAt(s, k, p);
    assert forall x | 0 <= x < k :: t[x] == s[x];
    assert t[k] == p;
    assert forall x | k < x < |t| :: t[x] == s[x - 1];
    forall q | q in s ensures q in t {
      var x :| 0 <= x < |s| && s[x] == q;
      assert t[if x < k then x else x + 1] == q;
    }
  }

  lemma LinkIndexed(sz: WordSize, f: map<int, int>, bins: seq<seq<int>>, i: int, k: int, p: int, size: int)
    requires Indexed(sz, f, bins) && p !in f && 4 <= size && size % 2 == 0
    requires 0 <= i < NAV && FrontOf(f, bins[i], k, size)
    requires if i == LAST_REMAINDER then bins[i] == [] else i == BinOf(sz, size)
    ensures Indexed(sz, f[p := size], bins[i := InsertAt(bins[i], k, p)])
  {
    var g, bins' := f[p := size], bins[i := InsertAt(bins[i], k, p)];
    InsertOrdered(f, bins[i], k, p, size);
    forall j | 0 <= j < NAV ensures ListOk(sz, g, j, bins'[j]) {
      assert ListOk(sz, f, j, bins[j]);
      if j != i {
        ListFrame(sz, f, j, bins[j], p, size);
      }
    }
    assert p !in bins[LAST_REMAINDER] by { assert ListOk(sz, f, LAST_REMAINDER, bins[LAST_REMAINDER]); }
    assert p !in bins[BinOf(sz, size)] by { assert ListOk(sz, f, BinOf(sz, size), bins[BinOf(sz, size)]); }
    forall q | q in g ensures Homed(sz, g, bins', q) {
      if q != p {
        assert Homed(sz, f, bins, q);
      }
    }
  }

  /** A list does not mind a new free chunk elsewhere. */
  lemma ListFrame(sz: WordSize, f: map<int, int>, i: int, s: seq<int>, p: int, size: int)
    requires ListOk(sz, f, i, s) && p !in f
    ensures ListOk(sz, f[p := size], i, s) && p !in s
  {
    assert p in s ==> Belongs(sz, f, i, p);
    forall q | q in s ensures Belongs(sz, f[p := size], i, q) {
      assert Belongs(sz, f, i, q);
    }
    forall k | 0 <= k < |s| ensures s[k] in f {
      var q := s[k];
      assert q in s;
    }
  }

  /** The list that holds the free chunk `p` of the given size. */
  function Home(sz: WordSize, bins: seq<seq<int>>, p: int, size: int): int
    requires |bins| == NAV && 4 <= size
  {
    if p in bins[LAST_REMAINDER] then LAST_REMAINDER else BinOf(sz, size)
  }

  /** last_remainder takes `p` in place of whatever it held. */
  lemma RelinkIndexed(sz: WordSize, f: map<int, int>, bins: seq<seq<int>>, p: int, size: int)
    requires |bins| == NAV && Indexed(sz, f, bins[LAST_REMAINDER := []])
    requires p !in f && 4 <= size && size % 2 == 0
    ensures Indexed(sz, f[p := size], bins[LAST_REMAINDER := [p]])
  {
    LinkIndexed(sz, f, bins[LAST_REMAINDER := []], LAST_REMAINDER, 0, p, size);
    assert InsertAt([], 0, p) == [p];
    assert bins[LAST_REMAINDER := []][LAST_REMAINDER := [p]] == bins[LAST_REMAINDER := [p]];
  }

  /** A bin below 64 holds chunks of a single size. */
  lemma SmallBin(sz: WordSize, f: map<int, int>, bins: seq<seq<int>>, i: int, p: int)
    requires Indexed(sz, f, bins) && 2 <= i < 64 && p in bins[i]
    ensures p in f && Bytes(sz, f[p]) == 8 * i
  {
    assert ListOk(sz, f, i, bins[i]);
    assert Homed(sz, f, bins, p);
    BinIndexRange(Bytes(sz, f[p]));
  }

  lemma AloneInRemainder(sz: WordSize, f: map<int, int>, bins: seq<seq<int>>, p: int)
    requires |bins| == NAV && Indexed(sz, f, bins) && p in bins[LAST_REMAINDER]
    ensures bins[LAST_REMAINDER] == [p] && p in f
  {
    assert ListOk(sz, f, LAST_REMAINDER, bins[LAST_REMAINDER]);
  }

  /** The last remainder may change its size in place. */
  lemma ResizeRemainder(sz: WordSize, f: map<int, int>, bins: seq<seq<int>>, p: int, size: int)
    requires |bins| == NAV && Indexed(sz, f, bins) && p in bins[LAST_REMAINDER] && 4 <= size && size % 2 == 0
    ensures Indexed(sz, (f - {p})[p := size], bins)
  {
    AloneInRemainder(sz, f, bins, p);
    UnlinkIndexed(sz, f, bins, LAST_REMAINDER, p);
    assert Without([p], p) == [];
    RelinkIndexed(sz, f - {p}, bins, p, size);
    assert bins[LAST_REMAINDER := [p]] == bins;
  }

  /** last_remainder passes from `p` to `q`. */
  lemma ReplaceRemainder(sz: WordSize, f: map<int, int>, bins: seq<seq<int>>, p: int, q: int, size: int)
    requires |bins| == NAV && Indexed(sz, f, bins) && p in bins[LAST_REMAINDER] && 4 <= size && size % 2 == 0
    requires q !in f - {p}
    ensures Indexed(sz, (f - {p})[q := size], bins[LAST_REMAINDER := [q]])
  {
    AloneInRemainder(sz, f, bins, p);
    UnlinkIndexed(sz, f, bins, LAST_REMAINDER, p);
    assert Without([p], p) == [];
    RelinkIndexed(sz, f - {p}, bins, q, size);
  }

  lemma FrontOfRange(f: map<int, int>, s: seq<int>, k: int, size: int)
    requires FrontOf(f, s, k, size)
    ensures 0 <= k <= |s|
  {
  }

  lemma FrontOfEmpty(f: map<int, int>, size: int)
    ensures FrontOf(f, [], 0, size)
  {
  }

  lemma FrontOfSmall(sz: WordSize, f: map<int, int>, bins: seq<seq<int>>, i: int, size: int)
    requires Indexed(sz, f, bins) && 4 <= size && i == BinOf(sz, size) && Bytes(sz, size) < MAX_SMALLBIN_SIZE && size % 2 == 0
    ensures |bins| == NAV && FrontOf(f, bins[i], 0, size)
  {
    BinIndexRange(Bytes(sz, size));
    if bins[i] != [] {
      var q := bins[i][0];
      assert q in bins[i];
      SmallBin(sz, f, bins, i, q);
    }
  }

  lemma ListedFree(sz: WordSize, f: map<int, int>, bins: seq<seq<int>>, i: int)
    requires Indexed(sz, f, bins) && 0 <= i < NAV
    ensures |bins| == NAV && forall j | 0 <= j < |bins[i]| :: bins[i][j] in f
  {
    forall j | 0 <= j < |bins[i]| ensures bins[i][j] in f {
      var q := bins[i][j];
      assert q in bins[i] && ListOk(sz, f, i, bins[i]);
    }
  }
}
