/** Sliding one row of the 2048 board. */
module SlideRow {
  import opened Arithmetic

  const WRAP := 0x1_0000          // cells are 16 bits wide

  type Tile = v: int | 0 <= v < WRAP

  // ------------------------------------------------------------------
  // What a slide is

  /** The tiles of a row, gaps dropped. */
  function Tiles(s: seq<Tile>): seq<Tile> {
    if s == [] then [] else if s[0] == 0 then Tiles(s[1..]) else [s[0]] + Tiles(s[1..])
  }

  /** 16-bit addition */
  function Sum16(u: Tile, v: Tile): Tile { (u + v) % WRAP }

  function Doubled(v: Tile): Tile { Sum16(v, v) }

  /** Every leftmost pair of equal tiles merged once. */
  function Merged(ts: seq<Tile>): (r: seq<Tile>)
    ensures |r| <= |ts|
    decreases ts
  {
    if |ts| < 2 then ts
    else if ts[0] == ts[1] then [Doubled(ts[0])] + Merged(ts[2..])
    else [ts[0]] + Merged(ts[1..])
  }

  function Blank(n: nat): seq<Tile> { seq(n, i => 0) }

  /** A row after the slide. */
  function Slid(s: seq<Tile>): (r: seq<Tile>)
    ensures |r| == |s|
  {
    TilesFit(s);
    var m := Merged(Tiles(s));
    m + Blank(|s| - |m|)
  }

  /** What the merges add to the score. */
  function Gain(ts: seq<Tile>): nat
    decreases ts
  {
    if |ts| < 2 then 0
    else if ts[0] == ts[1] then 2 * ts[0] + Gain(ts[2..])
    else Gain(ts[1..])
  }

  /** The score after `d` more points: 32-bit addition. */
  function Scored(p: nat, d: nat): (r: nat)
    ensures r < W32
  {
    (p + d) % W32
  }

  lemma ScoredTwice(p: nat, a: nat, b: nat)
    ensures Scored(Scored(p, a), b) == Scored(p, a + b)
  {
  }

  lemma {:induction false} TilesFit(s: seq<Tile>)
    ensures |Tiles(s)| <= |s|
  {
    if s != [] {
      TilesFit(s[1..]);
    }
  }

  // ------------------------------------------------------------------
  // What is left to come while the row is being slid: `out` is what has been placed,
  // and its last tile may still merge unless it is itself a merger.

  function Open(out: seq<Tile>, stop: nat): bool { stop < |out| }

  function Rest(out: seq<Tile>, stop: nat, ts: seq<Tile>): seq<Tile> {
    if Open(out, stop) then out[..|out| - 1] + Merged([out[|out| - 1]] + ts) else out + Merged(ts)
  }

  function RestGain(out: seq<Tile>, stop: nat, ts: seq<Tile>): nat {
    if Open(out, stop) then Gain([out[|out| - 1]] + ts) else Gain(ts)
  }

  predicate Merges(out: seq<Tile>, stop: nat, v: Tile) {
    Open(out, stop) && out[|out| - 1] == v
  }

  lemma RestMerge(out: seq<Tile>, stop: nat, v: Tile, ts: seq<Tile>)
    requires Merges(out, stop, v)
    ensures Rest(out, stop, [v] + ts) == Rest(out[|out| - 1 := Doubled(v)], |out|, ts)
    ensures RestGain(out, stop, [v] + ts) == 2 * v + RestGain(out[|out| - 1 := Doubled(v)], |out|, ts)
  {
    var us := [v] + ([v] + ts);
    assert us[2..] == ts;
    assert out[|out| - 1 := Doubled(v)] == out[..|out| - 1] + [Doubled(v)];
  }

  lemma RestPlace(out: seq<Tile>, stop: nat, v: Tile, ts: seq<Tile>)
    requires !Merges(out, stop, v) && stop <= |out|
    ensures Rest(out, stop, [v] + ts) == Rest(out + [v], stop, ts)
    ensures RestGain(out, stop, [v] + ts) == RestGain(out + [v], stop, ts)
  {
    assert (out + [v])[..|out|] == out;
    if Open(out, stop) {
      var us := [out[|out| - 1]] + ([v] + ts);
      assert us[1..] == [v] + ts;
      assert out == out[..|out| - 1] + [out[|out| - 1]];
    }
  }

  // ------------------------------------------------------------------
  // The loop

  /** The cells before `x`: what has been placed, then gaps. */
  ghost predicate Front(s: seq<Tile>, x: nat, out: seq<Tile>) {
    x <= |s| && |out| <= x && s[..|out|] == out && forall i | |out| <= i < x :: s[i] == 0
  }

  /** Where the tile at `x` comes to rest: on the next tile below it if that is equal,
      else on the gap above it; but no lower than the gap at `stop`. */
  method FindTarget(a: array<Tile>, x: nat, stop: nat) returns (t: nat)
    requires x < a.Length
    ensures t <= x
    ensures forall j | stop <= j < x && a[j] != 0 && (forall i | j < i < x :: a[i] == 0) :: t == if a[j] == a[x] then j else j + 1
    ensures stop < x && (forall i | stop <= i < x :: a[i] == 0) ==> t == stop
  {
    if x == 0 {
      return x;
    }
    var k := x;
    while k > 0
      invariant 0 <= k <= x && forall i | k <= i < x :: a[i] == 0
      invariant stop < x ==> stop < k
    {
      var c := k - 1;
      if a[c] != 0 {
        if a[c] != a[x] {
          return c + 1;
        }
        return c;
      } else if c == stop {
        return c;
      }
      k := c;
    }
    return x;
  }

  /** The places of the tiles, added up: each move and each merge makes it smaller. */
  ghost function Weight(s: seq<Tile>): nat {
    if s == [] then 0 else Weight(s[..|s| - 1]) + if s[|s| - 1] == 0 then 0 else |s|
  }

  ghost function WeightAt(v: Tile, i: nat): nat { if v == 0 then 0 else i + 1 }

  lemma {:induction false} WeightSet(s: seq<Tile>, i: nat, v: Tile)
    requires i < |s|
    ensures Weight(s[i := v]) == Weight(s) - WeightAt(s[i], i) + WeightAt(v, i)
  {
    var n := |s| - 1;
    var u := s[i := v];
    if i == n {
      assert u[..n] == s[..n];
    } else {
      WeightSet(s[..n], i, v);
      assert u[..n] == s[..n][i := v];
    }
  }

  lemma WeightFalls(s: seq<Tile>, t: nat, x: nat, w: Tile)
    requires t < x < |s| && s[x] != 0
    ensures Weight(s[t := w][x := 0]) < Weight(s)
  {
    WeightSet(s, t, w);
    WeightSet(s[t := w], x, 0);
  }

  /** `cur` is the row `s` after the loop has come to `x`. */
  ghost predicate Sliding(s: seq<Tile>, cur: seq<Tile>, x: nat, out: seq<Tile>, stop: nat) {
    && |cur| == |s| && Front(cur, x, out) && cur[x..] == s[x..]
    && stop <= |out| && (0 < stop == |out| ==> stop < x)
    && (forall i | stop <= i < |out| :: out[i] != 0)
    && Rest(out, stop, Tiles(s[x..])) == Merged(Tiles(s))
  }

  lemma Begin(s: seq<Tile>)
    ensures Sliding(s, s, 0, [], 0) && RestGain([], 0, Tiles(s[0..])) == Gain(Tiles(s))
  {
    assert s[0..] == s;
  }

  lemma Finish(s: seq<Tile>, cur: seq<Tile>, out: seq<Tile>, stop: nat)
    requires Sliding(s, cur, |s|, out, stop)
    ensures cur == Slid(s) && RestGain(out, stop, Tiles(s[|s|..])) == 0
  {
    assert s[|s|..] == [];
    if Open(out, stop) {
      assert out == out[..|out| - 1] + [out[|out| - 1]];
      assert [out[|out| - 1]] + [] == [out[|out| - 1]];
    } else {
      assert out + [] == out;
    }
    assert Merged(Tiles(s)) == out;
    TilesFit(s);
    assert cur == out + Blank(|s| - |out|);
  }

  lemma TilesNext(s: seq<Tile>, x: nat)
    requires x < |s|
    ensures Tiles(s[x..]) == if s[x] == 0 then Tiles(s[x + 1..]) else [s[x]] + Tiles(s[x + 1..])
  {
    assert s[x..][0] == s[x] && s[x..][1..] == s[x + 1..];
  }

  lemma Gap(s: seq<Tile>, cur: seq<Tile>, x: nat, out: seq<Tile>, stop: nat)
    requires Sliding(s, cur, x, out, stop) && x < |s| && s[x] == 0
    ensures cur[x] == 0 && Sliding(s, cur, x + 1, out, stop) && Tiles(s[x..]) == Tiles(s[x + 1..])
  {
    TilesNext(s, x);
    assert cur[x] == cur[x..][0] && s[x] == s[x..][0];
    assert cur[x + 1..] == cur[x..][1..] && s[x + 1..] == s[x..][1..];
  }

  /** A tile comes to rest behind those placed: `cur'` is the row with it moved. */
  lemma Place(s: seq<Tile>, cur: seq<Tile>, x: nat, out: seq<Tile>, stop: nat, cur': seq<Tile>)
    requires Sliding(s, cur, x, out, stop) && x < |s| && s[x] != 0 && !Merges(out, stop, s[x])
    requires cur' == if |out| == x then cur else cur[|out| := s[x]][x := 0]
    ensures Sliding(s, cur', x + 1, out + [s[x]], stop)
    ensures RestGain(out, stop, Tiles(s[x..])) == RestGain(out + [s[x]], stop, Tiles(s[x + 1..]))
  {
    hide Rest, RestGain, Merged, Gain;
    var v := s[x];
    TilesNext(s, x);
    RestPlace(out, stop, v, Tiles(s[x + 1..]));
    assert cur[x] == cur[x..][0] && v == s[x..][0];
    assert cur'[x + 1..] == cur[x..][1..] && s[x + 1..] == s[x..][1..];
    assert cur'[..|out| + 1] == out + [v];
  }

  /** A tile merges with the last one placed. */
  lemma Merge(s: seq<Tile>, cur: seq<Tile>, x: nat, out: seq<Tile>, stop: nat)
    requires Sliding(s, cur, x, out, stop) && x < |s| && s[x] != 0 && Merges(out, stop, s[x])
    ensures Sliding(s, cur[|out| - 1 := Doubled(s[x])][x := 0], x + 1, out[|out| - 1 := Doubled(s[x])], |out|)
    ensures RestGain(out, stop, Tiles(s[x..])) == 2 * s[x] + RestGain(out[|out| - 1 := Doubled(s[x])], |out|, Tiles(s[x + 1..]))
  {
    hide Rest, RestGain, Merged, Gain;
    var v, t := s[x], |out| - 1;
    TilesNext(s, x);
    RestMerge(out, stop, v, Tiles(s[x + 1..]));
    var cur' := cur[t := Doubled(v)][x := 0];
    assert cur'[x + 1..] == cur[x..][1..] && s[x + 1..] == s[x..][1..];
    assert cur'[..|out|] == out[t := Doubled(v)];
  }

  /** The score is a global of the game. */
  class Score {
    var points: nat

    /** A tile is added to the cell it comes to rest on and leaves its own. */
    static method MoveTile(a: array<Tile>, t: nat, x: nat)
      requires t < x < a.Length
      modifies a
      ensures a[..] == old(a[..])[t := Sum16(old(a[..])[t], old(a[..])[x])][x := 0]
    {
      a[t] := Sum16(a[t], a[x]);
      a[x] := 0;
    }

    /** The body of the loop of slideArray, at a tile. */
    method SlideTile(a: array<Tile>, x: nat, stop: nat, ghost s: seq<Tile>, ghost out: seq<Tile>)
      returns (moved: bool, stop': nat, ghost out': seq<Tile>)
      requires points < W32 && x < a.Length && a[x] != 0 && Sliding(s, a[..], x, out, stop)
      modifies this, a
      ensures points < W32 && Sliding(s, a[..], x + 1, out', stop')
      ensures Scored(points, RestGain(out', stop', Tiles(s[x + 1..]))) == Scored(old(points), RestGain(out, stop, Tiles(s[x..])))
      ensures if moved then Weight(a[..]) < Weight(old(a[..])) else a[..] == old(a[..])
    {
      hide Sliding, Slid, Tiles, Gain, RestGain, Weight, AfterTile, Sum16, Scored;
      moved, stop', out' := false, stop, AfterTile(out, stop, a[x]);
      ghost var cur := a[..];
      var t := FindTarget(a, x, stop);
      TileStep(s, cur, x, out, stop, t);
      if t != x {
        WeightFalls(cur, t, x, Sum16(a[t], a[x]));
        if a[t] != 0 {
          ScoredTwice(points, a[t] as int + a[x], RestGain(out', t + 1, Tiles(s[x + 1..])));
          points := Scored(points, a[t] as int + a[x]);
          stop' := t + 1;
        }
        MoveTile(a, t, x);
        moved := true;
      } else {
        assert a[..] == cur;
      }
    }

    /** slideArray: the row is slid in place, the merges are added to the score, and
        the result says whether anything moved. */
    method SlideArray(a: array<Tile>) returns (success: bool)
      requires points < W32
      modifies this, a
      ensures a[..] == Slid(old(a[..]))
      ensures points == Scored(old(points), Gain(Tiles(old(a[..]))))
      ensures success <==> a[..] != old(a[..])
    {
      hide Sliding, Slid, Tiles, Gain, RestGain, Weight;
      success := false;
      ghost var s := a[..];
      var stop := 0;
      ghost var out: seq<Tile> := [];
      var x := 0;
      Begin(s);
      while x < a.Length
        invariant 0 <= x <= a.Length && Sliding(s, a[..], x, out, stop)
        invariant points < W32
        invariant Scored(points, RestGain(out, stop, Tiles(s[x..]))) == Scored(old(points), Gain(Tiles(s)))
        invariant success ==> Weight(a[..]) < Weight(s)
        invariant !success ==> a[..] == s
      {
        if a[x] != 0 {
          var moved;
          moved, stop, out := SlideTile(a, x, stop, s, out);
          success := success || moved;
        } else {
          Current(s, a[..], x, out, stop);
          Gap(s, a[..], x, out, stop);
        }
        x := x + 1;
      }
      assert x == |s|;
      Finish(s, a[..], out, stop);
    }
  }

  /** What has been placed once the tile `v` has come to rest. */
  ghost function AfterTile(out: seq<Tile>, stop: nat, v: Tile): seq<Tile> {
    if Merges(out, stop, v) then out[|out| - 1 := Doubled(v)] else out + [v]
  }

  lemma Sum16Zero(v: Tile)
    ensures Sum16(0, v) == v
  {
  }

  lemma TileStep(s: seq<Tile>, cur: seq<Tile>, x: nat, out: seq<Tile>, stop: nat, t: nat)
    requires Sliding(s, cur, x, out, stop) && x < |cur| && cur[x] != 0 && t <= x
    requires forall j | stop <= j < x && cur[j] != 0 && (forall i | j < i < x :: cur[i] == 0) :: t == if cur[j] == cur[x] then j else j + 1
    requires stop < x && (forall i | stop <= i < x :: cur[i] == 0) ==> t == stop
    ensures |cur| == |s|
    ensures var merges := t != x && cur[t] != 0;
            var cur' := if t == x then cur else cur[t := Sum16(cur[t], cur[x])][x := 0];
            var out', stop' := AfterTile(out, stop, cur[x]), if merges then t + 1 else stop;
            && Sliding(s, cur', x + 1, out', stop')
            && RestGain(out, stop, Tiles(s[x..])) ==
               (if merges then cur[t] + cur[x] else 0) + RestGain(out', stop', Tiles(s[x + 1..]))
  {
    Current(s, cur, x, out, stop);
    Target(s, cur, x, out, stop, t);
    hide Sliding, Tiles, RestGain, Sum16;
    Sum16Zero(cur[x]);
    if Merges(out, stop, s[x]) {
      Merge(s, cur, x, out, stop);
    } else {
      Place(s, cur, x, out, stop, if t == x then cur else cur[t := s[x]][x := 0]);
    }
  }

  lemma Current(s: seq<Tile>, cur: seq<Tile>, x: nat, out: seq<Tile>, stop: nat)
    requires Sliding(s, cur, x, out, stop) && x < |cur|
    ensures |cur| == |s| && cur[x] == s[x]
  {
    assert cur[x] == cur[x..][0] && s[x] == s[x..][0];
  }

  lemma Target(s: seq<Tile>, cur: seq<Tile>, x: nat, out: seq<Tile>, stop: nat, t: nat)
    requires Sliding(s, cur, x, out, stop) && x < |s| && t <= x
    requires forall j | stop <= j < x && cur[j] != 0 && (forall i | j < i < x :: cur[i] == 0) :: t == if cur[j] == cur[x] then j else j + 1
    requires stop < x && (forall i | stop <= i < x :: cur[i] == 0) ==> t == stop
    ensures t == if Merges(out, stop, s[x]) then |out| - 1 else |out|
    ensures Merges(out, stop, s[x]) ==> t < x
    ensures t < x ==> cur[t] == if Merges(out, stop, s[x]) then s[x] else 0
  {
    Current(s, cur, x, out, stop);
    if Open(out, stop) {
      var j := |out| - 1;
      assert cur[j] == cur[..|out|][j] == out[j];
    }
  }
}
