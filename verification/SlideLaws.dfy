/** What sliding a row keeps, and which rows it leaves alone. */
module SlideLaws {
  import opened SlideRow

  function Sum(s: seq<Tile>): nat {
    if s == [] then 0 else s[0] + Sum(s[1..])
  }

  /** How many mergers do not fit 16 bits. */
  function Overflows(ts: seq<Tile>): nat
    decreases ts
  {
    if |ts| < 2 then 0
    else if ts[0] == ts[1] then (if 2 * ts[0] >= WRAP then 1 else 0) + Overflows(ts[2..])
    else Overflows(ts[1..])
  }

  lemma {:induction false} SumJoin(a: seq<Tile>, b: seq<Tile>)
    ensures Sum(a + b) == Sum(a) + Sum(b)
  {
    if a == [] {
      assert a + b == b;
    } else {
      SumJoin(a[1..], b);
      assert (a + b)[1..] == a[1..] + b;
    }
  }

  lemma {:induction false} SumTiles(s: seq<Tile>)
    ensures Sum(Tiles(s)) == Sum(s)
  {
    if s != [] {
      SumTiles(s[1..]);
      assert ([s[0]] + Tiles(s[1..]))[1..] == Tiles(s[1..]);
    }
  }

  lemma {:induction false} SumBlank(n: nat)
    ensures Sum(Blank(n)) == 0
  {
    if n > 0 {
      SumBlank(n - 1);
      assert Blank(n)[1..] == Blank(n - 1);
    }
  }

  lemma {:induction false} SumMerged(ts: seq<Tile>)
    ensures Sum(Merged(ts)) == Sum(ts) - WRAP * Overflows(ts)
    decreases ts
  {
    if |ts| >= 2 {
      var u := ts[1..];
      assert u[0] == ts[1] && u[1..] == ts[2..];
      if ts[0] == ts[1] {
        SumMerged(ts[2..]);
        assert ([Doubled(ts[0])] + Merged(ts[2..]))[1..] == Merged(ts[2..]);
      } else {
        SumMerged(u);
        assert ([ts[0]] + Merged(u))[1..] == Merged(u);
      }
    }
  }

  /** The tiles add up to what they did before, but for the mergers that overflow. */
  lemma SumSlid(s: seq<Tile>)
    ensures Sum(Slid(s)) == Sum(s) - WRAP * Overflows(Tiles(s))
  {
    TilesFit(s);
    var m := Merged(Tiles(s));
    SumJoin(m, Blank(|s| - |m|));
    SumBlank(|s| - |m|);
    SumMerged(Tiles(s));
    SumTiles(s);
  }

  /** So the sum is kept exactly when no merger overflows. */
  lemma SumKept(s: seq<Tile>)
    ensures Sum(Slid(s)) == Sum(s) <==> Overflows(Tiles(s)) == 0
  {
    SumSlid(s);
  }

  /** Two tiles of 32768 are lost altogether. */
  lemma SumLost()
    ensures Slid([32768, 32768]) == [0, 0]
  {
    var s: seq<Tile> := [32768, 32768];
    assert s[1..] == [32768] && s[1..][1..] == [];
    assert Tiles(s[1..]) == [32768];
    assert Tiles(s) == s && s[2..] == [];
    assert Merged(s) == [0];
  }

  // ------------------------------------------------------------------
  // What the score counts

  /** What a tile is worth: all the mergers that made it, down to odd tiles. */
  function Worth(v: int): nat
    requires 0 <= v
  {
    if v >= 2 && v % 2 == 0 then v + 2 * Worth(v / 2) else 0
  }

  function Value(s: seq<Tile>): nat {
    if s == [] then 0 else Worth(s[0]) + Value(s[1..])
  }

  lemma {:induction false} ValueJoin(a: seq<Tile>, b: seq<Tile>)
    ensures Value(a + b) == Value(a) + Value(b)
  {
    if a == [] {
      assert a + b == b;
    } else {
      ValueJoin(a[1..], b);
      assert (a + b)[1..] == a[1..] + b;
    }
  }

  lemma {:induction false} ValueTiles(s: seq<Tile>)
    ensures Value(Tiles(s)) == Value(s)
  {
    if s != [] {
      ValueTiles(s[1..]);
      assert ([s[0]] + Tiles(s[1..]))[1..] == Tiles(s[1..]);
    }
  }

  lemma {:induction false} ValueBlank(n: nat)
    ensures Value(Blank(n)) == 0
  {
    if n > 0 {
      ValueBlank(n - 1);
      assert Blank(n)[1..] == Blank(n - 1);
    }
  }

  lemma {:induction false} ValueMerged(ts: seq<Tile>)
    requires Overflows(ts) == 0 && forall i {:trigger ts[i]} | 0 <= i < |ts| :: ts[i] != 0
    ensures Value(Merged(ts)) == Value(ts) + Gain(ts)
    decreases ts
  {
    if |ts| >= 2 {
      var u := ts[1..];
      assert u[0] == ts[1] && u[1..] == ts[2..];
      if ts[0] == ts[1] {
        ValueMerged(ts[2..]);
        assert Doubled(ts[0]) == 2 * ts[0];
        assert ([Doubled(ts[0])] + Merged(ts[2..]))[1..] == Merged(ts[2..]);
      } else {
        ValueMerged(u);
        assert ([ts[0]] + Merged(u))[1..] == Merged(u);
      }
    }
  }

  /** A slide earns exactly what its tiles gain in worth, if none overflows. */
  lemma GainIsWorth(s: seq<Tile>)
    requires Overflows(Tiles(s)) == 0
    ensures Value(Slid(s)) == Value(s) + Gain(Tiles(s))
  {
    TilesFit(s);
    var m := Merged(Tiles(s));
    ValueJoin(m, Blank(|s| - |m|));
    ValueBlank(|s| - |m|);
    TilesNonzero(s);
    ValueMerged(Tiles(s));
    ValueTiles(s);
  }

  // ------------------------------------------------------------------
  // Rows of four

  lemma TilesOfFour(a: Tile, b: Tile, c: Tile, d: Tile)
    ensures Tiles([a, b, c, d]) ==
            (if a == 0 then [] else [a]) + (if b == 0 then [] else [b]) + (if c == 0 then [] else [c]) + (if d == 0 then [] else [d])
  {
    var s: seq<Tile> := [a, b, c, d];
    assert s[1..] == [b, c, d] && s[1..][1..] == [c, d] && s[1..][1..][1..] == [d] && [d][1..] == [];
    assert Tiles([d]) == if d == 0 then [] else [d];
    assert Tiles([c, d]) == (if c == 0 then [] else [c]) + Tiles([d]);
    assert Tiles([b, c, d]) == (if b == 0 then [] else [b]) + Tiles([c, d]);
  }

  lemma MergedShort(a: Tile, b: Tile, c: Tile, d: Tile)
    ensures Merged([a]) == [a] && Merged([a, b]) == if a == b then [Doubled(a)] else [a, b]
    ensures Merged([a, b, c]) == if a == b then [Doubled(a), c] else [a] + Merged([b, c])
    ensures Merged([a, b, c, d]) == if a == b then [Doubled(a)] + Merged([c, d]) else [a] + Merged([b, c, d])
  {
    assert [a, b][2..] == [] && [a, b][1..] == [b];
    assert [a, b, c][2..] == [c] && [a, b, c][1..] == [b, c];
    assert [a, b, c, d][2..] == [c, d] && [a, b, c, d][1..] == [b, c, d];
  }

  lemma SlidOfFour(a: Tile, b: Tile, c: Tile, d: Tile, ts: seq<Tile>, m: seq<Tile>)
    requires ts == (if a == 0 then [] else [a]) + (if b == 0 then [] else [b]) + (if c == 0 then [] else [c]) + (if d == 0 then [] else [d])
    requires Merged(ts) == m && 1 <= |m| <= 2
    ensures Slid([a, b, c, d]) == if |m| == 1 then [m[0], 0, 0, 0] else [m[0], m[1], 0, 0]
  {
    hide Tiles, Merged;
    TilesOfFour(a, b, c, d);
    assert Blank(3) == [0, 0, 0] && Blank(2) == [0, 0];
  }

  /** The rows the command tests itself with, for any tiles: equal tiles meet across gaps,
      the pair nearest the start merges, and a merger does not merge again. */
  lemma OnePair(a: Tile)
    requires a != 0 && 2 * a < WRAP
    ensures Slid([0, 0, 0, a]) == [a, 0, 0, 0]
    ensures Slid([0, 0, a, a]) == Slid([0, a, 0, a]) == Slid([a, 0, 0, a]) == Slid([a, 0, a, 0]) == [2 * a, 0, 0, 0]
  {
    hide Tiles, Merged, Slid;
    MergedShort(a, a, a, a);
    SlidOfFour(0, 0, 0, a, [a], [a]);
    SlidOfFour(0, 0, a, a, [a, a], [2 * a]);
    SlidOfFour(0, a, 0, a, [a, a], [2 * a]);
    SlidOfFour(a, 0, 0, a, [a, a], [2 * a]);
    SlidOfFour(a, 0, a, 0, [a, a], [2 * a]);
  }

  lemma ThreeAlike(a: Tile)
    requires a != 0 && 2 * a < WRAP
    ensures Slid([a, a, a, 0]) == Slid([a, 0, a, a]) == Slid([a, a, 0, a]) == [2 * a, a, 0, 0]
    ensures Slid([a, a, a, a]) == [2 * a, 2 * a, 0, 0]
  {
    hide Tiles, Merged, Slid;
    MergedShort(a, a, a, a);
    SlidOfFour(a, a, a, 0, [a, a, a], [2 * a, a]);
    SlidOfFour(a, 0, a, a, [a, a, a], [2 * a, a]);
    SlidOfFour(a, a, 0, a, [a, a, a], [2 * a, a]);
    SlidOfFour(a, a, a, a, [a, a, a, a], [2 * a, 2 * a]);
  }

  lemma TwoPairs(a: Tile, b: Tile)
    requires a != 0 && b != 0 && a != b && 2 * a < WRAP && 2 * b < WRAP
    ensures Slid([b, b, a, a]) == [2 * b, 2 * a, 0, 0] && Slid([b, 0, a, a]) == [b, 2 * a, 0, 0]
  {
    hide Tiles, Merged, Slid;
    MergedShort(b, b, a, a);
    MergedShort(b, a, a, a);
    MergedShort(a, a, a, a);
    SlidOfFour(b, b, a, a, [b, b, a, a], [2 * b, 2 * a]);
    SlidOfFour(b, 0, a, a, [b, a, a], [b, 2 * a]);
  }

  // ------------------------------------------------------------------
  // Rows that do not move

  /** No gap below a tile, no two equal tiles side by side. */
  predicate Stuck(s: seq<Tile>) {
    forall i {:trigger s[i]} | 0 <= i < |s| - 1 :: if s[i] == 0 then s[i + 1] == 0 else s[i] != s[i + 1]
  }

  lemma {:induction false} TilesJoined(a: seq<Tile>, b: seq<Tile>)
    ensures |Tiles(a + b)| <= |a| + |Tiles(b)|
  {
    if a == [] {
      assert a + b == b;
    } else {
      TilesJoined(a[1..], b);
      assert (a + b)[1..] == a[1..] + b;
    }
  }

  lemma {:induction false} TilesBlank(n: nat)
    ensures Tiles(Blank(n)) == []
  {
    if n > 0 {
      TilesBlank(n - 1);
      assert Blank(n)[1..] == Blank(n - 1);
    }
  }

  lemma {:induction false} TilesNonzero(s: seq<Tile>)
    ensures forall i | 0 <= i < |Tiles(s)| :: Tiles(s)[i] != 0
  {
    if s != [] {
      TilesNonzero(s[1..]);
    }
  }

  /** Merging nothing away means there was nothing to merge. */
  lemma {:induction false} MergedLength(ts: seq<Tile>)
    requires |Merged(ts)| == |ts|
    ensures Merged(ts) == ts && forall i {:trigger ts[i]} | 0 <= i < |ts| - 1 :: ts[i] != ts[i + 1]
    decreases ts
  {
    if |ts| >= 2 {
      assert ts[0] != ts[1];
      var u := ts[1..];
      MergedLength(u);
      forall i | 0 <= i < |ts| - 1 ensures ts[i] != ts[i + 1] {
        if i > 0 {
          assert u[i - 1] == ts[i] && u[i] == ts[i + 1];
        }
      }
    }
  }

  lemma FixedIsStuck(s: seq<Tile>)
    requires Slid(s) == s
    ensures Stuck(s)
  {
    TilesFit(s);
    var ts := Tiles(s);
    var m := Merged(ts);
    TilesJoined(m, Blank(|s| - |m|));
    TilesBlank(|s| - |m|);
    assert |ts| <= |m|;
    MergedLength(ts);
    TilesNonzero(s);
    assert s == ts + Blank(|s| - |ts|);
  }

  lemma {:induction false} GapsOnly(s: seq<Tile>)
    requires Stuck(s) && s != [] && s[0] == 0
    ensures Tiles(s) == [] && s == Blank(|s|)
  {
    if |s| > 1 {
      var u := s[1..];
      assert u[0] == s[1];
      assert Stuck(u) by {
        forall i | 0 <= i < |u| - 1 ensures if u[i] == 0 then u[i + 1] == 0 else u[i] != u[i + 1] {
          assert u[i] == s[i + 1];
        }
      }
      GapsOnly(u);
      assert s == [s[0]] + u;
      assert s == Blank(|s|);
    } else {
      assert s[1..] == [];
      assert s == Blank(1);
    }
  }

  lemma {:induction false} StuckIsFixed(s: seq<Tile>)
    requires Stuck(s)
    ensures |Merged(Tiles(s))| == |Tiles(s)| <= |s| && Merged(Tiles(s)) + Blank(|s| - |Tiles(s)|) == s
  {
    TilesFit(s);
    if s == [] {
    } else if s[0] == 0 {
      GapsOnly(s);
    } else {
      var u := s[1..];
      assert Stuck(u) by {
        forall i | 0 <= i < |u| - 1 ensures if u[i] == 0 then u[i + 1] == 0 else u[i] != u[i + 1] {
          assert u[i] == s[i + 1];
        }
      }
      StuckIsFixed(u);
      if u != [] && u[0] == 0 {
        GapsOnly(u);
      }
      var ts := Tiles(s);
      assert ts[1..] == Tiles(u);
      assert u != [] && u[0] != 0 ==> ts[1] == u[0] == s[1];
      assert Merged(ts) == [s[0]] + Merged(Tiles(u));
      assert s == [s[0]] + u;
    }
  }

  /** Exactly the stuck rows stay as they are. */
  lemma FixedIffStuck(s: seq<Tile>)
    ensures Slid(s) == s <==> Stuck(s)
  {
    if Stuck(s) {
      StuckIsFixed(s);
    }
    if Slid(s) == s {
      FixedIsStuck(s);
    }
  }
}
