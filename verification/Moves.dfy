/** The four moves of the 2048 board, what the turns make of them, and when none is
    left. */
module Moves {
  import opened SlideRow
  import opened SlideLaws
  import opened Rotation

  // ------------------------------------------------------------------
  // The four moves, line by line

  ghost function UpOf(g: Grid): (r: Grid)
    requires Square(g)
    ensures Square(r) && |r| == |g|
  {
    seq(|g|, i requires 0 <= i < |g| => Slid(g[i]))
  }

  /** The line slid towards its end. */
  ghost function SlidBack(s: seq<Tile>): (r: seq<Tile>)
    ensures |r| == |s|
  {
    Reversed(Slid(Reversed(s)))
  }

  ghost function DownOf(g: Grid): (r: Grid)
    requires Square(g)
    ensures Square(r) && |r| == |g|
  {
    seq(|g|, i requires 0 <= i < |g| => SlidBack(g[i]))
  }

  ghost function LeftOf(g: Grid): (r: Grid)
    requires Square(g)
    ensures Square(r) && |r| == |g|
  {
    seq(|g|, i requires 0 <= i < |g| => seq(|g|, j requires 0 <= j < |g| => Slid(Column(g, j))[i]))
  }

  ghost function RightOf(g: Grid): (r: Grid)
    requires Square(g)
    ensures Square(r) && |r| == |g|
  {
    seq(|g|, i requires 0 <= i < |g| => seq(|g|, j requires 0 <= j < |g| => SlidBack(Column(g, j))[i]))
  }

  lemma LeftColumn(g: Grid, k: nat)
    requires Square(g) && k < |g|
    ensures Column(LeftOf(g), k) == Slid(Column(g, k))
  {
    var c := Column(LeftOf(g), k);
    forall i | 0 <= i < |g| ensures c[i] == Slid(Column(g, k))[i] {
      assert c[i] == LeftOf(g)[i][k];
    }
  }

  lemma RightColumn(g: Grid, k: nat)
    requires Square(g) && k < |g|
    ensures Column(RightOf(g), k) == SlidBack(Column(g, k))
  {
    var c := Column(RightOf(g), k);
    forall i | 0 <= i < |g| ensures c[i] == SlidBack(Column(g, k))[i] {
      assert c[i] == RightOf(g)[i][k];
    }
  }

  // ------------------------------------------------------------------
  // By turning

  lemma TurnedRow(g: Grid, i: nat)
    requires Square(g) && i < |g|
    ensures Turned(g)[i] == Column(g, |g| - 1 - i)
  {
  }

  lemma UpRow(g: Grid, i: nat)
    requires Square(g) && i < |g|
    ensures UpOf(g)[i] == Slid(g[i])
  {
  }

  /** Down means: reversed, it is slid. */
  lemma DownRow(g: Grid, i: nat)
    requires Square(g) && i < |g|
    ensures Reversed(DownOf(g)[i]) == Slid(Reversed(g[i]))
  {
    hide Slid;
    ReversedTwice(Slid(Reversed(g[i])));
  }

  lemma LeftByTurning(g: Grid)
    requires Square(g)
    ensures Turned(Turned(Turned(UpOf(Turned(g))))) == LeftOf(g)
    ensures UpOf(Turned(g)) == Turned(g) <==> LeftOf(g) == g
  {
    hide *;
    var x, h := LeftOf(g), UpOf(Turned(g));
    forall i | 0 <= i < |g| ensures Turned(x)[i] == h[i] {
      UpRow(Turned(g), i);
      TurnedRow(x, i);
      TurnedRow(g, i);
      LeftColumn(g, |g| - 1 - i);
    }
    assert Turned(x) == h;
    FullTurn(x);
    FullTurn(g);
  }

  lemma DownByTurning(g: Grid)
    requires Square(g)
    ensures Turned(Turned(UpOf(Turned(Turned(g))))) == DownOf(g)
    ensures UpOf(Turned(Turned(g))) == Turned(Turned(g)) <==> DownOf(g) == g
  {
    hide *;
    var x, t := DownOf(g), Turned(Turned(g));
    var h := UpOf(t);
    HalfTurn(x);
    HalfTurn(g);
    forall i | 0 <= i < |g| ensures Turned(Turned(x))[i] == h[i] {
      UpRow(t, i);
      DownRow(g, |g| - 1 - i);
    }
    assert Turned(Turned(x)) == h;
    FullTurn(x);
    FullTurn(g);
  }

  lemma BackTurn(g: Grid, i: nat)
    requires Square(g) && i < |g|
    ensures Turned(Turned(Turned(g)))[i] == Reversed(Column(g, i))
  {
    HalfTurn(Turned(g));
    TurnedRow(g, |g| - 1 - i);
  }

  lemma RightByTurning(g: Grid)
    requires Square(g)
    ensures Turned(UpOf(Turned(Turned(Turned(g))))) == RightOf(g)
    ensures UpOf(Turned(Turned(Turned(g)))) == Turned(Turned(Turned(g))) <==> RightOf(g) == g
  {
    hide *;
    var x, t := RightOf(g), Turned(Turned(Turned(g)));
    var h := UpOf(t);
    forall i | 0 <= i < |g| ensures Turned(Turned(Turned(x)))[i] == h[i] {
      UpRow(t, i);
      BackTurn(x, i);
      BackTurn(g, i);
      RightColumn(g, i);
      BackReversed(Column(g, i));
    }
    assert Turned(Turned(Turned(x))) == h;
    FullTurn(x);
    FullTurn(g);
  }

  lemma BackReversed(s: seq<Tile>)
    ensures Reversed(SlidBack(s)) == Slid(Reversed(s))
  {
    hide Slid;
    ReversedTwice(Slid(Reversed(s)));
  }

  // ------------------------------------------------------------------
  // The end of the game

  /** No move changes the board. */
  ghost predicate NoMove(g: Grid)
    requires Square(g)
  {
    UpOf(g) == g && LeftOf(g) == g && DownOf(g) == g && RightOf(g) == g
  }

  ghost predicate SomeTile(g: Grid) {
    exists i, j :: 0 <= i < |g| && 0 <= j < |g[i]| && g[i][j] != 0
  }

  predicate FullLine(s: seq<Tile>) {
    forall i | 0 <= i < |s| :: s[i] != 0
  }

  predicate PairIn(s: seq<Tile>) {
    exists i {:trigger s[i]} :: 0 <= i < |s| - 1 && s[i] == s[i + 1]
  }

  ghost predicate Full(g: Grid) {
    forall i {:trigger g[i]} | 0 <= i < |g| :: FullLine(g[i])
  }

  ghost predicate NoPairs(g: Grid) {
    forall i {:trigger g[i]} | 0 <= i < |g| :: !PairIn(g[i])
  }

  lemma ReversedFull(s: seq<Tile>)
    requires FullLine(s) && !PairIn(s)
    ensures Stuck(s) && Stuck(Reversed(s))
  {
    var r := Reversed(s);
    forall i | 0 <= i < |r| - 1 ensures r[i] != 0 && r[i] != r[i + 1] {
      assert r[i] == s[|s| - 1 - i] && r[i + 1] == s[|s| - 2 - i];
    }
  }

  /** A gap in a line that neither way moves: the line is all gaps. */
  lemma {:induction false} GapSpreads(s: seq<Tile>, i: nat, j: nat)
    requires Stuck(s) && i <= j < |s| && s[i] == 0
    ensures s[j] == 0
    decreases j
  {
    if i < j {
      GapSpreads(s, i, j - 1);
    }
  }

  lemma StuckBothWays(s: seq<Tile>, i: nat, j: nat)
    requires Stuck(s) && Stuck(Reversed(s)) && i < |s| && j < |s| && s[i] == 0
    ensures s[j] == 0
  {
    hide Stuck;
    if i <= j {
      GapSpreads(s, i, j);
    } else {
      var n := |s| - 1;
      assert Reversed(s)[n - i] == s[i] && Reversed(s)[n - j] == s[j];
      GapSpreads(Reversed(s), n - i, n - j);
    }
  }

  lemma BackFixed(s: seq<Tile>)
    ensures SlidBack(s) == s <==> Stuck(Reversed(s))
  {
    ReversedTwice(s);
    ReversedTwice(Slid(Reversed(s)));
    FixedIffStuck(Reversed(s));
  }

  lemma RowsStuck(g: Grid, i: nat)
    requires Square(g) && UpOf(g) == g && DownOf(g) == g && i < |g|
    ensures Stuck(g[i]) && Stuck(Reversed(g[i]))
  {
    assert UpOf(g)[i] == Slid(g[i]) && DownOf(g)[i] == SlidBack(g[i]);
    FixedIffStuck(g[i]);
    BackFixed(g[i]);
  }

  lemma ColumnsStuck(g: Grid, k: nat)
    requires Square(g) && LeftOf(g) == g && RightOf(g) == g && k < |g|
    ensures Stuck(Column(g, k)) && Stuck(Reversed(Column(g, k)))
  {
    LeftColumn(g, k);
    RightColumn(g, k);
    FixedIffStuck(Column(g, k));
    BackFixed(Column(g, k));
  }

  lemma SameByColumns(g: Grid, h: Grid)
    requires Square(g) && Square(h) && |g| == |h|
    requires forall k | 0 <= k < |g| :: Column(h, k) == Column(g, k)
    ensures h == g
  {
    forall i | 0 <= i < |g| ensures h[i] == g[i] {
      forall k | 0 <= k < |g| ensures h[i][k] == g[i][k] {
        assert Column(h, k)[i] == Column(g, k)[i];
      }
    }
  }

  lemma LineStays(s: seq<Tile>)
    requires FullLine(s) && !PairIn(s)
    ensures Slid(s) == s == SlidBack(s)
  {
    ReversedFull(s);
    FixedIffStuck(s);
    BackFixed(s);
  }

  /** Full and without pairs: nothing moves. */
  lemma EndedStays(g: Grid)
    requires Square(g) && Full(g) && NoPairs(g) && NoPairs(Turned(g))
    ensures NoMove(g)
  {
    hide PairIn, Slid, SlidBack;
    forall i | 0 <= i < |g| ensures UpOf(g)[i] == g[i] && DownOf(g)[i] == g[i] {
      LineStays(g[i]);
    }
    forall k | 0 <= k < |g| ensures Column(LeftOf(g), k) == Column(g, k) == Column(RightOf(g), k) {
      TurnedRow(g, |g| - 1 - k);
      var c := Column(g, k);
      assert Turned(g)[|g| - 1 - k] == c;
      forall j | 0 <= j < |c| ensures c[j] != 0 {
        assert c[j] == g[j][k] && FullLine(g[j]);
      }
      LineStays(c);
      LeftColumn(g, k);
      RightColumn(g, k);
    }
    SameByColumns(g, LeftOf(g));
    SameByColumns(g, RightOf(g));
  }

  /** A board that no move changes has no gap unless it is all gaps. */
  lemma NoMoveFull(g: Grid)
    requires Square(g) && NoMove(g) && SomeTile(g)
    ensures Full(g)
  {
    hide Stuck;
    var p, q :| 0 <= p < |g| && 0 <= q < |g[p]| && g[p][q] != 0;
    forall i | 0 <= i < |g| ensures FullLine(g[i]) {
      forall j | 0 <= j < |g[i]| ensures g[i][j] != 0 {
        if g[i][j] == 0 {
          RowsStuck(g, i);
          StuckBothWays(g[i], j, q);
          ColumnsStuck(g, q);
          assert Column(g, q)[i] == g[i][q] && Column(g, q)[p] == g[p][q];
          StuckBothWays(Column(g, q), i, p);
          assert false;
        }
      }
    }
  }

  lemma FullStuckNoPair(s: seq<Tile>)
    requires FullLine(s) && Stuck(s)
    ensures !PairIn(s)
  {
  }

  lemma ColumnNoPair(g: Grid, k: nat)
    requires Square(g) && NoMove(g) && Full(g) && k < |g|
    ensures !PairIn(Column(g, k))
  {
    hide Stuck, PairIn;
    var c := Column(g, k);
    ColumnsStuck(g, k);
    forall j | 0 <= j < |c| ensures c[j] != 0 {
      assert c[j] == g[j][k] && FullLine(g[j]);
    }
    FullStuckNoPair(c);
  }

  lemma NoMoveNoPairs(g: Grid)
    requires Square(g) && NoMove(g) && Full(g)
    ensures NoPairs(g) && NoPairs(Turned(g))
  {
    hide Stuck, PairIn, Column;
    forall i | 0 <= i < |g| ensures !PairIn(g[i]) {
      RowsStuck(g, i);
      FullStuckNoPair(g[i]);
    }
    forall i | 0 <= i < |g| ensures !PairIn(Turned(g)[i]) {
      TurnedRow(g, i);
      ColumnNoPair(g, |g| - 1 - i);
    }
  }

  /** What gameEnded looks at tells exactly whether there is a move left, on every board
      but the empty one. */
  lemma EndedIff(g: Grid)
    requires Square(g) && g != []
    ensures Full(g) && NoPairs(g) && NoPairs(Turned(g)) <==> NoMove(g) && SomeTile(g)
  {
    if Full(g) && NoPairs(g) && NoPairs(Turned(g)) {
      EndedStays(g);
      assert FullLine(g[0]);
      assert g[0][0] != 0;
    }
    if NoMove(g) && SomeTile(g) {
      NoMoveFull(g);
      NoMoveNoPairs(g);
    }
  }
}
