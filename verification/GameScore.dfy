/** The score of the 2048 game is what the tiles on the board have gained in worth. */
module GameScore {
  import opened SlideRow
  import opened SlideLaws
  import opened Rotation
  import opened Moves
  import opened GameBoard

  ghost function Total(g: Grid): nat {
    if g == [] then 0 else Total(g[..|g| - 1]) + Value(g[|g| - 1])
  }

  /** No merger of a row overflows. */
  ghost predicate Fits(g: Grid) {
    forall i {:trigger g[i]} | 0 <= i < |g| :: Overflows(Tiles(g[i])) == 0
  }

  lemma {:induction false} RowsEarn(g: Grid, k: nat)
    requires Square(g) && Fits(g) && k <= |g|
    ensures Total(UpOf(g)[..k]) == Total(g[..k]) + Earned(g[..k])
  {
    hide Slid, Tiles, Gain, Overflows, Value;
    if k > 0 {
      RowsEarn(g, k - 1);
      GainIsWorth(g[k - 1]);
      assert g[..k][..k - 1] == g[..k - 1] && UpOf(g)[..k][..k - 1] == UpOf(g)[..k - 1];
    }
  }

  /** Sliding all rows earns what the board gains in worth. */
  lemma UpEarns(g: Grid)
    requires Square(g) && Fits(g)
    ensures Total(UpOf(g)) == Total(g) + Earned(g)
  {
    RowsEarn(g, |g|);
    assert g[..|g|] == g && UpOf(g)[..|g|] == UpOf(g);
  }

  // ------------------------------------------------------------------
  // Turning the board keeps what it is worth

  ghost function Rows(g: Grid, a: nat, b: nat): nat
    requires Square(g) && a <= |g| && b <= |g|
  {
    if a == 0 then 0 else Rows(g, a - 1, b) + Value(g[a - 1][..b])
  }

  ghost function ColumnWorth(g: Grid, j: nat, a: nat): nat
    requires Square(g) && a <= |g| && j < |g|
  {
    if a == 0 then 0 else ColumnWorth(g, j, a - 1) + Worth(g[a - 1][j])
  }

  ghost function Columns(g: Grid, b: nat): nat
    requires Square(g) && b <= |g|
  {
    if b == 0 then 0 else Columns(g, b - 1) + ColumnWorth(g, b - 1, |g|)
  }

  lemma ValueMore(s: seq<Tile>, b: nat)
    requires b < |s|
    ensures Value(s[..b + 1]) == Value(s[..b]) + Worth(s[b])
  {
    ValueJoin(s[..b], [s[b]]);
    assert s[..b + 1] == s[..b] + [s[b]];
    assert Value([s[b]]) == Worth(s[b]) by { assert [s[b]][1..] == []; }
  }

  lemma {:induction false} RowsMore(g: Grid, a: nat, b: nat)
    requires Square(g) && a <= |g| && b < |g|
    ensures Rows(g, a, b + 1) == Rows(g, a, b) + ColumnWorth(g, b, a)
  {
    hide Value, Worth;
    if a > 0 {
      RowsMore(g, a - 1, b);
      ValueMore(g[a - 1], b);
    }
  }

  lemma {:induction false} NoColumns(g: Grid, a: nat)
    requires Square(g) && a <= |g|
    ensures Rows(g, a, 0) == 0
  {
    if a > 0 {
      NoColumns(g, a - 1);
      assert g[a - 1][..0] == [];
    }
  }

  lemma {:induction false} RowsAreColumns(g: Grid, b: nat)
    requires Square(g) && b <= |g|
    ensures Rows(g, |g|, b) == Columns(g, b)
  {
    if b == 0 {
      NoColumns(g, |g|);
    } else {
      RowsAreColumns(g, b - 1);
      RowsMore(g, |g|, b - 1);
    }
  }

  lemma {:induction false} TotalIsRows(g: Grid, a: nat)
    requires Square(g) && a <= |g|
    ensures Total(g[..a]) == Rows(g, a, |g|)
  {
    hide Value;
    if a > 0 {
      TotalIsRows(g, a - 1);
      assert g[..a][..a - 1] == g[..a - 1] && g[a - 1][..|g|] == g[a - 1];
    }
  }

  lemma {:induction false} ColumnValue(g: Grid, j: nat, a: nat)
    requires Square(g) && j < |g| && a <= |g|
    ensures Value(Column(g, j)[..a]) == ColumnWorth(g, j, a)
  {
    hide Worth;
    if a == 0 {
      assert Column(g, j)[..0] == [];
    } else {
      ColumnValue(g, j, a - 1);
      ValueMore(Column(g, j), a - 1);
    }
  }

  /** The rows of the turned board are the columns, the last one first. */
  lemma {:induction false} TurnedRows(g: Grid, k: nat)
    requires Square(g) && k <= |g|
    ensures Total(Turned(g)[..k]) + Columns(g, |g| - k) == Columns(g, |g|)
  {
    hide Value;
    if k > 0 {
      TurnedRows(g, k - 1);
      var j := |g| - k;
      assert Turned(g)[..k][..k - 1] == Turned(g)[..k - 1] && Turned(g)[k - 1] == Column(g, j);
      ColumnValue(g, j, |g|);
      assert Column(g, j)[..|g|] == Column(g, j);
    }
  }

  lemma TurnedTotal(g: Grid)
    requires Square(g)
    ensures Total(Turned(g)) == Total(g)
  {
    TurnedRows(g, |g|);
    RowsAreColumns(g, |g|);
    TotalIsRows(g, |g|);
    assert Turned(g)[..|g|] == Turned(g) && g[..|g|] == g;
  }

  // ------------------------------------------------------------------
  // The other moves

  /** Whatever the direction, a move in which nothing overflows earns what the board gains
      in worth. */
  lemma MovesEarn(g: Grid)
    requires Square(g)
    ensures Fits(Turned(g)) ==> Total(LeftOf(g)) == Total(g) + Earned(Turned(g))
    ensures Fits(Turned(Turned(g))) ==> Total(DownOf(g)) == Total(g) + Earned(Turned(Turned(g)))
    ensures Fits(Turned(Turned(Turned(g)))) ==> Total(RightOf(g)) == Total(g) + Earned(Turned(Turned(Turned(g))))
  {
    hide *;
    var t := Turned(g);
    var t2 := Turned(t);
    var t3 := Turned(t2);
    TurnedTotal(g);
    TurnedTotal(t);
    TurnedTotal(t2);
    if Fits(t) {
      UpEarns(t);
      LeftByTurning(g);
      TurnedTotal(UpOf(t));
      TurnedTotal(Turned(UpOf(t)));
      TurnedTotal(Turned(Turned(UpOf(t))));
    }
    if Fits(t2) {
      UpEarns(t2);
      DownByTurning(g);
      TurnedTotal(UpOf(t2));
      TurnedTotal(Turned(UpOf(t2)));
    }
    if Fits(t3) {
      UpEarns(t3);
      RightByTurning(g);
      TurnedTotal(UpOf(t3));
    }
  }
}
