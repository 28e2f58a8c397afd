/** The board of the 2048 game, updated in place. */
module GameBoard {
  import opened Arithmetic
  import opened SlideRow
  import opened Rotation
  import opened Moves

  /** What all rows earn when slid. */
  ghost function Earned(g: Grid): nat {
    if g == [] then 0 else Earned(g[..|g| - 1]) + Gain(Tiles(g[|g| - 1]))
  }

  ghost function Gaps(s: seq<Tile>): nat {
    if s == [] then 0 else Gaps(s[..|s| - 1]) + if s[|s| - 1] == 0 then 1 else 0
  }

  ghost function AllGaps(g: Grid): nat {
    if g == [] then 0 else AllGaps(g[..|g| - 1]) + Gaps(g[|g| - 1])
  }

  class Board {
    const rows: seq<array<Tile>>
    const score: Score

    ghost predicate Valid() {
      && rows != [] && (forall i {:trigger rows[i]} | 0 <= i < |rows| :: rows[i].Length == |rows|)
      && forall i, j | 0 <= i < j < |rows| :: rows[i] != rows[j]
    }

    ghost function Cells(): (g: Grid)
      requires Valid()
      reads rows
      ensures Square(g) && |g| == |rows| > 0 && forall i {:trigger g[i]} | 0 <= i < |g| :: g[i] == rows[i][..]
    {
      seq(|rows|, i requires 0 <= i < |rows| reads rows => rows[i][..])
    }

    /** An empty board. */
    constructor (n: nat, score: Score)
      requires n > 0
      ensures Valid() && |rows| == n && fresh(rows) && this.score == score
      ensures forall i, j | 0 <= i < n && 0 <= j < n :: Cells()[i][j] == 0
    {
      var rs: seq<array<Tile>> := [];
      var k := 0;
      while k < n
        invariant 0 <= k <= n && |rs| == k && fresh(rs)
        invariant forall i {:trigger rs[i]} | 0 <= i < k :: rs[i].Length == n && forall j | 0 <= j < n :: rs[i][j] == 0
        invariant forall i, j | 0 <= i < j < k :: rs[i] != rs[j]
      {
        var row := new Tile[n](i => 0);
        rs := rs + [row];
        k := k + 1;
      }
      rows, this.score := rs, score;
    }

    /** rotateBoard */
    method RotateBoard()
      requires Valid()
      modifies rows
      ensures Cells() == Turned(old(Cells()))
    {
      var n := |rows|;
      ghost var o := Cells();
      TurningStart(o);
      var i := 0;
      while i < n / 2
        invariant 0 <= i <= n / 2 && Turning(o, Cells(), i, i)
      {
        var j := i;
        while j < n - i - 1
          invariant i <= j <= n - i - 1 && Turning(o, Cells(), i, j)
        {
          ghost var g := Cells();
          Cycle(i, j);
          TurningStep(o, g, Cells(), i, j);
          j := j + 1;
        }
        TurningSide(o, Cells(), i);
        i := i + 1;
      }
      TurningEnd(o, Cells());
    }

    method Store(p: nat, q: nat, v: Tile)
      requires Valid() && p < |rows| && q < |rows|
      modifies rows
      ensures Cells() == Put(old(Cells()), p, q, v)
    {
      ghost var g := Cells();
      rows[p][q] := v;
      forall i | 0 <= i < |rows| && i != p ensures rows[i][..] == g[i] {
        assert rows[i] != rows[p];
      }
      assert Cells() == Put(g, p, q, v);
    }

    method Fetch(p: nat, q: nat) returns (v: Tile)
      requires Valid() && p < |rows| && q < |rows|
      ensures v == Cells()[p][q]
    {
      v := rows[p][q];
    }

    /** The four assignments in the middle of rotateBoard. */
    method Cycle(i: nat, j: nat)
      requires Valid() && i <= j < |rows| - i - 1
      modifies rows
      ensures Cycled(old(Cells()), Cells(), i, j)
    {
      hide *;
      ghost var g := Cells();
      var m := |rows| - 1;
      var tmp := Fetch(i, j);
      var right := Fetch(j, m - i);
      Store(i, j, right);
      var bottom := Fetch(m - i, m - j);
      Store(j, m - i, bottom);
      var left := Fetch(m - j, i);
      Store(m - i, m - j, left);
      Store(m - j, i, tmp);
      CycleByPuts(g, i, j);
    }

    /** One row slid, the others as they were. */
    method SlideAt(x: nat) returns (success: bool)
      requires Valid() && score.points < W32 && x < |rows|
      modifies rows, score
      ensures Cells() == old(Cells())[x := Slid(old(Cells())[x])] && (success <==> Cells()[x] != old(Cells())[x])
      ensures score.points == Scored(old(score.points), Gain(Tiles(old(Cells())[x])))
    {
      hide Slid, Tiles, Gain;
      ghost var g := Cells();
      success := score.SlideArray(rows[x]);
      forall i | 0 <= i < |rows| && i != x ensures rows[i][..] == g[i] {
        assert rows[i] != rows[x];
      }
      assert Cells() == g[x := Slid(g[x])];
    }

    /** moveUp: every row is slid, and the result says whether any changed. */
    method MoveUp() returns (success: bool)
      requires Valid() && score.points < W32
      modifies rows, score
      ensures Cells() == UpOf(old(Cells())) && (success <==> Cells() != old(Cells()))
      ensures score.points == Scored(old(score.points), Earned(old(Cells())))
    {
      hide *;
      success := false;
      ghost var g := Cells();
      var x := 0;
      UpStart(g);
      ScoredNothing(score.points);
      while x < |rows|
        invariant 0 <= x <= |rows| && score.points < W32
        invariant UpTo(g, Cells(), x)
        invariant success <==> Cells() != g
        invariant score.points == Scored(old(score.points), Earned(g[..x]))
      {
        ghost var cur := Cells();
        UpStep(g, cur, x);
        ScoredTwice(old(score.points), Earned(g[..x]), Gain(Tiles(cur[x])));
        var s := SlideAt(x);
        success := success || s;
        x := x + 1;
      }
      UpEnd(g, Cells());
    }

    /** moveLeft */
    method MoveLeft() returns (success: bool)
      requires Valid() && score.points < W32
      modifies rows, score
      ensures Cells() == LeftOf(old(Cells())) && (success <==> Cells() != old(Cells()))
      ensures score.points == Scored(old(score.points), Earned(Turned(old(Cells()))))
    {
      hide *;
      ghost var g := Cells();
      RotateBoard();
      success := MoveUp();
      RotateBoard();
      RotateBoard();
      RotateBoard();
      LeftByTurning(g);
      FullTurn(g);
    }

    /** moveDown */
    method MoveDown() returns (success: bool)
      requires Valid() && score.points < W32
      modifies rows, score
      ensures Cells() == DownOf(old(Cells())) && (success <==> Cells() != old(Cells()))
      ensures score.points == Scored(old(score.points), Earned(Turned(Turned(old(Cells())))))
    {
      hide *;
      ghost var g := Cells();
      RotateBoard();
      RotateBoard();
      success := MoveUp();
      RotateBoard();
      RotateBoard();
      DownByTurning(g);
      FullTurn(g);
    }

    /** moveRight */
    method MoveRight() returns (success: bool)
      requires Valid() && score.points < W32
      modifies rows, score
      ensures Cells() == RightOf(old(Cells())) && (success <==> Cells() != old(Cells()))
      ensures score.points == Scored(old(score.points), Earned(Turned(Turned(Turned(old(Cells()))))))
    {
      hide *;
      ghost var g := Cells();
      RotateBoard();
      RotateBoard();
      RotateBoard();
      success := MoveUp();
      RotateBoard();
      RightByTurning(g);
      FullTurn(g);
    }

    /** findPairDown */
    method FindPairDown() returns (found: bool)
      requires Valid()
      ensures found <==> !NoPairs(Cells())
    {
      var x := 0;
      while x < |rows|
        invariant 0 <= x <= |rows| && forall i {:trigger rows[i]} | 0 <= i < x :: !PairIn(rows[i][..])
      {
        var y := 0;
        while y < |rows| - 1
          invariant 0 <= y <= |rows| - 1 && forall k | 0 <= k < y :: rows[x][k] != rows[x][k + 1]
        {
          if rows[x][y] == rows[x][y + 1] {
            assert rows[x][..][y] == rows[x][..][y + 1];
            assert PairIn(Cells()[x]);
            return true;
          }
          y := y + 1;
        }
        x := x + 1;
      }
      return false;
    }

    /** countEmpty */
    method CountEmpty() returns (count: nat)
      requires Valid()
      ensures count == AllGaps(Cells())
    {
      count := 0;
      ghost var g := Cells();
      var x := 0;
      while x < |rows|
        invariant 0 <= x <= |rows| && count == AllGaps(g[..x])
      {
        ghost var before := count;
        var y := 0;
        while y < |rows|
          invariant 0 <= y <= |rows| && count == before + Gaps(g[x][..y])
        {
          assert g[x][..y + 1][..y] == g[x][..y];
          if rows[x][y] == 0 {
            count := count + 1;
          }
          y := y + 1;
        }
        assert g[x][..y] == g[x];
        assert g[..x + 1][..x] == g[..x];
        x := x + 1;
      }
      assert g[..x] == g;
    }

    /** gameEnded: there is a tile and no move changes anything. */
    method GameEnded() returns (ended: bool)
      requires Valid()
      modifies rows
      ensures Cells() == old(Cells())
      ensures ended <==> NoMove(Cells()) && SomeTile(Cells())
    {
      hide *;
      ghost var g := Cells();
      EndedIff(g);
      NoGaps(g);
      ended := true;
      var count := CountEmpty();
      if count > 0 {
        return false;
      }
      var down := FindPairDown();
      if down {
        return false;
      }
      RotateBoard();
      var across := FindPairDown();
      if across {
        ended := false;
      }
      RotateBoard();
      RotateBoard();
      RotateBoard();
      FullTurn(g);
    }
  }

  ghost function Put(g: Grid, p: nat, q: nat, v: Tile): (r: Grid)
    requires Square(g) && p < |g| && q < |g|
    ensures Square(r) && |r| == |g|
  {
    var row: seq<Tile> := g[p];
    var row': seq<Tile> := row[q := v];
    g[p := row']
  }

  lemma CycleByPuts(g: Grid, i: nat, j: nat)
    requires Square(g) && i <= j < |g| - i - 1
    ensures var m := |g| - 1;
            var g1 := Put(g, i, j, g[j][m - i]);
            var g2 := Put(g1, j, m - i, g1[m - i][m - j]);
            var g3 := Put(g2, m - i, m - j, g2[m - j][i]);
            Cycled(g, Put(g3, m - j, i, g[i][j]), i, j)
  {
  }

  lemma ScoredNothing(p: nat)
    requires p < W32
    ensures Scored(p, 0) == p
  {
  }

  /** The rows before `x` have been slid. */
  ghost predicate UpTo(g: Grid, cur: Grid, x: nat) {
    |cur| == |g| && forall i {:trigger cur[i]} | 0 <= i < |g| :: cur[i] == if i < x then Slid(g[i]) else g[i]
  }

  lemma UpStart(g: Grid)
    ensures UpTo(g, g, 0) && g[..0] == [] && Earned([]) == 0
  {
  }

  lemma UpStep(g: Grid, cur: Grid, x: nat)
    requires UpTo(g, cur, x) && x < |g|
    ensures UpTo(g, cur[x := Slid(cur[x])], x + 1) && cur[x] == g[x]
    ensures Earned(g[..x + 1]) == Earned(g[..x]) + Gain(Tiles(cur[x]))
    ensures cur[x := Slid(cur[x])] != g <==> cur != g || Slid(cur[x]) != cur[x]
  {
    hide Slid, Tiles, Gain;
    var h := cur[x := Slid(cur[x])];
    assert g[..x + 1][..x] == g[..x];
    if cur != g {
      var i :| 0 <= i < |g| && cur[i] != g[i];
      assert h[i] == cur[i];
    }
    if Slid(cur[x]) != cur[x] {
      assert h[x] != g[x];
    } else {
      assert h == cur;
    }
  }

  lemma UpEnd(g: Grid, cur: Grid)
    requires UpTo(g, cur, |g|) && Square(g)
    ensures cur == UpOf(g) && g[..|g|] == g
  {
    assert forall i | 0 <= i < |g| :: cur[i] == UpOf(g)[i];
  }

  lemma {:induction false} NoLineGaps(s: seq<Tile>)
    ensures Gaps(s) == 0 <==> FullLine(s)
  {
    if s != [] {
      var u := s[..|s| - 1];
      NoLineGaps(u);
      assert FullLine(s) <==> FullLine(u) && s[|s| - 1] != 0;
    }
  }

  lemma {:induction false} NoGaps(g: Grid)
    ensures AllGaps(g) == 0 <==> Full(g)
  {
    if g != [] {
      var u := g[..|g| - 1];
      NoGaps(u);
      NoLineGaps(g[|g| - 1]);
      assert Full(g) <==> Full(u) && FullLine(g[|g| - 1]) by {
        if Full(g) {
          forall i | 0 <= i < |u| ensures FullLine(u[i]) {
            assert u[i] == g[i];
          }
        }
        if Full(u) && FullLine(g[|g| - 1]) {
          forall i | 0 <= i < |g| ensures FullLine(g[i]) {
            if i < |u| {
              assert u[i] == g[i];
            }
          }
        }
      }
    }
  }
}
