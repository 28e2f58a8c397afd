/** Turning a square board by a quarter, in place. */
module Rotation {
  import opened SlideRow

  type Grid = seq<seq<Tile>>

  ghost predicate Square(g: Grid) {
    forall i {:trigger g[i]} | 0 <= i < |g| :: |g[i]| == |g|
  }

  /** A quarter turn: row i is column n-1-i. */
  ghost function Turned(g: Grid): (r: Grid)
    requires Square(g)
    ensures Square(r) && |r| == |g|
  {
    seq(|g|, i requires 0 <= i < |g| => Column(g, |g| - 1 - i))
  }

  ghost function Column(g: Grid, k: nat): (c: seq<Tile>)
    requires Square(g) && k < |g|
    ensures |c| == |g| && forall j {:trigger c[j]} | 0 <= j < |g| :: c[j] == g[j][k]
  {
    seq(|g|, j requires 0 <= j < |g| => g[j][k])
  }

  ghost function Reversed(s: seq<Tile>): (r: seq<Tile>)
    ensures |r| == |s| && forall j {:trigger r[j]} | 0 <= j < |s| :: r[j] == s[|s| - 1 - j]
  {
    seq(|s|, j requires 0 <= j < |s| => s[|s| - 1 - j])
  }

  lemma TurnedAt(g: Grid, i: nat, j: nat)
    requires Square(g) && i < |g| && j < |g|
    ensures Turned(g)[i][j] == g[j][|g| - 1 - i]
  {
    assert Turned(g)[i] == Column(g, |g| - 1 - i);
  }

  /** Half a turn reverses the rows and their order. */
  lemma HalfTurn(g: Grid)
    requires Square(g)
    ensures forall i {:trigger Turned(Turned(g))[i]} | 0 <= i < |g| :: Turned(Turned(g))[i] == Reversed(g[|g| - 1 - i])
  {
    var h := Turned(Turned(g));
    forall i | 0 <= i < |g| ensures h[i] == Reversed(g[|g| - 1 - i]) {
      forall j | 0 <= j < |g| ensures h[i][j] == g[|g| - 1 - i][|g| - 1 - j] {
        TurnedAt(Turned(g), i, j);
        TurnedAt(g, j, |g| - 1 - i);
      }
    }
  }

  lemma ReversedTwice(s: seq<Tile>)
    ensures Reversed(Reversed(s)) == s
  {
  }

  /** Four quarter turns lead back. */
  lemma FullTurn(g: Grid)
    requires Square(g)
    ensures Turned(Turned(Turned(Turned(g)))) == g
  {
    var h := Turned(Turned(g));
    HalfTurn(g);
    HalfTurn(h);
    forall i | 0 <= i < |g| ensures Turned(Turned(h))[i] == g[i] {
      assert h[|g| - 1 - i] == Reversed(g[i]);
      ReversedTwice(g[i]);
    }
  }

  // ------------------------------------------------------------------
  // In place: four cells at a time

  /** The cell of the top side that a cell takes turns with. */
  ghost function Lead(n: int, p: int, q: int): (int, int) {
    if p <= q && p + q < n - 1 then (p, q)
    else if p < q then (n - 1 - q, p)
    else if p + q > n - 1 then (n - 1 - p, n - 1 - q)
    else (q, n - 1 - p)
  }

  ghost predicate Done(n: int, p: int, q: int, i: int, j: int) {
    var (a, b) := Lead(n, p, q);
    a < i || (a == i && b < j)
  }

  /** `g` is the board `o` once the loops have come to (i, j). */
  ghost predicate Turning(o: Grid, g: Grid, i: int, j: int) {
    && Square(o) && Square(g) && |g| == |o|
    && forall p, q {:trigger g[p][q]} | 0 <= p < |g| && 0 <= q < |g| ::
         g[p][q] == if Done(|g|, p, q, i, j) then o[q][|g| - 1 - p] else o[p][q]
  }

  /** The four cells (i, j) takes turns with, at once. */
  ghost predicate Cycled(g: Grid, h: Grid, i: int, j: int)
    requires Square(g) && Square(h) && |h| == |g| && 0 <= i < |g| && 0 <= j < |g|
  {
    var m := |g| - 1;
    && h[i][j] == g[j][m - i] && h[j][m - i] == g[m - i][m - j] && h[m - i][m - j] == g[m - j][i] && h[m - j][i] == g[i][j]
    && forall p, q {:trigger h[p][q]} | 0 <= p < |g| && 0 <= q < |g| && !OnCycle(m, i, j, p, q) :: h[p][q] == g[p][q]
  }

  ghost predicate OnCycle(m: int, i: int, j: int, p: int, q: int) {
    (p == i && q == j) || (p == j && q == m - i) || (p == m - i && q == m - j) || (p == m - j && q == i)
  }

  /** The cells that take turns are those with the same lead. */
  lemma LeadOf(n: int, i: int, j: int, p: int, q: int)
    requires 0 <= i <= j < n - 1 - i && 0 <= p < n && 0 <= q < n
    ensures Lead(n, p, q) == (i, j) <==> OnCycle(n - 1, i, j, p, q)
  {
  }

  lemma TurningStep(o: Grid, g: Grid, h: Grid, i: int, j: int)
    requires Turning(o, g, i, j) && 0 <= i <= j < |o| - 1 - i
    requires Square(h) && |h| == |g| && Cycled(g, h, i, j)
    ensures Turning(o, h, i, j + 1)
  {
    var n := |g|;
    var m := n - 1;
    hide Lead;
    LeadOf(n, i, j, i, j);
    LeadOf(n, i, j, j, m - i);
    LeadOf(n, i, j, m - i, m - j);
    LeadOf(n, i, j, m - j, i);
    assert g[i][j] == o[i][j] && g[j][m - i] == o[j][m - i];
    assert g[m - i][m - j] == o[m - i][m - j] && g[m - j][i] == o[m - j][i];
    forall p, q | 0 <= p < n && 0 <= q < n ensures h[p][q] == if Done(n, p, q, i, j + 1) then o[q][m - p] else o[p][q] {
      LeadOf(n, i, j, p, q);
      if !OnCycle(m, i, j, p, q) {
        assert h[p][q] == g[p][q];
      }
    }
  }

  /** The end of one side is the start of the next. */
  lemma TurningSide(o: Grid, g: Grid, i: int)
    requires Turning(o, g, i, |o| - 1 - i) && 0 <= i < |o| / 2
    ensures Turning(o, g, i + 1, i + 1)
  {
    forall p, q | 0 <= p < |g| && 0 <= q < |g|
      ensures g[p][q] == if Done(|g|, p, q, i + 1, i + 1) then o[q][|g| - 1 - p] else o[p][q]
    {
    }
  }

  lemma TurningEnd(o: Grid, g: Grid)
    requires Turning(o, g, |o| / 2, |o| / 2)
    ensures g == Turned(o)
  {
    var n := |g|;
    forall p | 0 <= p < n ensures g[p] == Turned(o)[p] {
      forall q | 0 <= q < n ensures g[p][q] == Turned(o)[p][q] {
        TurnedAt(o, p, q);
      }
    }
  }

  lemma TurningStart(o: Grid)
    requires Square(o)
    ensures Turning(o, o, 0, 0)
  {
  }
}
