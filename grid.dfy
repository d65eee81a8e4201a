/** The board of the Game of Life: a fixed NumRows x NumCols rectangle of
    numeric cells, 0 for a dead cell and 1 for a live one, stored row by row.
    This module holds the value-level operations on a board: the empty board,
    flipping one cell and seeding a board from a sequence of random draws. */
module Grids {

  const NumRows: nat := 30
  const NumCols: nat := 30

  /** A board as the rows of its cells. */
  type Grid = seq<seq<int>>

  /** Exactly NumRows rows of exactly NumCols cells each. */
  predicate IsGrid(g: Grid) {
    |g| == NumRows && forall i :: 0 <= i < |g| ==> |g[i]| == NumCols
  }

  predicate InBounds(i: int, j: int) {
    0 <= i < NumRows && 0 <= j < NumCols
  }

  /** Every cell is 0 (dead) or 1 (alive). */
  predicate IsBinary(g: Grid)
    requires IsGrid(g)
  {
    forall i, j :: 0 <= i < NumRows && 0 <= j < NumCols ==> g[i][j] == 0 || g[i][j] == 1
  }

  /** Two boards are equal when they agree on every cell. */
  lemma {:induction false} GridEq(a: Grid, b: Grid)
    requires IsGrid(a) && IsGrid(b)
    requires forall i, j :: InBounds(i, j) ==> a[i][j] == b[i][j]
    ensures a == b
  {
    forall i | 0 <= i < NumRows
      ensures a[i] == b[i]
    {
      assert forall j :: 0 <= j < NumCols ==> a[i][j] == b[i][j];
    }
  }

  /** The board with every cell dead. */
  function EmptyGrid(): (g: Grid)
    ensures IsGrid(g) && IsBinary(g)
    ensures forall i, j :: InBounds(i, j) ==> g[i][j] == 0
  {
    seq(NumRows, _ => seq(NumCols, _ => 0))
  }

  /** The value a clicked cell takes: a truthy (non-zero) cell becomes 0,
      a falsy one becomes 1. */
  function Flip(v: int): (r: int)
    ensures r == 0 || r == 1
    ensures r == 1 <==> v == 0
  {
    if v != 0 then 0 else 1
  }

  /** The board after a click on cell (i, j). */
  function Toggled(g: Grid, i: int, j: int): (r: Grid)
    requires IsGrid(g) && InBounds(i, j)
    ensures IsGrid(r)
    ensures r[i][j] == Flip(g[i][j])
    ensures forall a, b :: InBounds(a, b) && (a != i || b != j) ==> r[a][b] == g[a][b]
  {
    g[i := g[i][j := Flip(g[i][j])]]
  }

  /** Toggling keeps a board binary and turns a dead cell live and a live one dead. */
  lemma ToggledBinary(g: Grid, i: int, j: int)
    requires IsGrid(g) && IsBinary(g) && InBounds(i, j)
    ensures IsBinary(Toggled(g, i, j))
    ensures Toggled(g, i, j)[i][j] == 1 - g[i][j]
  {
  }

  /** Two clicks on the same cell of a binary board restore the board. */
  lemma {:induction false} ToggleTwice(g: Grid, i: int, j: int)
    requires IsGrid(g) && IsBinary(g) && InBounds(i, j)
    ensures Toggled(Toggled(g, i, j), i, j) == g
  {
    GridEq(Toggled(Toggled(g, i, j), i, j), g);
  }

  /** Cell (i, j) draws the (i * NumCols + j)-th random value: rows are filled
      one after another, each from left to right. */
  function DrawIndex(i: int, j: int): (k: int)
    requires InBounds(i, j)
    ensures 0 <= k < NumRows * NumCols
    ensures k / NumCols == i && k % NumCols == j
  {
    i * NumCols + j
  }

  /** The board produced by seeding from random draws: a cell is 1 exactly
      when its draw succeeded. */
  function RandomGrid(draws: seq<bool>): (r: Grid)
    requires |draws| >= NumRows * NumCols
    ensures IsGrid(r) && IsBinary(r)
    ensures forall i, j :: InBounds(i, j) ==> (r[i][j] == 1 <==> draws[DrawIndex(i, j)])
  {
    seq(NumRows, i requires 0 <= i < NumRows =>
      seq(NumCols, j requires 0 <= j < NumCols =>
        if draws[DrawIndex(i, j)] then 1 else 0))
  }

  /** Number of successful draws. */
  function CountTrue(s: seq<bool>): nat {
    if s == [] then 0 else CountTrue(s[..|s| - 1]) + (if s[|s| - 1] then 1 else 0)
  }

  /** Sum of the cells of one row. */
  function RowPopulation(row: seq<int>): int {
    if row == [] then 0 else RowPopulation(row[..|row| - 1]) + row[|row| - 1]
  }

  /** Sum of all cells of a board: the number of live cells of a binary board. */
  function Population(g: Grid): int {
    if g == [] then 0 else Population(g[..|g| - 1]) + RowPopulation(g[|g| - 1])
  }

  lemma {:induction false} CountTrueAppend(a: seq<bool>, b: seq<bool>)
    ensures CountTrue(a + b) == CountTrue(a) + CountTrue(b)
    decreases |b|
  {
    if b == [] {
      assert a + b == a;
    } else {
      assert (a + b)[..|a + b| - 1] == a + b[..|b| - 1];
      CountTrueAppend(a, b[..|b| - 1]);
    }
  }

  /** A row seeded from draws s holds as many live cells as s has successes. */
  lemma {:induction false} RowFromDraws(s: seq<bool>, row: seq<int>)
    requires |row| == |s|
    requires forall k :: 0 <= k < |s| ==> row[k] == if s[k] then 1 else 0
    ensures RowPopulation(row) == CountTrue(s)
    decreases |s|
  {
    if s != [] {
      RowFromDraws(s[..|s| - 1], row[..|row| - 1]);
    }
  }

  /** The first k rows of a seeded board hold as many live cells as the
      draws that filled them succeeded. */
  lemma {:induction false} RandomRowsPopulation(draws: seq<bool>, k: nat)
    requires |draws| >= NumRows * NumCols && k <= NumRows
    ensures Population(RandomGrid(draws)[..k]) == CountTrue(draws[..k * NumCols])
  {
    var r := RandomGrid(draws);
    if k > 0 {
      var lo, hi := (k - 1) * NumCols, k * NumCols;
      assert r[..k][..k - 1] == r[..k - 1];
      RandomRowsPopulation(draws, k - 1);
      RowFromDraws(draws[lo..hi], r[k - 1]);
      assert draws[..hi] == draws[..lo] + draws[lo..hi];
      CountTrueAppend(draws[..lo], draws[lo..hi]);
    }
  }

  /** Seeding yields exactly one live cell per successful draw among the
      NumRows * NumCols draws it consumes. */
  lemma RandomGridPopulation(draws: seq<bool>)
    requires |draws| >= NumRows * NumCols
    ensures Population(RandomGrid(draws)) == CountTrue(draws[..NumRows * NumCols])
  {
    var r := RandomGrid(draws);
    RandomRowsPopulation(draws, NumRows);
    assert r[..NumRows] == r;
  }
}
