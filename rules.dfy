/** One generation of the Game of Life: the neighbour count of a cell on the
    bounded (non-wrapping) board, the next-cell rule and the transition of a
    whole board, which reads only the board it starts from. */
module Rules {
  import opened Grids

  /** What position (i + x, j + y) adds to the neighbour count of (i, j):
      nothing for the cell itself, nothing for a position off the board
      (there is no wraparound), and its cell value otherwise. */
  function Contribution(g: Grid, i: int, j: int, x: int, y: int): (c: int)
    requires IsGrid(g)
    ensures c != 0 ==> (x != 0 || y != 0) && InBounds(i + x, j + y)
    ensures IsBinary(g) ==> c == 0 || c == 1
  {
    if (x == 0 && y == 0) || !InBounds(i + x, j + y) then 0 else g[i + x][j + y]
  }

  /** The neighbour count of (i, j): the sum over the eight surrounding offsets. */
  function NeighbourCount(g: Grid, i: int, j: int): (n: int)
    requires IsGrid(g)
    ensures IsBinary(g) ==> 0 <= n <= 8
  {
    Contribution(g, i, j, -1, -1) + Contribution(g, i, j, -1, 0) + Contribution(g, i, j, -1, 1) +
    Contribution(g, i, j, 0, -1) + Contribution(g, i, j, 0, 1) +
    Contribution(g, i, j, 1, -1) + Contribution(g, i, j, 1, 0) + Contribution(g, i, j, 1, 1)
  }

  /** The count accumulated once the first k of the nine offsets have been
      visited, x in the outer and y in the inner position, each from -1 to 1. */
  function CountBefore(g: Grid, i: int, j: int, k: nat): int
    requires IsGrid(g) && k <= 9
  {
    if k == 0 then 0
    else CountBefore(g, i, j, k - 1) + Contribution(g, i, j, OffsetX(k - 1), OffsetY(k - 1))
  }

  /** The row offset of the k-th visited position. */
  function OffsetX(k: int): int {
    if k < 3 then -1 else if k < 6 then 0 else 1
  }

  /** The column offset of the k-th visited position. */
  function OffsetY(k: int): int {
    k - 3 * (OffsetX(k) + 1) - 1
  }

  /** Visiting all nine offsets yields the neighbour count. */
  lemma {:induction false} CountBeforeAll(g: Grid, i: int, j: int)
    requires IsGrid(g)
    ensures CountBefore(g, i, j, 9) == NeighbourCount(g, i, j)
  {
    assert CountBefore(g, i, j, 1) == Contribution(g, i, j, -1, -1);
    assert CountBefore(g, i, j, 2) == CountBefore(g, i, j, 1) + Contribution(g, i, j, -1, 0);
    assert CountBefore(g, i, j, 3) == CountBefore(g, i, j, 2) + Contribution(g, i, j, -1, 1);
    assert CountBefore(g, i, j, 4) == CountBefore(g, i, j, 3) + Contribution(g, i, j, 0, -1);
    assert CountBefore(g, i, j, 5) == CountBefore(g, i, j, 4);
    assert CountBefore(g, i, j, 6) == CountBefore(g, i, j, 5) + Contribution(g, i, j, 0, 1);
    assert CountBefore(g, i, j, 7) == CountBefore(g, i, j, 6) + Contribution(g, i, j, 1, -1);
    assert CountBefore(g, i, j, 8) == CountBefore(g, i, j, 7) + Contribution(g, i, j, 1, 0);
  }

  /** How many neighbour positions of (i, j) lie on the board: 3 at a corner,
      5 elsewhere on the border and 8 inside. */
  function Candidates(i: int, j: int): nat
    requires InBounds(i, j)
  {
    var rowEdge := i == 0 || i == NumRows - 1;
    var colEdge := j == 0 || j == NumCols - 1;
    if rowEdge && colEdge then 3 else if rowEdge || colEdge then 5 else 8
  }

  /** The board with every cell alive. */
  function FullGrid(): (g: Grid)
    ensures IsGrid(g) && IsBinary(g)
    ensures forall i, j :: InBounds(i, j) ==> g[i][j] == 1
  {
    seq(NumRows, _ => seq(NumCols, _ => 1))
  }

  /** On a binary board a neighbour count lies between 0 and the number of
      neighbour positions on the board, and it reaches that number when all
      of them are alive. */
  lemma NeighbourCountBounds(g: Grid, i: int, j: int)
    requires IsGrid(g) && IsBinary(g) && InBounds(i, j)
    ensures 0 <= NeighbourCount(g, i, j) <= Candidates(i, j)
    ensures NeighbourCount(FullGrid(), i, j) == Candidates(i, j)
  {
  }

  /** The next value of a cell holding `cell` with n live neighbours. Checked
      in this order: fewer than 2 or more than 3 neighbours give 0; a dead
      cell with exactly 3 gives 1; any other cell keeps its value. On a 0/1
      cell this is the usual rule: alive next exactly when born with 3
      neighbours or surviving with 2 or 3. */
  function NextCell(cell: int, n: int): (r: int)
    ensures n < 2 || n > 3 ==> r == 0
    ensures (cell == 0 || cell == 1) ==> (r == 0 || r == 1)
    ensures (cell == 0 || cell == 1) ==> (r == 1 <==> n == 3 || (cell == 1 && n == 2))
  {
    if n < 2 || n > 3 then 0
    else if cell == 0 && n == 3 then 1
    else cell
  }

  /** The value cell (i, j) takes in the next generation of g. */
  function NextAt(g: Grid, i: int, j: int): int
    requires IsGrid(g) && InBounds(i, j)
  {
    NextCell(g[i][j], NeighbourCount(g, i, j))
  }

  /** Row i of the next generation of g. */
  function NextRow(g: Grid, i: int): (row: seq<int>)
    requires IsGrid(g) && 0 <= i < NumRows
    ensures |row| == NumCols
    ensures forall j {:trigger NextAt(g, i, j)} :: 0 <= j < NumCols ==> row[j] == NextAt(g, i, j)
    ensures IsBinary(g) ==> forall j :: 0 <= j < NumCols ==> row[j] == 0 || row[j] == 1
  {
    seq(NumCols, j requires 0 <= j < NumCols => NextAt(g, i, j))
  }

  /** The first n rows of the next generation of g, each cell computed from
      g alone. */
  function NextRows(g: Grid, n: nat): (rows: seq<seq<int>>)
    requires IsGrid(g) && n <= NumRows
    ensures |rows| == n
    ensures forall i :: 0 <= i < n ==> |rows[i]| == NumCols
    ensures forall i, j {:trigger NextAt(g, i, j)} :: 0 <= i < n && 0 <= j < NumCols ==>
      rows[i][j] == NextAt(g, i, j)
    ensures IsBinary(g) ==> forall i, j :: 0 <= i < n && 0 <= j < NumCols ==>
      rows[i][j] == 0 || rows[i][j] == 1
  {
    if n == 0 then [] else NextRows(g, n - 1) + [NextRow(g, n - 1)]
  }

  /** One generation: every cell of the new board follows NextCell applied to
      its value and its neighbour count on the old board. */
  function Step(g: Grid): (r: Grid)
    requires IsGrid(g)
    ensures IsGrid(r)
    ensures forall i, j {:trigger NextAt(g, i, j)} :: InBounds(i, j) ==> r[i][j] == NextAt(g, i, j)
    ensures IsBinary(g) ==> IsBinary(r)
  {
    NextRows(g, NumRows)
  }

  /** On a binary board a cell is alive after one generation exactly when it
      has 3 live neighbours, or is alive with 2. */
  lemma StepLiveRule(g: Grid, i: int, j: int)
    requires IsGrid(g) && IsBinary(g) && InBounds(i, j)
    ensures Step(g)[i][j] == 1 <==>
      NeighbourCount(g, i, j) == 3 || (g[i][j] == 1 && NeighbourCount(g, i, j) == 2)
  {
    assert Step(g)[i][j] == NextAt(g, i, j);
  }

  /** n generations in a row. */
  function StepN(g: Grid, n: nat): (r: Grid)
    requires IsGrid(g)
    ensures IsGrid(r)
    ensures IsBinary(g) ==> IsBinary(r)
    decreases n
  {
    if n == 0 then g else StepN(Step(g), n - 1)
  }

  /** Generations compose: m generations followed by n more are m + n generations. */
  lemma {:induction false} StepNAdd(g: Grid, m: nat, n: nat)
    requires IsGrid(g)
    ensures StepN(StepN(g, m), n) == StepN(g, m + n)
    decreases m
  {
    if m > 0 {
      StepNAdd(Step(g), m - 1, n);
    }
  }

  /** A board that one generation leaves unchanged stays unchanged forever. */
  lemma {:induction false} FixedPointForever(g: Grid, n: nat)
    requires IsGrid(g) && Step(g) == g
    ensures StepN(g, n) == g
  {
    if n > 0 {
      FixedPointForever(g, n - 1);
    }
  }

  /** Two generations unrolled. */
  lemma StepNTwo(g: Grid)
    requires IsGrid(g)
    ensures StepN(g, 2) == Step(Step(g))
  {
  }

  /** A board that returns after two generations returns after every even
      number of them. */
  lemma {:induction false} PeriodTwoForever(g: Grid, k: nat)
    requires IsGrid(g) && StepN(g, 2) == g
    ensures StepN(g, 2 * k) == g
  {
    if k > 0 {
      StepNAdd(g, 2, 2 * (k - 1));
      PeriodTwoForever(g, k - 1);
    }
  }
}
