/** Small boards whose evolution is known: the empty board, a lone cell, an
    overcrowded cell, the 2 x 2 block (a still life) and the blinker (an
    oscillator of period 2). Each is stated for every placement on the
    bounded board, border positions included. */
module Patterns {
  import opened Grids
  import opened Rules

  /** The empty board is its own next generation. */
  lemma EmptyStill()
    ensures Step(EmptyGrid()) == EmptyGrid()
  {
    forall i, j | InBounds(i, j)
      ensures Step(EmptyGrid())[i][j] == 0
    {
      assert Step(EmptyGrid())[i][j] == NextAt(EmptyGrid(), i, j);
    }
    GridEq(Step(EmptyGrid()), EmptyGrid());
  }

  /** A live or dead cell none of whose neighbours is alive is dead next. */
  lemma IsolatedCellDies(g: Grid, i: int, j: int)
    requires IsGrid(g) && IsBinary(g) && InBounds(i, j)
    requires forall a, b ::
      InBounds(a, b) && i - 1 <= a <= i + 1 && j - 1 <= b <= j + 1 && (a != i || b != j) ==>
      g[a][b] == 0
    ensures Step(g)[i][j] == 0
  {
    assert Step(g)[i][j] == NextAt(g, i, j);
  }

  /** The board whose only live cell is (i, j). */
  function LoneCell(i: int, j: int): (g: Grid)
    requires InBounds(i, j)
    ensures IsGrid(g) && IsBinary(g)
    ensures forall a, b :: InBounds(a, b) ==> (g[a][b] == 1 <==> a == i && b == j)
  {
    seq(NumRows, a => seq(NumCols, b => if a == i && b == j then 1 else 0))
  }

  /** A board holding one live cell is empty after one generation. */
  lemma LoneCellVanishes(i: int, j: int)
    requires InBounds(i, j)
    ensures Step(LoneCell(i, j)) == EmptyGrid()
  {
    var g := LoneCell(i, j);
    forall a, b | InBounds(a, b)
      ensures Step(g)[a][b] == 0
    {
      assert Step(g)[a][b] == NextAt(g, a, b) && NeighbourCount(g, a, b) <= 1;
    }
    GridEq(Step(g), EmptyGrid());
  }

  /** A cell all of whose eight neighbours are alive is dead next. */
  lemma OvercrowdedCellDies(g: Grid, i: int, j: int)
    requires IsGrid(g) && IsBinary(g)
    requires 0 < i < NumRows - 1 && 0 < j < NumCols - 1
    requires forall a, b ::
      i - 1 <= a <= i + 1 && j - 1 <= b <= j + 1 && (a != i || b != j) ==>
      g[a][b] == 1
    ensures Step(g)[i][j] == 0
  {
    assert Step(g)[i][j] == NextAt(g, i, j);
  }

  /** The 2 x 2 block with top-left cell (r, c). */
  function Block(r: int, c: int): (g: Grid)
    requires 0 <= r < NumRows - 1 && 0 <= c < NumCols - 1
    ensures IsGrid(g) && IsBinary(g)
    ensures forall a, b :: InBounds(a, b) ==> (g[a][b] == 1 <==> r <= a <= r + 1 && c <= b <= c + 1)
  {
    seq(NumRows, a => seq(NumCols, b => if r <= a <= r + 1 && c <= b <= c + 1 then 1 else 0))
  }

  /** Three live cells in row r, centred on column c. */
  function HorizontalBlinker(r: int, c: int): (g: Grid)
    requires 0 <= r < NumRows && 0 < c < NumCols - 1
    ensures IsGrid(g) && IsBinary(g)
    ensures forall a, b :: InBounds(a, b) ==> (g[a][b] == 1 <==> a == r && c - 1 <= b <= c + 1)
  {
    seq(NumRows, a => seq(NumCols, b => if a == r && c - 1 <= b <= c + 1 then 1 else 0))
  }

  /** Three live cells in column c, centred on row r. */
  function VerticalBlinker(r: int, c: int): (g: Grid)
    requires 0 < r < NumRows - 1 && 0 <= c < NumCols
    ensures IsGrid(g) && IsBinary(g)
    ensures forall a, b :: InBounds(a, b) ==> (g[a][b] == 1 <==> r - 1 <= a <= r + 1 && b == c)
  {
    seq(NumRows, a => seq(NumCols, b => if r - 1 <= a <= r + 1 && b == c then 1 else 0))
  }

  /** Each cell of a lone block keeps its value for one generation. */
  lemma BlockCell(r: int, c: int, i: int, j: int)
    requires 0 <= r < NumRows - 1 && 0 <= c < NumCols - 1 && InBounds(i, j)
    ensures NextAt(Block(r, c), i, j) == Block(r, c)[i][j]
  {
  }

  /** A block alone on the board is a still life. */
  lemma BlockStill(r: int, c: int)
    requires 0 <= r < NumRows - 1 && 0 <= c < NumCols - 1
    ensures Step(Block(r, c)) == Block(r, c)
  {
    forall i, j | InBounds(i, j)
      ensures Step(Block(r, c))[i][j] == Block(r, c)[i][j]
    {
      BlockCell(r, c, i, j);
    }
    GridEq(Step(Block(r, c)), Block(r, c));
  }

  /** Cell by cell, a horizontal blinker's next generation is the vertical one. */
  lemma HorizontalCell(r: int, c: int, i: int, j: int)
    requires 0 < r < NumRows - 1 && 0 < c < NumCols - 1 && InBounds(i, j)
    ensures NextAt(HorizontalBlinker(r, c), i, j) == VerticalBlinker(r, c)[i][j]
  {
  }

  /** Cell by cell, a vertical blinker's next generation is the horizontal one. */
  lemma VerticalCell(r: int, c: int, i: int, j: int)
    requires 0 < r < NumRows - 1 && 0 < c < NumCols - 1 && InBounds(i, j)
    ensures NextAt(VerticalBlinker(r, c), i, j) == HorizontalBlinker(r, c)[i][j]
  {
  }

  /** A horizontal blinker turns vertical. */
  lemma BlinkerTurnsVertical(r: int, c: int)
    requires 0 < r < NumRows - 1 && 0 < c < NumCols - 1
    ensures Step(HorizontalBlinker(r, c)) == VerticalBlinker(r, c)
  {
    forall i, j | InBounds(i, j)
      ensures Step(HorizontalBlinker(r, c))[i][j] == VerticalBlinker(r, c)[i][j]
    {
      HorizontalCell(r, c, i, j);
    }
    GridEq(Step(HorizontalBlinker(r, c)), VerticalBlinker(r, c));
  }

  /** A vertical blinker turns horizontal. */
  lemma BlinkerTurnsHorizontal(r: int, c: int)
    requires 0 < r < NumRows - 1 && 0 < c < NumCols - 1
    ensures Step(VerticalBlinker(r, c)) == HorizontalBlinker(r, c)
  {
    forall i, j | InBounds(i, j)
      ensures Step(VerticalBlinker(r, c))[i][j] == HorizontalBlinker(r, c)[i][j]
    {
      VerticalCell(r, c, i, j);
    }
    GridEq(Step(VerticalBlinker(r, c)), HorizontalBlinker(r, c));
  }

  /** The blinker is an oscillator of period 2: it differs from its next
      generation and comes back after every even number of generations. */
  lemma BlinkerPeriodTwo(r: int, c: int, k: nat)
    requires 0 < r < NumRows - 1 && 0 < c < NumCols - 1
    ensures Step(HorizontalBlinker(r, c)) != HorizontalBlinker(r, c)
    ensures StepN(HorizontalBlinker(r, c), 2 * k) == HorizontalBlinker(r, c)
  {
    BlinkerTurnsVertical(r, c);
    BlinkerTurnsHorizontal(r, c);
    assert VerticalBlinker(r, c)[r - 1][c] != HorizontalBlinker(r, c)[r - 1][c];
    StepNTwo(HorizontalBlinker(r, c));
    PeriodTwoForever(HorizontalBlinker(r, c), k);
  }

  /** A block stays for any number of generations. */
  lemma BlockForever(r: int, c: int, n: nat)
    requires 0 <= r < NumRows - 1 && 0 <= c < NumCols - 1
    ensures StepN(Block(r, c), n) == Block(r, c)
  {
    BlockStill(r, c);
    FixedPointForever(Block(r, c), n);
  }
}
