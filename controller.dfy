/** The simulation as the application runs it: a controller object that owns
    the board (a NumRows x NumCols array), the running flag, the tick interval
    and the count of scheduled ticks, and whose methods are the application's
    event handlers. Each method is proved against the value-level model:
    Grids for the board operations, Rules for a generation and RunLoop for
    the run/stop state machine. */
module Controller {
  import opened Grids
  import opened Rules
  import opened RunLoop

  /** The board held in an array, read as rows of cells. */
  ghost function ToGrid(a: array2<int>): (g: Grid)
    reads a
    requires a.Length0 == NumRows && a.Length1 == NumCols
    ensures IsGrid(g)
    ensures forall i, j :: InBounds(i, j) ==> g[i][j] == a[i, j]
  {
    seq(NumRows, i requires 0 <= i < NumRows reads a =>
      seq(NumCols, j requires 0 <= j < NumCols reads a => a[i, j]))
  }

  /** Counts the live neighbours of (i, j) the way the tick does: a sweep
      over the offsets x and y from -1 to 1 that skips the cell itself and
      every position off the board. */
  method CountNeighbours(g: array2<int>, i: int, j: int) returns (n: int)
    requires g.Length0 == NumRows && g.Length1 == NumCols
    ensures n == NeighbourCount(ToGrid(g), i, j)
  {
    n := 0;
    for x := -1 to 2
      invariant n == CountBefore(ToGrid(g), i, j, 3 * (x + 1))
    {
      for y := -1 to 2
        invariant n == CountBefore(ToGrid(g), i, j, 3 * (x + 1) + (y + 1))
      {
        if x == 0 && y == 0 {
          continue;
        }
        var ni, nj := i + x, j + y;
        if 0 <= ni < NumRows && 0 <= nj < NumCols {
          n := n + g[ni, nj];
        }
      }
    }
    CountBeforeAll(ToGrid(g), i, j);
  }

  /** Builds the next generation of g in a new array. Every count reads g,
      never the array being filled. */
  method NextGeneration(g: array2<int>) returns (next: array2<int>)
    requires g.Length0 == NumRows && g.Length1 == NumCols
    ensures fresh(next) && next.Length0 == NumRows && next.Length1 == NumCols
    ensures ToGrid(next) == Step(ToGrid(g))
  {
    ghost var cur := ToGrid(g);
    next := new int[NumRows, NumCols];
    for i := 0 to NumRows
      invariant forall a, b :: 0 <= a < i && 0 <= b < NumCols ==> next[a, b] == NextAt(cur, a, b)
    {
      for j := 0 to NumCols
        invariant forall a, b :: 0 <= a < i && 0 <= b < NumCols ==> next[a, b] == NextAt(cur, a, b)
        invariant forall b :: 0 <= b < j ==> next[i, b] == NextAt(cur, i, b)
      {
        var n := CountNeighbours(g, i, j);
        next[i, j] := NextCell(g[i, j], n);
      }
    }
    GridEq(ToGrid(next), Step(cur));
  }

  /** The application state. */
  class Game {
    var grid: array2<int>
    var running: bool
    var speed: int
    var pending: nat

    /** The board is NumRows x NumCols with every cell 0 or 1, and the
        interval is one the slider offers. */
    ghost predicate Valid()
      reads this, grid
    {
      grid.Length0 == NumRows && grid.Length1 == NumCols && IsBinary(ToGrid(grid)) &&
      ValidSpeed(speed)
    }

    /** The current board. */
    ghost function Cells(): (c: Grid)
      reads this, grid
      requires Valid()
      ensures IsGrid(c) && IsBinary(c)
    {
      ToGrid(grid)
    }

    /** The run-loop view of the object. */
    ghost function State(): Sim
      reads this, grid
      requires Valid()
    {
      Sim(Cells(), running, pending)
    }

    /** Empty board, stopped, nothing scheduled, 500 ms between ticks. */
    constructor ()
      ensures Valid() && fresh(grid)
      ensures State() == Initial() && speed == DefaultSpeed
    {
      grid := new int[NumRows, NumCols]((_, _) => 0);
      running := false;
      speed := DefaultSpeed;
      pending := 0;
      new;
      GridEq(ToGrid(grid), EmptyGrid());
    }

    /** The tick body: turned away when stopped; otherwise publishes the
        next generation and schedules another tick. */
    method Tick()
      requires Valid()
      modifies this
      ensures Valid() && speed == old(speed)
      ensures State() == RunLoop.Tick(old(State()))
    {
      if !running {
        return;
      }
      grid := NextGeneration(grid);
      pending := pending + 1;
    }

    /** The timer calls back a scheduled tick. */
    method Fire()
      requires Valid() && pending > 0
      modifies this
      ensures Valid() && speed == old(speed)
      ensures State() == RunLoop.Fire(old(State()))
    {
      pending := pending - 1;
      Tick();
    }

    /** The start/stop button. Starting sets the flag and runs a tick at
        once; stopping clears the flag and cancels the scheduled tick. */
    method PressStartStop()
      requires Valid()
      modifies this
      ensures Valid() && speed == old(speed)
      ensures State() == PressCancelling(old(State()))
    {
      if running {
        running := false;
        pending := 0;
      } else {
        running := true;
        Tick();
      }
    }

    /** A click on cell (i, j) flips it in place. */
    method ToggleCell(i: int, j: int)
      requires Valid() && InBounds(i, j)
      modifies grid
      ensures Valid()
      ensures Cells() == Toggled(old(Cells()), i, j)
    {
      grid[i, j] := if grid[i, j] != 0 then 0 else 1;
      GridEq(ToGrid(grid), Toggled(old(Cells()), i, j));
      ToggledBinary(old(Cells()), i, j);
    }

    /** The clear button: a fresh empty board; the loop state is untouched. */
    method Clear()
      requires Valid()
      modifies this
      ensures Valid() && fresh(grid)
      ensures State() == old(State()).(grid := EmptyGrid()) && speed == old(speed)
    {
      grid := new int[NumRows, NumCols]((_, _) => 0);
      GridEq(ToGrid(grid), EmptyGrid());
    }

    /** The randomize button: an empty board is filled row by row, each cell
        from the next draw of the random source; the loop state is untouched. */
    method Randomize(draws: seq<bool>)
      requires Valid() && |draws| >= NumRows * NumCols
      modifies this
      ensures Valid() && fresh(grid)
      ensures State() == old(State()).(grid := RandomGrid(draws)) && speed == old(speed)
    {
      var seeded := new int[NumRows, NumCols]((_, _) => 0);
      var k := 0;
      for i := 0 to NumRows
        modifies seeded
        invariant k == i * NumCols
        invariant forall a, b :: 0 <= a < i && 0 <= b < NumCols ==>
          seeded[a, b] == if draws[DrawIndex(a, b)] then 1 else 0
      {
        for j := 0 to NumCols
          modifies seeded
          invariant k == i * NumCols + j
          invariant forall a, b :: 0 <= a < i && 0 <= b < NumCols ==>
            seeded[a, b] == if draws[DrawIndex(a, b)] then 1 else 0
          invariant forall b :: 0 <= b < j ==>
            seeded[i, b] == if draws[DrawIndex(i, b)] then 1 else 0
        {
          seeded[i, j] := if draws[k] then 1 else 0;
          k := k + 1;
        }
      }
      grid := seeded;
      GridEq(ToGrid(grid), RandomGrid(draws));
    }

    /** The speed slider, whose values run from 100 to 1000 in steps of 100. */
    method SetSpeed(v: int)
      requires Valid() && ValidSpeed(v)
      modifies this`speed
      ensures Valid() && speed == v
    {
      speed := v;
    }
  }
}
