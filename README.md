# Conway's Game of Life engine, modelled in Dafny

This project models the simulation engine of a React Game of Life application
(`src/App.jsx`). The board is a fixed 30 x 30 grid of numeric cells, 0 for
dead and 1 for alive. Each generation counts every cell's live neighbours
among its eight surrounding positions. Positions off the board are skipped:
there is no wraparound. The next value follows the rule chain
"fewer than 2 or more than 3 -> 0; dead with exactly 3 -> 1; otherwise
unchanged". Around the engine sit the handlers of the application: clicking
a cell flips it, Randomize seeds a fresh board from a random draw per cell,
Clear empties the board, and the Start/Stop button drives a self-rescheduling
tick guarded by a running flag. A speed slider sets the tick interval.

Layout, one module per component:

- `grid.dfy` (`Grids`): the board as a value. The empty board, the flip of
  one cell, the board seeded from a sequence of draws, and the live-cell
  population.
- `rules.dfy` (`Rules`): neighbour count, next-cell rule, one generation
  (`Step`) and n generations (`StepN`), all pure functions.
- `patterns.dfy` (`Patterns`): the empty board, a lone cell, an overcrowded
  cell, the 2 x 2 block and the blinker, each proved for every placement.
- `run_loop.dfy` (`RunLoop`): the run/stop state machine as values. A state
  is the board, the running flag and the number of tick callbacks that are
  scheduled and have not fired.
- `controller.dfy` (`Controller`): the application state as a class `Game`
  over an `array2<int>`. Its methods are the event handlers, each proved
  against the functions above. The neighbour count is the nested `for` sweep
  of the source (`CountNeighbours`). The next generation is built into a
  fresh array (`NextGeneration`) and reads only the old one.

Two behaviours of the code differ from what a reader of a start button and a
speed slider might expect, and the model follows the code:

- Unlike a start button that waits one interval, Start here runs a tick at
  once (`src/App.jsx:101-103`): the board advances one generation the moment
  Start is pressed. So
  Start followed by Stop before the first timer callback does not leave the
  board as it was. `RunLoop.StartStopBeforeFirstTick` states what happens
  instead.
- The interval is never clamped in code. The slider only produces 100..1000 in steps of
  100, so `Game.SetSpeed` requires such a value.

## Model

| member | source | states |
|---|---|---|
| `Grids.EmptyGrid` | src/App.jsx:13-19 | exactly 30 rows of 30 cells, every cell 0 |
| `Grids.Flip` | src/App.jsx:70 | a clicked cell becomes 1 exactly when it was 0 (falsy), else 0 |
| `Grids.Toggled` | src/App.jsx:67-73 | same dimensions; cell (i, j) is flipped; every other cell is unchanged |
| `Grids.ToggledBinary` | src/App.jsx:67-73 | on a 0/1 board toggling keeps the board 0/1 and turns the cell into 1 minus its old value |
| `Grids.ToggleTwice` | src/App.jsx:67-73 | toggling the same cell twice restores a 0/1 board |
| `Grids.DrawIndex` | src/App.jsx:79-83 | the nested loops hand each cell its own draw, row after row, left to right |
| `Grids.RandomGrid` | src/App.jsx:76-86 | a 30 x 30 board of 0/1 cells in which cell (i, j) is 1 exactly when its draw succeeded |
| `Grids.RandomGridPopulation` | src/App.jsx:76-86 | the seeded board has exactly as many live cells as there were successful draws among the 900 it used |
| `Rules.Contribution` | src/App.jsx:40-45 | only an on-board position other than the cell itself adds to a count, and on a 0/1 board it adds 0 or 1 |
| `Rules.NeighbourCount` | src/App.jsx:36-47 | on a 0/1 board a neighbour count lies in 0..8 |
| `Rules.CountBeforeAll` | src/App.jsx:38-47 | the sweep over x, y in -1..1 that skips (0, 0) adds up exactly the eight neighbour contributions |
| `Rules.NeighbourCountBounds` | src/App.jsx:38-46 | on a 0/1 board a count lies between 0 and the number of on-board neighbours (3 at a corner, 5 on an edge, 8 inside), and all-alive neighbours reach that number |
| `Rules.NextCell` | src/App.jsx:52-58 | below 2 or above 3 gives 0; on a 0/1 cell the result is 0/1, and 1 exactly when the count is 3 or the cell is alive with 2 |
| `Rules.NextRows` | src/App.jsx:34-60 | the first n rows of the next board, each cell computed from the old board only |
| `Rules.Step` | src/App.jsx:33-62 | one generation keeps the 30 x 30 shape, every cell follows the rule on the old board's count, and a 0/1 board stays 0/1 |
| `Rules.StepLiveRule` | src/App.jsx:52-58 | on a 0/1 board a cell is alive next exactly when it has 3 live neighbours or is alive with 2 |
| `Patterns.EmptyStill` | src/App.jsx:44 | the all-0 board maps to itself |
| `Patterns.IsolatedCellDies` | src/App.jsx:52-53 | a cell with no live neighbour is dead next |
| `Patterns.LoneCellVanishes` | src/App.jsx:52-53 | a board with one live cell is empty after one generation |
| `Patterns.OvercrowdedCellDies` | src/App.jsx:52-53 | an inner cell with all eight neighbours alive is dead next |
| `Patterns.BlockStill` | src/App.jsx:52-58 | a lone 2 x 2 block, anywhere on the board, is unchanged by a generation |
| `Patterns.BlockForever` | src/App.jsx:52-58 | a lone block is unchanged by any number of generations |
| `Patterns.BlinkerTurnsVertical` | src/App.jsx:52-58 | a horizontal blinker becomes the vertical one through the same centre |
| `Patterns.BlinkerTurnsHorizontal` | src/App.jsx:52-58 | a vertical blinker becomes the horizontal one through the same centre |
| `Patterns.BlinkerPeriodTwo` | src/App.jsx:52-58 | the blinker differs from its next generation and returns after every even number of generations |
| `RunLoop.Initial` | src/App.jsx:22-25 | the application starts stopped, with nothing scheduled, on the empty 30 x 30 board, so with a single (empty) chain of ticks |
| `RunLoop.Tick` | src/App.jsx:29-64 | a tick never changes the flag; when stopped it changes nothing; when running the board becomes its next generation and one more tick is scheduled; a 0/1 board stays 0/1 |
| `RunLoop.Fire` | src/App.jsx:63 | a callback keeps the flag; while running it advances one generation and leaves the number of scheduled ticks as it was, while stopped it changes no cell and one fewer tick is scheduled |
| `RunLoop.Press` | src/App.jsx:99-105 | the button flips the flag; Stop keeps the board and every scheduled tick; Start advances one generation and schedules one more tick |
| `RunLoop.PressCancelling` | src/App.jsx:99-105 | the button flips the flag; Stop keeps the board and leaves no tick scheduled; Start advances one generation and schedules one tick; a single chain of ticks stays single |
| `RunLoop.FireWhenStopped` | src/App.jsx:30-32 | a tick that fires while stopped changes no cell and schedules nothing |
| `RunLoop.FireWhenRunning` | src/App.jsx:33-63 | a tick that fires while running replaces the board by exactly one generation and schedules exactly one successor |
| `RunLoop.PressStartsAndStops` | src/App.jsx:99-105 | Start from stopped sets the flag before its tick, so the board advances once and one tick is scheduled; Stop clears the flag and changes no cell |
| `RunLoop.FiresAdvance` | src/App.jsx:29-64 | while running, n ticks in a row give n generations, each reading the board the previous one published |
| `RunLoop.StartStopBeforeFirstTick` | src/App.jsx:99-105 | Start then Stop before the first callback leaves the board one generation on, and the leftover callback changes nothing |
| `RunLoop.RestartLeavesTwoChains` | src/App.jsx:99-105 | Start, Stop, Start before the pending tick fires leaves two scheduled ticks, and both advance the board |
| `RunLoop.CancellingKeepsOneChain` | src/App.jsx:99-105 | with the pending tick cancelled on Stop, each press and each callback keeps exactly one tick scheduled while running and none while stopped |
| `RunLoop.CancellingRunKeepsOneChain` | src/App.jsx:99-105 | with the pending tick cancelled on Stop, every sequence of presses and callbacks keeps that single chain |
| `Controller.CountNeighbours` | src/App.jsx:36-47 | the nested loop's count is the sum of the eight neighbour contributions of the board |
| `Controller.NextGeneration` | src/App.jsx:33-62 | a fresh 30 x 30 array holding `Step` of the old board, which is left untouched |
| `Controller.Game.constructor` | src/App.jsx:22-26 | `State()` is `RunLoop.Initial` (empty board, stopped, nothing scheduled) and the interval is 500 ms; every `Game` method keeps the board 30 x 30 with 0/1 cells (`Valid`) |
| `Controller.Game.Tick` | src/App.jsx:29-64 | when stopped nothing changes; when running the board becomes its next generation and one tick is scheduled |
| `Controller.Game.Fire` | src/App.jsx:63 | a scheduled callback leaves the schedule and runs the tick |
| `Controller.Game.PressStartStop` | src/App.jsx:98-105 | Start sets the flag and runs a tick at once; Stop clears the flag and cancels the scheduled tick |
| `Controller.Game.ToggleCell` | src/App.jsx:67-73 | the array afterwards holds `Toggled` of the old board, flipped in place |
| `Controller.Game.Clear` | src/App.jsx:109 | a fresh empty board; flag, schedule and interval unchanged |
| `Controller.Game.Randomize` | src/App.jsx:76-86 | a fresh board equal to `RandomGrid` of the draws, filled cell by cell from the k-th draw; flag, schedule and interval unchanged |
| `Controller.Game.SetSpeed` | src/App.jsx:89-91 | the interval becomes the slider's value (100..1000 in steps of 100) |

## Findings

| source | as written | input that shows it | evidently intended | confidence | as-written member | corrected member |
|---|---|---|---|---|---|---|
| src/App.jsx:99-105 | Stop only clears the running flag. The `setTimeout` already scheduled stays scheduled. Start from stopped then runs a new tick, which schedules a second callback. | Start, Stop, Start, all within one interval: two ticks are pending, the loop is running, and the board advances two generations per interval from then on | one chain of ticks at a time: Stop cancels the scheduled tick, so at most one tick is pending, and only while running | not executed; medium (depends on the timer callback firing after the second Start) | `RunLoop.Press`, `RunLoop.RestartLeavesTwoChains` | `RunLoop.PressCancelling`, `RunLoop.CancellingRunKeepsOneChain` (used by `Controller.Game.PressStartStop`) |

## Left out

- Rendering (`src/App.jsx:93-139`), CSS and React's `useState`, `useCallback` and `useRef` machinery. The board, the flag, the interval and the schedule are plain fields of `Controller.Game`.
- Real time and `setTimeout`. A timer callback is the explicit call `Game.Fire`, and `pending` counts the callbacks not yet fired. The delay a callback waits is not recorded.
- The interval captured by `useCallback([speed])`. A running loop keeps the interval it was started with, and a later slider change reaches only a loop started afterwards. The model does not record which interval a scheduled tick uses.
- `runningRef` and `running` are one flag. The ref is refreshed from the state on each render (`src/App.jsx:26`), and the lag before that render is not modelled.
- `Math.random() > 0.7` (`src/App.jsx:81`). It is replaced by an injected sequence of booleans, one per cell in fill order. No statistical density property is stated.
- `parseInt` of the slider's DOM value (`src/App.jsx:90`). `Game.SetSpeed` takes the number the slider produces.
- The shallow copy in `handleCellClick` (`src/App.jsx:69-70`). It shares the inner rows, so the previous board's row is mutated too. The model flips the cell in place in the single board array, and no other board value refers to it.
- `Game.ToggleCell` requires an on-board cell. The handler is only ever bound to rendered cells, so an out-of-range click cannot occur.
- `Rules.Step` requires a 30 x 30 board. The source checks the bounds against the constants `numRows` and `numCols`, not the board's own size. A board of another shape never arises.
- `Controller.Game.PressStartStop` follows the corrected Stop in the Findings table: it also cancels the scheduled tick. The program's own Stop is `RunLoop.Press`.
