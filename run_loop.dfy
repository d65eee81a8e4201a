/** The run/stop state machine that drives the simulation. A tick is guarded
    by the running flag: when stopped it does nothing and schedules nothing;
    when running it replaces the board by its next generation and schedules
    one more tick. The start/stop button flips the flag and, when it starts
    the loop, runs a tick at once. Time itself is not modelled: `pending`
    counts the tick callbacks that have been scheduled and not yet fired, and
    a timer firing is the explicit event Fire. */
module RunLoop {
  import opened Grids
  import opened Rules

  /** Interval between ticks in milliseconds, as the speed slider offers it. */
  const MinSpeed: int := 100
  const MaxSpeed: int := 1000
  const SpeedStep: int := 100
  const DefaultSpeed: int := 500

  predicate ValidSpeed(v: int) {
    MinSpeed <= v <= MaxSpeed && v % SpeedStep == 0
  }

  /** The board, the running flag and the number of scheduled, unfired ticks. */
  datatype Sim = Sim(grid: Grid, running: bool, pending: nat)

  /** Stopped, nothing scheduled, every cell dead. */
  function Initial(): (s: Sim)
    ensures IsGrid(s.grid) && !s.running && s.pending == 0
    ensures s.grid == EmptyGrid() && IsBinary(s.grid)
    ensures OneChain(s)
  {
    Sim(EmptyGrid(), false, 0)
  }

  /** One run of the tick body. */
  function Tick(s: Sim): (t: Sim)
    requires IsGrid(s.grid)
    ensures IsGrid(t.grid) && t.running == s.running
    ensures !s.running ==> t == s
    ensures s.running ==> t.grid == Step(s.grid) && t.pending == s.pending + 1
    ensures IsBinary(s.grid) ==> IsBinary(t.grid)
  {
    if !s.running then s
    else Sim(Step(s.grid), true, s.pending + 1)
  }

  /** A scheduled tick fires: it leaves the schedule and the tick body runs. */
  function Fire(s: Sim): (t: Sim)
    requires IsGrid(s.grid) && s.pending > 0
    ensures IsGrid(t.grid) && t.running == s.running
    ensures t.pending == if s.running then s.pending else s.pending - 1
    ensures t.grid == if s.running then Step(s.grid) else s.grid
    ensures IsBinary(s.grid) ==> IsBinary(t.grid)
  {
    Tick(s.(pending := s.pending - 1))
  }

  /** The start/stop button as the program has it: stopping only clears the
      flag, so a tick already scheduled stays scheduled; starting sets the
      flag and runs a tick at once. */
  function Press(s: Sim): (t: Sim)
    requires IsGrid(s.grid)
    ensures IsGrid(t.grid) && t.running == !s.running
    ensures s.running ==> t.grid == s.grid && t.pending == s.pending
    ensures !s.running ==> t.grid == Step(s.grid) && t.pending == s.pending + 1
    ensures IsBinary(s.grid) ==> IsBinary(t.grid)
  {
    if s.running then s.(running := false)
    else Tick(s.(running := true))
  }

  /** The start/stop button with the scheduled tick cancelled on stop. */
  function PressCancelling(s: Sim): (t: Sim)
    requires IsGrid(s.grid)
    ensures IsGrid(t.grid) && t.running == !s.running
    ensures s.running ==> t.grid == s.grid && t.pending == 0
    ensures !s.running ==> t.grid == Step(s.grid) && t.pending == s.pending + 1
    ensures OneChain(s) ==> OneChain(t)
    ensures IsBinary(s.grid) ==> IsBinary(t.grid)
  {
    if s.running then s.(running := false, pending := 0)
    else Tick(s.(running := true))
  }

  /** A tick that fires after the loop was stopped changes no cell, keeps the
      loop stopped and schedules nothing: one fewer tick is pending. */
  lemma FireWhenStopped(s: Sim)
    requires IsGrid(s.grid) && s.pending > 0 && !s.running
    ensures Fire(s).grid == s.grid && !Fire(s).running
    ensures Fire(s).pending == s.pending - 1
  {
  }

  /** A tick that fires while running advances the board by exactly one
      generation and schedules exactly one successor. */
  lemma FireWhenRunning(s: Sim)
    requires IsGrid(s.grid) && s.pending > 0 && s.running
    ensures Fire(s) == Sim(Step(s.grid), true, s.pending)
  {
  }

  /** Starting sets the flag before the first tick runs, so that tick is not
      turned away by the guard: the board advances once and a tick is
      scheduled. Stopping changes no cell. */
  lemma PressStartsAndStops(s: Sim)
    requires IsGrid(s.grid)
    ensures !s.running ==> Press(s) == Sim(Step(s.grid), true, s.pending + 1)
    ensures s.running ==> Press(s) == Sim(s.grid, false, s.pending)
  {
  }

  /** n scheduled ticks firing one after another while running. */
  function Fires(s: Sim, n: nat): (t: Sim)
    requires IsGrid(s.grid) && s.running && s.pending > 0
    ensures IsGrid(t.grid)
    decreases n
  {
    if n == 0 then s else Fires(Fire(s), n - 1)
  }

  /** While running, ticks follow one another: each reads the board the
      previous one published, so n ticks give n generations, and the loop
      keeps running with the same number of scheduled ticks. */
  lemma {:induction false} FiresAdvance(s: Sim, n: nat)
    requires IsGrid(s.grid) && s.running && s.pending > 0
    ensures Fires(s, n) == Sim(StepN(s.grid, n), true, s.pending)
    decreases n
  {
    if n > 0 {
      FiresAdvance(Fire(s), n - 1);
    }
  }

  /** Starting and stopping before the first scheduled tick fires still
      leaves the board one generation on, because starting runs a tick at
      once; the tick left scheduled then fires harmlessly. */
  lemma StartStopBeforeFirstTick(g: Grid)
    requires IsGrid(g)
    ensures var stopped := Press(Press(Sim(g, false, 0)));
      stopped == Sim(Step(g), false, 1) && Fire(stopped) == Sim(Step(g), false, 0)
  {
  }

  /** At most one chain of ticks: one tick is scheduled while running and
      none while stopped. */
  predicate OneChain(s: Sim) {
    s.pending == if s.running then 1 else 0
  }

  /** What can happen to the loop: the start/stop button is pressed, or the
      timer calls back a scheduled tick. */
  datatype Event = ButtonPress | TimerFires

  /** An event as the program handles it. A timer can only call back a tick
      that was scheduled, so with nothing pending TimerFires changes nothing. */
  function Apply(s: Sim, e: Event): (t: Sim)
    requires IsGrid(s.grid)
    ensures IsGrid(t.grid)
  {
    match e
    case ButtonPress => Press(s)
    case TimerFires => if s.pending > 0 then Fire(s) else s
  }

  /** An event with the scheduled tick cancelled on stop. */
  function ApplyCancelling(s: Sim, e: Event): (t: Sim)
    requires IsGrid(s.grid)
    ensures IsGrid(t.grid)
  {
    match e
    case ButtonPress => PressCancelling(s)
    case TimerFires => if s.pending > 0 then Fire(s) else s
  }

  /** A sequence of events as the program handles them. */
  function Run(s: Sim, events: seq<Event>): (t: Sim)
    requires IsGrid(s.grid)
    ensures IsGrid(t.grid)
    decreases |events|
  {
    if events == [] then s else Run(Apply(s, events[0]), events[1..])
  }

  /** A sequence of events with the scheduled tick cancelled on stop. */
  function RunCancelling(s: Sim, events: seq<Event>): (t: Sim)
    requires IsGrid(s.grid)
    ensures IsGrid(t.grid)
    decreases |events|
  {
    if events == [] then s else RunCancelling(ApplyCancelling(s, events[0]), events[1..])
  }

  /** As the program has it, stopping and starting again before the pending
      tick has fired leaves two chains of ticks: two ticks are scheduled, and
      the next two timer callbacks both advance the board. */
  lemma RestartLeavesTwoChains(g: Grid)
    requires IsGrid(g)
    ensures var s := Run(Sim(g, false, 0), [ButtonPress, ButtonPress, ButtonPress]);
      OneChain(Sim(g, false, 0)) && !OneChain(s) && s.running && s.pending == 2 &&
      Fire(Fire(s)).grid == Step(Step(s.grid))
  {
  }

  /** With the scheduled tick cancelled on stop, pressing the button and a
      timer callback both keep a single chain of ticks. */
  lemma CancellingKeepsOneChain(s: Sim, e: Event)
    requires IsGrid(s.grid) && OneChain(s)
    ensures OneChain(ApplyCancelling(s, e))
  {
  }

  /** With the scheduled tick cancelled on stop, every sequence of presses and
      timer callbacks keeps a single chain of ticks, so the board never
      advances more than once per interval. */
  lemma {:induction false} CancellingRunKeepsOneChain(s: Sim, events: seq<Event>)
    requires IsGrid(s.grid) && OneChain(s)
    ensures OneChain(RunCancelling(s, events))
    decreases |events|
  {
    if events != [] {
      CancellingKeepsOneChain(s, events[0]);
      CancellingRunKeepsOneChain(ApplyCancelling(s, events[0]), events[1..]);
    }
  }
}
