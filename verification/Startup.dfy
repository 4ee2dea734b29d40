// The startup sequencer: components come up along a chain of dependencies, worker threads report
// through the bounded queue in any order, and a timeout races with all of it.

module Startup {
  import opened Bytes
  import opened BoundedQueue

  datatype Component = Configuration | Sensor | Calibration | Processing | Telemetry

  datatype Status = Waiting | Starting | Ready | Failed | Blocked

  datatype StartupEvent = StartupEvent(component: Component, ready: bool)

  const COMPONENT_COUNT := 5
  const QUEUE_CAPACITY := 8
  const COMPONENTS := [Configuration, Sensor, Calibration, Processing, Telemetry]

  function Index(c: Component): (k: nat)
    ensures k < COMPONENT_COUNT && COMPONENTS[k] == c
  {
    match c
    case Configuration => 0 case Sensor => 1 case Calibration => 2 case Processing => 3 case Telemetry => 4
  }

  predicate Required(c: Component) {
    c != Telemetry
  }

  // What becoming ready lets start.
  function Dependents(c: Component): seq<Component> {
    match c
    case Configuration => [Sensor, Telemetry]
    case Sensor => [Calibration]
    case Calibration => [Processing]
    case _ => []
  }

  function Prerequisite(c: Component): Option<Component> {
    match c
    case Configuration => None
    case Sensor => Some(Configuration)
    case Calibration => Some(Sensor)
    case Processing => Some(Calibration)
    case Telemetry => Some(Configuration)
  }

  // ---- the main thread's board ----

  // starts lists the components in the order they were started.
  datatype Board = Board(status: seq<Status>, applicationFailed: bool, degraded: bool, starts: seq<Component>) {
    predicate Shaped() {
      |status| == COMPONENT_COUNT
    }

    function Of(c: Component): Status
      requires Shaped()
    {
      status[Index(c)]
    }

    function With(c: Component, now: Status): (b: Board)
      requires Shaped()
      ensures b.Shaped()
      ensures forall d :: b.Of(d) == if d == c then now else Of(d)
    {
      this.(status := status[Index(c) := now])
    }

    function Start(c: Component): (b: Board)
      requires Shaped()
      ensures b.Shaped()
      ensures forall d :: b.Of(d) == if d == c then Starting else Of(d)
    {
      With(c, Starting).(starts := starts + [c])
    }

    function StartAll(cs: seq<Component>): (b: Board)
      requires Shaped()
      ensures b.Shaped()
      decreases |cs|
    {
      if cs == [] then this else Start(cs[0]).StartAll(cs[1..])
    }

    predicate AllRequiredReady()
      requires Shaped()
    {
      Of(Configuration) == Ready && Of(Sensor) == Ready && Of(Calibration) == Ready && Of(Processing) == Ready
    }

    predicate TelemetryFinished()
      requires Shaped()
    {
      var t := Of(Telemetry);
      t == Ready || t == Failed || t == Blocked
    }

    function BlockWaiting(): (b: Board)
      requires Shaped()
      ensures b.Shaped()
      ensures forall c :: b.Of(c) == if Of(c) == Waiting then Blocked else Of(c)
    {
      this.(status := seq(COMPONENT_COUNT, k requires 0 <= k < COMPONENT_COUNT =>
                            if status[k] == Waiting then Blocked else status[k]))
    }

    function Handle(e: StartupEvent): (b: Board)
      requires Shaped()
      ensures b.Shaped()
    {
      if e.ready then With(e.component, Ready).StartAll(Dependents(e.component))
      else if Required(e.component) then With(e.component, Failed).(applicationFailed := true).BlockWaiting()
      else With(e.component, Failed).(degraded := true)
    }

    // The loop goes on.
    predicate Unfinished()
      requires Shaped()
    {
      !applicationFailed && !(AllRequiredReady() && TelemetryFinished())
    }
  }

  lemma StartOne(b: Board, c: Component)
    requires b.Shaped()
    ensures b.StartAll([c]) == b.Start(c)
  {
    assert [c][1..] == [];
  }

  lemma StartTwo(b: Board, c: Component, d: Component)
    requires b.Shaped()
    ensures b.StartAll([c, d]) == b.Start(c).Start(d)
  {
    assert [c, d][1..] == [d];
    StartOne(b.Start(c), d);
  }

  const START_BOARD := Board([Starting, Waiting, Waiting, Waiting, Waiting], false, false, [Configuration])

  // ---- all threads ----

  datatype Worker = NotStarted | Running | Sent

  // Where the main thread stands: before the loop's test, before pop, holding what pop returned,
  // behind the loop, and behind stopping the timeout thread.
  datatype Main = AtTest | AtPop | Holding(popped: Option<StartupEvent>) | LeftLoop | AtVerdict | Done(verdict: Verdict)

  datatype Verdict = TimedOut | ApplicationFailed | ApplicationReady(degraded: bool)

  // The timeout thread: waiting, holding its mutex with the flag set but the queue not yet stopped,
  // and gone.
  datatype Timer = TimerWaits | TimerMustStop | TimerGone

  datatype System = System(board: Board, workers: seq<Worker>, queue: Queue<StartupEvent>, main: Main, timer: Timer,
                           timedOut: bool)
  {
    predicate Shaped() {
      board.Shaped() && |workers| == COMPONENT_COUNT
    }

    function WorkerOf(c: Component): Worker
      requires Shaped()
    {
      workers[Index(c)]
    }

    predicate StartupFinished() {
      main.AtVerdict? || main.Done?
    }
  }

  const START := System(START_BOARD, [Running, NotStarted, NotStarted, NotStarted, NotStarted],
                        Queue([], false), AtTest, TimerWaits, false)

  datatype Step = MainRuns | WorkerReports(component: Component) | TimerFires | TimerStopsQueue | TimerEnds

  // The workers after the board's new starts.
  function Launched(workers: seq<Worker>, before: Board, after: Board): (w: seq<Worker>)
    requires |workers| == COMPONENT_COUNT && before.Shaped() && after.Shaped()
    ensures |w| == COMPONENT_COUNT
  {
    seq(COMPONENT_COUNT, k requires 0 <= k < COMPONENT_COUNT =>
      if before.status[k] != Starting && after.status[k] == Starting then Running else workers[k])
  }

  predicate Enabled(s: System, step: Step)
    requires s.Shaped()
  {
    match step
    case MainRuns =>
      (match s.main
       case AtPop => !PopSection(s.queue).0.MustWait?
       case LeftLoop => s.timer != TimerMustStop  // takes the timeout thread's mutex
       case Done(_) => false
       case _ => true)
    case WorkerReports(c) => s.WorkerOf(c) == Running
      && !PushSection(s.queue, QUEUE_CAPACITY, StartupEvent(c, true)).0.MustWait?
    case TimerFires => s.timer == TimerWaits && !s.StartupFinished()
    case TimerStopsQueue => s.timer == TimerMustStop
    case TimerEnds => s.timer == TimerWaits && s.StartupFinished()
  }

  function AfterMain(s: System): (t: System)
    requires s.Shaped()
    ensures t.Shaped()
  {
    match s.main
    case AtTest => s.(main := if s.board.Unfinished() then AtPop else LeftLoop)
    case AtPop =>
      var (outcome, q) := PopSection(s.queue);
      s.(queue := q, main := Holding(if outcome.Taken? then Some(outcome.item) else None))
    case Holding(popped) =>
      if s.timedOut || popped == None then s.(main := LeftLoop)
      else
        var b := s.board.Handle(popped.value);
        s.(board := b, workers := Launched(s.workers, s.board, b), main := AtTest,
           queue := if b.applicationFailed then s.queue.(stopped := true) else s.queue)
    case LeftLoop => s.(queue := s.queue.(stopped := true), main := AtVerdict)
    case AtVerdict =>
      s.(main := Done(if s.timedOut then TimedOut
                      else if s.board.applicationFailed then ApplicationFailed
                      else ApplicationReady(s.board.degraded)))
    case Done(_) => s
  }

  // A worker reports failure exactly if it is in the given set.
  function After(s: System, step: Step, failing: set<Component>): (t: System)
    requires s.Shaped()
    ensures t.Shaped()
  {
    match step
    case MainRuns => AfterMain(s)
    case WorkerReports(c) =>
      s.(workers := s.workers[Index(c) := Sent],
         queue := PushSection(s.queue, QUEUE_CAPACITY, StartupEvent(c, c !in failing)).1)
    case TimerFires => s.(timedOut := true, timer := TimerMustStop)
    case TimerStopsQueue => s.(queue := s.queue.(stopped := true), timer := TimerGone)
    case TimerEnds => s.(timer := TimerGone)
  }

  predicate IsRun(s: System, run: seq<Step>, failing: set<Component>)
    requires s.Shaped()
    decreases |run|
  {
    run == [] || (Enabled(s, run[0]) && IsRun(After(s, run[0], failing), run[1..], failing))
  }

  function Final(s: System, run: seq<Step>, failing: set<Component>): (t: System)
    requires s.Shaped()
    ensures t.Shaped()
    decreases |run|
  {
    if run == [] then s else Final(After(s, run[0], failing), run[1..], failing)
  }
}
