// The startup sequencer over whole runs: it always ends, and with the right verdict.

module StartupRuns {
  import opened Bytes
  import opened BoundedQueue
  import opened Startup
  import opened StartupTheorems

  // ---- every step keeps the invariant ----

  lemma TestKeeps(s: System, failing: set<Component>)
    requires Inv(s, failing) && (s.main.AtTest? || s.main.AtVerdict?)
    ensures Inv(AfterMain(s), failing)
  {
    hide BoardInv, FlightInv, Board.Unfinished;
    assert InFlight(AfterMain(s)) == InFlight(s);
  }

  lemma PopKeeps(s: System, failing: set<Component>)
    requires Inv(s, failing) && s.main.AtPop? && Enabled(s, MainRuns)
    ensures Inv(AfterMain(s), failing)
  {
    PopKeepsFlight(s);
    PopKeepsControl(s);
    hide BoardInv, FlightInv, ControlInv, Enabled, InFlight;
  }

  lemma PopKeepsFlight(s: System)
    requires s.Shaped() && s.main.AtPop? && Enabled(s, MainRuns)
    ensures InFlight(AfterMain(s)) == InFlight(s)
  {
    var items := s.queue.items;
    assert items != [] ==> [items[0]] + items[1..] == items;
  }

  lemma PopKeepsControl(s: System)
    requires s.Shaped() && ControlInv(s) && s.main.AtPop? && Enabled(s, MainRuns)
    ensures ControlInv(AfterMain(s)) && Lossy(AfterMain(s)) == Lossy(s)
  {
    hide Board.Unfinished;
  }

  lemma HeldIsFine(s: System, failing: set<Component>)
    requires Inv(s, failing) && s.main.Holding? && s.main.popped.Some?
    ensures InFlight(s) == [s.main.popped.value] + s.queue.items
    ensures s.board.Of(s.main.popped.value.component) == Starting
    ensures s.main.popped.value.ready <==> s.main.popped.value.component !in failing
  {
    hide BoardInv, ControlInv;
    assert Fine(s.board, s.workers, InFlight(s)[0], failing);
  }

  lemma LeaveKeeps(s: System, failing: set<Component>)
    requires Inv(s, failing)
    requires (s.main.Holding? && (s.timedOut || s.main.popped == None)) || s.main.LeftLoop?
    requires Enabled(s, MainRuns)
    ensures Inv(AfterMain(s), failing)
  {
    var t := AfterMain(s);
    hide BoardInv, FlightInv, Board.Unfinished;
    MoreLossy(s.board, s.workers, InFlight(s), Lossy(s), failing);
    if s.main.Holding? && s.main.popped.Some? {
      DropFlight(s.board, s.workers, s.main.popped.value, s.queue.items, failing);
      assert InFlight(t) == s.queue.items;
    } else {
      assert InFlight(t) == InFlight(s);
    }
  }

  lemma HandleKeepsControl(s: System)
    requires s.Shaped() && ControlInv(s) && s.main.Holding? && s.main.popped.Some? && !s.timedOut
    ensures !s.board.applicationFailed && !Lossy(s) && ControlInv(AfterMain(s))
  {
    hide Board.Handle, Launched, Board.AllRequiredReady, Board.TelemetryFinished;
  }

  lemma HandleKeeps(s: System, failing: set<Component>)
    requires Inv(s, failing) && s.main.Holding? && s.main.popped.Some? && !s.timedOut
    ensures Inv(AfterMain(s), failing)
  {
    var e := s.main.popped.value;
    var t := AfterMain(s);
    HeldIsFine(s, failing);
    HandleKeepsControl(s);
    hide BoardInv, FlightInv, ControlInv, Board.Handle, Launched;
    assert InFlight(t) == s.queue.items;
    HandleKeepsInv(s.board, e, failing);
    HandleKeepsFlight(s.board, s.workers, e, s.queue.items, failing);
    MoreLossy(t.board, t.workers, InFlight(t), false, failing);
  }

  lemma TimerKeeps(s: System, step: Step, failing: set<Component>)
    requires Inv(s, failing) && (step.TimerFires? || step.TimerStopsQueue? || step.TimerEnds?) && Enabled(s, step)
    ensures Inv(After(s, step, failing), failing)
  {
    hide BoardInv, FlightInv, Board.Unfinished;
    assert InFlight(After(s, step, failing)) == InFlight(s);
    MoreLossy(s.board, s.workers, InFlight(s), Lossy(s), failing);
  }

  lemma StepKeepsInv(s: System, step: Step, failing: set<Component>)
    requires Inv(s, failing) && Enabled(s, step)
    ensures Inv(After(s, step, failing), failing)
  {
    hide Inv, Lossy;
    if step.WorkerReports? {
      WorkerStepKeeps(s, step.component, failing);
    } else if step.MainRuns? {
      match s.main
      case AtTest => TestKeeps(s, failing);
      case AtPop => PopKeeps(s, failing);
      case AtVerdict => TestKeeps(s, failing);
      case LeftLoop => LeaveKeeps(s, failing);
      case Holding(popped) =>
        if s.timedOut || popped == None {
          LeaveKeeps(s, failing);
        } else {
          HandleKeeps(s, failing);
        }
      case Done(_) =>
    } else {
      TimerKeeps(s, step, failing);
    }
  }

  lemma {:induction false} RunKeepsInv(s: System, run: seq<Step>, failing: set<Component>)
    requires Inv(s, failing) && IsRun(s, run, failing)
    ensures Inv(Final(s, run, failing), failing)
    decreases |run|
  {
    hide BoardInv, FlightInv, ControlInv, Enabled, After;
    if run != [] {
      StepKeepsInv(s, run[0], failing);
      RunKeepsInv(After(s, run[0], failing), run[1..], failing);
    }
  }

  // ---- starts ----

  // Every component is started at most once, and none before its prerequisite is ready.
  lemma StartedOnceInOrder(run: seq<Step>, failing: set<Component>)
    requires IsRun(START, run, failing)
    ensures var b := Final(START, run, failing).board;
            && (forall j, k :: 0 <= j < k < |b.starts| ==> b.starts[j] != b.starts[k])
            && (forall c :: c in b.starts && Prerequisite(c).Some? ==> b.Of(Prerequisite(c).value) == Ready)
            && (b.applicationFailed ==> forall c :: b.Of(c) != Waiting)
  {
    hide Enabled, After, IsRun, Final;
    StartInv(failing);
    RunKeepsInv(START, run, failing);
    hide FlightInv, ControlInv;
    var b := Final(START, run, failing).board;
    forall c | c in b.starts && Prerequisite(c).Some? ensures b.Of(Prerequisite(c).value) == Ready {
      assert InOrder(b, c);
    }
  }

  // No worker ever finds the queue full: in every run its report can be made at once.
  lemma ReportsNeverBlock(run: seq<Step>, failing: set<Component>, c: Component)
    requires IsRun(START, run, failing) && Final(START, run, failing).WorkerOf(c) == Running
    ensures Enabled(Final(START, run, failing), WorkerReports(c))
    ensures |Final(START, run, failing).queue.items| < 8
  {
    hide Enabled, After, IsRun, Final;
    StartInv(failing);
    RunKeepsInv(START, run, failing);
    WorkerNeverBlocks(Final(START, run, failing), c, failing);
  }

  // ---- something is always on its way ----

  lemma SomethingStarting(b: Board, failing: set<Component>) returns (c: Component)
    requires BoardInv(b, failing) && b.Unfinished()
    ensures b.Of(c) == Starting
  {
    assert forall d :: Required(d) ==> b.Of(d) != Failed;
    assert InOrder(b, Configuration) && InOrder(b, Sensor) && InOrder(b, Calibration) && InOrder(b, Processing);
    assert InOrder(b, Telemetry);
    assert Required(Configuration) && Required(Sensor) && Required(Calibration) && Required(Processing);
    hide Board.Of;
    c := if b.Of(Configuration) != Ready then Configuration
         else if b.Of(Sensor) != Ready then Sensor
         else if b.Of(Calibration) != Ready then Calibration
         else if b.Of(Processing) != Ready then Processing
         else Telemetry;
  }

  lemma StillRunning(s: System, failing: set<Component>, c: Component)
    requires Inv(s, failing) && s.board.Of(c) == Starting && !Lossy(s) && InFlight(s) == []
    ensures s.WorkerOf(c) == Running
  {
    hide BoardInv, ControlInv;
    assert !Mentions(InFlight(s), c);
  }

  // While main waits for an event, one is queued or its worker is still to report, or the timeout
  // thread is about to stop the queue: the wait always ends.
  lemma WaitEnds(s: System, failing: set<Component>) returns (step: Step)
    requires Inv(s, failing) && s.main.AtPop?
    ensures Enabled(s, step)
  {
    if Enabled(s, MainRuns) {
      step := MainRuns;
    } else if s.timer == TimerMustStop {
      step := TimerStopsQueue;
    } else {
      var c := SomethingStarting(s.board, failing);
      StillRunning(s, failing, c);
      WorkerNeverBlocks(s, c, failing);
      step := WorkerReports(c);
    }
  }

  lemma AlwaysGoesOn(s: System, failing: set<Component>) returns (step: Step)
    requires Inv(s, failing) && !s.main.Done?
    ensures Enabled(s, step)
  {
    if s.main.AtPop? {
      step := WaitEnds(s, failing);
    } else if s.main.LeftLoop? && s.timer == TimerMustStop {
      step := TimerStopsQueue;
    } else {
      step := MainRuns;
    }
  }

  // ---- every run is short ----

  function Weight(w: Worker): nat {
    if w == Sent then 0 else 5
  }

  function WorkersWeight(workers: seq<Worker>): nat {
    if workers == [] then 0 else Weight(workers[0]) + WorkersWeight(workers[1..])
  }

  lemma {:induction false} WorkerSent(workers: seq<Worker>, k: nat)
    requires k < |workers|
    ensures WorkersWeight(workers[k := Sent]) == WorkersWeight(workers) - Weight(workers[k])
  {
    if k == 0 {
      assert workers[k := Sent][1..] == workers[1..];
    } else {
      assert workers[k := Sent][1..] == workers[1..][k - 1 := Sent];
      WorkerSent(workers[1..], k - 1);
    }
  }

  lemma {:induction false} SameWeight(v: seq<Worker>, w: seq<Worker>)
    requires |v| == |w| && forall k :: 0 <= k < |v| ==> Weight(w[k]) == Weight(v[k])
    ensures WorkersWeight(w) == WorkersWeight(v)
  {
    if v != [] {
      SameWeight(v[1..], w[1..]);
    }
  }

  function MainWeight(main: Main): nat {
    match main
    case Done(_) => 0
    case AtVerdict => 1
    case LeftLoop => 2
    case Holding(None) => 3
    case AtPop => 4
    case AtTest => 5
    case Holding(Some(_)) => 6
  }

  function TimerWeight(timer: Timer): nat {
    match timer case TimerGone => 0 case TimerMustStop => 1 case TimerWaits => 2
  }

  // Reports not yet made weigh five, events not yet taken four.
  function Potential(s: System): nat {
    WorkersWeight(s.workers) + 4 * |s.queue.items| + MainWeight(s.main) + TimerWeight(s.timer)
  }

  lemma LaunchedWeightAt(workers: seq<Worker>, b: Board, e: StartupEvent, failing: set<Component>, k: nat)
    requires BoardInv(b, failing) && b.Of(e.component) == Starting && |workers| == COMPONENT_COUNT
    requires forall c :: workers[Index(c)] == NotStarted <==> Launchable(b.Of(c))
    requires k < COMPONENT_COUNT
    ensures Weight(Launched(workers, b, b.Handle(e))[k]) == Weight(workers[k])
  {
    hide Board.Handle, BoardInv;
    HandleEffect(b, e, failing, COMPONENTS[k]);
  }

  lemma LaunchedWeight(workers: seq<Worker>, b: Board, e: StartupEvent, failing: set<Component>)
    requires BoardInv(b, failing) && b.Of(e.component) == Starting && |workers| == COMPONENT_COUNT
    requires forall c :: workers[Index(c)] == NotStarted <==> Launchable(b.Of(c))
    ensures WorkersWeight(Launched(workers, b, b.Handle(e))) == WorkersWeight(workers)
  {
    hide Weight, WorkersWeight;
    var w := Launched(workers, b, b.Handle(e));
    forall k | 0 <= k < COMPONENT_COUNT ensures Weight(w[k]) == Weight(workers[k]) {
      LaunchedWeightAt(workers, b, e, failing, k);
    }
    SameWeight(workers, w);
  }

  lemma ReportSpends(s: System, c: Component, failing: set<Component>)
    requires s.Shaped() && Enabled(s, WorkerReports(c))
    ensures Potential(After(s, WorkerReports(c), failing)) < Potential(s)
  {
    hide WorkersWeight;
    WorkerSent(s.workers, Index(c));
  }

  lemma HandlingSpends(s: System, failing: set<Component>)
    requires Inv(s, failing) && s.main.Holding? && s.main.popped.Some? && !s.timedOut
    ensures Potential(AfterMain(s)) < Potential(s)
  {
    HeldIsFine(s, failing);
    LaunchedWeight(s.workers, s.board, s.main.popped.value, failing);
    hide WorkersWeight, ControlInv, BoardInv, FlightInv, Board.Handle, Launched;
  }

  lemma StepSpends(s: System, step: Step, failing: set<Component>)
    requires Inv(s, failing) && Enabled(s, step)
    ensures Potential(After(s, step, failing)) < Potential(s)
  {
    hide WorkersWeight, BoardInv, FlightInv, ControlInv, Board.Handle, Launched, Board.Unfinished;
    if step.WorkerReports? {
      ReportSpends(s, step.component, failing);
    } else if step.MainRuns? && s.main.Holding? && s.main.popped.Some? && !s.timedOut {
      HandlingSpends(s, failing);
    }
  }

  lemma {:induction false} RunSpends(s: System, run: seq<Step>, failing: set<Component>)
    requires Inv(s, failing) && IsRun(s, run, failing)
    ensures |run| <= Potential(s)
    decreases |run|
  {
    hide BoardInv, FlightInv, ControlInv, Enabled, After, Potential;
    if run != [] {
      StepSpends(s, run[0], failing);
      StepKeepsInv(s, run[0], failing);
      RunSpends(After(s, run[0], failing), run[1..], failing);
    }
  }

  ghost predicate Stuck(s: System)
    requires s.Shaped()
  {
    forall step :: !Enabled(s, step)
  }

  // Startup always ends: no run is longer than 32 steps, and one that cannot go on has a verdict.
  lemma StartupEnds(run: seq<Step>, failing: set<Component>)
    requires IsRun(START, run, failing)
    ensures |run| <= 32
    ensures Stuck(Final(START, run, failing)) ==> Final(START, run, failing).main.Done?
  {
    StartInv(failing);
    StartPotential();
    hide Enabled, After, IsRun, Final;
    RunSpends(START, run, failing);
    RunKeepsInv(START, run, failing);
    hide Inv;
    var f := Final(START, run, failing);
    if Stuck(f) && !f.main.Done? {
      var step := AlwaysGoesOn(f, failing);
    }
  }

  lemma StartPotential()
    ensures Potential(START) == 32
  {
    var w := START.workers;
    assert w[1..][1..][1..][1..][1..] == [];
    assert WorkersWeight(w[1..][1..][1..][1..]) == 5;
    assert WorkersWeight(w[1..][1..]) == 15;
    assert WorkersWeight(w) == 25;
  }

  // ---- the verdict ----

  ghost predicate FailedInChain(b: Board, c: Component)
    requires b.Shaped()
  {
    Required(c) && b.Of(c) == Failed && (Prerequisite(c).Some? ==> b.Of(Prerequisite(c).value) == Ready)
  }

  lemma ReadyMeans(b: Board, failing: set<Component>)
    requires BoardInv(b, failing) && !b.applicationFailed && !b.Unfinished()
    ensures forall c :: c != Telemetry ==> b.Of(c) == Ready
    ensures b.Of(Telemetry) == Ready || b.Of(Telemetry) == Failed
  {
    hide InOrder;
    assert b.Of(Telemetry) != Blocked;
  }

  // READY is reached only with all required components ready and telemetry settled; FAILED only
  // through a required component that was to fail, its prerequisite being ready; and the
  // verdict is TIMED OUT exactly when the time was up first.
  lemma VerdictIsRight(run: seq<Step>, failing: set<Component>)
    requires IsRun(START, run, failing) && Final(START, run, failing).main.Done?
    ensures var s := Final(START, run, failing);
            && (s.main.verdict == TimedOut <==> s.timedOut)
            && (s.main.verdict.ApplicationReady? ==>
                  && (forall c :: c != Telemetry ==> s.board.Of(c) == Ready)
                  && (s.board.Of(Telemetry) == Ready || s.board.Of(Telemetry) == Failed)
                  && (s.main.verdict.degraded <==> s.board.Of(Telemetry) == Failed))
            && (s.main.verdict == ApplicationFailed ==>
                  exists c :: FailedInChain(s.board, c) && c in failing)
  {
    hide Enabled, After, IsRun, Final;
    StartInv(failing);
    RunKeepsInv(START, run, failing);
    hide FlightInv;
    var b := Final(START, run, failing).board;
    if !b.applicationFailed && !b.Unfinished() {
      ReadyMeans(b, failing);
    }
    hide Board.Unfinished;
    if b.applicationFailed {
      var c :| Required(c) && b.Of(c) == Failed;
      assert InOrder(b, c);
      assert FailedInChain(b, c);
    }
  }

  lemma FrozenStep(s: System, step: Step, failing: set<Component>)
    requires s.Shaped() && s.timedOut && Enabled(s, step)
    ensures After(s, step, failing).board == s.board && After(s, step, failing).timedOut
  {
  }

  // Once the time is up no event is handled and no component started any more, whatever still comes in.
  lemma {:induction false} NothingAfterTimeout(s: System, run: seq<Step>, failing: set<Component>)
    requires s.Shaped() && s.timedOut && IsRun(s, run, failing)
    ensures Final(s, run, failing).board == s.board && Final(s, run, failing).timedOut
    decreases |run|
  {
    hide Enabled, After;
    if run != [] {
      FrozenStep(s, run[0], failing);
      NothingAfterTimeout(After(s, run[0], failing), run[1..], failing);
    }
  }

  // If time does not run out, the outcome depends on nothing but the failures: whatever the order of
  // the reports, the application is ready exactly if no required component fails, degraded exactly
  // if telemetry does.
  lemma OutcomeWithoutTimeout(run: seq<Step>, failing: set<Component>)
    requires IsRun(START, run, failing)
    requires Stuck(Final(START, run, failing)) && !Final(START, run, failing).timedOut
    ensures Final(START, run, failing).main
         == Done(if exists c :: Required(c) && c in failing then ApplicationFailed
                 else ApplicationReady(Telemetry in failing))
  {
    hide Enabled, After, IsRun, Final, Stuck;
    StartupEnds(run, failing);
    VerdictIsRight(run, failing);
    StartInv(failing);
    RunKeepsInv(START, run, failing);
    hide FlightInv, ControlInv;
    var s := Final(START, run, failing);
    if s.main.verdict.ApplicationReady? {
      assert forall c :: Required(c) ==> s.board.Of(c) == Ready;
      assert s.board.Of(Telemetry) == Ready || s.board.Of(Telemetry) == Failed;
    }
  }

  // ---- a timeout that strikes when all is done ----

  lemma {:induction false} RunJoins(s: System, a: seq<Step>, b: seq<Step>, failing: set<Component>)
    requires s.Shaped() && IsRun(s, a, failing) && IsRun(Final(s, a, failing), b, failing)
    ensures IsRun(s, a + b, failing) && Final(s, a + b, failing) == Final(Final(s, a, failing), b, failing)
    decreases |a|
  {
    hide Enabled, After;
    if a == [] {
      assert a + b == b;
    } else {
      RunJoins(After(s, a[0], failing), a[1..], b, failing);
      assert (a + b)[1..] == a[1..] + b;
    }
  }

  // A component reports, and main takes the report through one turn of its loop.
  function ReportTaken(c: Component): seq<Step> {
    [WorkerReports(c), MainRuns, MainRuns, MainRuns]
  }

  lemma {:induction false} RunOfOne(s: System, step: Step, rest: seq<Step>, failing: set<Component>)
    requires s.Shaped() && Enabled(s, step) && IsRun(After(s, step, failing), rest, failing)
    ensures IsRun(s, [step] + rest, failing)
    ensures Final(s, [step] + rest, failing) == Final(After(s, step, failing), rest, failing)
  {
    hide Enabled, After;
    assert ([step] + rest)[1..] == rest;
  }

  // Between two turns nothing is queued and the time is not up.
  function Between(board: Board, workers: seq<Worker>): System {
    System(board, workers, Queue([], false), AtTest, TimerWaits, false)
  }

  lemma TurnTaken(board: Board, workers: seq<Worker>, c: Component, next: Board)
    requires board.Shaped() && |workers| == COMPONENT_COUNT && board.Unfinished() && workers[Index(c)] == Running
    requires next == board.Handle(StartupEvent(c, true)) && !next.applicationFailed
    ensures var s := Between(board, workers);
            && IsRun(s, ReportTaken(c), {})
            && Final(s, ReportTaken(c), {}) == Between(next, Launched(workers[Index(c) := Sent], board, next))
  {
    hide Board.Handle, Board.Unfinished, Launched;
    var e := StartupEvent(c, true);
    var s := Between(board, workers);
    var sent := workers[Index(c) := Sent];
    var s1 := s.(workers := sent, queue := Queue([e], false));
    var s2 := s1.(main := AtPop);
    var s3 := s2.(queue := Queue([], false), main := Holding(Some(e)));
    var s4 := Between(next, Launched(sent, board, next));
    assert Enabled(s, WorkerReports(c)) && After(s, WorkerReports(c), {}) == s1 by { assert [] + [e] == [e]; }
    assert After(s1, MainRuns, {}) == s2;
    assert Enabled(s2, MainRuns) && After(s2, MainRuns, {}) == s3 by { assert [e][1..] == []; }
    assert After(s3, MainRuns, {}) == s4;
    assert Enabled(s1, MainRuns) && Enabled(s3, MainRuns);
    hide Enabled, After;
    assert IsRun(s4, [], {}) && Final(s4, [], {}) == s4;
    hide IsRun, Final;
    RunOfOne(s3, MainRuns, [], {});
    RunOfOne(s2, MainRuns, [MainRuns], {});
    RunOfOne(s1, MainRuns, [MainRuns, MainRuns], {});
    RunOfOne(s, WorkerReports(c), [MainRuns, MainRuns, MainRuns], {});
    assert [MainRuns] + [] == [MainRuns] && [MainRuns] + [MainRuns] == [MainRuns, MainRuns];
    assert [MainRuns] + [MainRuns, MainRuns] == [MainRuns, MainRuns, MainRuns];
    assert [WorkerReports(c)] + [MainRuns, MainRuns, MainRuns] == ReportTaken(c);
  }

  // The order in which the components report in that run, and where it stands after k reports.
  const REPORTS := [Configuration, Sensor, Telemetry, Calibration, Processing]

  function BoardAfter(k: nat): Board
    requires k <= COMPONENT_COUNT
  {
    match k
    case 0 => START_BOARD
    case 1 => Board([Ready, Starting, Waiting, Waiting, Starting], false, false, [Configuration, Sensor, Telemetry])
    case 2 => Board([Ready, Ready, Starting, Waiting, Starting], false, false, REPORTS[..4])
    case 3 => Board([Ready, Ready, Starting, Waiting, Ready], false, false, REPORTS[..4])
    case 4 => Board([Ready, Ready, Ready, Starting, Ready], false, false, REPORTS)
    case _ => Board([Ready, Ready, Ready, Ready, Ready], false, false, REPORTS)
  }

  function WorkersAfter(k: nat): seq<Worker>
    requires k <= COMPONENT_COUNT
  {
    match k
    case 0 => START.workers
    case 1 => [Sent, Running, NotStarted, NotStarted, Running]
    case 2 => [Sent, Sent, Running, NotStarted, Running]
    case 3 => [Sent, Sent, Running, NotStarted, Sent]
    case 4 => [Sent, Sent, Sent, Running, Sent]
    case _ => [Sent, Sent, Sent, Sent, Sent]
  }

  lemma BoardsFollow(k: nat)
    requires k < COMPONENT_COUNT
    ensures var b := BoardAfter(k);
            b.Shaped() && b.Unfinished() && !BoardAfter(k + 1).applicationFailed
  {
  }

  lemma HandleFollows(k: nat)
    requires k < COMPONENT_COUNT && BoardAfter(k).Shaped()
    ensures BoardAfter(k).Handle(StartupEvent(REPORTS[k], true)) == BoardAfter(k + 1)
  {
    hide Board.Unfinished;
    var b, c := BoardAfter(k), REPORTS[k];
    if k == 0 {
      StartTwo(b.With(c, Ready), Sensor, Telemetry);
    } else if k == 1 {
      StartOne(b.With(c, Ready), Calibration);
    } else if k == 3 {
      StartOne(b.With(c, Ready), Processing);
    }
  }

  lemma WorkersFollow(k: nat)
    requires k < COMPONENT_COUNT
    ensures WorkersAfter(k)[Index(REPORTS[k])] == Running
    ensures Launched(WorkersAfter(k)[Index(REPORTS[k]) := Sent], BoardAfter(k), BoardAfter(k + 1))
         == WorkersAfter(k + 1)
  {
  }

  lemma NothingTaken()
    ensures IsRun(START, [], {}) && Final(START, [], {}) == Between(BoardAfter(0), WorkersAfter(0))
  {
  }

  lemma {:induction false} ReportsTaken(k: nat) returns (run: seq<Step>)
    requires k <= COMPONENT_COUNT
    ensures IsRun(START, run, {}) && Final(START, run, {}) == Between(BoardAfter(k), WorkersAfter(k))
  {
    hide Enabled, After, IsRun, Final, Board.Handle, Board.Unfinished, Launched, BoardAfter, WorkersAfter;
    if k == 0 {
      NothingTaken();
      run := [];
    } else {
      var before := ReportsTaken(k - 1);
      BoardsFollow(k - 1);
      HandleFollows(k - 1);
      WorkersFollow(k - 1);
      TurnTaken(BoardAfter(k - 1), WorkersAfter(k - 1), REPORTS[k - 1], BoardAfter(k));
      RunJoins(START, before, ReportTaken(REPORTS[k - 1]), {});
      run := before + ReportTaken(REPORTS[k - 1]);
    }
  }

  // The loop is left, the time runs out, main goes on.
  const LATE_TIMEOUT := [MainRuns, TimerFires, TimerStopsQueue, MainRuns, MainRuns]

  lemma TimesOutLate(board: Board, workers: seq<Worker>)
    requires board.Shaped() && |workers| == COMPONENT_COUNT && !board.Unfinished()
    ensures var s := Between(board, workers);
            && IsRun(s, LATE_TIMEOUT, {})
            && Final(s, LATE_TIMEOUT, {}).board == board && Final(s, LATE_TIMEOUT, {}).main == Done(TimedOut)
  {
    hide Board.Unfinished;
    var s := Between(board, workers);
    var s1 := s.(main := LeftLoop);
    var s2 := s1.(timedOut := true, timer := TimerMustStop);
    var s3 := s2.(queue := Queue([], true), timer := TimerGone);
    var s4 := s3.(main := AtVerdict);
    var s5 := s4.(main := Done(TimedOut));
    assert Enabled(s, MainRuns) && After(s, MainRuns, {}) == s1;
    assert Enabled(s1, TimerFires) && After(s1, TimerFires, {}) == s2;
    assert Enabled(s2, TimerStopsQueue) && After(s2, TimerStopsQueue, {}) == s3;
    assert Enabled(s3, MainRuns) && After(s3, MainRuns, {}) == s4;
    assert Enabled(s4, MainRuns) && After(s4, MainRuns, {}) == s5;
    hide Enabled, After;
    assert IsRun(s5, [], {}) && Final(s5, [], {}) == s5;
    hide IsRun, Final;
    RunOfOne(s4, MainRuns, [], {});
    RunOfOne(s3, MainRuns, [MainRuns], {});
    RunOfOne(s2, TimerStopsQueue, [MainRuns, MainRuns], {});
    RunOfOne(s1, TimerFires, [TimerStopsQueue, MainRuns, MainRuns], {});
    RunOfOne(s, MainRuns, LATE_TIMEOUT[1..], {});
    assert [MainRuns] + [] == [MainRuns] && [MainRuns] + [MainRuns] == [MainRuns, MainRuns];
    assert [TimerStopsQueue] + [MainRuns, MainRuns] == [TimerStopsQueue, MainRuns, MainRuns];
    assert [TimerFires] + [TimerStopsQueue, MainRuns, MainRuns] == LATE_TIMEOUT[1..];
    assert [MainRuns] + LATE_TIMEOUT[1..] == LATE_TIMEOUT;
  }

  lemma AllReadyAtLast()
    ensures var b := BoardAfter(COMPONENT_COUNT);
            b.Shaped() && !b.Unfinished() && (forall c :: b.Of(c) == Ready)
  {
  }

  // All components become ready, main sees it and leaves its loop, and only then the time is up: the
  // verdict is TIMED OUT all the same.
  lemma ReadyButTimedOut() returns (run: seq<Step>)
    ensures IsRun(START, run, {})
    ensures var s := Final(START, run, {});
            && s.main == Done(TimedOut)
            && (forall c :: s.board.Of(c) == Ready) && s.board.AllRequiredReady() && s.board.TelemetryFinished()
  {
    hide Enabled, After, IsRun, Final, BoardAfter, WorkersAfter, Board.Unfinished;
    var before := ReportsTaken(COMPONENT_COUNT);
    AllReadyAtLast();
    TimesOutLate(BoardAfter(COMPONENT_COUNT), WorkersAfter(COMPONENT_COUNT));
    RunJoins(START, before, LATE_TIMEOUT, {});
    run := before + LATE_TIMEOUT;
  }
}
