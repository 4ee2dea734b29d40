// What the startup sequencer guarantees, whatever the order of reports, the failures and the moment
// of the timeout.

module StartupTheorems {
  import opened Bytes
  import opened Startup

  // ---- the board ----

  predicate Launchable(st: Status) {
    st == Waiting || st == Blocked
  }

  ghost predicate InOrder(b: Board, c: Component)
    requires b.Shaped()
  {
    !Launchable(b.Of(c)) <==> Prerequisite(c).None? || b.Of(Prerequisite(c).value) == Ready
  }

  // A component has been started exactly when its prerequisite is ready; what failed was to fail and
  // what is ready was not; nothing waits after a required failure, and nothing is blocked without one.
  ghost predicate BoardInv(b: Board, failing: set<Component>) {
    && b.Shaped()
    && (forall c :: InOrder(b, c))
    && (forall c :: b.Of(c) == Ready ==> c !in failing)
    && (forall c :: b.Of(c) == Failed ==> c in failing)
    && (b.applicationFailed <==> exists c :: Required(c) && b.Of(c) == Failed)
    && (forall c :: b.Of(c) == Waiting ==> !b.applicationFailed)
    && (forall c :: b.Of(c) == Blocked ==> b.applicationFailed)
    && (b.degraded <==> b.Of(Telemetry) == Failed)
    && (forall c :: c in b.starts <==> !Launchable(b.Of(c)))
    && (forall j, k :: 0 <= j < k < |b.starts| ==> b.starts[j] != b.starts[k])
  }

  lemma StartBoardInv(failing: set<Component>)
    ensures BoardInv(START_BOARD, failing)
  {
    forall c ensures START_BOARD.Of(c) == (if c == Configuration then Starting else Waiting) {
      assert START_BOARD.Of(c) == if c == Configuration then Starting else Waiting;
    }
  }

  lemma {:induction false} StartAllEffect(b: Board, cs: seq<Component>)
    requires b.Shaped()
    ensures var t := b.StartAll(cs);
            && (forall d :: t.Of(d) == if d in cs then Starting else b.Of(d))
            && t.starts == b.starts + cs && t.applicationFailed == b.applicationFailed && t.degraded == b.degraded
    decreases |cs|
  {
    hide Board.Of;
    if cs != [] {
      StartAllEffect(b.Start(cs[0]), cs[1..]);
      assert b.starts + [cs[0]] + cs[1..] == b.starts + cs;
      assert forall d :: d in cs <==> d == cs[0] || d in cs[1..];
    }
  }

  lemma DependentsMatch(c: Component, d: Component)
    ensures d in Dependents(c) <==> Prerequisite(d) == Some(c)
  {
  }

  lemma ReadyEffect(b: Board, c: Component)
    requires b.Shaped()
    ensures var t := b.Handle(StartupEvent(c, true));
            && (forall d :: t.Of(d) == if Prerequisite(d) == Some(c) then Starting
                                       else if d == c then Ready else b.Of(d))
            && t.starts == b.starts + Dependents(c)
            && t.applicationFailed == b.applicationFailed && t.degraded == b.degraded
  {
    hide Board.Of, Board.With;
    StartAllEffect(b.With(c, Ready), Dependents(c));
    forall d ensures d in Dependents(c) <==> Prerequisite(d) == Some(c) {
      DependentsMatch(c, d);
    }
    WithKeeps(b, c, Ready);
  }

  lemma WithKeeps(b: Board, c: Component, now: Status)
    requires b.Shaped()
    ensures var t := b.With(c, now);
            t.starts == b.starts && t.applicationFailed == b.applicationFailed && t.degraded == b.degraded
  {
  }

  lemma StartsStayDistinct(b: Board, c: Component, failing: set<Component>)
    requires BoardInv(b, failing) && b.Of(c) == Starting
    ensures var starts := b.starts + Dependents(c);
            && (forall j, k :: 0 <= j < k < |starts| ==> starts[j] != starts[k])
            && (forall d :: d in starts <==> d in b.starts || Prerequisite(d) == Some(c))
  {
    forall d | d in Dependents(c) ensures d !in b.starts {
      DependentsMatch(c, d);
      PrerequisiteFirst(b, c, d);
    }
    forall d ensures d in Dependents(c) <==> Prerequisite(d) == Some(c) {
      DependentsMatch(c, d);
    }
    hide BoardInv, Prerequisite;
    assert forall j :: 0 <= j < |b.starts| ==> b.starts[j] in b.starts;
  }

  lemma PrerequisiteFirst(b: Board, c: Component, d: Component)
    requires b.Shaped() && InOrder(b, d) && Prerequisite(d) == Some(c) && b.Of(c) != Ready
    ensures Launchable(b.Of(d))
  {
  }

  lemma ReadyKeepsOrder(b: Board, c: Component, d: Component)
    requires b.Shaped() && b.Of(c) == Starting && InOrder(b, d)
    requires Prerequisite(d).Some? ==> InOrder(b, Prerequisite(d).value)
    ensures InOrder(b.Handle(StartupEvent(c, true)), d)
  {
    ReadyEffect(b, c);
    hide Board.Handle, Board.Of, Dependents;
  }

  lemma ReadyKeepsInv(b: Board, c: Component, failing: set<Component>)
    requires BoardInv(b, failing) && b.Of(c) == Starting && !b.applicationFailed && c !in failing
    ensures BoardInv(b.Handle(StartupEvent(c, true)), failing)
  {
    hide Board.Handle, Board.Of, Dependents, Prerequisite, InOrder;
    ReadyEffect(b, c);
    StartsStayDistinct(b, c, failing);
    forall d ensures InOrder(b.Handle(StartupEvent(c, true)), d) {
      ReadyKeepsOrder(b, c, d);
    }
    forall d | Prerequisite(d) == Some(c) ensures Launchable(b.Of(d)) {
      PrerequisiteFirst(b, c, d);
    }
  }

  lemma FailedEffect(b: Board, c: Component)
    requires b.Shaped()
    ensures var t := b.Handle(StartupEvent(c, false));
            && t.Of(c) == Failed
            && (forall d :: d != c ==> t.Of(d) == if Required(c) && b.Of(d) == Waiting then Blocked else b.Of(d))
            && t.starts == b.starts && t.applicationFailed == (b.applicationFailed || Required(c))
            && t.degraded == (b.degraded || c == Telemetry)
  {
    WithKeeps(b, c, Failed);
    hide Board.Of;
  }

  lemma FailedKeepsInv(b: Board, c: Component, failing: set<Component>)
    requires BoardInv(b, failing) && b.Of(c) == Starting && !b.applicationFailed && c in failing
    ensures BoardInv(b.Handle(StartupEvent(c, false)), failing)
  {
    FailedEffect(b, c);
    hide Board.Handle, Board.Of, Dependents;
    var t := b.Handle(StartupEvent(c, false));
    assert Required(c) ==> Required(c) && t.Of(c) == Failed;
    assert forall d :: Launchable(t.Of(d)) <==> Launchable(b.Of(d));
    assert forall d :: t.Of(d) == Ready <==> b.Of(d) == Ready;
    assert forall d :: InOrder(b, d) ==> InOrder(t, d);
  }

  lemma HandleKeepsInv(b: Board, e: StartupEvent, failing: set<Component>)
    requires BoardInv(b, failing) && b.Of(e.component) == Starting && !b.applicationFailed
    requires e.ready <==> e.component !in failing
    ensures BoardInv(b.Handle(e), failing)
  {
    hide BoardInv;
    if e.ready {
      ReadyKeepsInv(b, e.component, failing);
    } else {
      FailedKeepsInv(b, e.component, failing);
    }
  }

  // Which component's being ready starts which others.
  predicate StartsBehind(c: Component, d: Component) {
    || (c.Configuration? && (d.Sensor? || d.Telemetry?))
    || (c.Sensor? && d.Calibration?)
    || (c.Calibration? && d.Processing?)
  }

  // Every event at every board. Ready: the components behind it start. Telemetry failed: a degraded
  // system, and nothing else. Any other failed: the application has failed and what waits is blocked.
  lemma HandleExactly(b: Board, e: StartupEvent, d: Component)
    requires b.Shaped()
    ensures var (t, c) := (b.Handle(e), e.component);
            if e.ready then
              && t.Of(d) == (if StartsBehind(c, d) then Starting else if d == c then Ready else b.Of(d))
              && t.starts == b.starts + (if c.Configuration? then [Sensor, Telemetry]
                                         else if c.Sensor? then [Calibration]
                                         else if c.Calibration? then [Processing] else [])
              && t.applicationFailed == b.applicationFailed && t.degraded == b.degraded
            else
              && t.Of(d) == (if d == c then Failed
                             else if !c.Telemetry? && b.Of(d) == Waiting then Blocked else b.Of(d))
              && t.starts == b.starts
              && t.applicationFailed == (b.applicationFailed || !c.Telemetry?)
              && t.degraded == (b.degraded || c.Telemetry?)
  {
    hide Board.Handle, Board.Of;
    assert e == StartupEvent(e.component, e.ready);
    if e.ready {
      ReadyEffect(b, e.component);
      assert Prerequisite(d) == Some(e.component) <==> StartsBehind(e.component, d);
    } else {
      FailedEffect(b, e.component);
    }
  }

  // The loop ends when the application has failed, or the four required components are ready and
  // telemetry is ready, failed or blocked.
  lemma UnfinishedExactly(b: Board)
    requires b.Shaped()
    ensures b.Unfinished()
       <==> && !b.applicationFailed
            && !(&& b.Of(Configuration).Ready? && b.Of(Sensor).Ready? && b.Of(Calibration).Ready?
                 && b.Of(Processing).Ready?
                 && !b.Of(Telemetry).Waiting? && !b.Of(Telemetry).Starting?)
  {
  }

  // ---- events in flight ----

  ghost predicate Fine(b: Board, workers: seq<Worker>, e: StartupEvent, failing: set<Component>)
    requires b.Shaped() && |workers| == COMPONENT_COUNT
  {
    workers[Index(e.component)] == Sent && b.Of(e.component) == Starting && (e.ready <==> e.component !in failing)
  }

  function Held(main: Main): seq<StartupEvent> {
    if main.Holding? && main.popped.Some? then [main.popped.value] else []
  }

  // What main holds and what the queue holds, in this order.
  function InFlight(s: System): seq<StartupEvent> {
    Held(s.main) + s.queue.items
  }

  ghost predicate Distinct(events: seq<StartupEvent>) {
    forall j, k :: 0 <= j < k < |events| ==> events[j].component != events[k].component
  }

  ghost predicate Mentions(events: seq<StartupEvent>, c: Component) {
    exists k :: 0 <= k < |events| && events[k].component == c
  }

  // Every event in flight comes from a started component and tells the truth; there is at most one
  // each, and one is lost only when the queue is stopped or the time is up.
  ghost predicate FlightInv(b: Board, workers: seq<Worker>, events: seq<StartupEvent>, lossy: bool,
                            failing: set<Component>) {
    && b.Shaped() && |workers| == COMPONENT_COUNT
    && (forall c :: workers[Index(c)] == NotStarted <==> Launchable(b.Of(c)))
    && (forall c :: workers[Index(c)] == Running ==> b.Of(c) == Starting)
    && (forall k :: 0 <= k < |events| ==> Fine(b, workers, events[k], failing))
    && Distinct(events)
    && (lossy || forall c :: b.Of(c) == Starting && workers[Index(c)] == Sent ==> Mentions(events, c))
  }

  ghost predicate ControlInv(s: System)
    requires s.Shaped()
  {
    && (s.timer == TimerWaits ==> !s.timedOut)
    && (s.timer == TimerMustStop ==> s.timedOut && !s.StartupFinished())
    && (s.timer == TimerGone ==> if s.timedOut then s.queue.stopped else s.StartupFinished())
    && (s.queue.stopped ==> s.timedOut || s.board.applicationFailed || s.StartupFinished())
    && (s.board.applicationFailed || s.StartupFinished() ==> s.queue.stopped)
    && (s.main.AtPop? || s.main.Holding? ==> s.board.Unfinished())
    && (s.main == Holding(None) ==> s.queue.stopped)
    && (s.main.LeftLoop? || s.main.AtVerdict? || s.main.Done? ==> s.timedOut || !s.board.Unfinished())
    && (s.main.Done? ==>
          s.main.verdict == if s.timedOut then TimedOut
                            else if s.board.applicationFailed then ApplicationFailed
                            else ApplicationReady(s.board.degraded))
  }

  predicate Lossy(s: System) {
    s.queue.stopped || s.timedOut
  }

  ghost predicate Inv(s: System, failing: set<Component>) {
    && s.Shaped()
    && BoardInv(s.board, failing)
    && FlightInv(s.board, s.workers, InFlight(s), Lossy(s), failing)
    && ControlInv(s)
  }

  lemma StartInv(failing: set<Component>)
    ensures Inv(START, failing)
  {
    StartBoardInv(failing);
    forall c ensures START_BOARD.Of(c) == (if c == Configuration then Starting else Waiting) {
    }
  }

  // ---- the queue never fills ----

  function Reporting(events: seq<StartupEvent>): set<Component> {
    set k | 0 <= k < |events| :: events[k].component
  }

  lemma {:induction false} DistinctCount(events: seq<StartupEvent>)
    requires Distinct(events)
    ensures |Reporting(events)| == |events|
  {
    if events != [] {
      var rest := events[..|events| - 1];
      var last := events[|events| - 1].component;
      DistinctCount(rest);
      assert Reporting(events) == Reporting(rest) + {last};
      assert last !in Reporting(rest);
    }
  }

  lemma {:induction false} SubsetSize<T>(a: set<T>, b: set<T>)
    requires a <= b
    ensures |a| <= |b|
  {
    if a != {} {
      var x :| x in a;
      SubsetSize(a - {x}, b - {x});
    }
  }

  lemma FewEvents(events: seq<StartupEvent>, c: Component)
    requires Distinct(events)
    ensures |events| <= COMPONENT_COUNT
    ensures !Mentions(events, c) ==> |events| < COMPONENT_COUNT
  {
    var all := {Configuration, Sensor, Calibration, Processing, Telemetry};
    DistinctCount(events);
    forall d: Component ensures d in all {
      assert d.Configuration? || d.Sensor? || d.Calibration? || d.Processing? || d.Telemetry?;
    }
    if !Mentions(events, c) {
      assert c !in Reporting(events);
      SubsetSize(Reporting(events), all - {c});
    } else {
      SubsetSize(Reporting(events), all);
    }
  }

  lemma RunningNotInFlight(b: Board, workers: seq<Worker>, events: seq<StartupEvent>, lossy: bool,
                           failing: set<Component>, c: Component)
    requires FlightInv(b, workers, events, lossy, failing) && workers[Index(c)] == Running
    ensures !Mentions(events, c) && b.Of(c) == Starting && |events| < COMPONENT_COUNT
  {
    forall k | 0 <= k < |events| ensures events[k].component != c {
      assert Fine(b, workers, events[k], failing);
    }
    FewEvents(events, c);
  }

  // No worker ever blocks on the queue.
  lemma WorkerNeverBlocks(s: System, c: Component, failing: set<Component>)
    requires Inv(s, failing) && s.WorkerOf(c) == Running
    ensures Enabled(s, WorkerReports(c)) && |s.queue.items| < COMPONENT_COUNT
  {
    RunningNotInFlight(s.board, s.workers, InFlight(s), Lossy(s), failing, c);
  }

  // ---- steps keep the invariant ----

  lemma FineAfterReport(b: Board, workers: seq<Worker>, e: StartupEvent, failing: set<Component>, c: Component)
    requires b.Shaped() && |workers| == COMPONENT_COUNT && Fine(b, workers, e, failing)
    ensures Fine(b, workers[Index(c) := Sent], e, failing)
  {
    hide Board.Of;
  }

  // The report joins the events in flight or, where the queue is stopped, is dropped.
  lemma ReportKeepsFlight(b: Board, workers: seq<Worker>, events: seq<StartupEvent>, lossy: bool,
                          failing: set<Component>, c: Component, after: seq<StartupEvent>)
    requires FlightInv(b, workers, events, lossy, failing) && workers[Index(c)] == Running
    requires after == events + [StartupEvent(c, c !in failing)] || (lossy && after == events)
    ensures FlightInv(b, workers[Index(c) := Sent], after, lossy, failing)
  {
    RunningNotInFlight(b, workers, events, lossy, failing, c);
    hide Board.Of;
    var w := workers[Index(c) := Sent];
    assert forall d :: d != c ==> Index(d) != Index(c);
    assert Fine(b, w, StartupEvent(c, c !in failing), failing);
    forall k | 0 <= k < |events| ensures Fine(b, w, events[k], failing) {
      FineAfterReport(b, workers, events[k], failing, c);
    }
    hide Fine, Index;
    if after != events {
      MentionsGrow(events, c, after[|events|]);
    }
  }

  lemma MentionsGrow(events: seq<StartupEvent>, c: Component, e: StartupEvent)
    requires e.component == c
    ensures forall d :: Mentions(events + [e], d) <==> Mentions(events, d) || d == c
    ensures Distinct(events) && !Mentions(events, c) ==> Distinct(events + [e])
  {
    forall d | Mentions(events, d) || d == c ensures Mentions(events + [e], d) {
      if d == c {
        assert (events + [e])[|events|].component == c;
      } else {
        var k :| 0 <= k < |events| && events[k].component == d;
        assert (events + [e])[k].component == d;
      }
    }
  }

  lemma WorkerStepKeeps(s: System, c: Component, failing: set<Component>)
    requires Inv(s, failing) && Enabled(s, WorkerReports(c))
    ensures Inv(After(s, WorkerReports(c), failing), failing)
  {
    hide BoardInv, FlightInv;
    var t := After(s, WorkerReports(c), failing);
    RunningNotInFlight(s.board, s.workers, InFlight(s), Lossy(s), failing, c);
    assert InFlight(t) == if s.queue.stopped then InFlight(s) else InFlight(s) + [StartupEvent(c, c !in failing)];
    if Lossy(s) && !s.queue.stopped {
      ReportKeepsFlight(s.board, s.workers, InFlight(s), true, failing, c, InFlight(t));
    } else {
      ReportKeepsFlight(s.board, s.workers, InFlight(s), Lossy(s), failing, c, InFlight(t));
    }
  }

  lemma MoreLossy(b: Board, workers: seq<Worker>, events: seq<StartupEvent>, lossy: bool, failing: set<Component>)
    requires FlightInv(b, workers, events, lossy, failing)
    ensures FlightInv(b, workers, events, true, failing)
  {
  }

  lemma DropFlight(b: Board, workers: seq<Worker>, e: StartupEvent, events: seq<StartupEvent>, failing: set<Component>)
    requires FlightInv(b, workers, [e] + events, true, failing)
    ensures FlightInv(b, workers, events, true, failing)
  {
    forall k | 0 <= k < |events| ensures Fine(b, workers, events[k], failing) {
      assert events[k] == ([e] + events)[k + 1];
    }
    DistinctBehind(e, events);
  }

  // What handling an event about c does to d.
  ghost predicate HandledAt(b: Board, t: Board, c: Component, d: Component)
    requires b.Shaped() && t.Shaped()
  {
    if d == c then t.Of(d) != Starting && !Launchable(t.Of(d))
    else if b.Of(d) == Starting then t.Of(d) == Starting
    else if t.Of(d) == Starting then Launchable(b.Of(d))
    else Launchable(t.Of(d)) <==> Launchable(b.Of(d))
  }

  lemma HandleEffect(b: Board, e: StartupEvent, failing: set<Component>, d: Component)
    requires BoardInv(b, failing) && b.Of(e.component) == Starting
    ensures HandledAt(b, b.Handle(e), e.component, d)
  {
    hide *;
    OrderKept(b, failing, d);
    assert e == StartupEvent(e.component, e.ready);
    if e.ready {
      ReadyHandled(b, e.component, d);
    } else {
      FailedHandled(b, e.component, d);
    }
  }

  lemma ReadyHandled(b: Board, c: Component, d: Component)
    requires b.Shaped() && b.Of(c) == Starting && InOrder(b, d)
    ensures HandledAt(b, b.Handle(StartupEvent(c, true)), c, d)
  {
    hide Board.Handle, Board.Of, Dependents, InOrder;
    ReadyEffect(b, c);
    if Prerequisite(d) == Some(c) {
      PrerequisiteFirst(b, c, d);
    }
  }

  lemma FailedHandled(b: Board, c: Component, d: Component)
    requires b.Shaped() && b.Of(c) == Starting
    ensures HandledAt(b, b.Handle(StartupEvent(c, false)), c, d)
  {
    hide Board.Handle, Board.Of, Dependents;
    FailedEffect(b, c);
  }

  lemma OrderKept(b: Board, failing: set<Component>, c: Component)
    requires BoardInv(b, failing)
    ensures b.Shaped() && InOrder(b, c)
  {
    hide InOrder;
  }

  ghost predicate LaunchedAt(b: Board, t: Board, workers: seq<Worker>, w: seq<Worker>, d: Component)
    requires b.Shaped() && t.Shaped() && |workers| == |w| == COMPONENT_COUNT
  {
    w[Index(d)] == if b.Of(d) != Starting && t.Of(d) == Starting then Running else workers[Index(d)]
  }

  lemma FineStays(b: Board, t: Board, workers: seq<Worker>, w: seq<Worker>, c: Component, e: StartupEvent,
                  failing: set<Component>)
    requires b.Shaped() && t.Shaped() && |workers| == |w| == COMPONENT_COUNT
    requires Fine(b, workers, e, failing) && e.component != c
    requires HandledAt(b, t, c, e.component) && LaunchedAt(b, t, workers, w, e.component)
    ensures Fine(t, w, e, failing)
  {
    hide Index, Board.Of;
  }

  lemma WorkerStays(b: Board, t: Board, workers: seq<Worker>, w: seq<Worker>, c: Component, d: Component)
    requires b.Shaped() && t.Shaped() && |workers| == |w| == COMPONENT_COUNT
    requires HandledAt(b, t, c, d) && LaunchedAt(b, t, workers, w, d)
    requires workers[Index(d)] == NotStarted <==> Launchable(b.Of(d))
    requires workers[Index(d)] == Running ==> b.Of(d) == Starting
    requires d == c ==> workers[Index(d)] == Sent && b.Of(d) == Starting
    ensures w[Index(d)] == NotStarted <==> Launchable(t.Of(d))
    ensures w[Index(d)] == Running ==> t.Of(d) == Starting
    ensures t.Of(d) == Starting && w[Index(d)] == Sent ==> d != c && b.Of(d) == Starting && workers[Index(d)] == Sent
  {
    hide Index, Board.Of;
  }

  lemma FlightHandled(b: Board, t: Board, workers: seq<Worker>, w: seq<Worker>, e: StartupEvent,
                      events: seq<StartupEvent>, failing: set<Component>)
    requires t.Shaped() && |w| == COMPONENT_COUNT
    requires FlightInv(b, workers, [e] + events, false, failing)
    requires forall d :: HandledAt(b, t, e.component, d)
    requires forall d :: LaunchedAt(b, t, workers, w, d)
    ensures FlightInv(t, w, events, false, failing)
  {
    var all := [e] + events;
    assert Fine(b, workers, all[0], failing);
    hide HandledAt, LaunchedAt, Board.Of, Index;
    forall k | 0 <= k < |events| ensures Fine(t, w, events[k], failing) {
      assert events[k] == all[k + 1];
      FineStays(b, t, workers, w, e.component, events[k], failing);
    }
    forall d
      ensures w[Index(d)] == NotStarted <==> Launchable(t.Of(d))
      ensures w[Index(d)] == Running ==> t.Of(d) == Starting
      ensures t.Of(d) == Starting && w[Index(d)] == Sent ==> Mentions(events, d)
    {
      WorkerStays(b, t, workers, w, e.component, d);
      if t.Of(d) == Starting && w[Index(d)] == Sent {
        MentionedBehind(e, events, d);
      }
    }
    DistinctBehind(e, events);
  }

  lemma MentionedBehind(e: StartupEvent, events: seq<StartupEvent>, d: Component)
    requires Mentions([e] + events, d) && d != e.component
    ensures Mentions(events, d)
  {
    var k :| 0 <= k < |[e] + events| && ([e] + events)[k].component == d;
    assert events[k - 1].component == d;
  }

  lemma DistinctBehind(e: StartupEvent, events: seq<StartupEvent>)
    requires Distinct([e] + events)
    ensures Distinct(events)
  {
    forall j, k | 0 <= j < k < |events| ensures events[j].component != events[k].component {
      assert events[j] == ([e] + events)[j + 1] && events[k] == ([e] + events)[k + 1];
    }
  }

  lemma HandleKeepsFlight(b: Board, workers: seq<Worker>, e: StartupEvent, events: seq<StartupEvent>,
                          failing: set<Component>)
    requires BoardInv(b, failing) && b.Of(e.component) == Starting
    requires FlightInv(b, workers, [e] + events, false, failing)
    ensures FlightInv(b.Handle(e), Launched(workers, b, b.Handle(e)), events, false, failing)
  {
    var t := b.Handle(e);
    var w := Launched(workers, b, t);
    forall d ensures LaunchedAt(b, t, workers, w, d) {
    }
    hide FlightInv, Board.Handle, Launched, BoardInv, HandledAt, LaunchedAt;
    forall d ensures HandledAt(b, t, e.component, d) {
      HandleEffect(b, e, failing, d);
    }
    FlightHandled(b, t, workers, w, e, events, failing);
  }
}
