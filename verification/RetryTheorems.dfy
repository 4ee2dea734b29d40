// What the retry protocol guarantees over whole runs, in every server mode.

module RetryTheorems {
  import opened Bytes
  import opened MessageFrame
  import opened RetryProtocol
  import opened RetryNetwork

  lemma InvParts(s: System, job: Job, mode: ServerMode)
    requires Inv(s, job, mode)
    ensures ClientInv(s.client, job) && ServerInv(s.server, job)
    ensures Nack(job.id, INVALID_VALUE) in s.toClient ==> !InRange(job.interval)
    ensures Ack(job.id) in s.toClient ==> s.server.applied != []
    ensures s.client.state == Succeeded ==> s.server.applied != [] && mode != Silent
  {
    hide Request, Ack, Nack, ClientInv, ServerInv, Reply;
  }

  // ---- safety ----

  // The interval is applied at most once, and then as asked; a client that reports success has had
  // it applied; an InvalidValue refusal, once sent, means that it never was.
  lemma AppliedAtMostOnce(s: System, run: seq<Event>, job: Job, mode: ServerMode)
    requires Initial(s, job) && IsRun(s, run, job, mode)
    ensures var f := Final(s, run, job, mode);
            && (f.server.applied == [] || f.server.applied == [(job.id, job.interval)])
            && (f.server.applied != [] ==> f.server.interval == job.interval && InRange(job.interval))
            && (f.client.state == Succeeded || Ack(job.id) in f.toClient ==>
                  f.server.applied == [(job.id, job.interval)])
            && (Nack(job.id, INVALID_VALUE) in f.toClient ==> f.server.applied == [])
            && (mode == Silent ==> f.client.state != Succeeded)
  {
    InitialInv(s, job, mode);
    RunKeepsInv(s, run, job, mode);
    InvParts(Final(s, run, job, mode), job, mode);
    hide Inv, IsRun, Final, Request, Ack, Nack, ClientInv, Initial;
  }

  lemma RequestStep(v: Server, mode: ServerMode, bytes: seq<byte>)
    ensures var w := OnRequest(v, mode, bytes).0;
            && v.applied <= w.applied
            && (w.applied == v.applied ==> w.interval == v.interval && w.completed == v.completed)
            && |w.applied| <= |v.applied| + 1
  {
    hide ReadFrame, Ack, Nack, WireValue;
  }

  // The interval changes only by being applied.
  lemma {:induction false} IntervalOnlyApplied(s: System, run: seq<Event>, job: Job, mode: ServerMode)
    requires IsRun(s, run, job, mode)
    ensures var f := Final(s, run, job, mode);
            && s.server.applied <= f.server.applied
            && (f.server.applied == s.server.applied ==> f.server.interval == s.server.interval)
    decreases |run|
  {
    hide Deliverable, OnRequest, OnResponse, OnTimer, SendAttempt;
    if run != [] {
      if run[0].ServerReceives? {
        RequestStep(s.server, mode, run[0].bytes);
      }
      IntervalOnlyApplied(After(s, run[0], job, mode), run[1..], job, mode);
    }
  }

  // ---- the client's budget ----

  lemma ClientWithinBudget(s: System, run: seq<Event>, job: Job, mode: ServerMode)
    requires Initial(s, job) && IsRun(s, run, job, mode)
    ensures var c := Final(s, run, job, mode).client;
            && c.attempts <= job.maxAttempts
            && (c.state == WaitingToRetry ==> c.attempts < job.maxAttempts)
            && (c.state == WaitingForResponse || c.state == WaitingToRetry ==> c.timerArmed)
            && (c.state == Succeeded || c.state == Failed ==> c.stopRequested)
            && (!c.serviceAvailable ==> c.state == Failed && c.attempts == job.maxAttempts)
  {
    InitialInv(s, job, mode);
    RunKeepsInv(s, run, job, mode);
    InvParts(Final(s, run, job, mode), job, mode);
    hide Inv, IsRun, Final, Request, Ack, Nack, ServerInv, Initial;
  }

  // The timer can be disarmed.
  predicate Disarms(e: Event) {
    match e
    case Start(local) => local.disarmOk
    case TimerExpires(local) => local.disarmOk
    case ClientReceives(_, local) => local.disarmOk
    case _ => true
  }

  lemma StepDisarms(s: System, e: Event, job: Job, mode: ServerMode)
    requires Disarms(e) && (s.client.timerArmed ==> Waiting(s.client))
    ensures var c := After(s, e, job, mode).client; c.timerArmed ==> Waiting(c)
  {
    hide OnRequest, ReadFrame, Request, OnResponse;
    if e.ClientReceives? {
      ResponseDisarms(s.client, job, e.bytes, e.local);
    }
  }

  lemma ResponseDisarms(c: Client, job: Job, bytes: seq<byte>, local: Local)
    requires local.disarmOk && (c.timerArmed ==> Waiting(c))
    ensures var d := OnResponse(c, job, bytes, local); d.timerArmed ==> Waiting(d)
  {
    hide ReadFrame;
  }

  lemma {:induction false} RunDisarms(s: System, run: seq<Event>, job: Job, mode: ServerMode)
    requires IsRun(s, run, job, mode) && (s.client.timerArmed ==> Waiting(s.client))
    requires forall k :: 0 <= k < |run| ==> Disarms(run[k])
    ensures var c := Final(s, run, job, mode).client; c.timerArmed ==> Waiting(c)
    decreases |run|
  {
    hide After, Enabled, Disarms;
    if run != [] {
      StepDisarms(s, run[0], job, mode);
      RunDisarms(After(s, run[0], job, mode), run[1..], job, mode);
    }
  }

  // Where disarming works, the timer is armed exactly while the transaction waits.
  lemma TimerOnlyWhileWaiting(s: System, run: seq<Event>, job: Job, mode: ServerMode)
    requires Initial(s, job) && IsRun(s, run, job, mode) && forall k :: 0 <= k < |run| ==> Disarms(run[k])
    ensures var c := Final(s, run, job, mode).client; c.timerArmed <==> Waiting(c)
  {
    assert !s.client.timerArmed;
    ClientWithinBudget(s, run, job, mode);
    hide IsRun, Final, Disarms, Initial;
    RunDisarms(s, run, job, mode);
  }

  predicate Terminal(c: Client) {
    c.state == Succeeded || c.state == Failed
  }

  lemma TerminalStep(s: System, e: Event, job: Job, mode: ServerMode)
    requires Terminal(s.client) && Enabled(s, e) && ClientInv(s.client, job)
    ensures var t := After(s, e, job, mode);
            t.client == s.client.(timerArmed := t.client.timerArmed) && t.toServer == s.toServer
  {
    hide Deliverable, OnRequest, ReadFrame;
  }

  // Once the transaction has ended, nothing changes the client any more, and it sends nothing. Only a
  // timer that could not be disarmed may still expire.
  lemma {:induction false} TerminalStays(s: System, run: seq<Event>, job: Job, mode: ServerMode)
    requires Inv(s, job, mode) && Terminal(s.client) && IsRun(s, run, job, mode)
    ensures var t := Final(s, run, job, mode);
            t.client == s.client.(timerArmed := t.client.timerArmed) && t.toServer == s.toServer
    decreases |run|
  {
    hide Inv, Enabled, After, ClientInv, ServerInv;
    if run != [] {
      InvParts(s, job, mode);
      TerminalStep(s, run[0], job, mode);
      StepKeepsInv(s, run[0], job, mode);
      TerminalStays(After(s, run[0], job, mode), run[1..], job, mode);
    }
  }

  // ---- termination ----

  // How often the timer can still expire; behind the end once more, if it could not be disarmed.
  function Measure(c: Client, job: Job): int {
    if Terminal(c) then if c.timerArmed then 1 else 0
    else 2 * (job.maxAttempts - c.attempts) + if c.state == WaitingForResponse then 1 else 0
  }

  function Expiries(run: seq<Event>): nat {
    if run == [] then 0 else (if run[0].TimerExpires? then 1 else 0) + Expiries(run[1..])
  }

  lemma StepMeasure(s: System, e: Event, job: Job, mode: ServerMode)
    requires ClientInv(s.client, job) && Enabled(s, e) && job.maxAttempts > 0
    ensures var u := After(s, e, job, mode).client;
            && Measure(u, job) + (if e.TimerExpires? then 1 else 0) <= Measure(s.client, job)
            && (e.Start? ==> Measure(u, job) < Measure(s.client, job))
            && (!e.Start? && s.client.state == Idle ==> u.state == Idle)
  {
    hide Deliverable, OnRequest, ReadFrame, Request;
  }

  lemma RunFirst(s: System, run: seq<Event>, job: Job, mode: ServerMode)
    requires IsRun(s, run, job, mode) && run != []
    ensures Enabled(s, run[0]) && IsRun(After(s, run[0], job, mode), run[1..], job, mode)
  {
    hide Enabled, After;
  }

  lemma {:induction false} ExpiriesBelowMeasure(s: System, run: seq<Event>, job: Job, mode: ServerMode)
    requires Inv(s, job, mode) && IsRun(s, run, job, mode)
    ensures Expiries(run) <= Measure(s.client, job)
    decreases |run|
  {
    hide *;
    ExpiriesFirst(run);
    InvParts(s, job, mode);
    if run == [] {
      MeasureBounds(s.client, job);
    } else {
      RunFirst(s, run, job, mode);
      MaxPositive(s, job, mode);
      StepMeasure(s, run[0], job, mode);
      StepKeepsInv(s, run[0], job, mode);
      ExpiriesBelowMeasure(After(s, run[0], job, mode), run[1..], job, mode);
    }
  }

  lemma {:induction false} ExpiriesFromIdle(s: System, run: seq<Event>, job: Job, mode: ServerMode)
    requires Inv(s, job, mode) && IsRun(s, run, job, mode) && s.client.state == Idle
    ensures Expiries(run) <= 2 * job.maxAttempts - 1
    decreases |run|
  {
    hide *;
    ExpiriesFirst(run);
    InvParts(s, job, mode);
    MaxPositive(s, job, mode);
    if run != [] {
      RunFirst(s, run, job, mode);
      var u := After(s, run[0], job, mode);
      MeasureBounds(s.client, job);
      StepMeasure(s, run[0], job, mode);
      StepKeepsInv(s, run[0], job, mode);
      if run[0].Start? {
        ExpiriesBelowMeasure(u, run[1..], job, mode);
      } else {
        ExpiriesFromIdle(u, run[1..], job, mode);
        if run[0].TimerExpires? { ExpiryNotIdle(s, run[0], job); }
      }
    }
  }

  lemma ExpiriesFirst(run: seq<Event>)
    ensures run == [] ==> Expiries(run) == 0
    ensures run != [] ==> Expiries(run) == (if run[0].TimerExpires? then 1 else 0) + Expiries(run[1..])
  {
  }

  lemma MeasureBounds(c: Client, job: Job)
    requires ClientInv(c, job)
    ensures Measure(c, job) >= 0
    ensures c.state == Idle ==> Measure(c, job) == 2 * job.maxAttempts
  {
  }

  lemma ExpiryNotIdle(s: System, e: Event, job: Job)
    requires ClientInv(s.client, job) && Enabled(s, e) && e.TimerExpires?
    ensures s.client.state != Idle
  {
  }

  lemma MaxPositive(s: System, job: Job, mode: ServerMode)
    requires Inv(s, job, mode)
    ensures job.maxAttempts > 0 && job.id != 0
  {
    hide ClientInv, ServerInv, NetworkInv;
  }

  // However long the run, the timer expires fewer than twice as often as there are attempts.
  lemma TimerExpiriesBounded(s: System, run: seq<Event>, job: Job, mode: ServerMode)
    requires Initial(s, job) && IsRun(s, run, job, mode)
    ensures Expiries(run) <= 2 * job.maxAttempts - 1
  {
    InitialInv(s, job, mode);
    assert s.client.state == Idle;
    hide Inv, IsRun, Initial;
    ExpiriesFromIdle(s, run, job, mode);
  }

  // ---- why a transaction fails ----

  predicate NoFault(e: Event) {
    match e
    case Start(local) => local.sendOk && local.armOk
    case TimerExpires(local) => local.sendOk && local.armOk
    case ClientReceives(_, local) => local.armOk
    case _ => true
  }

  lemma StepFailure(s: System, e: Event, job: Job, mode: ServerMode)
    requires Inv(s, job, mode) && Enabled(s, e) && NoFault(e)
    requires s.client.state == Failed ==> !s.client.serviceAvailable || !InRange(job.interval)
    ensures var c := After(s, e, job, mode).client;
            c.state == Failed ==> !c.serviceAvailable || !InRange(job.interval)
  {
    hide Request, Ack, Nack, ServerInv, Deliverable, ReadFrame, ClientInv, OnRequest, OnResponse, NetworkInv;
    if e.ClientReceives? {
      NetworkOf(s, job, mode);
      DeliveredToClient(s, e.bytes, job, mode);
      if ReadFrame(e.bytes).Rejected? {
        RejectedByClient(s.client, job, e.bytes, e.local);
      } else {
        InvParts(s, job, mode);
        ReplyFailure(s.client, e.bytes, job, e.local);
      }
    }
  }

  lemma NetworkOf(s: System, job: Job, mode: ServerMode)
    requires Inv(s, job, mode)
    ensures NetworkInv(s, job, mode)
  {
    hide ClientInv, ServerInv, NetworkInv;
  }

  lemma ReplyFailure(c: Client, bytes: seq<byte>, job: Job, local: Local)
    requires Reply(bytes, job) && local.armOk
    requires c.state == Failed ==> !c.serviceAvailable || !InRange(job.interval)
    requires bytes == Nack(job.id, INVALID_VALUE) ==> !InRange(job.interval)
    ensures var d := OnResponse(c, job, bytes, local);
            d.state == Failed ==> !d.serviceAvailable || !InRange(job.interval)
  {
    hide Ack, Nack, OnResponse;
    if bytes == Ack(job.id) {
      ClientOnAck(c, job, local);
    } else {
      ClientOnNack(c, job, if bytes == Nack(job.id, BUSY) then BUSY else INVALID_VALUE, local);
    }
  }

  lemma {:induction false} RunFailure(s: System, run: seq<Event>, job: Job, mode: ServerMode)
    requires Inv(s, job, mode) && IsRun(s, run, job, mode) && forall k :: 0 <= k < |run| ==> NoFault(run[k])
    requires s.client.state == Failed ==> !s.client.serviceAvailable || !InRange(job.interval)
    ensures var c := Final(s, run, job, mode).client;
            c.state == Failed ==> !c.serviceAvailable || !InRange(job.interval)
    decreases |run|
  {
    hide Inv, Enabled, After, NoFault, InRange;
    if run != [] {
      StepFailure(s, run[0], job, mode);
      StepKeepsInv(s, run[0], job, mode);
      RunFailure(After(s, run[0], job, mode), run[1..], job, mode);
    }
  }

  // With a working timer and socket, a transaction for an admissible interval fails only by using up
  // all its attempts, and then the service is marked unavailable.
  lemma FailureMeansExhausted(s: System, run: seq<Event>, job: Job, mode: ServerMode)
    requires Initial(s, job) && IsRun(s, run, job, mode) && InRange(job.interval)
    requires forall k :: 0 <= k < |run| ==> NoFault(run[k])
    ensures var c := Final(s, run, job, mode).client;
            c.state == Failed <==> !c.serviceAvailable
    ensures var c := Final(s, run, job, mode).client;
            c.state == Failed ==> c.attempts == job.maxAttempts
  {
    InitialInv(s, job, mode);
    assert s.client.state == Idle;
    hide Inv, Enabled, After, NoFault;
    RunFailure(s, run, job, mode);
    ClientWithinBudget(s, run, job, mode);
  }

  // ---- the protocol can succeed ----

  const WORKING := Local(true, true, true)
  const FIRST := Start(WORKING)
  const EXPIRE := TimerExpires(WORKING)

  lemma Undamaged(sent: set<seq<byte>>, d: seq<byte>)
    requires d in sent
    ensures Deliverable(sent, d)
  {
    assert AgreeOutsidePair(d, d, 0);
  }

  lemma OneStep(s: System, e: Event, rest: seq<Event>, job: Job, mode: ServerMode)
    requires Enabled(s, e) && IsRun(After(s, e, job, mode), rest, job, mode)
    ensures IsRun(s, [e] + rest, job, mode)
    ensures Final(s, [e] + rest, job, mode) == Final(After(s, e, job, mode), rest, job, mode)
  {
    hide Enabled, After;
    assert ([e] + rest)[1..] == rest;
  }

  predicate Acknowledged(mode: ServerMode, v: Server) {
    mode == Normal || (mode == DropFirstAck && v.firstAckDropped) || (mode == BusyOnce && v.busyNackSent)
  }

  lemma ServerAnswers(v: Server, job: Job, mode: ServerMode)
    requires job.id != 0 && InRange(job.interval) && mode != Silent
    requires v.completed == Some(job.id) || Acknowledged(mode, v)
    ensures OnRequest(v, mode, Request(job.id, job.interval)).1 == Some(Ack(job.id))
  {
    hide Request, Ack, Nack, OnRequest;
    ServerOnRequest(v, mode, job.id, job.interval);
  }

  lemma AckEnds(s: System, job: Job, mode: ServerMode) returns (run: seq<Event>)
    requires s.client.state == WaitingForResponse && Ack(job.id) in s.toClient
    ensures IsRun(s, run, job, mode) && Final(s, run, job, mode).client.state == Succeeded
  {
    hide Ack, OnRequest, OnResponse, Deliverable;
    var ack := ClientReceives(Ack(job.id), WORKING);
    ClientOnAck(s.client, job, WORKING);
    Undamaged(s.toClient, Ack(job.id));
    run := [ack] + [];
    OneStep(s, ack, [], job, mode);
  }

  // A request on its way to a server that acknowledges is answered with success.
  lemma Answered(s: System, job: Job, mode: ServerMode) returns (run: seq<Event>)
    requires s.client.state == WaitingForResponse && Request(job.id, job.interval) in s.toServer && job.id != 0
    requires InRange(job.interval) && mode != Silent
    requires s.server.completed == Some(job.id) || Acknowledged(mode, s.server)
    ensures IsRun(s, run, job, mode) && Final(s, run, job, mode).client.state == Succeeded
  {
    hide Request, Ack, OnRequest, OnResponse, Deliverable, IsRun, Final;
    var request := ServerReceives(Request(job.id, job.interval));
    ServerAnswers(s.server, job, mode);
    Undamaged(s.toServer, Request(job.id, job.interval));
    var tail := AckEnds(After(s, request, job, mode), job, mode);
    OneStep(s, request, tail, job, mode);
    run := [request] + tail;
  }

  // One more attempt reaches a server that has meanwhile completed the transaction or become ready.
  lemma AnsweredOnRetry(s: System, job: Job, mode: ServerMode) returns (run: seq<Event>)
    requires s.client.state == WaitingForResponse && s.client.timerArmed && s.client.attempts < job.maxAttempts
    requires job.id != 0
    requires InRange(job.interval) && mode != Silent
    requires s.server.completed == Some(job.id) || Acknowledged(mode, s.server)
    ensures IsRun(s, run, job, mode) && Final(s, run, job, mode).client.state == Succeeded
  {
    hide Request, Ack, Nack, OnRequest, OnResponse, Deliverable;
    var t := After(s, EXPIRE, job, mode);
    var u := After(t, EXPIRE, job, mode);
    var tail := Answered(u, job, mode);
    OneStep(t, EXPIRE, tail, job, mode);
    OneStep(s, EXPIRE, [EXPIRE] + tail, job, mode);
    run := [EXPIRE] + ([EXPIRE] + tail);
  }

  // From every initial state some run succeeds, if the interval is admissible, the server is not
  // silent and a second attempt is allowed where the mode spoils the first.
  lemma CanSucceed(s: System, job: Job, mode: ServerMode) returns (run: seq<Event>)
    requires Initial(s, job) && InRange(job.interval) && mode != Silent
    requires job.maxAttempts >= 2 || Acknowledged(mode, s.server)
    ensures IsRun(s, run, job, mode) && Final(s, run, job, mode).client.state == Succeeded
  {
    hide Request, Ack, Nack, OnRequest, OnResponse, Deliverable;
    var t := After(s, FIRST, job, mode);
    var tail: seq<Event>;
    if Acknowledged(mode, s.server) {
      tail := Answered(t, job, mode);
    } else {
      var request := ServerReceives(Request(job.id, job.interval));
      ServerOnRequest(t.server, mode, job.id, job.interval);
      Undamaged(t.toServer, Request(job.id, job.interval));
      var u := After(t, request, job, mode);
      var more := AnsweredOnRetry(u, job, mode);
      OneStep(t, request, more, job, mode);
      tail := [request] + more;
    }
    OneStep(s, FIRST, tail, job, mode);
    run := [FIRST] + tail;
  }
}
