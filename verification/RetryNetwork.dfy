// The client and the server on a network that loses, repeats, reorders and damages datagrams.

module RetryNetwork {
  import opened Bytes
  import opened MessageFrame
  import opened RetryProtocol

  // Every datagram ever sent stays on the network: never delivering one is losing it, delivering it
  // again is repeating it.
  datatype System = System(client: Client, server: Server, toServer: set<seq<byte>>, toClient: set<seq<byte>>)

  datatype Event =
    | Start(local: Local)
    | TimerExpires(local: Local)
    | ServerReceives(bytes: seq<byte>)
    | ClientReceives(bytes: seq<byte>, local: Local)
    | Interrupt

  // A copy of something sent, perhaps damaged inside two adjacent bytes.
  ghost predicate Deliverable(sent: set<seq<byte>>, bytes: seq<byte>) {
    exists d, i :: d in sent && AgreeOutsidePair(d, bytes, i)
  }

  ghost predicate Enabled(s: System, e: Event) {
    match e
    case Start(_) => s.client.state == Idle
    case TimerExpires(_) => s.client.timerArmed
    case ServerReceives(bytes) => Deliverable(s.toServer, bytes)
    case ClientReceives(bytes, _) => Deliverable(s.toClient, bytes)
    case Interrupt => true
  }

  function Sent(network: set<seq<byte>>, datagram: Option<seq<byte>>): set<seq<byte>> {
    if datagram.Some? then network + {datagram.value} else network
  }

  function After(s: System, e: Event, job: Job, mode: ServerMode): System {
    match e
    case Start(local) =>
      var (c, d) := SendAttempt(s.client, job, local);
      s.(client := c, toServer := Sent(s.toServer, d))
    case TimerExpires(local) =>
      var (c, d) := OnTimer(s.client, job, local);
      s.(client := c, toServer := Sent(s.toServer, d))
    case ServerReceives(bytes) =>
      var (v, d) := OnRequest(s.server, mode, bytes);
      s.(server := v, toClient := Sent(s.toClient, d))
    case ClientReceives(bytes, local) => s.(client := OnResponse(s.client, job, bytes, local))
    case Interrupt => s.(client := s.client.(stopRequested := true))
  }

  // A new client, and a server that has not yet completed this transaction.
  ghost predicate Initial(s: System, job: Job) {
    && s.client == NEW_CLIENT && s.toServer == {} && s.toClient == {}
    && s.server.completed != Some(job.id) && s.server.applied == []
    && job.id != 0 && job.maxAttempts > 0
  }

  ghost predicate IsRun(s: System, run: seq<Event>, job: Job, mode: ServerMode)
    decreases |run|
  {
    run == [] || (Enabled(s, run[0]) && IsRun(After(s, run[0], job, mode), run[1..], job, mode))
  }

  function Final(s: System, run: seq<Event>, job: Job, mode: ServerMode): System
    decreases |run|
  {
    if run == [] then s else Final(After(s, run[0], job, mode), run[1..], job, mode)
  }

  // ---- damaged copies ----

  // Every message of the protocol is an accepted frame, so a damaged copy is rejected.
  lemma DamagedIsRejected(d: seq<byte>, bytes: seq<byte>, i: int)
    requires ReadFrame(d).Frame? && AgreeOutsidePair(d, bytes, i)
    ensures bytes == d || ReadFrame(bytes).Rejected?
  {
    hide ReadFrame;
    if ReadFrame(bytes).Frame? {
      FramePairDetected(d, bytes, i);
    }
  }

  // ---- what every step keeps ----

  ghost predicate ClientInv(c: Client, job: Job) {
    && c.attempts <= job.maxAttempts
    && (c.state == Idle <==> c.attempts == 0)
    && (c.state == WaitingToRetry ==> c.attempts < job.maxAttempts)
    && (Waiting(c) ==> c.timerArmed) && (c.state == Idle ==> !c.timerArmed)
    && (c.succeeded <==> c.state == Succeeded)
    && (c.state == Succeeded || c.state == Failed ==> c.stopRequested)
    && (!c.serviceAvailable ==> c.state == Failed && c.attempts == job.maxAttempts)
  }

  ghost predicate ServerInv(v: Server, job: Job) {
    if v.applied == [] then v.completed != Some(job.id)
    else v.applied == [(job.id, job.interval)] && v.completed == Some(job.id) && v.interval == job.interval
         && InRange(job.interval)
  }

  ghost predicate Reply(bytes: seq<byte>, job: Job) {
    bytes == Ack(job.id) || bytes == Nack(job.id, BUSY) || bytes == Nack(job.id, INVALID_VALUE)
  }

  // What is on the network is of the protocol, and an acknowledgement means what it says.
  ghost predicate NetworkInv(s: System, job: Job, mode: ServerMode) {
    && (forall d :: d in s.toServer ==> d == Request(job.id, job.interval))
    && (forall d :: d in s.toClient ==> Reply(d, job))
    && (Ack(job.id) in s.toClient ==> s.server.applied != [] && mode != Silent)
    && (Nack(job.id, INVALID_VALUE) in s.toClient ==> !InRange(job.interval))
    && (Nack(job.id, BUSY) in s.toClient ==> mode == BusyOnce && s.server.busyNackSent)
    && (s.client.state == Succeeded ==> s.server.applied != [] && mode != Silent)
    && (s.toServer == {} ==> s.server.applied == [] && s.toClient == {})
  }

  ghost predicate Inv(s: System, job: Job, mode: ServerMode) {
    && ClientInv(s.client, job) && ServerInv(s.server, job) && NetworkInv(s, job, mode)
    && job.id != 0 && job.maxAttempts > 0
  }

  lemma InitialInv(s: System, job: Job, mode: ServerMode)
    requires Initial(s, job)
    ensures Inv(s, job, mode)
  {
    hide Request, Ack, Nack;
  }

  lemma ClientStepKeeps(c: Client, job: Job, e: Event)
    requires ClientInv(c, job) && job.maxAttempts > 0 && (e.Start? || e.TimerExpires?)
    requires (e.Start? ==> c.state == Idle) && (e.TimerExpires? ==> c.timerArmed)
    ensures var (d, sent) := if e.Start? then SendAttempt(c, job, e.local)
                             else OnTimer(c, job, e.local);
            && ClientInv(d, job) && (d.state == Succeeded ==> c.state == Succeeded)
            && (sent == None || sent == Some(Request(job.id, job.interval)))
  {
    hide Request;
  }

  lemma DeliveredToServer(s: System, bytes: seq<byte>, job: Job, mode: ServerMode)
    requires NetworkInv(s, job, mode) && Deliverable(s.toServer, bytes)
    ensures bytes == Request(job.id, job.interval) || ReadFrame(bytes).Rejected?
    ensures s.toServer != {}
  {
    hide ReadFrame, Request, Ack, Nack, AgreeOutsidePair;
    var d, i :| d in s.toServer && AgreeOutsidePair(d, bytes, i);
    RequestRead(job.id, job.interval);
    DamagedIsRejected(d, bytes, i);
  }

  lemma ReplyIsFrame(d: seq<byte>, job: Job)
    requires Reply(d, job)
    ensures ReadFrame(d).Frame?
  {
    hide ReadFrame, Ack, Nack;
    AckRead(job.id);
    NackRead(job.id, BUSY);
    NackRead(job.id, INVALID_VALUE);
  }

  lemma DeliveredToClient(s: System, bytes: seq<byte>, job: Job, mode: ServerMode)
    requires NetworkInv(s, job, mode) && Deliverable(s.toClient, bytes)
    ensures (bytes in s.toClient && Reply(bytes, job)) || ReadFrame(bytes).Rejected?
  {
    hide ReadFrame, Request, Reply, AgreeOutsidePair, Ack, Nack;
    var d, i :| d in s.toClient && AgreeOutsidePair(d, bytes, i);
    ReplyIsFrame(d, job);
    DamagedIsRejected(d, bytes, i);
  }

  lemma RejectedByServer(v: Server, mode: ServerMode, bytes: seq<byte>)
    requires ReadFrame(bytes).Rejected?
    ensures OnRequest(v, mode, bytes) == (v, None)
  {
    hide ReadFrame, Process, Ack, Nack;
  }

  lemma RejectedByClient(c: Client, job: Job, bytes: seq<byte>, local: Local)
    requires ReadFrame(bytes).Rejected?
    ensures OnResponse(c, job, bytes, local) == c
  {
    hide ReadFrame, ScheduleRetry, FailTransaction;
  }

  // The server's own invariant, and what its reply entitles the client to conclude.
  lemma ServerReplies(v: Server, job: Job, mode: ServerMode)
    requires ServerInv(v, job) && job.id != 0
    ensures var (w, reply) := OnRequest(v, mode, Request(job.id, job.interval));
            && ServerInv(w, job)
            && (v.applied != [] ==> w.applied != []) && (v.busyNackSent ==> w.busyNackSent)
            && (reply == None
               || (reply == Some(Ack(job.id)) && w.applied != [] && mode != Silent)
               || (reply == Some(Nack(job.id, BUSY)) && mode == BusyOnce && w.busyNackSent)
               || (reply == Some(Nack(job.id, INVALID_VALUE)) && !InRange(job.interval)))
  {
    ServerOnRequest(v, mode, job.id, job.interval);
    hide OnRequest, Request, Ack, Nack;
  }

  lemma RepliesSent(s: System, job: Job, mode: ServerMode, v: Server, reply: seq<byte>)
    requires NetworkInv(s, job, mode) && s.toServer != {}
    requires (s.server.applied != [] ==> v.applied != []) && (s.server.busyNackSent ==> v.busyNackSent)
    requires || (reply == Ack(job.id) && v.applied != [] && mode != Silent)
             || (reply == Nack(job.id, BUSY) && mode == BusyOnce && v.busyNackSent)
             || (reply == Nack(job.id, INVALID_VALUE) && !InRange(job.interval))
    ensures NetworkInv(s.(server := v, toClient := s.toClient + {reply}), job, mode)
  {
    RepliesDiffer(job.id, BUSY, INVALID_VALUE);
    RepliesDiffer(job.id, INVALID_VALUE, BUSY);
    hide Request, Ack, Nack;
  }

  // The server has taken in the request and perhaps replied.
  lemma ServerKeeps(s: System, job: Job, mode: ServerMode, v: Server, reply: Option<seq<byte>>)
    requires Inv(s, job, mode) && s.toServer != {}
    requires (v, reply) == OnRequest(s.server, mode, Request(job.id, job.interval))
    ensures ServerInv(v, job) && NetworkInv(s.(server := v, toClient := Sent(s.toClient, reply)), job, mode)
  {
    hide OnRequest, Request, Ack, Nack, ClientInv, ServerInv;
    ServerReplies(s.server, job, mode);
    if reply.Some? {
      hide NetworkInv, Reply;
      RepliesSent(s, job, mode, v, reply.value);
    }
  }

  lemma ServerStepKeeps(s: System, bytes: seq<byte>, job: Job, mode: ServerMode)
    requires Inv(s, job, mode) && Deliverable(s.toServer, bytes)
    ensures Inv(After(s, ServerReceives(bytes), job, mode), job, mode)
  {
    hide Request, Ack, Nack, ClientInv, ServerInv, Deliverable, ReadFrame, OnRequest, NetworkInv;
    DeliveredToServer(s, bytes, job, mode);
    var (v, reply) := OnRequest(s.server, mode, bytes);
    if ReadFrame(bytes).Rejected? {
      RejectedByServer(s.server, mode, bytes);
    } else {
      ServerKeeps(s, job, mode, v, reply);
    }
  }

  lemma AcknowledgedInv(c: Client, job: Job, local: Local)
    requires ClientInv(c, job) && Waiting(c)
    ensures ClientInv(Disarm(c, local).(state := Succeeded, succeeded := true, stopRequested := true), job)
  {
  }

  lemma RefusedInv(c: Client, job: Job, local: Local)
    requires ClientInv(c, job) && Waiting(c)
    ensures var d := Disarm(c, local);
            && ClientInv(ScheduleRetry(d, job, local), job) && ClientInv(FailTransaction(d, local), job)
            && ScheduleRetry(d, job, local).state != Succeeded && FailTransaction(d, local).state != Succeeded
  {
  }

  // The client has taken in a reply that was really sent.
  lemma ClientKeeps(c: Client, bytes: seq<byte>, local: Local, job: Job)
    requires ClientInv(c, job) && Reply(bytes, job)
    ensures var d := OnResponse(c, job, bytes, local);
            ClientInv(d, job) && (d.state == Succeeded ==> c.state == Succeeded || bytes == Ack(job.id))
  {
    hide Request, Ack, Nack, OnResponse, ClientInv, ScheduleRetry, FailTransaction;
    if bytes == Ack(job.id) {
      ClientOnAck(c, job, local);
      if Waiting(c) { AcknowledgedInv(c, job, local); }
    } else {
      var reason := if bytes == Nack(job.id, BUSY) then BUSY else INVALID_VALUE;
      ClientOnNack(c, job, reason, local);
      if Waiting(c) { RefusedInv(c, job, local); }
    }
  }

  lemma ClientChanged(s: System, c: Client, toServer: set<seq<byte>>, job: Job, mode: ServerMode)
    requires Inv(s, job, mode) && ClientInv(c, job)
    requires c.state == Succeeded ==> s.server.applied != [] && mode != Silent
    requires toServer == s.toServer || toServer == s.toServer + {Request(job.id, job.interval)}
    ensures Inv(s.(client := c, toServer := toServer), job, mode)
  {
    hide Request, Ack, Nack, ServerInv, ClientInv;
  }

  lemma ClientReceiveKeeps(s: System, bytes: seq<byte>, local: Local, job: Job, mode: ServerMode)
    requires Inv(s, job, mode) && Deliverable(s.toClient, bytes)
    ensures Inv(After(s, ClientReceives(bytes, local), job, mode), job, mode)
  {
    hide Request, Ack, Nack, ServerInv, Deliverable, ReadFrame, ClientInv, OnResponse, NetworkInv;
    DeliveredToClient(s, bytes, job, mode);
    if ReadFrame(bytes).Rejected? {
      RejectedByClient(s.client, job, bytes, local);
    } else {
      ClientKeeps(s.client, bytes, local, job);
      SuccessIsApplied(s, job, mode);
      ClientChanged(s, OnResponse(s.client, job, bytes, local), s.toServer, job, mode);
    }
  }

  lemma InterruptKeeps(c: Client, job: Job)
    requires ClientInv(c, job)
    ensures ClientInv(c.(stopRequested := true), job)
  {
  }

  lemma SuccessIsApplied(s: System, job: Job, mode: ServerMode)
    requires Inv(s, job, mode)
    ensures s.client.state == Succeeded || Ack(job.id) in s.toClient ==> s.server.applied != [] && mode != Silent
  {
    hide Request, Ack, Nack, ServerInv, ClientInv;
  }

  lemma StepKeepsInv(s: System, e: Event, job: Job, mode: ServerMode)
    requires Inv(s, job, mode) && Enabled(s, e)
    ensures Inv(After(s, e, job, mode), job, mode)
  {
    hide Request, Ack, Nack, ServerInv, SendAttempt, OnTimer, ClientInv, NetworkInv, OnRequest, OnResponse, Deliverable;
    match e
    case ServerReceives(bytes) => ServerStepKeeps(s, bytes, job, mode);
    case ClientReceives(bytes, local) => ClientReceiveKeeps(s, bytes, local, job, mode);
    case Interrupt =>
      InterruptKeeps(s.client, job);
      SuccessIsApplied(s, job, mode);
      ClientChanged(s, s.client.(stopRequested := true), s.toServer, job, mode);
    case _ =>
      ClientStepKeeps(s.client, job, e);
      SuccessIsApplied(s, job, mode);
      ClientChanged(s, After(s, e, job, mode).client, After(s, e, job, mode).toServer, job, mode);
  }

  lemma {:induction false} RunKeepsInv(s: System, run: seq<Event>, job: Job, mode: ServerMode)
    requires Inv(s, job, mode) && IsRun(s, run, job, mode)
    ensures Inv(Final(s, run, job, mode), job, mode)
    decreases |run|
  {
    hide Inv, After, Enabled;
    if run != [] {
      StepKeepsInv(s, run[0], job, mode);
      RunKeepsInv(After(s, run[0], job, mode), run[1..], job, mode);
    }
  }
}
