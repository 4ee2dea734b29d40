// What every datagram and every expiry does to the client and to the server, field by field, and what
// that means for a run.

module RetrySteps {
  import opened Bytes
  import opened Crc16
  import opened FrameLayout
  import opened MessageFrame
  import opened RetryProtocol
  import opened RetryNetwork

  // ---- sending ----

  // The transaction has failed: what the client looks like then.
  ghost predicate HasFailed(c: Client, d: Client) {
    d.state.Failed? && d.stopRequested && !d.succeeded && d.serviceAvailable == c.serviceAvailable
  }

  ghost predicate Sends(s: System, e: Event) {
    Enabled(s, e) && (e.Start? || (e.TimerExpires? && s.client.state.WaitingToRetry?))
  }

  // An attempt is counted first. If the datagram cannot be sent the transaction fails at once, without
  // a retry; if it is sent but the timer cannot be armed, likewise; else the client waits.
  lemma SendExactly(s: System, e: Event, job: Job, mode: ServerMode)
    requires Sends(s, e)
    ensures var (c, t) := (s.client, After(s, e, job, mode));
            var d := t.client;
            && d.attempts == c.attempts + 1 && t.server == s.server && t.toClient == s.toClient
            && t.toServer == s.toServer + (if e.local.sendOk then {Request(job.id, job.interval)} else {})
            && (!e.local.sendOk || !e.local.armOk ==> HasFailed(c, d))
            && (e.local.sendOk && e.local.armOk ==>
                  d == Client(WaitingForResponse, c.attempts + 1, true, c.stopRequested, c.serviceAvailable,
                              c.succeeded))
  {
    hide Request;
    assert s.toServer + {} == s.toServer;
  }

  // A timeout sends nothing. With the budget used up the service is marked unavailable and the
  // transaction fails; else the client waits to retry, or fails if the timer cannot be armed.
  lemma TimeoutExactly(s: System, e: Event, job: Job, mode: ServerMode)
    requires Enabled(s, e) && e.TimerExpires? && s.client.state.WaitingForResponse?
    ensures var (c, t) := (s.client, After(s, e, job, mode));
            var d := t.client;
            && t == s.(client := d) && d.attempts == c.attempts
            && (c.attempts >= job.maxAttempts ==>
                  d == Client(Failed, c.attempts, false, true, false, false))
            && (c.attempts < job.maxAttempts && e.local.armOk ==>
                  d == Client(WaitingToRetry, c.attempts, true, c.stopRequested, c.serviceAvailable, c.succeeded))
            && (c.attempts < job.maxAttempts && !e.local.armOk ==>
                  d == Client(Failed, c.attempts, false, true, c.serviceAvailable, false))
  {
  }

  // Outside a waiting transaction an expiry is passed over.
  lemma IdleExpiry(s: System, e: Event, job: Job, mode: ServerMode)
    requires Enabled(s, e) && e.TimerExpires?
    requires s.client.state.Idle? || s.client.state.Succeeded? || s.client.state.Failed?
    ensures After(s, e, job, mode) == s.(client := s.client.(timerArmed := false))
  {
  }

  // In every run: from the first attempt that cannot be sent, or whose timer cannot be armed, the
  // transaction has failed for good, after just the attempts made so far, and nothing more is sent.
  lemma FailedSendEnds(s: System, before: seq<Event>, e: Event, rest: seq<Event>, job: Job, mode: ServerMode)
    requires Initial(s, job) && IsRun(s, before, job, mode)
    requires var t := Final(s, before, job, mode);
             Sends(t, e) && (!e.local.sendOk || !e.local.armOk) && IsRun(After(t, e, job, mode), rest, job, mode)
    ensures var t := Final(s, before, job, mode);
            var u := Final(After(t, e, job, mode), rest, job, mode);
            && HasFailed(t.client, u.client) && u.client.attempts == t.client.attempts + 1
            && u.toServer == t.toServer + if e.local.sendOk then {Request(job.id, job.interval)} else {}
  {
    hide Enabled, After, Initial, Request;
    var t := Final(s, before, job, mode);
    SendExactly(t, e, job, mode);
    StaysFailed(After(t, e, job, mode), rest, job, mode);
  }

  lemma FailedStep(s: System, e: Event, job: Job, mode: ServerMode)
    requires s.client.state.Failed? && s.client.stopRequested && Enabled(s, e)
    ensures var t := After(s, e, job, mode);
            t.client == s.client.(timerArmed := t.client.timerArmed) && t.toServer == s.toServer
  {
    hide Deliverable, OnRequest, ReadFrame, Request;
  }

  lemma {:induction false} StaysFailed(s: System, run: seq<Event>, job: Job, mode: ServerMode)
    requires s.client.state.Failed? && s.client.stopRequested && IsRun(s, run, job, mode)
    ensures var t := Final(s, run, job, mode);
            t.client == s.client.(timerArmed := t.client.timerArmed) && t.toServer == s.toServer
    decreases |run|
  {
    hide Enabled, After;
    if run != [] {
      FailedStep(s, run[0], job, mode);
      StaysFailed(After(s, run[0], job, mode), run[1..], job, mode);
    }
  }

  // ---- receiving a reply ----

  // A frame of the control service for this transaction, by its bytes.
  predicate IsReply(f: seq<byte>, id: u32, messageType: nat) {
    IsFrame(f) && WordAt(f, 8) == 1 && WordAt(f, 10) == messageType && DoubleWordAt(f, 12) == id
  }

  predicate IsAck(f: seq<byte>, id: u32) {
    IsReply(f, id, 2) && |f| == 28
  }

  // With one of the three reasons: 1 for busy, 2 for an invalid value, 3 for an unsupported operation.
  predicate IsNack(f: seq<byte>, id: u32) {
    IsReply(f, id, 3) && |f| == 29 && 1 <= f[28] <= 3
  }

  predicate IsWaiting(c: Client) {
    c.state.WaitingForResponse? || c.state.WaitingToRetry?
  }

  // Any bytes at all, in any state: an acknowledgement ends the transaction with success; a busy
  // refusal schedules another attempt, or marks the service unavailable if there is none left; another
  // refusal fails it; everything else is ignored.
  lemma ResponseExactly(c: Client, job: Job, f: seq<byte>, local: Local)
    ensures var d := OnResponse(c, job, f, local);
            var still := c.timerArmed && !local.disarmOk;
            if IsWaiting(c) && IsAck(f, job.id) then
              d == Client(Succeeded, c.attempts, still, true, c.serviceAvailable, true)
            else if IsWaiting(c) && IsNack(f, job.id) then
              if f[28] != 1 then d == Client(Failed, c.attempts, still, true, c.serviceAvailable, false)
              else if c.attempts >= job.maxAttempts then d == Client(Failed, c.attempts, still, true, false, false)
              else if local.armOk then
                d == Client(WaitingToRetry, c.attempts, true, c.stopRequested, c.serviceAvailable, c.succeeded)
              else d == Client(Failed, c.attempts, still, true, c.serviceAvailable, false)
            else d == c
  {
    ReadExactly(f);
    IsFrameExactly(f);
    hide ReadFrame, IsFrame, HeaderFits, Crc;
  }

  // ---- receiving a request ----

  // The number in the payload, in the order the header names.
  function Asked(f: seq<byte>): nat
    requires |f| == 32
  {
    if f[6] == 0 then DoubleWordAt(f, 28)
    else f[31] + 0x100 * f[30] as int + 0x1_0000 * f[29] as int + 0x100_0000 * f[28] as int
  }

  lemma AskedExactly(f: seq<byte>)
    requires |f| == 32
    ensures WireValue(f[28..], PayloadEndianness(f[6])) == Asked(f)
  {
    var b := f[28..];
    if f[6] == 0 {
      FourBytesValue(b);
    } else {
      FourBytesValue(Reversed(b));
    }
    hide LittleValue;
  }

  lemma FourBytesValue(b: seq<byte>)
    requires |b| == 4
    ensures LittleValue(b) == b[0] + 0x100 * b[1] as int + 0x1_0000 * b[2] as int + 0x100_0000 * b[3] as int
  {
    DoubleWordValue(b);
    hide LittleValue, LittleBytes;
    assert b[..2] == [b[0], b[1]] && b[2..] == [b[2], b[3]];
  }

  // Any bytes at all, at any server: what is no frame of the service with a transaction id is ignored;
  // an unknown operation is refused; the transaction completed last is acknowledged again; the mode may
  // refuse the first request as busy; and a request of four bytes for an interval from 100 ms to one
  // minute is applied, once, and acknowledged unless the mode keeps that back.
  lemma RequestExactly(s: Server, mode: ServerMode, f: seq<byte>)
    ensures var (t, reply) := OnRequest(s, mode, f);
            if !IsFrame(f) || WordAt(f, 8) != 1 || DoubleWordAt(f, 12) == 0 then t == s && reply == None
            else
              var id := DoubleWordAt(f, 12);
              if WordAt(f, 10) != 1 then t == s && reply == Some(Nack(id, 3))
              else if s.completed == Some(id) then t == s && reply == if mode.Silent? then None else Some(Ack(id))
              else if mode.BusyOnce? && !s.busyNackSent then
                t == s.(busyNackSent := true) && reply == Some(Nack(id, 1))
              else if |f| != 32 then t == s && reply == None
              else if Asked(f) < 100 || Asked(f) > 60000 then t == s && reply == Some(Nack(id, 2))
              else
                && t == Server(Asked(f), Some(id), s.firstAckDropped || mode.DropFirstAck?, s.busyNackSent,
                               s.applied + [(id, Asked(f))])
                && reply == if mode.Silent? || (mode.DropFirstAck? && !s.firstAckDropped) then None else Some(Ack(id))
  {
    hide ReadFrame, IsFrame, HeaderFits, Crc, Ack, Nack, WireValue, Asked, Process, PayloadEndianness;
    ReadExactly(f);
    IsFrameExactly(f);
    if IsFrame(f) {
      ProcessExactlyAs(s, mode, DoubleWordAt(f, 12), f[28..], PayloadEndianness(f[6]));
      if |f| == 32 { AskedExactly(f); }
    }
  }

  lemma ProcessExactlyAs(s: Server, mode: ServerMode, id: u32, payload: seq<byte>, endian: Endianness)
    ensures var (t, reply) := Process(s, mode, id, payload, endian);
            var interval := WireValue(payload, endian);
            if |payload| != 4 then t == s && reply == None
            else if interval < 100 || interval > 60000 then t == s && reply == Some(Nack(id, 2))
            else
              && t == Server(interval, Some(id), s.firstAckDropped || mode.DropFirstAck?, s.busyNackSent,
                             s.applied + [(id, interval)])
              && reply == if mode.Silent? || (mode.DropFirstAck? && !s.firstAckDropped) then None else Some(Ack(id))
  {
    hide Ack, Nack, WireValue;
  }

  // What can happen when: a start at first, an expiry of an armed timer, a delivery of anything sent, an
  // interrupt at any time.
  lemma PossibleExactly(s: System, f: seq<byte>, local: Local)
    ensures Enabled(s, Start(local)) <==> s.client.state.Idle?
    ensures Enabled(s, TimerExpires(local)) <==> s.client.timerArmed
    ensures Enabled(s, Interrupt)
    ensures f in s.toServer ==> Enabled(s, ServerReceives(f))
    ensures f in s.toClient ==> Enabled(s, ClientReceives(f, local))
  {
    assert AgreeOutsidePair(f, f, 0);
  }

  // A delivery moves one side by what it received; what the server replies is on its way.
  lemma DeliveryExactly(s: System, f: seq<byte>, local: Local, job: Job, mode: ServerMode)
    ensures var t := After(s, ServerReceives(f), job, mode);
            var (v, reply) := OnRequest(s.server, mode, f);
            && t.client == s.client && t.toServer == s.toServer && t.server == v
            && t.toClient == s.toClient + (if reply.Some? then {reply.value} else {})
    ensures After(s, ClientReceives(f, local), job, mode) == s.(client := OnResponse(s.client, job, f, local))
    ensures After(s, Interrupt, job, mode) == s.(client := s.client.(stopRequested := true))
  {
    hide OnRequest, OnResponse;
    assert s.toClient + {} == s.toClient;
  }

  // ---- the datagrams ----

  // A request, byte by byte.
  lemma RequestBytes(id: u32, interval: u32)
    ensures var f := Request(id, interval);
            && |f| == 32 && IsFrame(f) && f[6] == 0 && WordAt(f, 8) == 1 && WordAt(f, 10) == 1
            && DoubleWordAt(f, 12) == id && DoubleWordAt(f, 20) == 1 && DoubleWordAt(f, 28) == interval
  {
    hide ReadFrame, FrameBytes, IsFrame, Crc, LittleBytes, DoubleWordAt, WordAt;
    RequestRead(id, interval);
    WrittenExactly(ControlHeader(SET_REPORTING_INTERVAL, id, 1), LittleBytes(interval, 4));
    IsFrameExactly(Request(id, interval));
    NumberBehind(Request(id, interval), interval);
  }

  lemma NumberBehind(f: seq<byte>, v: u32)
    requires |f| == 32 && f[28..] == LittleBytes(v, 4)
    ensures DoubleWordAt(f, 28) == v
  {
    hide LittleBytes, DoubleWord, DoubleWordAt;
    DoubleWordBytes(v);
    DoubleWordOf(f, 28);
    assert f[28..32] == f[28..];
  }

  lemma AckBytes(id: u32)
    ensures var f := Ack(id); IsAck(f, id) && f[6] == 0 && DoubleWordAt(f, 20) == 0
  {
    AckRead(id);
    WrittenExactly(ControlHeader(ACK, id, 0), []);
    IsFrameExactly(Ack(id));
    hide ReadFrame, FrameBytes, IsFrame, Crc;
  }

  lemma NackBytes(id: u32, reason: byte)
    ensures var f := Nack(id, reason);
            |f| == 29 && IsReply(f, id, 3) && f[28] == reason && f[6] == 0 && DoubleWordAt(f, 20) == 0
  {
    NackRead(id, reason);
    WrittenExactly(ControlHeader(NACK, id, 0), [reason]);
    IsFrameExactly(Nack(id, reason));
    hide ReadFrame, FrameBytes, IsFrame, Crc;
    assert Nack(id, reason)[28..] == [reason];
  }
}
