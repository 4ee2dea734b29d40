// The two programs' handlers, updating their contexts in place. A datagram a handler sends is its
// result; whether the socket takes it and whether the timer can be armed is given from outside.

module RetryDevices {
  import opened Bytes
  import opened WireFormat
  import opened BinaryStreams
  import opened MessageFrame
  import opened FrameStreams
  import opened RetryProtocol

  // Encodes a frame into a buffer of its own.
  method BuildFrame(h: MessageHeaderV1, payload: seq<byte>, capacity: nat, host: Endianness)
    returns (ok: bool, frame: seq<byte>)
    requires |payload| < 0x1_0000_0000
    ensures ok == (HEADER_SIZE + |payload| <= capacity)
    ensures frame == if ok then FrameBytes(h, payload) else []
  {
    hide HeaderBytes, Finalized, FrameBytes;
    var storage := new byte[capacity](_ => 0);
    ghost var before := storage[..];
    var status, frameSize := WriteFrameV1(MutableByteView(storage, 0, capacity), h, payload, host);
    ok := status == FrameOk;
    frame := [];
    if ok {
      frame := storage[..frameSize];
      assert storage[..][..frameSize] == frame;
    }
  }

  class RetryServer {
    const host: Endianness
    const mode: ServerMode
    var interval: u32
    var hasCompleted: bool
    var completedId: u32
    var firstAckDropped: bool
    var busyNackSent: bool
    ghost var applied: seq<(u32, u32)>

    ghost function View(): Server
      reads this
    {
      Server(interval, if hasCompleted then Some(completedId) else None, firstAckDropped, busyNackSent, applied)
    }

    constructor (mode: ServerMode, host: Endianness)
      ensures View() == Server(1000, None, false, false, []) && this.mode == mode
    {
      this.host, this.mode := host, mode;
      interval, hasCompleted, completedId := 1000, false, 0;
      firstAckDropped, busyNackSent, applied := false, false, [];
    }

    method SendAck(id: u32) returns (reply: Option<seq<byte>>)
      ensures reply == Some(Ack(id))
    {
      hide FrameBytes;
      var ok, frame := BuildFrame(ControlHeader(ACK, id, 0), [], 64, host);
      return Some(frame);
    }

    method SendNack(id: u32, reason: byte) returns (reply: Option<seq<byte>>)
      ensures reply == Some(Nack(id, reason))
    {
      hide FrameBytes;
      var payload := EncodeScalar(reason, 1, host);
      ByteAlone(reason);
      var ok, frame := BuildFrame(ControlHeader(NACK, id, 0), payload, 64, host);
      return Some(frame);
    }

    // A request that is neither a duplicate nor refused as busy.
    method ProcessRequest(id: u32, payload: seq<byte>, endian: Endianness) returns (reply: Option<seq<byte>>)
      modifies this`interval, this`hasCompleted, this`completedId, this`firstAckDropped, this`applied
      ensures (View(), reply) == Process(old(View()), mode, id, payload, endian)
    {
      hide Ack, Nack, LittleValue, Reversed;
      var reader := new BinaryReadStream(payload, host, endian, MAX_SIZE);
      var requested := reader.ReadScalar(4, 0);
      if reader.error != NoError || |payload| - reader.pos != 0 {
        return None;
      }
      assert payload[0..4] == payload;
      if requested < 100 || requested > 60000 {
        reply := SendNack(id, INVALID_VALUE);
        return;
      }
      interval, hasCompleted, completedId := requested, true, id;
      applied := applied + [(id, requested)];
      if mode == DropFirstAck && !firstAckDropped {
        firstAckDropped := true;
        return None;
      }
      if mode == Silent {
        return None;
      }
      reply := SendAck(id);
    }

    method OnRequest(bytes: seq<byte>) returns (reply: Option<seq<byte>>)
      modifies this
      ensures (View(), reply) == RetryProtocol.OnRequest(old(View()), mode, bytes)
    {
      hide ReadFrame, Process, Ack, Nack;
      var status, h, payload := ReadFrameV1(bytes, host);
      if status != FrameOk {
        return None;
      }
      if h.serviceId != CONTROL_SERVICE {
        return None;
      }
      if h.transactionId == 0 {
        return None;
      }
      if h.messageType != SET_REPORTING_INTERVAL {
        reply := SendNack(h.transactionId, UNSUPPORTED_OPERATION);
        return;
      }
      if hasCompleted && h.transactionId == completedId {
        if mode == Silent {
          return None;
        }
        reply := SendAck(h.transactionId);
        return;
      }
      if mode == BusyOnce && !busyNackSent {
        busyNackSent := true;
        reply := SendNack(h.transactionId, BUSY);
        return;
      }
      reply := ProcessRequest(h.transactionId, payload, PayloadEndianness(h.payloadEndian));
    }
  }

  class RetryClient {
    const host: Endianness
    const job: Job
    var state: TransactionState
    var attempts: nat
    var timerArmed: bool
    var stopRequested: bool
    var serviceAvailable: bool
    var succeeded: bool

    ghost function View(): Client
      reads this
    {
      Client(state, attempts, timerArmed, stopRequested, serviceAvailable, succeeded)
    }

    constructor (job: Job, host: Endianness)
      ensures View() == NEW_CLIENT && this.job == job
    {
      this.host, this.job := host, job;
      state, attempts, timerArmed := Idle, 0, false;
      stopRequested, serviceAvailable, succeeded := false, true, false;
    }

    method SendRequestFrame(sendOk: bool) returns (ok: bool, sent: Option<seq<byte>>)
      ensures ok == sendOk && sent == if sendOk then Some(Request(job.id, job.interval)) else None
    {
      hide FrameBytes, LittleBytes;
      var payload := EncodeScalar(job.interval, 4, host);
      var built, frame := BuildFrame(ControlHeader(SET_REPORTING_INTERVAL, job.id, 1), payload, 256, host);
      ok, sent := sendOk, if sendOk then Some(frame) else None;
    }

    method DisarmTimer(local: Local)
      modifies this`timerArmed
      ensures View() == Disarm(old(View()), local)
    {
      timerArmed := timerArmed && !local.disarmOk;
    }

    method Fail(local: Local)
      modifies this
      ensures View() == FailTransaction(old(View()), local)
    {
      DisarmTimer(local);
      state := Failed;
      succeeded := false;
      stopRequested := true;
    }

    method Exhaust()
      modifies this
      ensures View() == ExhaustRetryBudget(old(View()))
    {
      serviceAvailable := false;
      state := Failed;
      succeeded := false;
      stopRequested := true;
    }

    method ArmRetryDelay(armOk: bool) returns (ok: bool)
      modifies this`state, this`timerArmed
      ensures ok == armOk
      ensures View() == old(View()).(state := WaitingToRetry, timerArmed := old(timerArmed) || armOk)
    {
      state := WaitingToRetry;
      timerArmed := timerArmed || armOk;
      return armOk;
    }

    method Schedule(local: Local)
      modifies this
      ensures View() == ScheduleRetry(old(View()), job, local)
    {
      if attempts >= job.maxAttempts {
        Exhaust();
        return;
      }
      var ok := ArmRetryDelay(local.armOk);
      if !ok {
        Fail(local);
      }
    }

    method Attempt(local: Local) returns (ok: bool, sent: Option<seq<byte>>)
      modifies this
      ensures (View(), sent) == SendAttempt(old(View()), job, local)
      ensures ok == (local.sendOk && local.armOk)
    {
      hide Request;
      attempts := attempts + 1;
      ok, sent := SendRequestFrame(local.sendOk);
      if !ok {
        Fail(local);
        return;
      }
      timerArmed := timerArmed || local.armOk;
      if !local.armOk {
        Fail(local);
        return false, sent;
      }
      state := WaitingForResponse;
    }

    // The one-shot timer has just expired.
    method OnTransactionTimer(local: Local) returns (sent: Option<seq<byte>>)
      modifies this
      ensures (View(), sent) == OnTimer(old(View()), job, local)
    {
      hide Request;
      timerArmed := false;
      sent := None;
      if state == WaitingForResponse {
        Schedule(local);
        return;
      }
      if state == WaitingToRetry {
        var _, datagram := Attempt(local);
        sent := datagram;
      }
    }

    method ReadNack(payload: seq<byte>, endian: Endianness) returns (reason: Option<byte>)
      ensures reason == if |payload| == 1 && BUSY <= payload[0] <= UNSUPPORTED_OPERATION then Some(payload[0]) else None
    {
      var reader := new BinaryReadStream(payload, host, endian, MAX_SIZE);
      var value := reader.ReadScalar(1, 0);
      if reader.error != NoError || |payload| - reader.pos != 0 {
        return None;
      }
      assert payload[0..1] == payload;
      OneByteValue(payload, endian);
      return if BUSY <= value <= UNSUPPORTED_OPERATION then Some(value) else None;
    }

    static lemma OneByteValue(payload: seq<byte>, endian: Endianness)
      requires |payload| == 1
      ensures WireValue(payload, endian) == payload[0]
    {
      assert Reversed(payload) == payload;
      assert LittleValue(payload) == payload[0] + 256 * LittleValue(payload[1..]);
    }

    method OnResponse(bytes: seq<byte>, local: Local)
      modifies this
      ensures View() == RetryProtocol.OnResponse(old(View()), job, bytes, local)
    {
      hide ReadFrame;
      if state != WaitingForResponse && state != WaitingToRetry {
        return;
      }
      var status, h, payload := ReadFrameV1(bytes, host);
      if status != FrameOk {
        return;
      }
      if h.serviceId != CONTROL_SERVICE {
        return;
      }
      if h.transactionId != job.id {
        return;
      }
      if h.messageType == ACK {
        if payload != [] {
          return;
        }
        DisarmTimer(local);
        state := Succeeded;
        succeeded := true;
        stopRequested := true;
        return;
      }
      if h.messageType == NACK {
        var reason := ReadNack(payload, PayloadEndianness(h.payloadEndian));
        if reason == None {
          return;
        }
        DisarmTimer(local);
        if reason.value == BUSY {
          Schedule(local);
        } else {
          Fail(local);
        }
      }
    }
  }
}
