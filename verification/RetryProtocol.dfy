// One request, acknowledged over datagrams: what the client and the server do with each timer expiry
// and each datagram, as functions.

module RetryProtocol {
  import opened Bytes
  import opened MessageFrame

  const CONTROL_SERVICE: u16 := 1
  const SET_REPORTING_INTERVAL: u16 := 1
  const ACK: u16 := 2
  const NACK: u16 := 3

  const BUSY: byte := 1
  const INVALID_VALUE: byte := 2
  const UNSUPPORTED_OPERATION: byte := 3

  // ---- messages ----

  function ControlHeader(messageType: u16, id: u32, flags: u32): MessageHeaderV1 {
    DEFAULT_HEADER.(serviceId := CONTROL_SERVICE, messageType := messageType, transactionId := id, flags := flags)
  }

  function Request(id: u32, interval: u32): seq<byte> {
    FrameBytes(ControlHeader(SET_REPORTING_INTERVAL, id, 1), LittleBytes(interval, 4))
  }

  function Ack(id: u32): seq<byte> {
    FrameBytes(ControlHeader(ACK, id, 0), [])
  }

  function Nack(id: u32, reason: byte): seq<byte> {
    FrameBytes(ControlHeader(NACK, id, 0), [reason])
  }

  // ---- the server ----

  datatype ServerMode = Normal | DropFirstAck | BusyOnce | Silent

  // applied lists every change of the interval with the transaction that asked for it.
  datatype Server = Server(interval: u32, completed: Option<u32>, firstAckDropped: bool, busyNackSent: bool,
                           applied: seq<(u32, u32)>)

  predicate InRange(interval: nat) {
    100 <= interval <= 60000
  }

  function PayloadEndianness(payloadEndian: byte): Endianness {
    if payloadEndian == 0 then Little else Big
  }

  function Process(s: Server, mode: ServerMode, id: u32, payload: seq<byte>, endian: Endianness)
    : (Server, Option<seq<byte>>)
  {
    if |payload| != 4 then (s, None)
    else
      LittleSurjective(payload);
      LittleSurjective(Reversed(payload));
      FourBytes();
      var interval := WireValue(payload, endian);
      if !InRange(interval) then (s, Some(Nack(id, INVALID_VALUE)))
      else
        var t := s.(interval := interval, completed := Some(id), applied := s.applied + [(id, interval)]);
        if mode == DropFirstAck && !s.firstAckDropped then (t.(firstAckDropped := true), None)
        else if mode == Silent then (t, None)
        else (t, Some(Ack(id)))
  }

  lemma FourBytes()
    ensures Pow256(4) == 0x1_0000_0000
  {
    assert Pow256(4) == 256 * Pow256(3) == 256 * 256 * Pow256(2);
  }

  // The server's next state and the reply it sends.
  function OnRequest(s: Server, mode: ServerMode, bytes: seq<byte>): (Server, Option<seq<byte>>) {
    match ReadFrame(bytes)
    case Rejected(_) => (s, None)
    case Frame(h, payload) =>
      if h.serviceId != CONTROL_SERVICE || h.transactionId == 0 then (s, None)
      else if h.messageType != SET_REPORTING_INTERVAL then (s, Some(Nack(h.transactionId, UNSUPPORTED_OPERATION)))
      else if s.completed == Some(h.transactionId) then
        (s, if mode == Silent then None else Some(Ack(h.transactionId)))
      else if mode == BusyOnce && !s.busyNackSent then
        (s.(busyNackSent := true), Some(Nack(h.transactionId, BUSY)))
      else Process(s, mode, h.transactionId, payload, PayloadEndianness(h.payloadEndian))
  }

  // ---- the client ----

  datatype TransactionState = Idle | WaitingForResponse | WaitingToRetry | Succeeded | Failed

  datatype Client = Client(state: TransactionState, attempts: nat, timerArmed: bool, stopRequested: bool,
                           serviceAvailable: bool, succeeded: bool)

  // What the client was asked to do.
  datatype Job = Job(id: u32, interval: u32, maxAttempts: u32)

  const NEW_CLIENT := Client(Idle, 0, false, false, true, false)

  // What the system makes of an event's calls: whether the datagram can be sent, the timer armed, and
  // the timer disarmed. A timer that cannot be armed or disarmed stays as it was; two tries to disarm
  // it in one event leave it as one does, for a timer that is already disarmed is so for good.
  datatype Local = Local(sendOk: bool, armOk: bool, disarmOk: bool)

  // Nobody looks at whether disarming worked.
  function Disarm(c: Client, local: Local): Client {
    c.(timerArmed := c.timerArmed && !local.disarmOk)
  }

  function FailTransaction(c: Client, local: Local): Client {
    Disarm(c, local).(state := Failed, succeeded := false, stopRequested := true)
  }

  function ExhaustRetryBudget(c: Client): Client {
    c.(state := Failed, serviceAvailable := false, succeeded := false, stopRequested := true)
  }

  function ScheduleRetry(c: Client, job: Job, local: Local): Client {
    if c.attempts >= job.maxAttempts then ExhaustRetryBudget(c)
    else if !local.armOk then FailTransaction(c.(state := WaitingToRetry), local)
    else c.(state := WaitingToRetry, timerArmed := true)
  }

  function SendAttempt(c: Client, job: Job, local: Local): (Client, Option<seq<byte>>) {
    var d := c.(attempts := c.attempts + 1);
    if !local.sendOk then (FailTransaction(d, local), None)
    else if !local.armOk then (FailTransaction(d, local), Some(Request(job.id, job.interval)))
    else (d.(state := WaitingForResponse, timerArmed := true), Some(Request(job.id, job.interval)))
  }

  // The timer is one-shot: when it expires it is no longer armed.
  function OnTimer(c: Client, job: Job, local: Local): (Client, Option<seq<byte>>) {
    var d := c.(timerArmed := false);
    match c.state
    case WaitingForResponse => (ScheduleRetry(d, job, local), None)
    case WaitingToRetry => SendAttempt(d, job, local)
    case _ => (d, None)
  }

  predicate Waiting(c: Client) {
    c.state == WaitingForResponse || c.state == WaitingToRetry
  }

  function OnResponse(c: Client, job: Job, bytes: seq<byte>, local: Local): Client {
    if !Waiting(c) then c
    else
      match ReadFrame(bytes)
      case Rejected(_) => c
      case Frame(h, payload) =>
        if h.serviceId != CONTROL_SERVICE || h.transactionId != job.id then c
        else if h.messageType == ACK then
          if payload != [] then c
          else Disarm(c, local).(state := Succeeded, succeeded := true, stopRequested := true)
        else if h.messageType == NACK then
          if |payload| != 1 || !(BUSY <= payload[0] <= UNSUPPORTED_OPERATION) then c
          else if payload[0] == BUSY then ScheduleRetry(Disarm(c, local), job, local)
          else FailTransaction(Disarm(c, local), local)
        else c
  }

  // ---- what the messages mean at the other end ----

  lemma RequestRead(id: u32, interval: u32)
    ensures var r := ReadFrame(Request(id, interval));
            && r.Frame? && r.header.serviceId == CONTROL_SERVICE && r.header.transactionId == id
            && r.header.messageType == SET_REPORTING_INTERVAL && r.header.payloadEndian == 0
            && |r.payload| == 4 && WireValue(r.payload, Little) == interval
  {
    FrameRoundTrip(ControlHeader(SET_REPORTING_INTERVAL, id, 1), LittleBytes(interval, 4));
    FourBytes();
    LittleRoundTrip(interval, 4);
    hide ReadFrame, HeaderCrc, FrameBytes, LittleBytes, LittleValue;
  }

  lemma AckRead(id: u32)
    ensures var r := ReadFrame(Ack(id));
            && r.Frame? && r.header.serviceId == CONTROL_SERVICE && r.header.transactionId == id
            && r.header.messageType == ACK && r.payload == []
  {
    FrameRoundTrip(ControlHeader(ACK, id, 0), []);
    hide ReadFrame, HeaderCrc, FrameBytes;
  }

  lemma NackRead(id: u32, reason: byte)
    ensures var r := ReadFrame(Nack(id, reason));
            && r.Frame? && r.header.serviceId == CONTROL_SERVICE && r.header.transactionId == id
            && r.header.messageType == NACK && r.payload == [reason]
  {
    FrameRoundTrip(ControlHeader(NACK, id, 0), [reason]);
    hide ReadFrame, HeaderCrc, FrameBytes;
  }

  // A request for a fresh transaction: what the server makes of it.
  lemma ServerOnRequest(s: Server, mode: ServerMode, id: u32, interval: u32)
    requires id != 0
    ensures var (t, reply) := OnRequest(s, mode, Request(id, interval));
            if s.completed == Some(id) then t == s && reply == if mode == Silent then None else Some(Ack(id))
            else if mode == BusyOnce && !s.busyNackSent then
              t == s.(busyNackSent := true) && reply == Some(Nack(id, BUSY))
            else if !InRange(interval) then t == s && reply == Some(Nack(id, INVALID_VALUE))
            else
              && t.interval == interval && t.completed == Some(id) && t.applied == s.applied + [(id, interval)]
              && t.busyNackSent == s.busyNackSent
              && (reply == None || reply == Some(Ack(id)))
              && (reply == None <==> mode == Silent || (mode == DropFirstAck && !s.firstAckDropped))
              && t.firstAckDropped == (s.firstAckDropped || mode == DropFirstAck)
  {
    RequestRead(id, interval);
    hide ReadFrame, Request, Ack, Nack, WireValue;
  }

  // The three messages are told apart.
  lemma RepliesDiffer(id: u32, reason: byte, other: byte)
    ensures Ack(id) != Nack(id, reason)
    ensures reason != other ==> Nack(id, reason) != Nack(id, other)
  {
    AckRead(id);
    NackRead(id, reason);
    NackRead(id, other);
    hide ReadFrame, Ack, Nack;
  }

  lemma ClientOnAck(c: Client, job: Job, local: Local)
    ensures OnResponse(c, job, Ack(job.id), local)
         == if Waiting(c) then Disarm(c, local).(state := Succeeded, succeeded := true, stopRequested := true)
            else c
  {
    AckRead(job.id);
    hide ReadFrame, Ack;
  }

  lemma ClientOnNack(c: Client, job: Job, reason: byte, local: Local)
    requires BUSY <= reason <= UNSUPPORTED_OPERATION
    ensures OnResponse(c, job, Nack(job.id, reason), local)
         == if !Waiting(c) then c
            else if reason == BUSY then ScheduleRetry(Disarm(c, local), job, local)
            else FailTransaction(Disarm(c, local), local)
  {
    NackRead(job.id, reason);
    hide ReadFrame, Nack, ScheduleRetry, FailTransaction;
  }

  // ---- everything else ----

  // What is no request to this service, or to set the interval, changes nothing at the server; only
  // an operation it does not know is answered.
  lemma ServerOnOther(s: Server, mode: ServerMode, h: MessageHeaderV1, payload: seq<byte>)
    requires |payload| < 0x1_0000_0000
    requires h.serviceId != CONTROL_SERVICE || h.transactionId == 0 || h.messageType != SET_REPORTING_INTERVAL
          || !Acceptable(h)
    ensures OnRequest(s, mode, FrameBytes(h, payload))
         == (s, if Acceptable(h) && h.serviceId == CONTROL_SERVICE && h.transactionId != 0
                then Some(Nack(h.transactionId, UNSUPPORTED_OPERATION)) else None)
  {
    FrameRoundTrip(h, payload);
    hide ReadFrame, FrameBytes, HeaderCrc, Nack, Process;
  }

  lemma ProcessExactly(s: Server, mode: ServerMode, id: u32, payload: seq<byte>, endian: Endianness)
    ensures var (t, reply) := Process(s, mode, id, payload, endian);
            var interval := WireValue(payload, endian);
            && (|payload| != 4 ==> t == s && reply == None)
            && (|payload| == 4 && !InRange(interval) ==> t == s && reply == Some(Nack(id, INVALID_VALUE)))
            && (|payload| == 4 && InRange(interval) ==>
                  t.applied == s.applied + [(id, interval)] && t.interval == interval)
  {
    hide Nack, Ack, WireValue;
  }

  // A fresh request is read in the byte order its header names, and ignored if it is not four bytes.
  lemma ServerOnPayload(s: Server, mode: ServerMode, h: MessageHeaderV1, payload: seq<byte>)
    requires Acceptable(h) && h.serviceId == CONTROL_SERVICE && h.transactionId != 0
    requires h.messageType == SET_REPORTING_INTERVAL && |payload| < 0x1_0000_0000
    requires s.completed != Some(h.transactionId) && (mode == BusyOnce ==> s.busyNackSent)
    ensures var (t, reply) := OnRequest(s, mode, FrameBytes(h, payload));
            var interval := WireValue(payload, if h.payloadEndian == 0 then Little else Big);
            && (|payload| != 4 ==> t == s && reply == None)
            && (|payload| == 4 && !InRange(interval) ==> t == s && reply == Some(Nack(h.transactionId, INVALID_VALUE)))
            && (|payload| == 4 && InRange(interval) ==>
                  t.applied == s.applied + [(h.transactionId, interval)] && t.interval == interval)
  {
    hide ReadFrame, FrameBytes, HeaderCrc, Nack, Ack, WireValue, Process, InRange;
    FrameRoundTrip(h, payload);
    ProcessExactly(s, mode, h.transactionId, payload, PayloadEndianness(h.payloadEndian));
    assert OnRequest(s, mode, FrameBytes(h, payload))
        == Process(s, mode, h.transactionId, payload, PayloadEndianness(h.payloadEndian));
    hide OnRequest;
  }

  // The client takes no notice of other services and transactions, of acknowledgements with a payload,
  // of refusals without exactly one known reason, and of any other message.
  lemma ClientOnOther(c: Client, job: Job, h: MessageHeaderV1, payload: seq<byte>, local: Local)
    requires |payload| < 0x1_0000_0000
    requires || !Acceptable(h) || h.serviceId != CONTROL_SERVICE || h.transactionId != job.id
             || (h.messageType == ACK && payload != [])
             || (h.messageType == NACK && (|payload| != 1 || payload[0] == 0 || payload[0] > UNSUPPORTED_OPERATION))
             || (h.messageType != ACK && h.messageType != NACK)
    ensures OnResponse(c, job, FrameBytes(h, payload), local) == c
  {
    FrameRoundTrip(h, payload);
    hide ReadFrame, FrameBytes, HeaderCrc, ScheduleRetry, FailTransaction;
  }
}
