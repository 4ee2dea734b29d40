// What the subscription table guarantees over any history of requests and polls.

module SubscriptionTheorems {
  import opened Bytes
  import opened MonitoringText
  import opened Nmea
  import opened NmeaTheorems
  import opened Subscriptions

  // The requests that reach the table, and the polls; every one with the clock's reading.
  datatype Op = Subscribe(key: Key, interval: nat, at: int) | Unsubscribe(key: Key, at: int) | Poll(at: int)

  predicate Admissible(op: Op) {
    op.Subscribe? ==> MIN_INTERVAL <= op.interval <= MAX_INTERVAL
  }

  ghost function Apply(t: Table, op: Op): (u: Table)
    requires t.Valid() && Admissible(op)
    ensures u.Valid()
  {
    match op
    case Subscribe(key, interval, at) => t.Upsert(key, interval, at).1
    case Unsubscribe(key, _) =>
      RemoveKeepsValid(t, key);
      t.Remove(key)
    case Poll(at) =>
      PolledKeepsValid(t, at);
      t.Polled(at)
  }

  lemma RemoveSize(t: Table, key: Key)
    ensures |t.Remove(key).entries| == |t.entries| - if key in t.entries then 1 else 0
  {
    var m := t.Remove(key).entries;
    assert m.Keys == t.entries.Keys - {key};
    assert |m| == |m.Keys| && |t.entries| == |t.entries.Keys|;
  }

  lemma PolledSize(t: Table, now: int)
    requires t.Valid()
    ensures |t.Polled(now).entries| == |t.entries|
  {
    WeatherDevice.SameSize(t.entries, t.Polled(now).entries);
  }

  lemma RemoveKeepsValid(t: Table, key: Key)
    requires t.Valid()
    ensures t.Remove(key).Valid()
  {
    RemoveSize(t, key);
  }

  lemma PolledKeepsValid(t: Table, now: int)
    requires t.Valid()
    ensures t.Polled(now).Valid()
  {
    PolledSize(t, now);
    hide Advanced;
  }

  // The clock never goes back.
  ghost predicate History(ops: seq<Op>, start: int)
    decreases |ops|
  {
    ops == [] ||
    var before, last := ops[..|ops| - 1], ops[|ops| - 1];
    Admissible(last) && History(before, start) && Clock(before, start) <= last.at
  }

  function Clock(ops: seq<Op>, start: int): int {
    if ops == [] then start else ops[|ops| - 1].at
  }

  ghost function After(t: Table, ops: seq<Op>, start: int): (u: Table)
    requires t.Valid() && History(ops, start)
    ensures u.Valid()
    decreases |ops|
  {
    if ops == [] then t else Apply(After(t, ops[..|ops| - 1], start), ops[|ops| - 1])
  }

  // ---- upsert fails exactly when every slot is taken by another key ----

  lemma FullExactly(slots: seq<Subscription>)
    requires |slots| == CAPACITY && Unique(slots)
    ensures |MapOf(slots)| <= CAPACITY
    ensures |MapOf(slots)| == CAPACITY <==> forall k :: 0 <= k < CAPACITY ==> slots[k].active
  {
    hide MapOf, ActiveCount;
    MapSize(slots);
    if k :| 0 <= k < CAPACITY && !slots[k].active {
      WeatherDevice.NotFull(slots, k);
    } else {
      FullCount(slots);
    }
  }

  // Over the sixteen slots: an upsert fails if and only if each is active and none has the key; then
  // nothing changes. Otherwise the entry may go into the slot that has the key or, if none has, into
  // any free one, and whichever it is, that is the map's update.
  lemma UpsertExactly(slots: seq<Subscription>, highWater: nat, key: Key, interval: nat, now: int)
    requires |slots| == CAPACITY && Unique(slots)
    ensures var t := Table(MapOf(slots), highWater);
            var (ok, u) := t.Upsert(key, interval, now);
            var changed := Subscription(true, key.endpoint, key.report, interval, now + interval * TICKS);
            && (!ok <==> forall k :: 0 <= k < CAPACITY ==> slots[k].active && slots[k].KeyOf() != key)
            && (!ok ==> u == t)
            && (ok <==> exists k :: 0 <= k < CAPACITY && MayTake(slots, k, key))
            && (forall k :: 0 <= k < CAPACITY && MayTake(slots, k, key) ==> u.entries == MapOf(slots[k := changed]))
  {
    hide MapOf;
    var changed := Subscription(true, key.endpoint, key.report, interval, now + interval * TICKS);
    MapHas(slots, key);
    FullExactly(slots);
    if Table(MapOf(slots), highWater).Upsert(key, interval, now).0 {
      var k :| 0 <= k < CAPACITY && if key in MapOf(slots) then slots[k].active && slots[k].KeyOf() == key
                                    else !slots[k].active;
      assert MayTake(slots, k, key);
    }
    forall k | 0 <= k < CAPACITY && MayTake(slots, k, key)
      ensures MapOf(slots)[key := changed.EntryOf()] == MapOf(slots[k := changed])
    {
      SlotTaken(slots, k, changed);
    }
  }

  // ---- from the monitor's sentence to the device's table ----

  // Every request at every table. An unknown report, or an interval below 100 ms or above a minute, is
  // an invalid parameter; a seventeenth subscription is refused as busy; else the subscription is there
  // with its first deadline one interval ahead. Unsubscribing always succeeds for a known report.
  lemma AnsweredExactly(t: Table, endpoint: Endpoint, request: Request, now: int)
    ensures var (reply, u) := Answered(t, endpoint, request, now);
            if request.Subscribe? then
              if request.report.None? || request.interval < 100 || request.interval > 60000 then
                reply == Some(Reply(request.transaction, InvalidParam)) && u == t
              else
                var key := Key(endpoint, request.report.value);
                if key !in t.entries && |t.entries| >= 16 then
                  reply == Some(Reply(request.transaction, Busy)) && u == t
                else
                  && reply == Some(Reply(request.transaction, AnswerOk))
                  && u.entries == t.entries[key := Entry(request.interval, now + request.interval * 1_000_000)]
                  && u.highWater == (if key !in t.entries && |t.entries| + 1 > t.highWater then |t.entries| + 1
                                     else t.highWater)
            else if request.Unsubscribe? then
              if request.report.None? then reply == Some(Reply(request.transaction, InvalidParam)) && u == t
              else
                && reply == Some(Reply(request.transaction, AnswerOk))
                && u == Table(t.entries - {Key(endpoint, request.report.value)}, t.highWater)
            else reply == None && u == t
  {
  }

  // The sentence a monitor builds to subscribe is answered under its own transaction, and unless it is
  // refused the table then holds just what was asked for.
  lemma SubscribeTakesEffect(t: Table, endpoint: Endpoint, transaction: u32, report: ReportType, interval: u32,
                             now: int)
    ensures var built, key := Build(SubscribeBody(transaction, report, interval)), Key(endpoint, report);
            built.Some? &&
            var (reply, u) := Answered(t, endpoint, ReadRequest(built.value), now);
            && reply.Some? && reply.value.transaction == transaction
            && (reply.value.answer == InvalidParam <==> !(MIN_INTERVAL <= interval <= MAX_INTERVAL))
            && (reply.value.answer == AnswerOk <==>
                  MIN_INTERVAL <= interval <= MAX_INTERVAL && (key in t.entries || |t.entries| < CAPACITY))
            && (reply.value.answer == AnswerOk ==>
                  u.entries == t.entries[key := Entry(interval, now + interval * TICKS)])
            && (reply.value.answer != AnswerOk ==> u == t)
  {
    SubscribeArrives(transaction, report, interval);
    hide Build, SubscribeBody, ReadRequest;
  }

  lemma UnsubscribeTakesEffect(t: Table, endpoint: Endpoint, transaction: u32, report: ReportType, now: int)
    ensures var built, key := Build(UnsubscribeBody(transaction, report)), Key(endpoint, report);
            built.Some? &&
            var (reply, u) := Answered(t, endpoint, ReadRequest(built.value), now);
            && reply == Some(Reply(transaction, AnswerOk)) && key !in u.entries
            && (forall other :: other != key ==>
                  (other in u.entries <==> other in t.entries)
                  && (other in t.entries ==> u.entries[other] == t.entries[other]))
  {
    UnsubscribeArrives(transaction, report);
    hide Build, UnsubscribeBody, ReadRequest;
  }

  // With one character of its body exchanged, no sentence has an effect or an answer.
  lemma DamagedHasNoEffect(t: Table, endpoint: Endpoint, body: Text, damaged: Text, k: nat, tail: Text, now: int)
    requires |damaged| == |body| && k < |body| && damaged[k] != body[k]
    requires forall j :: 0 <= j < |body| && j != k ==> damaged[j] == body[j]
    requires LineEnds(tail)
    ensures Answered(t, endpoint, ReadRequest(SealedWith(damaged, Checksum(body)) + tail), now) == (None, t)
  {
    DamagedRequestInvalid(body, damaged, k, tail);
    hide ReadRequest, SealedWith, Checksum;
  }

  // ---- the high-water mark ----

  ghost function MaxSize(t: Table, ops: seq<Op>, start: int): nat
    requires t.Valid() && History(ops, start)
    decreases |ops|
  {
    var n := |After(t, ops, start).entries|;
    if ops == [] then n
    else
      var before := MaxSize(t, ops[..|ops| - 1], start);
      if n > before then n else before
  }

  lemma ApplyHighWater(t: Table, op: Op)
    requires t.Valid() && Admissible(op) && t.highWater >= |t.entries|
    ensures var u := Apply(t, op);
            u.highWater == if |u.entries| > t.highWater then |u.entries| else t.highWater
  {
    match op
    case Subscribe(key, _, _) =>
    case Unsubscribe(key, _) => RemoveSize(t, key);
    case Poll(at) => PolledSize(t, at);
  }

  // The mark is the largest number of subscriptions there has been at any time.
  lemma {:induction false} HighWaterIsMaximum(ops: seq<Op>, start: int)
    requires History(ops, start)
    ensures After(EMPTY_TABLE, ops, start).highWater == MaxSize(EMPTY_TABLE, ops, start)
    ensures MaxSize(EMPTY_TABLE, ops, start) >= |After(EMPTY_TABLE, ops, start).entries|
    decreases |ops|
  {
    hide Apply;
    if ops != [] {
      var n := |ops| - 1;
      HighWaterIsMaximum(ops[..n], start);
      ApplyHighWater(After(EMPTY_TABLE, ops[..n], start), ops[n]);
    }
  }

  // ---- deadlines ----

  // Every deadline lies at most one interval ahead of the clock.
  ghost predicate Near(t: Table, now: int) {
    forall k :: k in t.entries ==> t.entries[k].nextDue <= now + t.entries[k].Period()
  }

  ghost predicate Ahead(t: Table, now: int) {
    forall k :: k in t.entries ==> now < t.entries[k].nextDue
  }

  lemma DueInWindow(e: Entry, now: int)
    requires e.interval > 0 && e.nextDue <= now + e.Period()
    ensures now < Due(e, now).nextDue <= now + e.Period() && Due(e, now).interval == e.interval
  {
    if e.nextDue <= now {
      AdvancedIsFirstAfter(e.nextDue, e.Period(), now);
    }
  }

  lemma ApplyKeepsNear(t: Table, op: Op, before: int)
    requires t.Valid() && Admissible(op) && Near(t, before) && before <= op.at
    ensures Near(Apply(t, op), op.at)
    ensures op.Poll? ==> Ahead(Apply(t, op), op.at)
  {
    var u := Apply(t, op);
    hide Advanced;
    if op.Poll? {
      forall k | k in u.entries ensures op.at < u.entries[k].nextDue <= op.at + u.entries[k].Period() {
        DueInWindow(t.entries[k], op.at);
      }
    }
  }

  lemma {:induction false} DeadlinesNear(ops: seq<Op>, start: int)
    requires History(ops, start)
    ensures Near(After(EMPTY_TABLE, ops, start), Clock(ops, start))
    decreases |ops|
  {
    hide Apply;
    if ops != [] {
      var n := |ops| - 1;
      DeadlinesNear(ops[..n], start);
      ApplyKeepsNear(After(EMPTY_TABLE, ops[..n], start), ops[n], Clock(ops[..n], start));
    }
  }

  // After every poll each deadline lies in (now, now + interval].
  lemma DeadlinesAfterPoll(ops: seq<Op>, start: int)
    requires History(ops, start) && ops != [] && ops[|ops| - 1].Poll?
    ensures var (t, now) := (After(EMPTY_TABLE, ops, start), ops[|ops| - 1].at);
            forall k :: k in t.entries ==> now < t.entries[k].nextDue <= now + t.entries[k].interval * TICKS
  {
    hide Apply;
    var n := |ops| - 1;
    DeadlinesNear(ops[..n], start);
    ApplyKeepsNear(After(EMPTY_TABLE, ops[..n], start), ops[n], Clock(ops[..n], start));
  }

  // ---- no drift ----

  predicate Touches(op: Op, key: Key) {
    !op.Poll? && op.key == key
  }

  function LastPoll(ops: seq<Op>, start: int): int {
    if ops == [] then start
    else if ops[|ops| - 1].Poll? then ops[|ops| - 1].at
    else LastPoll(ops[..|ops| - 1], start)
  }

  lemma {:induction false} LastPollBeforeClock(ops: seq<Op>, start: int)
    requires History(ops, start)
    ensures start <= LastPoll(ops, start) <= Clock(ops, start)
    decreases |ops|
  {
    if ops != [] {
      LastPollBeforeClock(ops[..|ops| - 1], start);
    }
  }

  // The deadline a subscription's first deadline and the latest poll determine.
  function Scheduled(first: int, period: int, poll: int): int
    requires period > 0
  {
    if poll < first then first else FirstAfter(first, period, poll)
  }

  lemma ScheduledOnce(first: int, period: int, t: int, now: int)
    requires period > 0 && t <= now
    ensures var d := Scheduled(first, period, t);
            (if now < d then d else Advanced(d, period, now)) == Scheduled(first, period, now)
  {
    if t < first {
      if first <= now { AdvancedIsFirstAfter(first, period, now); }
    } else {
      AdvancedIsFirstAfter(first, period, t);
      AdvancedIsFirstAfter(first, period, now);
      AdvancedTwice(first, period, t, now);
    }
  }

  lemma UntouchedStep(t: Table, op: Op, key: Key)
    requires t.Valid() && Admissible(op) && key in t.entries && !Touches(op, key)
    ensures var u := Apply(t, op);
            key in u.entries && u.entries[key] == if op.Poll? then Due(t.entries[key], op.at) else t.entries[key]
  {
    hide Due;
  }

  // However many polls there were and however late each came, and whatever happened to other
  // subscriptions: the deadline is the first moment after the latest poll that lies a whole number
  // of intervals behind the subscription's first deadline.
  lemma {:induction false} NeverDrifts(t: Table, key: Key, ops: seq<Op>, start: int)
    requires t.Valid() && key in t.entries && History(ops, start)
    requires t.entries[key].nextDue > start
    requires forall k :: 0 <= k < |ops| ==> !Touches(ops[k], key)
    ensures var e := t.entries[key];
            && e.Period() > 0
            && key in After(t, ops, start).entries
            && After(t, ops, start).entries[key]
               == e.(nextDue := Scheduled(e.nextDue, e.Period(), LastPoll(ops, start)))
    decreases |ops|
  {
    hide Apply, Due, FirstAfter;
    var e := t.entries[key];
    PositivePeriod(e);
    if ops != [] {
      var n := |ops| - 1;
      NeverDrifts(t, key, ops[..n], start);
      UntouchedStep(After(t, ops[..n], start), ops[n], key);
      if ops[n].Poll? {
        LastPollBeforeClock(ops[..n], start);
        PolledEntry(e, LastPoll(ops[..n], start), ops[n].at);
      }
    }
  }

  lemma PositivePeriod(e: Entry)
    requires e.interval > 0
    ensures e.Period() > 0
  {
  }

  lemma PolledEntry(e: Entry, t: int, now: int)
    requires e.interval > 0 && e.Period() > 0 && t <= now
    ensures Due(e.(nextDue := Scheduled(e.nextDue, e.Period(), t)), now)
         == e.(nextDue := Scheduled(e.nextDue, e.Period(), now))
  {
    hide Advanced, Scheduled;
    ScheduledOnce(e.nextDue, e.Period(), t, now);
  }
}
