// The subscription table of the weather device: sixteen slots that behave like a map, and deadlines
// that never drift.

module Subscriptions {
  import opened Arithmetic
  import opened Bytes
  import opened MonitoringText
  import opened Nmea
  import NmeaStreams

  datatype Endpoint = Endpoint(family: nat, port: nat, address: nat)

  // A subscription is known by who gets which report.
  datatype Key = Key(endpoint: Endpoint, report: ReportType)

  const CAPACITY := 16
  const MIN_INTERVAL := 100
  const MAX_INTERVAL := 60000
  const TICKS := 1_000_000  // ticks of the clock, nanoseconds, in a millisecond

  // The interval is in milliseconds; the deadline is a reading of the clock.
  datatype Entry = Entry(interval: nat, nextDue: int) {
    function Period(): int { interval * TICKS }
  }

  // ---- deadlines ----

  // The advance the device makes: from the prior deadline, period by period, until it lies ahead.
  function Advanced(due: int, period: int, now: int): int
    requires period > 0
    decreases if due <= now then now - due + 1 else 0
  {
    if due + period > now then due + period else Advanced(due + period, period, now)
  }

  // Where the advance ends, in closed form.
  function FirstAfter(due: int, period: int, now: int): int
    requires period > 0
  {
    due + period * ((now - due) / period + 1)
  }

  lemma StepClosed(due: int, period: int, now: int)
    requires period > 0
    ensures FirstAfter(due + period, period, now) == FirstAfter(due, period, now)
  {
    QuotientStep(now - due, period);
    var q := (now - due) / period;
    assert now - (due + period) == now - due - period;
    assert due + period + period * (q - 1 + 1) == due + period * (q + 1);
  }

  lemma {:induction false} AdvancedIsFirstAfter(due: int, period: int, now: int)
    requires period > 0 && due <= now
    ensures Advanced(due, period, now) == FirstAfter(due, period, now)
    ensures now < Advanced(due, period, now) <= now + period
    decreases now - due
  {
    if due + period > now {
      QuotientIs(now - due, period, 0, now - due);
    } else {
      AdvancedIsFirstAfter(due + period, period, now);
      StepClosed(due, period, now);
      hide FirstAfter;
    }
  }

  // Catching up at two moments one after the other is catching up at the later one: the deadline
  // does not depend on how often or how late the device polls.
  lemma AdvancedTwice(due: int, period: int, t: int, now: int)
    requires period > 0 && due <= t <= now
    ensures var d := Advanced(due, period, t);
            (if d <= now then Advanced(d, period, now) else d) == Advanced(due, period, now)
  {
    hide Advanced;
    var k := AdvancedBy(due, period, t);
    var m := AdvancedBy(due, period, now);
    var d := Advanced(due, period, t);
    if d <= now {
      var l := AdvancedBy(d, period, now);
      Distribute(period, k, l);
      SamePhase(due, period, k + l, m, now);
    } else {
      SamePhase(due, period, k, m, now);
    }
  }

  // The advance is by a whole number of periods.
  lemma AdvancedBy(due: int, period: int, now: int) returns (n: int)
    requires period > 0 && due <= now
    ensures Advanced(due, period, now) == due + period * n
    ensures now < due + period * n <= now + period
  {
    hide Advanced;
    AdvancedIsFirstAfter(due, period, now);
    n := (now - due) / period + 1;
  }

  // Two moments of the same phase in one period-long window are the same.
  lemma SamePhase(due: int, period: int, n: int, m: int, now: int)
    requires period > 0
    requires now < due + period * n <= now + period && now < due + period * m <= now + period
    ensures n == m
  {
    Distribute(period, n, -m);
    Multiples(period, n - m);
  }

  function Due(e: Entry, now: int): Entry
    requires e.interval > 0
  {
    if now < e.nextDue then e else e.(nextDue := Advanced(e.nextDue, e.Period(), now))
  }

  // ---- the table as a map ----

  // highWater is the largest number of subscriptions there has ever been.
  datatype Table = Table(entries: map<Key, Entry>, highWater: nat) {
    ghost predicate Valid() {
      |entries| <= CAPACITY && (forall k :: k in entries ==> MIN_INTERVAL <= entries[k].interval <= MAX_INTERVAL)
    }

    function Upsert(key: Key, interval: nat, now: int): (bool, Table) {
      var entry := Entry(interval, now + interval * TICKS);
      if key in entries then (true, this.(entries := entries[key := entry]))
      else if |entries| < CAPACITY then
        (true, Table(entries[key := entry], if |entries| + 1 > highWater then |entries| + 1 else highWater))
      else (false, this)
    }

    function Remove(key: Key): Table {
      this.(entries := entries - {key})
    }

    ghost function Polled(now: int): Table
      requires Valid()
    {
      this.(entries := map k | k in entries :: Due(entries[k], now))
    }
  }

  const EMPTY_TABLE := Table(map[], 0)

  // ---- the slots ----

  datatype Subscription =
    Subscription(active: bool, endpoint: Endpoint, report: ReportType, interval: nat, nextDue: int)
  {
    function KeyOf(): Key { Key(endpoint, report) }

    function EntryOf(): Entry { Entry(interval, nextDue) }
  }

  const NO_SUBSCRIPTION := Subscription(false, Endpoint(0, 0, 0), TemperatureReport, 0, 0)

  // No two active slots have the same key.
  ghost predicate Unique(slots: seq<Subscription>) {
    forall j, k :: 0 <= j < k < |slots| && slots[j].active && slots[k].active ==> slots[j].KeyOf() != slots[k].KeyOf()
  }

  function MapOf(slots: seq<Subscription>): map<Key, Entry> {
    if slots == [] then map[]
    else
      var rest, last := MapOf(slots[..|slots| - 1]), slots[|slots| - 1];
      if last.active then rest[last.KeyOf() := last.EntryOf()] else rest
  }

  ghost predicate Holds(slots: seq<Subscription>, key: Key) {
    exists k :: 0 <= k < |slots| && slots[k].active && slots[k].KeyOf() == key
  }

  function ActiveCount(slots: seq<Subscription>): nat {
    if slots == [] then 0
    else ActiveCount(slots[..|slots| - 1]) + if slots[|slots| - 1].active then 1 else 0
  }

  lemma HoldsSplit(slots: seq<Subscription>, key: Key)
    requires slots != []
    ensures var n := |slots| - 1;
            Holds(slots, key) <==> Holds(slots[..n], key) || (slots[n].active && slots[n].KeyOf() == key)
  {
    var n := |slots| - 1;
    if Holds(slots[..n], key) {
      var k :| 0 <= k < n && slots[..n][k].active && slots[..n][k].KeyOf() == key;
      assert slots[k].active && slots[k].KeyOf() == key;
    }
    if Holds(slots, key) && !(slots[n].active && slots[n].KeyOf() == key) {
      var k :| 0 <= k < |slots| && slots[k].active && slots[k].KeyOf() == key;
      assert slots[..n][k].active && slots[..n][k].KeyOf() == key;
    }
  }

  lemma UniquePrefix(slots: seq<Subscription>, n: nat)
    requires Unique(slots) && n <= |slots|
    ensures Unique(slots[..n])
  {
  }

  // The map has exactly the keys of the active slots.
  lemma {:induction false} MapHas(slots: seq<Subscription>, key: Key)
    ensures key in MapOf(slots) <==> Holds(slots, key)
    decreases |slots|
  {
    if slots != [] {
      MapHas(slots[..|slots| - 1], key);
      HoldsSplit(slots, key);
      hide Holds;
    }
  }

  lemma {:induction false} MapAt(slots: seq<Subscription>, k: nat)
    requires Unique(slots) && k < |slots| && slots[k].active
    ensures slots[k].KeyOf() in MapOf(slots) && MapOf(slots)[slots[k].KeyOf()] == slots[k].EntryOf()
    decreases |slots|
  {
    var n := |slots| - 1;
    if k < n {
      UniquePrefix(slots, n);
      MapAt(slots[..n], k);
    }
  }

  lemma {:induction false} MapSize(slots: seq<Subscription>)
    requires Unique(slots)
    ensures |MapOf(slots)| == ActiveCount(slots) <= |slots|
    decreases |slots|
  {
    if slots != [] {
      var n := |slots| - 1;
      UniquePrefix(slots, n);
      MapSize(slots[..n]);
      MapHas(slots[..n], slots[n].KeyOf());
    }
  }

  lemma {:induction false} FullCount(slots: seq<Subscription>)
    requires forall k :: 0 <= k < |slots| ==> slots[k].active
    ensures ActiveCount(slots) == |slots|
    decreases |slots|
  {
    if slots != [] {
      FullCount(slots[..|slots| - 1]);
    }
  }

  // Exchanging a slot exchanges its entry in the map.
  lemma MapSet(slots: seq<Subscription>, k: nat, now: Subscription)
    requires Unique(slots) && k < |slots| && Unique(slots[k := now])
    ensures var rest := if slots[k].active then MapOf(slots) - {slots[k].KeyOf()} else MapOf(slots);
            MapOf(slots[k := now]) == if now.active then rest[now.KeyOf() := now.EntryOf()] else rest
  {
    var after := slots[k := now];
    var rest := if slots[k].active then MapOf(slots) - {slots[k].KeyOf()} else MapOf(slots);
    var expected := if now.active then rest[now.KeyOf() := now.EntryOf()] else rest;
    forall key
      ensures key in MapOf(after) <==> key in expected
      ensures key in expected ==> MapOf(after)[key] == expected[key]
    {
      MapSetAt(slots, k, now, key);
    }
  }

  lemma UniquePair(slots: seq<Subscription>, j: nat, k: nat)
    requires Unique(slots) && j < |slots| && k < |slots| && j != k && slots[j].active && slots[k].active
    ensures slots[j].KeyOf() != slots[k].KeyOf()
  {
  }

  lemma MapSetAt(slots: seq<Subscription>, k: nat, now: Subscription, key: Key)
    requires Unique(slots) && k < |slots| && Unique(slots[k := now])
    ensures var rest := if slots[k].active then MapOf(slots) - {slots[k].KeyOf()} else MapOf(slots);
            var expected := if now.active then rest[now.KeyOf() := now.EntryOf()] else rest;
            && (key in MapOf(slots[k := now]) <==> key in expected)
            && (key in expected ==> MapOf(slots[k := now])[key] == expected[key])
  {
    var after := slots[k := now];
    hide MapOf;
    MapHas(slots, key);
    MapHas(after, key);
    if key in MapOf(after) {
      var j :| 0 <= j < |after| && after[j].active && after[j].KeyOf() == key;
      MapAt(after, j);
      if j != k {
        assert slots[j].active && slots[j].KeyOf() == key;
        MapAt(slots, j);
        if slots[k].active { UniquePair(slots, j, k); }
        if now.active { UniquePair(after, j, k); }
      }
    } else if key in MapOf(slots) {
      var j :| 0 <= j < |slots| && slots[j].active && slots[j].KeyOf() == key;
      assert !(after[j].active && after[j].KeyOf() == key);
      assert after[k] == now;
    } else {
      assert after[k] == now;
    }
  }

  // An entry may go into the slot that holds its key or, if none does, into any free one.
  predicate MayTake(slots: seq<Subscription>, k: nat, key: Key)
    requires k < |slots|
  {
    if slots[k].active then slots[k].KeyOf() == key else key !in MapOf(slots)
  }

  lemma SlotTaken(slots: seq<Subscription>, k: nat, now: Subscription)
    requires Unique(slots) && k < |slots| && now.active && MayTake(slots, k, now.KeyOf())
    ensures Unique(slots[k := now])
    ensures MapOf(slots[k := now]) == MapOf(slots)[now.KeyOf() := now.EntryOf()]
  {
    hide MapOf;
    MapHas(slots, now.KeyOf());
    MapSet(slots, k, now);
    var key := now.KeyOf();
    assert (MapOf(slots) - {key})[key := now.EntryOf()] == MapOf(slots)[key := now.EntryOf()];
  }

  // ---- polling the slots ----

  predicate Timed(slots: seq<Subscription>) {
    forall k :: 0 <= k < |slots| && slots[k].active ==> slots[k].interval > 0
  }

  function DueSlot(s: Subscription, now: int): Subscription
    requires s.active ==> s.interval > 0
  {
    if s.active && s.nextDue <= now then s.(nextDue := Advanced(s.nextDue, s.EntryOf().Period(), now)) else s
  }

  // The first k slots have been polled.
  function PolledSlots(slots: seq<Subscription>, k: nat, now: int): (after: seq<Subscription>)
    requires Timed(slots) && k <= |slots|
    ensures |after| == |slots|
  {
    seq(|slots|, j requires 0 <= j < |slots| => if j < k then DueSlot(slots[j], now) else slots[j])
  }

  lemma PolledOne(slots: seq<Subscription>, k: nat, now: int)
    requires Timed(slots) && k < |slots|
    ensures PolledSlots(slots, k + 1, now) == PolledSlots(slots, k, now)[k := DueSlot(slots[k], now)]
    ensures PolledSlots(slots, k, now)[k] == slots[k]
  {
    hide DueSlot;
  }

  lemma PolledKeys(slots: seq<Subscription>, now: int)
    requires Timed(slots)
    ensures var after := PolledSlots(slots, |slots|, now);
            forall k :: 0 <= k < |slots| ==> after[k].active == slots[k].active && after[k].KeyOf() == slots[k].KeyOf()
  {
    hide Advanced;
  }

  lemma PolledMap(slots: seq<Subscription>, now: int)
    requires Timed(slots) && Unique(slots)
    ensures var after := PolledSlots(slots, |slots|, now);
            && Unique(after)
            && (forall key :: key in MapOf(after) <==> key in MapOf(slots))
            && (forall key :: key in MapOf(slots) ==>
                  MapOf(slots)[key].interval > 0 && MapOf(after)[key] == Due(MapOf(slots)[key], now))
  {
    var after := PolledSlots(slots, |slots|, now);
    PolledKeys(slots, now);
    assert Unique(after);
    forall key
      ensures key in MapOf(after) <==> key in MapOf(slots)
      ensures key in MapOf(slots) ==> MapOf(slots)[key].interval > 0 && MapOf(after)[key] == Due(MapOf(slots)[key], now)
    {
      PolledMapAt(slots, now, key);
    }
  }

  lemma SameHolds(a: seq<Subscription>, b: seq<Subscription>, key: Key)
    requires |a| == |b|
    requires forall k :: 0 <= k < |a| ==> b[k].active == a[k].active && b[k].KeyOf() == a[k].KeyOf()
    ensures Holds(a, key) <==> Holds(b, key)
  {
    if Holds(a, key) {
      var j :| 0 <= j < |a| && a[j].active && a[j].KeyOf() == key;
      assert b[j].active && b[j].KeyOf() == key;
    }
  }

  lemma PolledMapAt(slots: seq<Subscription>, now: int, key: Key)
    requires Timed(slots) && Unique(slots) && Unique(PolledSlots(slots, |slots|, now))
    ensures var after := PolledSlots(slots, |slots|, now);
            && (key in MapOf(after) <==> key in MapOf(slots))
            && (key in MapOf(slots) ==>
                  MapOf(slots)[key].interval > 0 && MapOf(after)[key] == Due(MapOf(slots)[key], now))
  {
    var after := PolledSlots(slots, |slots|, now);
    PolledKeys(slots, now);
    MapHas(slots, key);
    MapHas(after, key);
    SameHolds(slots, after, key);
    hide MapOf, PolledSlots, Unique;
    if key in MapOf(slots) {
      var j :| 0 <= j < |slots| && slots[j].active && slots[j].KeyOf() == key;
      assert after[j].active && after[j].KeyOf() == key;
      MapAt(slots, j);
      MapAt(after, j);
      DueSlotEntry(slots, j, now);
    }
  }

  lemma DueSlotEntry(slots: seq<Subscription>, j: nat, now: int)
    requires Timed(slots) && j < |slots| && slots[j].active
    ensures slots[j].interval > 0
    ensures PolledSlots(slots, |slots|, now)[j].EntryOf() == Due(slots[j].EntryOf(), now)
  {
    hide Advanced;
  }

  // ---- the device ----

  datatype Answer = AnswerOk | InvalidParam | Busy

  // An acknowledgement repeats the request's transaction.
  datatype Reply = Reply(transaction: u32, answer: Answer)

  function Answered(t: Table, endpoint: Endpoint, request: Request, now: int): (Option<Reply>, Table) {
    match request
    case Subscribe(transaction, report, interval) =>
      if report == None || !(MIN_INTERVAL <= interval <= MAX_INTERVAL) then (Some(Reply(transaction, InvalidParam)), t)
      else
        var (ok, u) := t.Upsert(Key(endpoint, report.value), interval, now);
        (Some(Reply(transaction, if ok then AnswerOk else Busy)), u)
    case Unsubscribe(transaction, report) =>
      if report == None then (Some(Reply(transaction, InvalidParam)), t)
      else (Some(Reply(transaction, AnswerOk)), t.Remove(Key(endpoint, report.value)))
    case _ => (None, t)
  }

  lemma NoAnswer(t: Table, endpoint: Endpoint, now: int)
    ensures Answered(t, endpoint, Invalid, now) == (None, t)
  {
  }

  lemma RequestRead(sentence: Text)
    ensures var parsed := Parse(sentence);
            ReadRequest(sentence) == if parsed.status != ParseOk then Invalid
                                     else if parsed.identifier == SUB then ReadSubscribe(parsed.fields)
                                     else if parsed.identifier == UNSUB then ReadUnsubscribe(parsed.fields)
                                     else Invalid
    ensures var fields := Parse(sentence).fields;
            !ReadSubscribe(fields).Invalid? && !ReadUnsubscribe(fields).Invalid?
  {
  }

  class WeatherDevice {
    const subscriptions: array<Subscription>
    var activeSubscriptions: nat
    var subscriptionHighWater: nat
    var invalidMessages: nat

    ghost predicate Valid()
      reads this, subscriptions
    {
      && subscriptions.Length == CAPACITY
      && Unique(subscriptions[..])
      && activeSubscriptions == |MapOf(subscriptions[..])|
      && View().Valid()
    }

    ghost function View(): Table
      reads this, subscriptions
    {
      Table(MapOf(subscriptions[..]), subscriptionHighWater)
    }

    constructor ()
      ensures Valid() && View() == EMPTY_TABLE && fresh(subscriptions) && invalidMessages == 0
    {
      subscriptions := new Subscription[CAPACITY](_ => NO_SUBSCRIPTION);
      activeSubscriptions, subscriptionHighWater, invalidMessages := 0, 0, 0;
      new;
      assert MapOf(subscriptions[..]) == map[] by {
        forall key ensures key !in MapOf(subscriptions[..]) {
          MapHas(subscriptions[..], key);
        }
      }
    }

    // The slot that holds the key, if any does.
    method Find(key: Key) returns (slot: nat)
      requires Valid()
      ensures slot <= CAPACITY
      ensures slot == CAPACITY <==> key !in View().entries
      ensures slot < CAPACITY ==> subscriptions[slot].active && subscriptions[slot].KeyOf() == key
    {
      MapHas(subscriptions[..], key);
      slot := 0;
      while slot < CAPACITY
        invariant slot <= CAPACITY
        invariant forall k :: 0 <= k < slot ==> !(subscriptions[k].active && subscriptions[k].KeyOf() == key)
      {
        if subscriptions[slot].active && subscriptions[slot].KeyOf() == key {
          assert subscriptions[..][slot].active && subscriptions[..][slot].KeyOf() == key;
          return;
        }
        slot := slot + 1;
      }
    }

    method FindFree() returns (slot: nat)
      requires Valid()
      ensures slot <= CAPACITY
      ensures slot == CAPACITY <==> |View().entries| == CAPACITY
      ensures slot < CAPACITY ==> !subscriptions[slot].active
    {
      MapSize(subscriptions[..]);
      slot := 0;
      while slot < CAPACITY
        invariant slot <= CAPACITY
        invariant forall k :: 0 <= k < slot ==> subscriptions[k].active
      {
        if !subscriptions[slot].active {
          NotFull(subscriptions[..], slot);
          return;
        }
        slot := slot + 1;
      }
      FullCount(subscriptions[..]);
    }

    static lemma {:induction false} NotFull(slots: seq<Subscription>, k: nat)
      requires k < |slots| && !slots[k].active
      ensures ActiveCount(slots) < |slots|
      decreases |slots|
    {
      var n := |slots| - 1;
      if k < n {
        NotFull(slots[..n], k);
      } else {
        CountBound(slots[..n]);
      }
    }

    static lemma {:induction false} CountBound(slots: seq<Subscription>)
      ensures ActiveCount(slots) <= |slots|
      decreases |slots|
    {
      if slots != [] {
        CountBound(slots[..|slots| - 1]);
      }
    }

    method UpsertSubscription(key: Key, interval: nat, now: int) returns (ok: bool)
      requires Valid() && MIN_INTERVAL <= interval <= MAX_INTERVAL
      modifies this, subscriptions
      ensures Valid() && invalidMessages == old(invalidMessages)
      ensures (ok, View()) == old(View()).Upsert(key, interval, now)
    {
      hide MapOf, Unique;
      var changed := Subscription(true, key.endpoint, key.report, interval, now + interval * TICKS);
      ghost var slots := subscriptions[..];
      var slot := Find(key);
      if slot < CAPACITY {
        SlotTaken(slots, slot, changed);
        subscriptions[slot] := subscriptions[slot].(interval := interval, nextDue := now + interval * TICKS);
        assert subscriptions[..] == slots[slot := changed];
        return true;
      }
      slot := FindFree();
      if slot < CAPACITY {
        SlotTaken(slots, slot, changed);
        subscriptions[slot] := changed;
        assert subscriptions[..] == slots[slot := changed];
        activeSubscriptions := activeSubscriptions + 1;
        if activeSubscriptions > subscriptionHighWater {
          subscriptionHighWater := activeSubscriptions;
        }
        return true;
      }
      return false;
    }

    // Unsubscribing what is not there is no error.
    method RemoveSubscription(key: Key)
      requires Valid()
      modifies this, subscriptions
      ensures Valid() && invalidMessages == old(invalidMessages) && View() == old(View()).Remove(key)
    {
      hide MapOf;
      ghost var slots := subscriptions[..];
      var slot := Find(key);
      if slot < CAPACITY {
        MapSet(slots, slot, slots[slot].(active := false));
        subscriptions[slot] := subscriptions[slot].(active := false);
        assert subscriptions[..] == slots[slot := slots[slot].(active := false)];
        if activeSubscriptions > 0 {
          activeSubscriptions := activeSubscriptions - 1;
        }
      } else {
        assert View().entries - {key} == View().entries;
      }
    }

    // A request without the right number of fields or with an unreadable number gets no reply.
    method ProcessSubscribe(endpoint: Endpoint, fields: seq<Text>, now: int) returns (reply: Option<Reply>)
      requires Valid()
      modifies this, subscriptions
      ensures Valid() && invalidMessages == old(invalidMessages)
      ensures (reply, View()) == Answered(old(View()), endpoint, ReadSubscribe(fields), now)
    {
      if |fields| != 3 {
        return None;
      }
      var transaction, interval := ParseUnsigned(fields[0]), ParseUnsigned(fields[2]);
      if transaction == None || interval == None {
        return None;
      }
      var report := ParseReportType(fields[1]);
      if report == None {
        return Some(Reply(transaction.value, InvalidParam));
      }
      if interval.value < MIN_INTERVAL || interval.value > MAX_INTERVAL {
        return Some(Reply(transaction.value, InvalidParam));
      }
      var ok := UpsertSubscription(Key(endpoint, report.value), interval.value, now);
      return Some(Reply(transaction.value, if ok then AnswerOk else Busy));
    }

    method ProcessUnsubscribe(endpoint: Endpoint, fields: seq<Text>, now: int) returns (reply: Option<Reply>)
      requires Valid()
      modifies this, subscriptions
      ensures Valid() && invalidMessages == old(invalidMessages)
      ensures (reply, View()) == Answered(old(View()), endpoint, ReadUnsubscribe(fields), now)
    {
      if |fields| != 2 {
        return None;
      }
      var transaction := ParseUnsigned(fields[0]);
      if transaction == None {
        return None;
      }
      var report := ParseReportType(fields[1]);
      if report == None {
        return Some(Reply(transaction.value, InvalidParam));
      }
      RemoveSubscription(Key(endpoint, report.value));
      return Some(Reply(transaction.value, AnswerOk));
    }

    // One datagram. What is no sentence, or none the device knows, is only counted.
    method ReceiveRequest(endpoint: Endpoint, sentence: Text, now: int) returns (reply: Option<Reply>)
      requires Valid()
      modifies this, subscriptions
      ensures Valid()
      ensures (reply, View()) == Answered(old(View()), endpoint, ReadRequest(sentence), now)
      ensures invalidMessages == old(invalidMessages) + if ReadRequest(sentence).Invalid? then 1 else 0
    {
      hide MapOf, Unique, Parse, ReadRequest, ReadSubscribe, ReadUnsubscribe, Answered, Table.Valid;
      reply := None;
      var parsed := NmeaStreams.ParseSentence(sentence);
      RequestRead(sentence);
      NoAnswer(View(), endpoint, now);
      if parsed.status != ParseOk {
        invalidMessages := invalidMessages + 1;
      } else if parsed.identifier == SUB {
        reply := ProcessSubscribe(endpoint, parsed.fields, now);
      } else if parsed.identifier == UNSUB {
        reply := ProcessUnsubscribe(endpoint, parsed.fields, now);
      } else {
        invalidMessages := invalidMessages + 1;
      }
    }

    // The inner loop: from the prior deadline, period by period.
    static method Advance(due: int, period: int, now: int) returns (next: int)
      requires period > 0 && due <= now
      ensures next == Advanced(due, period, now)
    {
      next := due + period;
      while next <= now
        invariant Advanced(due, period, now) == if next <= now then Advanced(next, period, now) else next
        decreases now - next
      {
        next := next + period;
      }
    }

    lemma AllTimed()
      requires Valid()
      ensures Timed(subscriptions[..])
    {
      hide MapOf;
      var slots := subscriptions[..];
      forall k | 0 <= k < |slots| && slots[k].active ensures slots[k].interval > 0 {
        MapAt(slots, k);
      }
    }

    // Every due subscription is reported on once and its deadline moved ahead; the rest stay.
    method SendDueReports(now: int) returns (sent: seq<Key>)
      requires Valid()
      modifies subscriptions
      ensures Valid() && View() == old(View()).Polled(now)
      ensures forall key :: key in sent <==> key in old(View()).entries && old(View()).entries[key].nextDue <= now
      ensures forall j, k :: 0 <= j < k < |sent| ==> sent[j] != sent[k]
    {
      hide MapOf, PolledSlots, Advanced, DueSlot;
      ghost var slots := subscriptions[..];
      AllTimed();
      sent := [];
      NothingPolled(slots, now);
      var k := 0;
      while k < CAPACITY
        invariant k <= CAPACITY && subscriptions[..] == PolledSlots(slots, k, now)
        invariant sent == DueKeys(slots[..k], now)
      {
        PolledOne(slots, k, now);
        SlotDue(slots[k], now);
        DueKeysOne(slots, k, now);
        assert subscriptions[k] == subscriptions[..][k] == slots[k];
        if subscriptions[k].active && now >= subscriptions[k].nextDue {
          var next := Advance(subscriptions[k].nextDue, subscriptions[k].EntryOf().Period(), now);
          subscriptions[k] := subscriptions[k].(nextDue := next);
          sent := sent + [subscriptions[k].KeyOf()];
        }
        assert subscriptions[..] == PolledSlots(slots, k, now)[k := DueSlot(slots[k], now)];
        k := k + 1;
      }
      assert slots[..CAPACITY] == slots;
      PolledMap(slots, now);
      DueKeysExactly(slots, now);
      SameSize(MapOf(slots), MapOf(subscriptions[..]));
      assert View().entries == old(View()).Polled(now).entries;
    }

    static function DueKeys(slots: seq<Subscription>, now: int): seq<Key> {
      if slots == [] then []
      else
        var last := slots[|slots| - 1];
        DueKeys(slots[..|slots| - 1], now) + if last.active && last.nextDue <= now then [last.KeyOf()] else []
    }

    static lemma DueKeysOne(slots: seq<Subscription>, k: nat, now: int)
      requires k < |slots|
      ensures DueKeys(slots[..k + 1], now)
           == DueKeys(slots[..k], now) + if slots[k].active && slots[k].nextDue <= now then [slots[k].KeyOf()] else []
    {
      assert slots[..k + 1][..k] == slots[..k];
    }

    static lemma NothingPolled(slots: seq<Subscription>, now: int)
      requires Timed(slots)
      ensures PolledSlots(slots, 0, now) == slots
    {
    }

    static lemma SlotDue(s: Subscription, now: int)
      requires s.active ==> s.interval > 0
      ensures DueSlot(s, now)
           == if s.active && s.nextDue <= now then s.(nextDue := Advanced(s.nextDue, s.EntryOf().Period(), now)) else s
      ensures s.active ==> s.EntryOf().Period() > 0
    {
    }

    static ghost predicate HoldsDue(slots: seq<Subscription>, now: int, key: Key) {
      exists k :: 0 <= k < |slots| && slots[k].active && slots[k].nextDue <= now && slots[k].KeyOf() == key
    }

    static lemma HoldsDueSplit(slots: seq<Subscription>, now: int, key: Key)
      requires slots != []
      ensures var n := |slots| - 1;
              HoldsDue(slots, now, key)
              <==> || HoldsDue(slots[..n], now, key)
                   || (slots[n].active && slots[n].nextDue <= now && slots[n].KeyOf() == key)
    {
      var n := |slots| - 1;
      assert forall k :: 0 <= k < n ==> slots[..n][k] == slots[k];
      if HoldsDue(slots[..n], now, key) {
        var k :| 0 <= k < n && slots[..n][k].active && slots[..n][k].nextDue <= now && slots[..n][k].KeyOf() == key;
        assert slots[k].active;
      }
    }

    static lemma {:induction false} DueKeysHas(slots: seq<Subscription>, now: int, key: Key)
      ensures key in DueKeys(slots, now) <==> HoldsDue(slots, now, key)
      decreases |slots|
    {
      if slots != [] {
        DueKeysHas(slots[..|slots| - 1], now, key);
        HoldsDueSplit(slots, now, key);
        hide HoldsDue;
      }
    }

    static lemma {:induction false} DueKeysDistinct(slots: seq<Subscription>, now: int)
      requires Unique(slots)
      ensures forall j, k :: 0 <= j < k < |DueKeys(slots, now)| ==> DueKeys(slots, now)[j] != DueKeys(slots, now)[k]
      decreases |slots|
    {
      if slots != [] {
        var n := |slots| - 1;
        UniquePrefix(slots, n);
        DueKeysDistinct(slots[..n], now);
        DueKeysHas(slots[..n], now, slots[n].KeyOf());
        if slots[n].active {
          assert forall k :: 0 <= k < n ==> slots[..n][k] == slots[k];
        }
        var before := DueKeys(slots[..n], now);
        assert forall j :: 0 <= j < |before| ==> before[j] in before;
      }
    }

    static lemma DueKeysExactly(slots: seq<Subscription>, now: int)
      requires Unique(slots)
      ensures forall j, k :: 0 <= j < k < |DueKeys(slots, now)| ==> DueKeys(slots, now)[j] != DueKeys(slots, now)[k]
      ensures forall key :: key in DueKeys(slots, now) <==> key in MapOf(slots) && MapOf(slots)[key].nextDue <= now
    {
      hide MapOf, DueKeys;
      DueKeysDistinct(slots, now);
      forall key ensures key in DueKeys(slots, now) <==> key in MapOf(slots) && MapOf(slots)[key].nextDue <= now {
        DueKeysHas(slots, now, key);
        MapHas(slots, key);
        if key in MapOf(slots) {
          var j :| 0 <= j < |slots| && slots[j].active && slots[j].KeyOf() == key;
          MapAt(slots, j);
          if HoldsDue(slots, now, key) {
            var k :| 0 <= k < |slots| && slots[k].active && slots[k].nextDue <= now && slots[k].KeyOf() == key;
            MapAt(slots, k);
          }
        }
      }
    }

    static lemma SameSize(a: map<Key, Entry>, b: map<Key, Entry>)
      requires forall key :: key in a <==> key in b
      ensures |a| == |b|
    {
      assert a.Keys == b.Keys;
      assert |a| == |a.Keys| && |b| == |b.Keys|;
    }
  }
}
