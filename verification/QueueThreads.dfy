// Any number of threads calling a bounded queue. Stretches inside the mutex are atomic; a notify is
// a separate, later step, and sleeping threads may wake for no reason.

module QueueThreads {
  import opened Bytes
  import opened BoundedQueue

  // Where a thread stands. A woken thread has left the condition variable but not yet got the mutex
  // back; one that owes a notify has released the mutex and not yet sent it.
  datatype Thread<T> =
    | Idle
    | PushCalled(item: T) | PushAsleep(item: T) | PushWoken(item: T)
    | PopCalled | PopAsleep | PopWoken
    | OwesNotEmpty | OwesNotFull        // notify_one after push, after pop
    | OwesAllNotEmpty | OwesAllNotFull  // the two notify_all of stop, in this order

  // accepted and popped list the items in the order the calls took effect.
  datatype State<T> = State(queue: Queue<T>, threads: seq<Thread<T>>, accepted: seq<T>, popped: seq<T>)

  datatype Action<T> =
    | CallPush(item: T) | CallPop | TryPush(item: T) | TryPop | CallStop
    | TakeMutex
    | NotifyOne(woken: Option<nat>)  // which sleeper it wakes, if there is one
    | NotifyAll
    | WakeSpuriously

  datatype Step<T> = Step(thread: nat, action: Action<T>)

  function Initial<T>(threads: nat): State<T> {
    State(Queue([], false), seq(threads, _ => Idle), [], [])
  }

  // ---- counting threads ----

  datatype Role =
    | OwingNotEmpty | OwingNotFull | OwingAllNotEmpty | OwingAllNotFull
    | WokenConsumer | WokenProducer | SleepingConsumer | SleepingProducer

  predicate Plays<T>(t: Thread<T>, role: Role) {
    match role
    case OwingNotEmpty => t.OwesNotEmpty?
    case OwingNotFull => t.OwesNotFull?
    case OwingAllNotEmpty => t.OwesAllNotEmpty?
    case OwingAllNotFull => t.OwesAllNotFull?
    case WokenConsumer => t.PopWoken?
    case WokenProducer => t.PushWoken?
    case SleepingConsumer => t.PopAsleep?
    case SleepingProducer => t.PushAsleep?
  }

  function One<T>(t: Thread<T>, role: Role): nat {
    if Plays(t, role) then 1 else 0
  }

  function Count<T>(threads: seq<Thread<T>>, role: Role): nat {
    if threads == [] then 0 else One(threads[0], role) + Count(threads[1..], role)
  }

  lemma {:induction false} CountChanged<T>(threads: seq<Thread<T>>, t: nat, now: Thread<T>, role: Role)
    requires t < |threads|
    ensures Count(threads[t := now], role) == Count(threads, role) - One(threads[t], role) + One(now, role)
  {
    hide One;
    if t == 0 {
      assert threads[t := now][1..] == threads[1..];
    } else {
      assert threads[t := now][1..] == threads[1..][t - 1 := now];
      CountChanged(threads[1..], t - 1, now, role);
    }
  }

  lemma {:induction false} CountZero<T>(threads: seq<Thread<T>>, role: Role)
    ensures Count(threads, role) == 0 <==> forall t :: 0 <= t < |threads| ==> !Plays(threads[t], role)
  {
    hide Plays;
    if threads != [] {
      CountZero(threads[1..], role);
      assert forall t :: 0 < t < |threads| ==> threads[t] == threads[1..][t - 1];
      if forall t :: 0 <= t < |threads[1..]| ==> !Plays(threads[1..][t], role) {
        assert forall t :: 0 < t < |threads| ==> !Plays(threads[t], role);
      } else {
        var t :| 0 <= t < |threads[1..]| && Plays(threads[1..][t], role);
        assert Plays(threads[t + 1], role);
      }
    }
  }

  // ---- steps ----

  function Woken<T>(t: Thread<T>): Thread<T> {
    match t
    case PushAsleep(item) => PushWoken(item)
    case PopAsleep => PopWoken
    case _ => t
  }

  function WakeAll<T>(threads: seq<Thread<T>>, sleepers: Role): (after: seq<Thread<T>>)
    ensures |after| == |threads|
  {
    if threads == [] then []
    else [if Plays(threads[0], sleepers) then Woken(threads[0]) else threads[0]] + WakeAll(threads[1..], sleepers)
  }

  predicate NotifiesOne<T>(s: State<T>, woken: Option<nat>, sleepers: Role) {
    match woken
    case None => forall t :: 0 <= t < |s.threads| ==> !Plays(s.threads[t], sleepers)
    case Some(t) => t < |s.threads| && Plays(s.threads[t], sleepers)
  }

  predicate Enabled<T>(s: State<T>, step: Step<T>) {
    step.thread < |s.threads| &&
    var t := s.threads[step.thread];
    match step.action
    case CallPush(_) => t.Idle?
    case CallPop => t.Idle?
    case TryPush(_) => t.Idle?
    case TryPop => t.Idle?
    case CallStop => t.Idle?
    case TakeMutex => t.PushCalled? || t.PushWoken? || t.PopCalled? || t.PopWoken?
    case NotifyOne(woken) =>
      || (t.OwesNotEmpty? && NotifiesOne(s, woken, SleepingConsumer))
      || (t.OwesNotFull? && NotifiesOne(s, woken, SleepingProducer))
    case NotifyAll => t.OwesAllNotEmpty? || t.OwesAllNotFull?
    case WakeSpuriously => t.PushAsleep? || t.PopAsleep?
  }

  function EndPush<T>(s: State<T>, t: nat, item: T, section: (Outcome<T>, Queue<T>)): State<T>
    requires t < |s.threads|
  {
    if section.0.MustWait? then s.(threads := s.threads[t := PushAsleep(item)])
    else if section.0.Accepted? then
      State(section.1, s.threads[t := OwesNotEmpty], s.accepted + [item], s.popped)
    else s.(threads := s.threads[t := Idle])
  }

  function EndPop<T>(s: State<T>, t: nat, section: (Outcome<T>, Queue<T>)): State<T>
    requires t < |s.threads|
  {
    if section.0.MustWait? then s.(threads := s.threads[t := PopAsleep])
    else if section.0.Taken? then
      State(section.1, s.threads[t := OwesNotFull], s.accepted, s.popped + [section.0.item])
    else s.(threads := s.threads[t := Idle])
  }

  function After<T>(s: State<T>, step: Step<T>, capacity: nat): State<T>
    requires Enabled(s, step)
  {
    var t := step.thread;
    match step.action
    case CallPush(item) => s.(threads := s.threads[t := PushCalled(item)])
    case CallPop => s.(threads := s.threads[t := PopCalled])
    case TryPush(item) => EndPush(s, t, item, TryPushSection(s.queue, capacity, item))
    case TryPop => EndPop(s, t, TryPopSection(s.queue))
    case CallStop => s.(queue := s.queue.(stopped := true), threads := s.threads[t := OwesAllNotEmpty])
    case TakeMutex =>
      if s.threads[t].PushCalled? || s.threads[t].PushWoken? then
        EndPush(s, t, s.threads[t].item, PushSection(s.queue, capacity, s.threads[t].item))
      else EndPop(s, t, PopSection(s.queue))
    case NotifyOne(woken) =>
      var rest := s.threads[t := Idle];
      s.(threads := if woken.None? then rest else rest[woken.value := Woken(rest[woken.value])])
    case NotifyAll =>
      if s.threads[t].OwesAllNotEmpty? then
        s.(threads := WakeAll(s.threads, SleepingConsumer)[t := OwesAllNotFull])
      else s.(threads := WakeAll(s.threads, SleepingProducer)[t := Idle])
    case WakeSpuriously => s.(threads := s.threads[t := Woken(s.threads[t])])
  }

  // ---- runs ----

  predicate IsRun<T>(s: State<T>, run: seq<Step<T>>, capacity: nat)
    decreases |run|
  {
    run == [] || (Enabled(s, run[0]) && IsRun(After(s, run[0], capacity), run[1..], capacity))
  }

  function Final<T>(s: State<T>, run: seq<Step<T>>, capacity: nat): State<T>
    requires IsRun(s, run, capacity)
    decreases |run|
  {
    if run == [] then s else Final(After(s, run[0], capacity), run[1..], capacity)
  }

  // ---- what every step keeps ----

  // While the queue runs: whenever consumers sleep, each queued item is matched by a notify still to
  // come or by a consumer already woken, and whenever producers sleep, so is each free place. Once it
  // is stopped, a sleeper is still to be woken by one of the notify_all.
  ghost predicate Inv<T>(s: State<T>, capacity: nat) {
    && |s.queue.items| <= capacity
    && s.accepted == s.popped + s.queue.items
    && (!s.queue.stopped && Count(s.threads, SleepingConsumer) > 0 ==>
          |s.queue.items| <= Count(s.threads, OwingNotEmpty) + Count(s.threads, WokenConsumer))
    && (!s.queue.stopped && Count(s.threads, SleepingProducer) > 0 ==>
          capacity - |s.queue.items| <= Count(s.threads, OwingNotFull) + Count(s.threads, WokenProducer))
    && (s.queue.stopped && Count(s.threads, SleepingConsumer) > 0 ==> Count(s.threads, OwingAllNotEmpty) > 0)
    && (s.queue.stopped && Count(s.threads, SleepingProducer) > 0 ==>
          Count(s.threads, OwingAllNotEmpty) + Count(s.threads, OwingAllNotFull) > 0)
  }

  lemma AllChanged<T>(threads: seq<Thread<T>>, t: nat, now: Thread<T>)
    requires t < |threads|
    ensures forall role :: Count(threads[t := now], role)
                        == Count(threads, role) - One(threads[t], role) + One(now, role)
  {
    forall role {
      CountChanged(threads, t, now, role);
    }
  }

  lemma InitialInv<T>(threads: nat, capacity: nat)
    ensures Inv(Initial<T>(threads), capacity)
  {
    CountZero(Initial<T>(threads).threads, SleepingConsumer);
    CountZero(Initial<T>(threads).threads, SleepingProducer);
  }

  // A thread that neither slept nor was woken nor owed anything changes place outside the queue.
  lemma QuietKeepsInv<T>(s: State<T>, t: nat, now: Thread<T>, capacity: nat)
    requires Inv(s, capacity) && t < |s.threads|
    requires s.threads[t].Idle? && (now.PushCalled? || now.PopCalled?)
    ensures Inv(s.(threads := s.threads[t := now]), capacity)
  {
    hide Count;
    AllChanged(s.threads, t, now);
  }

  lemma PushKeepsInv<T>(s: State<T>, t: nat, item: T, section: (Outcome<T>, Queue<T>), capacity: nat)
    requires Inv(s, capacity) && t < |s.threads|
    requires s.threads[t].Idle? || s.threads[t].PushCalled? || s.threads[t].PushWoken?
    requires section == PushSection(s.queue, capacity, item)
          || (s.threads[t].Idle? && section == TryPushSection(s.queue, capacity, item))
    ensures Inv(EndPush(s, t, item, section), capacity)
  {
    hide Count;
    AllChanged(s.threads, t, PushAsleep(item));
    AllChanged(s.threads, t, OwesNotEmpty);
    AllChanged(s.threads, t, Idle);
  }

  lemma PopKeepsInv<T>(s: State<T>, t: nat, section: (Outcome<T>, Queue<T>), capacity: nat)
    requires Inv(s, capacity) && t < |s.threads|
    requires s.threads[t].Idle? || s.threads[t].PopCalled? || s.threads[t].PopWoken?
    requires section == PopSection(s.queue) || (s.threads[t].Idle? && section == TryPopSection(s.queue))
    ensures Inv(EndPop(s, t, section), capacity)
  {
    hide Count;
    AllChanged(s.threads, t, PopAsleep);
    AllChanged(s.threads, t, OwesNotFull);
    AllChanged(s.threads, t, Idle);
    if section.0.Taken? {
      assert s.popped + s.queue.items == s.popped + [s.queue.items[0]] + s.queue.items[1..];
    }
  }

  lemma StopKeepsInv<T>(s: State<T>, t: nat, capacity: nat)
    requires Inv(s, capacity) && t < |s.threads| && s.threads[t].Idle?
    ensures Inv(s.(queue := s.queue.(stopped := true), threads := s.threads[t := OwesAllNotEmpty]), capacity)
  {
    hide Count;
    AllChanged(s.threads, t, OwesAllNotEmpty);
    assert Count(s.threads[t := OwesAllNotEmpty], OwingAllNotEmpty) == Count(s.threads, OwingAllNotEmpty) + 1;
  }

  lemma NotifyNobodyKeepsInv<T>(s: State<T>, t: nat, sleepers: Role, capacity: nat)
    requires Inv(s, capacity) && t < |s.threads|
    requires (s.threads[t].OwesNotEmpty? && sleepers == SleepingConsumer)
          || (s.threads[t].OwesNotFull? && sleepers == SleepingProducer)
    requires NotifiesOne(s, None, sleepers)
    ensures Inv(s.(threads := s.threads[t := Idle]), capacity)
  {
    hide Count;
    AllChanged(s.threads, t, Idle);
    CountZero(s.threads, sleepers);
  }

  lemma NotifySleeperKeepsInv<T>(s: State<T>, t: nat, sleepers: Role, w: nat, capacity: nat)
    requires Inv(s, capacity) && t < |s.threads|
    requires (s.threads[t].OwesNotEmpty? && sleepers == SleepingConsumer)
          || (s.threads[t].OwesNotFull? && sleepers == SleepingProducer)
    requires NotifiesOne(s, Some(w), sleepers)
    ensures Inv(s.(threads := s.threads[t := Idle][w := Woken(s.threads[w])]), capacity)
  {
    hide Count;
    AllChanged(s.threads, t, Idle);
    AllChanged(s.threads[t := Idle], w, Woken(s.threads[w]));
  }

  lemma NotifyOneKeepsInv<T>(s: State<T>, step: Step<T>, capacity: nat)
    requires Inv(s, capacity) && step.action.NotifyOne? && Enabled(s, step)
    ensures Inv(After(s, step, capacity), capacity)
  {
    hide Count, Inv;
    var t := step.thread;
    var sleepers := if s.threads[t].OwesNotEmpty? then SleepingConsumer else SleepingProducer;
    match step.action.woken
    case None => NotifyNobodyKeepsInv(s, t, sleepers, capacity);
    case Some(w) => NotifySleeperKeepsInv(s, t, sleepers, w, capacity);
  }

  lemma {:induction false} WakeAllCounts<T>(threads: seq<Thread<T>>, sleepers: Role, role: Role)
    requires sleepers == SleepingConsumer || sleepers == SleepingProducer
    ensures role == sleepers ==> Count(WakeAll(threads, sleepers), role) == 0
    ensures role != sleepers && (role == SleepingConsumer || role == SleepingProducer) ==>
              Count(WakeAll(threads, sleepers), role) == Count(threads, role)
    ensures role == OwingAllNotEmpty || role == OwingAllNotFull ==>
              Count(WakeAll(threads, sleepers), role) == Count(threads, role)
    ensures Count(WakeAll(threads, sleepers), role) >= if role == sleepers then 0 else Count(threads, role)
  {
    if threads != [] {
      WakeAllCounts(threads[1..], sleepers, role);
      assert WakeAll(threads, sleepers)[1..] == WakeAll(threads[1..], sleepers);
    }
  }

  lemma {:induction false} WakeAllAt<T>(threads: seq<Thread<T>>, sleepers: Role, t: nat)
    requires t < |threads|
    ensures WakeAll(threads, sleepers)[t] == if Plays(threads[t], sleepers) then Woken(threads[t]) else threads[t]
  {
    if t > 0 {
      WakeAllAt(threads[1..], sleepers, t - 1);
    }
  }

  lemma NotifyAllKeepsInv<T>(s: State<T>, t: nat, sleepers: Role, now: Thread<T>, capacity: nat)
    requires Inv(s, capacity) && t < |s.threads|
    requires (s.threads[t].OwesAllNotEmpty? && sleepers == SleepingConsumer && now.OwesAllNotFull?)
          || (s.threads[t].OwesAllNotFull? && sleepers == SleepingProducer && now.Idle?)
    ensures Inv(s.(threads := WakeAll(s.threads, sleepers)[t := now]), capacity)
  {
    WakeAllAt(s.threads, sleepers, t);
    hide Count, WakeAll;
    var after := WakeAll(s.threads, sleepers);
    forall role ensures role == sleepers ==> Count(after, role) == 0
                ensures role != sleepers && (role == SleepingConsumer || role == SleepingProducer) ==>
                          Count(after, role) == Count(s.threads, role)
                ensures role == OwingAllNotEmpty || role == OwingAllNotFull ==>
                          Count(after, role) == Count(s.threads, role)
                ensures Count(after, role) >= if role == sleepers then 0 else Count(s.threads, role)
    {
      WakeAllCounts(s.threads, sleepers, role);
    }
    AllChanged(after, t, now);
  }

  lemma WakeKeepsInv<T>(s: State<T>, t: nat, capacity: nat)
    requires Inv(s, capacity) && t < |s.threads| && (s.threads[t].PushAsleep? || s.threads[t].PopAsleep?)
    ensures Inv(s.(threads := s.threads[t := Woken(s.threads[t])]), capacity)
  {
    hide Count;
    AllChanged(s.threads, t, Woken(s.threads[t]));
  }

  lemma StepKeepsInv<T>(s: State<T>, step: Step<T>, capacity: nat)
    requires Inv(s, capacity) && Enabled(s, step)
    ensures Inv(After(s, step, capacity), capacity)
  {
    hide Inv, EndPush, EndPop, PushSection, PopSection, TryPushSection, TryPopSection;
    var t := step.thread;
    match step.action
    case CallPush(item) => QuietKeepsInv(s, t, PushCalled(item), capacity);
    case CallPop => QuietKeepsInv(s, t, PopCalled, capacity);
    case TryPush(item) => PushKeepsInv(s, t, item, TryPushSection(s.queue, capacity, item), capacity);
    case TryPop => PopKeepsInv(s, t, TryPopSection(s.queue), capacity);
    case CallStop => StopKeepsInv(s, t, capacity);
    case TakeMutex =>
      if s.threads[t].PushCalled? || s.threads[t].PushWoken? {
        PushKeepsInv(s, t, s.threads[t].item, PushSection(s.queue, capacity, s.threads[t].item), capacity);
      } else {
        PopKeepsInv(s, t, PopSection(s.queue), capacity);
      }
    case NotifyOne(_) => NotifyOneKeepsInv(s, step, capacity);
    case NotifyAll =>
      if s.threads[t].OwesAllNotEmpty? {
        NotifyAllKeepsInv(s, t, SleepingConsumer, OwesAllNotFull, capacity);
      } else {
        NotifyAllKeepsInv(s, t, SleepingProducer, Idle, capacity);
      }
    case WakeSpuriously => WakeKeepsInv(s, t, capacity);
  }

  lemma {:induction false} RunKeepsInv<T>(s: State<T>, run: seq<Step<T>>, capacity: nat)
    requires Inv(s, capacity) && IsRun(s, run, capacity)
    ensures Inv(Final(s, run, capacity), capacity)
    decreases |run|
  {
    hide Inv, After, Enabled;
    if run != [] {
      StepKeepsInv(s, run[0], capacity);
      RunKeepsInv(After(s, run[0], capacity), run[1..], capacity);
    }
  }

  // ---- no lost wake-up ----

  predicate NoneIs<T>(s: State<T>, role: Role) {
    forall t :: 0 <= t < |s.threads| ==> !Plays(s.threads[t], role)
  }

  // In every run, whatever the interleaving: with no notify pending and no thread woken, a sleeping
  // consumer means an empty running queue, a sleeping producer a full running one, and so the two
  // never sleep at once.
  lemma NoLostWakeup<T>(threads: nat, run: seq<Step<T>>, capacity: nat)
    requires capacity > 0 && IsRun(Initial<T>(threads), run, capacity)
    ensures var s := Final(Initial<T>(threads), run, capacity);
            NoneIs(s, OwingNotEmpty) && NoneIs(s, OwingNotFull) && NoneIs(s, OwingAllNotEmpty)
            && NoneIs(s, OwingAllNotFull) && NoneIs(s, WokenConsumer) && NoneIs(s, WokenProducer) ==>
              && (!NoneIs(s, SleepingConsumer) ==> s.queue == Queue([], false))
              && (!NoneIs(s, SleepingProducer) ==> |s.queue.items| == capacity && !s.queue.stopped)
              && (NoneIs(s, SleepingConsumer) || NoneIs(s, SleepingProducer))
  {
    hide Count, After, Enabled, Plays;
    InitialInv<T>(threads, capacity);
    RunKeepsInv(Initial<T>(threads), run, capacity);
    var s := Final(Initial<T>(threads), run, capacity);
    CountZero(s.threads, OwingNotEmpty);
    CountZero(s.threads, OwingNotFull);
    CountZero(s.threads, OwingAllNotEmpty);
    CountZero(s.threads, OwingAllNotFull);
    CountZero(s.threads, WokenConsumer);
    CountZero(s.threads, WokenProducer);
    CountZero(s.threads, SleepingConsumer);
    CountZero(s.threads, SleepingProducer);
  }

  // ---- first in, first out ----

  // In every run the items handed out are the first of those accepted, in the same order, and the
  // rest are what the queue holds.
  lemma FirstInFirstOut<T>(threads: nat, run: seq<Step<T>>, capacity: nat)
    requires IsRun(Initial<T>(threads), run, capacity)
    ensures var s := Final(Initial<T>(threads), run, capacity);
            && s.popped <= s.accepted && s.queue.items == s.accepted[|s.popped|..]
            && |s.queue.items| <= capacity
  {
    hide After, Enabled, Count;
    InitialInv<T>(threads, capacity);
    RunKeepsInv(Initial<T>(threads), run, capacity);
  }

  lemma StepHistory<T>(s: State<T>, step: Step<T>, capacity: nat)
    requires Enabled(s, step)
    ensures var u := After(s, step, capacity);
            && s.accepted <= u.accepted && s.popped <= u.popped
            && (s.queue.stopped ==> u.queue.stopped && u.accepted == s.accepted)
  {
  }

  // What happened stays; and after stop nothing more is accepted.
  lemma {:induction false} RunHistory<T>(s: State<T>, run: seq<Step<T>>, capacity: nat)
    requires IsRun(s, run, capacity)
    ensures var u := Final(s, run, capacity);
            && s.accepted <= u.accepted && s.popped <= u.popped
            && (s.queue.stopped ==> u.queue.stopped && u.accepted == s.accepted)
    decreases |run|
  {
    hide After, Enabled;
    if run != [] {
      StepHistory(s, run[0], capacity);
      RunHistory(After(s, run[0], capacity), run[1..], capacity);
    }
  }

  lemma {:induction false} RunsJoin<T>(s: State<T>, run: seq<Step<T>>, more: seq<Step<T>>, capacity: nat)
    requires IsRun(s, run, capacity) && IsRun(Final(s, run, capacity), more, capacity)
    ensures IsRun(s, run + more, capacity)
    ensures Final(s, run + more, capacity) == Final(Final(s, run, capacity), more, capacity)
    decreases |run|
  {
    hide After, Enabled;
    if run == [] {
      assert run + more == more;
    } else {
      RunsJoin(After(s, run[0], capacity), run[1..], more, capacity);
      assert (run + more)[1..] == run[1..] + more;
    }
  }

  // A blocking pop that comes back without an item does so only when the queue is stopped and every
  // item ever accepted has been handed out; from then on that remains so.
  lemma PopReturnsNothing<T>(threads: nat, run: seq<Step<T>>, t: nat, more: seq<Step<T>>, capacity: nat)
    requires IsRun(Initial<T>(threads), run, capacity)
    requires var s := Final(Initial<T>(threads), run, capacity);
             && t < |s.threads| && (s.threads[t].PopCalled? || s.threads[t].PopWoken?)
             && PopSection(s.queue).0 == Nothing
             && IsRun(s, more, capacity)
    ensures var s := Final(Initial<T>(threads), run, capacity);
            && s.queue == Queue([], true) && s.popped == s.accepted
            && Final(s, more, capacity).popped == Final(s, more, capacity).accepted == s.accepted
  {
    hide After, Enabled, Count;
    var s := Final(Initial<T>(threads), run, capacity);
    FirstInFirstOut(threads, run, capacity);
    RunHistory(s, more, capacity);
    RunsJoin(Initial<T>(threads), run, more, capacity);
    FirstInFirstOut(threads, run + more, capacity);
  }

  // ---- calls come to rest ----

  // Steps the queue takes on its own: no new call, no spurious wake-up.
  predicate Internal<T>(action: Action<T>) {
    action.TakeMutex? || action.NotifyOne? || action.NotifyAll?
  }

  function Weight<T>(t: Thread<T>, n: nat): nat {
    match t
    case Idle => 0
    case PushAsleep(_) => 2
    case PopAsleep => 2
    case OwesNotEmpty => 3
    case OwesNotFull => 3
    case OwesAllNotFull => 2 * n + 1
    case OwesAllNotEmpty => 4 * n + 2
    case _ => 4
  }

  function Potential<T>(threads: seq<Thread<T>>, n: nat): nat {
    if threads == [] then 0 else Weight(threads[0], n) + Potential(threads[1..], n)
  }

  lemma {:induction false} PotentialChanged<T>(threads: seq<Thread<T>>, n: nat, t: nat, now: Thread<T>)
    requires t < |threads|
    ensures Potential(threads[t := now], n) == Potential(threads, n) - Weight(threads[t], n) + Weight(now, n)
  {
    hide Weight;
    if t == 0 {
      assert threads[t := now][1..] == threads[1..];
    } else {
      assert threads[t := now][1..] == threads[1..][t - 1 := now];
      PotentialChanged(threads[1..], n, t - 1, now);
    }
  }

  lemma {:induction false} PotentialWoken<T>(threads: seq<Thread<T>>, n: nat, sleepers: Role)
    requires sleepers == SleepingConsumer || sleepers == SleepingProducer
    ensures Potential(WakeAll(threads, sleepers), n) <= Potential(threads, n) + 2 * |threads|
  {
    if threads != [] {
      PotentialWoken(threads[1..], n, sleepers);
      assert WakeAll(threads, sleepers)[1..] == WakeAll(threads[1..], sleepers);
    }
  }

  lemma InternalStepSpends<T>(s: State<T>, step: Step<T>, capacity: nat)
    requires Enabled(s, step) && Internal(step.action)
    ensures var u := After(s, step, capacity);
            |u.threads| == |s.threads| && Potential(u.threads, |s.threads|) < Potential(s.threads, |s.threads|)
  {
    var t, n := step.thread, |s.threads|;
    hide Potential, WakeAll;
    match step.action
    case TakeMutex =>
      PotentialChanged(s.threads, n, t, After(s, step, capacity).threads[t]);
    case NotifyOne(woken) =>
      PotentialChanged(s.threads, n, t, Idle);
      var rest := s.threads[t := Idle];
      if woken.Some? {
        PotentialChanged(rest, n, woken.value, Woken(rest[woken.value]));
      }
    case NotifyAll =>
      var sleepers := if s.threads[t].OwesAllNotEmpty? then SleepingConsumer else SleepingProducer;
      PotentialWoken(s.threads, n, sleepers);
      WakeAllAt(s.threads, sleepers, t);
      PotentialChanged(WakeAll(s.threads, sleepers), n, t, After(s, step, capacity).threads[t]);
    case _ =>
  }

  lemma {:induction false} PotentialBound<T>(threads: seq<Thread<T>>, n: nat)
    ensures Potential(threads, n) <= |threads| * (4 * n + 4)
  {
    if threads != [] {
      PotentialBound(threads[1..], n);
      assert |threads| * (4 * n + 4) == (|threads| - 1) * (4 * n + 4) + (4 * n + 4);
    }
  }

  // Left to itself, the queue comes to rest: no run of internal steps is longer than the potential, and
  // so none of n threads longer than 4 * n * (n + 1).
  lemma {:induction false} ComesToRest<T>(s: State<T>, run: seq<Step<T>>, capacity: nat)
    requires IsRun(s, run, capacity) && forall k :: 0 <= k < |run| ==> Internal(run[k].action)
    ensures |run| <= Potential(s.threads, |s.threads|)
    ensures |run| <= |s.threads| * (4 * |s.threads| + 4)
    ensures |Final(s, run, capacity).threads| == |s.threads|
    decreases |run|
  {
    hide After, Enabled, Potential;
    PotentialBound(s.threads, |s.threads|);
    if run != [] {
      InternalStepSpends(s, run[0], capacity);
      ComesToRest(After(s, run[0], capacity), run[1..], capacity);
    }
  }

  ghost predicate AtRest<T(!new)>(s: State<T>) {
    forall step: Step<T> :: Enabled(s, step) ==> !Internal(step.action)
  }

  // A thread that is neither outside nor asleep can always go on.
  lemma CanGoOn<T>(s: State<T>, t: nat) returns (step: Step<T>)
    requires t < |s.threads|
    requires !s.threads[t].Idle? && !s.threads[t].PushAsleep? && !s.threads[t].PopAsleep?
    ensures Enabled(s, step) && Internal(step.action) && step.thread == t
  {
    if s.threads[t].OwesNotEmpty? || s.threads[t].OwesNotFull? {
      var sleepers := if s.threads[t].OwesNotEmpty? then SleepingConsumer else SleepingProducer;
      if w :| 0 <= w < |s.threads| && Plays(s.threads[w], sleepers) {
        step := Step(t, NotifyOne(Some(w)));
      } else {
        step := Step(t, NotifyOne(None));
      }
    } else {
      step := Step(t, if s.threads[t].OwesAllNotEmpty? || s.threads[t].OwesAllNotFull? then NotifyAll else TakeMutex);
    }
  }

  // No deadlock: where a run has come to rest, every call still inside waits for something that only
  // another call can bring; and after stop no call is left inside.
  lemma NoDeadlock<T(!new)>(threads: nat, run: seq<Step<T>>, capacity: nat)
    requires capacity > 0 && IsRun(Initial<T>(threads), run, capacity)
    requires AtRest(Final(Initial<T>(threads), run, capacity))
    ensures var s := Final(Initial<T>(threads), run, capacity);
            forall t :: 0 <= t < |s.threads| ==>
              || s.threads[t].Idle?
              || (s.threads[t].PopAsleep? && s.queue == Queue([], false) && NoneIs(s, SleepingProducer))
              || (s.threads[t].PushAsleep? && |s.queue.items| == capacity && !s.queue.stopped
                  && NoneIs(s, SleepingConsumer))
  {
    var s := Final(Initial<T>(threads), run, capacity);
    hide After, Enabled, Count, IsRun, Final;
    forall t | 0 <= t < |s.threads| ensures s.threads[t].Idle? || s.threads[t].PushAsleep? || s.threads[t].PopAsleep? {
      if !(s.threads[t].Idle? || s.threads[t].PushAsleep? || s.threads[t].PopAsleep?) {
        var step := CanGoOn(s, t);
      }
    }
    NoLostWakeup<T>(threads, run, capacity);
    assert NoneIs(s, OwingNotEmpty) && NoneIs(s, OwingNotFull) && NoneIs(s, OwingAllNotEmpty);
    assert NoneIs(s, OwingAllNotFull) && NoneIs(s, WokenConsumer) && NoneIs(s, WokenProducer);
    forall t | 0 <= t < |s.threads| && !s.threads[t].Idle?
      ensures s.threads[t].PopAsleep? ==> !NoneIs(s, SleepingConsumer)
      ensures s.threads[t].PushAsleep? ==> !NoneIs(s, SleepingProducer)
    {
      assert Plays(s.threads[t], SleepingConsumer) || Plays(s.threads[t], SleepingProducer);
    }
  }
}
