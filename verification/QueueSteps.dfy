// What each step of a thread does to the queue, to what was accepted and handed out, and to the threads.

module QueueSteps {
  import opened Bytes
  import opened BoundedQueue
  import opened QueueThreads

  // At first the queue runs, is empty, and nobody is inside.
  lemma StartsOpen<T>(threads: nat)
    ensures var s := Initial<T>(threads);
            && s.queue == Queue([], false) && s.accepted == [] && s.popped == []
            && |s.threads| == threads && (forall t :: 0 <= t < threads ==> s.threads[t].Idle?)
  {
  }

  // Which steps are possible: a thread outside may make any call, one inside may take the mutex when it
  // is not asleep, one that owes a notify may send it, and one asleep may wake for no reason.
  lemma PossibleExactly<T>(s: State<T>, t: nat, x: T)
    requires t < |s.threads|
    ensures var now := s.threads[t];
            && (Enabled(s, Step(t, CallPush(x))) <==> now.Idle?) && (Enabled(s, Step(t, CallPop)) <==> now.Idle?)
            && (Enabled(s, Step(t, TryPush(x))) <==> now.Idle?) && (Enabled(s, Step(t, TryPop)) <==> now.Idle?)
            && (Enabled(s, Step(t, CallStop)) <==> now.Idle?)
            && (Enabled(s, Step(t, TakeMutex))
                <==> now.PushCalled? || now.PushWoken? || now.PopCalled? || now.PopWoken?)
            && (Enabled(s, Step(t, NotifyAll)) <==> now.OwesAllNotEmpty? || now.OwesAllNotFull?)
            && (Enabled(s, Step(t, WakeSpuriously)) <==> now.PushAsleep? || now.PopAsleep?)
  {
  }

  // What the steps that only move a thread do to it.
  lemma MovesExactly<T>(s: State<T>, t: nat, x: T, capacity: nat)
    requires t < |s.threads|
    ensures s.threads[t].Idle? ==>
              && After(s, Step(t, CallPush(x)), capacity) == s.(threads := s.threads[t := PushCalled(x)])
              && After(s, Step(t, CallPop), capacity) == s.(threads := s.threads[t := PopCalled])
    ensures s.threads[t].PushAsleep? ==>
              After(s, Step(t, WakeSpuriously), capacity)
              == s.(threads := s.threads[t := PushWoken(s.threads[t].item)])
    ensures s.threads[t].PopAsleep? ==>
              After(s, Step(t, WakeSpuriously), capacity) == s.(threads := s.threads[t := PopWoken])
  {
  }

  // ---- push ----

  // A push that does not block takes the item if and only if the queue is running and has a free
  // place; then it owes one consumer a notify. Otherwise nothing changes.
  lemma TryPushExactly<T>(s: State<T>, t: nat, x: T, capacity: nat)
    requires Enabled(s, Step(t, TryPush(x))) && |s.queue.items| <= capacity
    ensures t < |s.threads|
    ensures After(s, Step(t, TryPush(x)), capacity)
         == if !s.queue.stopped && |s.queue.items| < capacity
            then State(Queue(s.queue.items + [x], false), s.threads[t := OwesNotEmpty], s.accepted + [x], s.popped)
            else s
  {
  }

  // A push that may block, at its first look or woken: refused when stopped, asleep when full, and else
  // the item is in.
  lemma PushExactly<T>(s: State<T>, t: nat, capacity: nat)
    requires Enabled(s, Step(t, TakeMutex)) && |s.queue.items| <= capacity
    requires s.threads[t].PushCalled? || s.threads[t].PushWoken?
    ensures var x := s.threads[t].item;
            After(s, Step(t, TakeMutex), capacity)
            == if s.queue.stopped then s.(threads := s.threads[t := Idle])
               else if |s.queue.items| == capacity then s.(threads := s.threads[t := PushAsleep(x)])
               else State(Queue(s.queue.items + [x], false), s.threads[t := OwesNotEmpty], s.accepted + [x], s.popped)
  {
  }

  // ---- pop ----

  // A pop that does not block hands out the first item if and only if there is one, stopped or not.
  lemma TryPopExactly<T>(s: State<T>, t: nat, capacity: nat)
    requires Enabled(s, Step(t, TryPop))
    ensures t < |s.threads|
    ensures After(s, Step(t, TryPop), capacity)
         == if |s.queue.items| > 0
            then State(Queue(s.queue.items[1..], s.queue.stopped), s.threads[t := OwesNotFull], s.accepted,
                       s.popped + [s.queue.items[0]])
            else s
  {
  }

  lemma PopExactly<T>(s: State<T>, t: nat, capacity: nat)
    requires Enabled(s, Step(t, TakeMutex)) && (s.threads[t].PopCalled? || s.threads[t].PopWoken?)
    ensures After(s, Step(t, TakeMutex), capacity)
         == if |s.queue.items| > 0
            then State(Queue(s.queue.items[1..], s.queue.stopped), s.threads[t := OwesNotFull], s.accepted,
                       s.popped + [s.queue.items[0]])
            else if s.queue.stopped then s.(threads := s.threads[t := Idle])
            else s.(threads := s.threads[t := PopAsleep])
  {
  }

  // ---- stopping, calling, waking ----

  lemma StopExactly<T>(s: State<T>, t: nat, capacity: nat)
    requires Enabled(s, Step(t, CallStop))
    ensures After(s, Step(t, CallStop), capacity)
         == State(Queue(s.queue.items, true), s.threads[t := OwesAllNotEmpty], s.accepted, s.popped)
  {
  }

  // A call, a notify or a waking changes where threads stand and nothing else.
  lemma OnlySections<T>(s: State<T>, step: Step<T>, capacity: nat)
    requires Enabled(s, step)
    requires step.action.CallPush? || step.action.CallPop? || step.action.NotifyOne? || step.action.NotifyAll?
          || step.action.WakeSpuriously?
    ensures var u := After(s, step, capacity);
            u.queue == s.queue && u.accepted == s.accepted && u.popped == s.popped
  {
    hide WakeAll;
  }

  predicate Sleeps<T>(t: Thread<T>, producer: bool) {
    if producer then t.PushAsleep? else t.PopAsleep?
  }

  ghost predicate WokenFrom<T>(t: Thread<T>, now: Thread<T>) {
    if t.PushAsleep? then now == PushWoken(t.item) else t.PopAsleep? && now == PopWoken
  }

  // A notify wakes one sleeper of the other side, whichever, and if there is none it is lost.
  lemma NotifyOneExactly<T>(s: State<T>, t: nat, woken: Option<nat>, capacity: nat)
    requires Enabled(s, Step(t, NotifyOne(woken)))
    ensures t < |s.threads| && (s.threads[t].OwesNotEmpty? || s.threads[t].OwesNotFull?)
    ensures var u := After(s, Step(t, NotifyOne(woken)), capacity).threads;
            && |u| == |s.threads| && u[t].Idle?
            && (woken.None? ==> forall w :: 0 <= w < |s.threads| ==> !Sleeps(s.threads[w], s.threads[t].OwesNotFull?))
            && (woken.Some? ==>
                  && woken.value < |s.threads| && woken.value != t
                  && Sleeps(s.threads[woken.value], s.threads[t].OwesNotFull?)
                  && WokenFrom(s.threads[woken.value], u[woken.value]))
            && (forall w :: 0 <= w < |u| && w != t && Some(w) != woken ==> u[w] == s.threads[w])
  {
  }

  lemma WokenAt<T>(threads: seq<Thread<T>>, sleepers: Role, w: nat)
    requires w < |threads| && (sleepers == SleepingConsumer || sleepers == SleepingProducer)
    ensures var now := WakeAll(threads, sleepers)[w];
            if Sleeps(threads[w], sleepers == SleepingProducer) then WokenFrom(threads[w], now)
            else now == threads[w]
  {
    WakeAllAt(threads, sleepers, w);
  }

  // The two halves of stop's notifications wake every consumer and then every producer.
  lemma NotifyAllExactly<T>(s: State<T>, t: nat, capacity: nat)
    requires Enabled(s, Step(t, NotifyAll))
    ensures t < |s.threads| && (s.threads[t].OwesAllNotEmpty? || s.threads[t].OwesAllNotFull?)
    ensures var u := After(s, Step(t, NotifyAll), capacity).threads;
            && |u| == |s.threads|
            && u[t] == (if s.threads[t].OwesAllNotEmpty? then OwesAllNotFull else Idle)
            && (forall w :: 0 <= w < |u| && w != t ==>
                  if Sleeps(s.threads[w], s.threads[t].OwesAllNotFull?) then WokenFrom(s.threads[w], u[w])
                  else u[w] == s.threads[w])
  {
    hide WakeAll, Sleeps, WokenFrom, Plays;
    var sleepers := if s.threads[t].OwesAllNotEmpty? then SleepingConsumer else SleepingProducer;
    forall w | 0 <= w < |s.threads| && w != t
      ensures var now := WakeAll(s.threads, sleepers)[w];
              if Sleeps(s.threads[w], sleepers == SleepingProducer) then WokenFrom(s.threads[w], now)
              else now == s.threads[w]
    {
      WokenAt(s.threads, sleepers, w);
    }
  }

  // ---- over whole runs ----

  // In every run a push that does not block, made while the queue is running and not full, puts its
  // item behind all those accepted before, and it is handed out after them and in no other place.
  lemma PushedIsPopped<T>(threads: nat, before: seq<Step<T>>, t: nat, x: T, rest: seq<Step<T>>, capacity: nat)
    requires IsRun(Initial<T>(threads), before, capacity)
    requires var s := Final(Initial<T>(threads), before, capacity);
             && Enabled(s, Step(t, TryPush(x))) && !s.queue.stopped && |s.queue.items| < capacity
             && IsRun(After(s, Step(t, TryPush(x)), capacity), rest, capacity)
    ensures var s := Final(Initial<T>(threads), before, capacity);
            var u := Final(After(s, Step(t, TryPush(x)), capacity), rest, capacity);
            var n := |s.accepted|;
            && n < |u.accepted| && u.accepted[..n] == s.accepted && u.accepted[n] == x
            && |u.popped| <= |u.accepted| && u.popped == u.accepted[..|u.popped|]
  {
    hide After, Enabled, Inv;
    var s := Final(Initial<T>(threads), before, capacity);
    var v := After(s, Step(t, TryPush(x)), capacity);
    InitialInv<T>(threads, capacity);
    RunKeepsInv(Initial<T>(threads), before, capacity);
    TryPushExactly(s, t, x, capacity);
    StepKeepsInv(s, Step(t, TryPush(x)), capacity);
    RunKeepsInv(v, rest, capacity);
    RunHistory(v, rest, capacity);
    HandedOutFirst(Final(v, rest, capacity), capacity);
  }

  lemma HandedOutFirst<T>(s: State<T>, capacity: nat)
    requires Inv(s, capacity)
    ensures |s.popped| <= |s.accepted| && s.popped == s.accepted[..|s.popped|]
  {
    hide Count;
  }
}
