// The heap monitor's counters, changed by any number of threads one atomic operation at a time.

module HeapCounters {

  // Where a thread stands in an allocation or a deallocation of n bytes: which atomic operation is
  // its next. A thread in the compare-and-swap loop remembers the live count it saw after its own
  // addition and the peak it last read.
  datatype Thread =
    | Outside
    | CountAllocation(n: nat) | AddAllocated(n: nat) | AddLive(n: nat)
    | LoadPeak(n: nat, candidate: int) | SwapPeak(n: nat, candidate: int, seen: int)
    | LoadSteady(n: nat) | CountSteady(n: nat) | AddSteady(n: nat) | HandOut(n: nat)
    | CountDeallocation(n: nat) | AddDeallocated(n: nat) | SubtractLive(n: nat)

  // blocks lists the sizes of the blocks handed out and not yet given back; highest is the largest
  // value the live count ever had.
  datatype State = State(
    allocations: nat, deallocations: nat, allocatedBytes: nat, deallocatedBytes: nat, live: int, peak: int,
    steadyAllocations: nat, steadyBytes: nat, steady: bool,
    threads: seq<Thread>, blocks: seq<nat>, highest: int)

  function Initial(threads: nat): State {
    State(0, 0, 0, 0, 0, 0, 0, 0, false, seq(threads, _ => Outside), [], 0)
  }

  // A weak compare-and-swap may fail for no reason.
  datatype Action = Allocate(n: nat) | Deallocate(block: nat) | Go | SwapFails | BeginSteady

  datatype Step = Step(thread: nat, action: Action)

  predicate Enabled(s: State, step: Step) {
    step.thread < |s.threads| &&
    var t := s.threads[step.thread];
    match step.action
    case Allocate(_) => t.Outside?
    case Deallocate(block) => t.Outside? && block < |s.blocks|
    case Go => !t.Outside?
    case SwapFails => t.SwapPeak? && t.candidate > t.seen
    case BeginSteady => t.Outside?
  }

  function At(s: State, t: nat, now: Thread): State
    requires t < |s.threads|
  {
    s.(threads := s.threads[t := now])
  }

  function Advance(s: State, t: nat): State
    requires t < |s.threads| && !s.threads[t].Outside?
  {
    match s.threads[t]
    case CountAllocation(n) => At(s.(allocations := s.allocations + 1), t, AddAllocated(n))
    case AddAllocated(n) => At(s.(allocatedBytes := s.allocatedBytes + n), t, AddLive(n))
    case AddLive(n) =>
      var live := s.live + n;
      At(s.(live := live, highest := if live > s.highest then live else s.highest), t, LoadPeak(n, live))
    case LoadPeak(n, candidate) => At(s, t, SwapPeak(n, candidate, s.peak))
    case SwapPeak(n, candidate, seen) =>
      if candidate <= seen then At(s, t, LoadSteady(n))
      else if s.peak == seen then At(s.(peak := candidate), t, LoadSteady(n))
      else At(s, t, SwapPeak(n, candidate, s.peak))
    case LoadSteady(n) => At(s, t, if s.steady then CountSteady(n) else HandOut(n))
    case CountSteady(n) => At(s.(steadyAllocations := s.steadyAllocations + 1), t, AddSteady(n))
    case AddSteady(n) => At(s.(steadyBytes := s.steadyBytes + n), t, HandOut(n))
    case HandOut(n) => At(s.(blocks := s.blocks + [n]), t, Outside)
    case CountDeallocation(n) => At(s.(deallocations := s.deallocations + 1), t, AddDeallocated(n))
    case AddDeallocated(n) => At(s.(deallocatedBytes := s.deallocatedBytes + n), t, SubtractLive(n))
    case SubtractLive(n) => At(s.(live := s.live - n), t, Outside)
  }

  function After(s: State, step: Step): State
    requires Enabled(s, step)
  {
    var t := step.thread;
    match step.action
    case Allocate(n) => At(s, t, CountAllocation(n))
    case Deallocate(block) =>
      At(s.(blocks := s.blocks[..block] + s.blocks[block + 1..]), t, CountDeallocation(s.blocks[block]))
    case Go => Advance(s, t)
    case SwapFails => At(s, t, SwapPeak(s.threads[t].n, s.threads[t].candidate, s.peak))
    case BeginSteady => s.(steady := true)
  }

  predicate IsRun(s: State, run: seq<Step>)
    decreases |run|
  {
    run == [] || (Enabled(s, run[0]) && IsRun(After(s, run[0]), run[1..]))
  }

  function Final(s: State, run: seq<Step>): State
    requires IsRun(s, run)
    decreases |run|
  {
    if run == [] then s else Final(After(s, run[0]), run[1..])
  }

  // ---- what threads under way still owe the counters ----

  // The quantities in which the counters run ahead of the blocks handed out.
  datatype Measure = Objects | Bytes | Live | SteadyObjects | SteadyBytes

  // The first three concern the blocks; the last two, how far the allocation counters run ahead of
  // the steady-state ones.
  function Owed(t: Thread, m: Measure): nat {
    match m
    case Objects => (if t.Outside? || t.CountAllocation? || t.AddDeallocated? || t.SubtractLive? then 0 else 1)
    case Bytes =>
      (if t.Outside? || t.CountAllocation? || t.AddAllocated? || t.SubtractLive? then 0 else t.n)
    case Live =>
      (if t.Outside? || t.CountAllocation? || t.AddAllocated? || t.AddLive? then 0 else t.n)
    case SteadyObjects =>
      (if t.AddAllocated? || t.AddLive? || t.LoadPeak? || t.SwapPeak? || t.LoadSteady? || t.CountSteady? then 1 else 0)
    case SteadyBytes =>
      (if t.AddLive? || t.LoadPeak? || t.SwapPeak? || t.LoadSteady? || t.CountSteady? || t.AddSteady? then t.n else 0)
  }

  function AllOwed(threads: seq<Thread>, m: Measure): nat {
    if threads == [] then 0 else Owed(threads[0], m) + AllOwed(threads[1..], m)
  }

  function Sum(blocks: seq<nat>): nat {
    if blocks == [] then 0 else blocks[0] + Sum(blocks[1..])
  }

  lemma {:induction false} OwedChanged(threads: seq<Thread>, t: nat, now: Thread, m: Measure)
    requires t < |threads|
    ensures AllOwed(threads[t := now], m) == AllOwed(threads, m) - Owed(threads[t], m) + Owed(now, m)
  {
    hide Owed;
    if t == 0 {
      assert threads[t := now][1..] == threads[1..];
    } else {
      assert threads[t := now][1..] == threads[1..][t - 1 := now];
      OwedChanged(threads[1..], t - 1, now, m);
    }
  }

  lemma {:induction false} SumAppend(blocks: seq<nat>, n: nat)
    ensures Sum(blocks + [n]) == Sum(blocks) + n
  {
    if blocks != [] {
      assert (blocks + [n])[1..] == blocks[1..] + [n];
      SumAppend(blocks[1..], n);
    }
  }

  lemma {:induction false} SumRemove(blocks: seq<nat>, k: nat)
    requires k < |blocks|
    ensures Sum(blocks[..k] + blocks[k + 1..]) == Sum(blocks) - blocks[k]
  {
    var rest := blocks[..k] + blocks[k + 1..];
    if k == 0 {
      assert rest == blocks[1..];
    } else {
      assert rest[1..] == blocks[1..][..k - 1] + blocks[1..][k..];
      SumRemove(blocks[1..], k - 1);
    }
  }

  // ---- what every step keeps ----

  // The counters account for the blocks and for what is under way.
  ghost predicate Balanced(s: State) {
    && s.allocations - s.deallocations == |s.blocks| + AllOwed(s.threads, Objects)
    && s.allocatedBytes - s.deallocatedBytes == Sum(s.blocks) + AllOwed(s.threads, Bytes)
    && s.live == Sum(s.blocks) + AllOwed(s.threads, Live)
  }

  predicate Carries(t: Thread, highest: int) {
    (t.LoadPeak? || t.SwapPeak?) && t.candidate >= highest
  }

  ghost predicate SomeoneCarries(threads: seq<Thread>, highest: int) {
    exists t :: 0 <= t < |threads| && Carries(threads[t], highest)
  }

  // The peak never exceeds the highest live count, and where it lies below it some thread in the
  // compare-and-swap loop still carries that count.
  ghost predicate PeakInv(s: State) {
    && s.peak <= s.highest && s.live <= s.highest
    && (forall t :: 0 <= t < |s.threads| && (s.threads[t].LoadPeak? || s.threads[t].SwapPeak?) ==>
          s.threads[t].candidate <= s.highest)
    && (forall t :: 0 <= t < |s.threads| && s.threads[t].SwapPeak? ==> s.threads[t].seen <= s.peak)
    && (s.peak == s.highest || SomeoneCarries(s.threads, s.highest))
  }

  lemma AllChanged(threads: seq<Thread>, t: nat, now: Thread)
    requires t < |threads|
    ensures forall m :: AllOwed(threads[t := now], m) == AllOwed(threads, m) - Owed(threads[t], m) + Owed(now, m)
  {
    forall m {
      OwedChanged(threads, t, now, m);
    }
  }

  lemma {:induction false} NothingOwed(threads: seq<Thread>, m: Measure)
    requires forall t :: 0 <= t < |threads| ==> threads[t].Outside?
    ensures AllOwed(threads, m) == 0
  {
    if threads != [] {
      NothingOwed(threads[1..], m);
    }
  }

  lemma InitialInv(threads: nat)
    ensures Balanced(Initial(threads)) && PeakInv(Initial(threads))
  {
    var s := Initial(threads);
    NothingOwed(s.threads, Objects);
    NothingOwed(s.threads, Bytes);
    NothingOwed(s.threads, Live);
  }

  lemma GoBalances(s: State, t: nat)
    requires Balanced(s) && t < |s.threads| && !s.threads[t].Outside?
    ensures Balanced(Advance(s, t))
  {
    hide AllOwed, Sum;
    var u := Advance(s, t);
    AllChanged(s.threads, t, u.threads[t]);
    assert u.threads == s.threads[t := u.threads[t]];
    if s.threads[t].HandOut? {
      SumAppend(s.blocks, s.threads[t].n);
    }
  }

  lemma StepBalances(s: State, step: Step)
    requires Balanced(s) && Enabled(s, step)
    ensures Balanced(After(s, step))
  {
    hide AllOwed, Sum, Advance;
    var t := step.thread;
    if step.action.Go? {
      hide Balanced;
      GoBalances(s, t);
    } else if !step.action.BeginSteady? {
      AllChanged(s.threads, t, After(s, step).threads[t]);
      if step.action.Deallocate? {
        SumRemove(s.blocks, step.action.block);
      }
    }
  }

  // Only the thread that moves changes; any other that carries the highest count still does.
  lemma CarriedOn(threads: seq<Thread>, t: nat, now: Thread, highest: int)
    requires t < |threads|
    ensures Carries(now, highest) ==> SomeoneCarries(threads[t := now], highest)
    ensures SomeoneCarries(threads, highest) && !Carries(threads[t], highest) ==>
              SomeoneCarries(threads[t := now], highest)
  {
    if Carries(now, highest) {
      assert Carries(threads[t := now][t], highest);
    }
    if SomeoneCarries(threads, highest) && !Carries(threads[t], highest) {
      var k :| 0 <= k < |threads| && Carries(threads[k], highest);
      assert Carries(threads[t := now][k], highest);
    }
  }

  // What a move of thread t does to the peak and to what that thread carries.
  ghost predicate Moved(s: State, u: State, t: nat)
    requires t < |s.threads| == |u.threads|
  {
    var (was, now) := (s.threads[t], u.threads[t]);
    && u.threads == s.threads[t := now]
    && s.peak <= u.peak <= u.highest && u.live <= u.highest && s.highest <= u.highest
    && (now.LoadPeak? || now.SwapPeak? ==> now.candidate <= u.highest)
    && (now.SwapPeak? ==> now.seen <= u.peak)
    && (u.highest > s.highest ==> Carries(now, u.highest))
    && (u.highest == s.highest && u.peak < u.highest && Carries(was, s.highest) ==> Carries(now, s.highest))
    && (u.peak > s.peak ==> u.highest == s.highest)
  }

  lemma GoMoves(s: State, t: nat)
    requires PeakInv(s) && t < |s.threads| && !s.threads[t].Outside?
    ensures |Advance(s, t).threads| == |s.threads| && Moved(s, Advance(s, t), t)
  {
    hide SomeoneCarries, PeakInv, Moved, Advance;
    PeakAt(s, t);
    var was := s.threads[t];
    if was.AddLive? || was.LoadPeak? || was.SwapPeak? {
      PeakMoves(s, t);
    } else {
      QuietMoves(s, t);
    }
  }

  lemma PeakMoves(s: State, t: nat)
    requires t < |s.threads| && s.peak <= s.highest && s.live <= s.highest
    requires s.threads[t].AddLive? || (s.threads[t].LoadPeak? && s.threads[t].candidate <= s.highest)
          || (s.threads[t].SwapPeak? && s.threads[t].candidate <= s.highest && s.threads[t].seen <= s.peak)
    ensures |Advance(s, t).threads| == |s.threads| && Moved(s, Advance(s, t), t)
  {
  }

  lemma QuietMoves(s: State, t: nat)
    requires t < |s.threads| && s.peak <= s.highest && s.live <= s.highest && !s.threads[t].Outside?
    requires !s.threads[t].AddLive? && !s.threads[t].LoadPeak? && !s.threads[t].SwapPeak?
    ensures |Advance(s, t).threads| == |s.threads| && Moved(s, Advance(s, t), t)
  {
  }

  lemma PeakAt(s: State, t: nat)
    requires PeakInv(s) && t < |s.threads|
    ensures s.peak <= s.highest && s.live <= s.highest
    ensures s.threads[t].LoadPeak? || s.threads[t].SwapPeak? ==> s.threads[t].candidate <= s.highest
    ensures s.threads[t].SwapPeak? ==> s.threads[t].seen <= s.peak
  {
    hide SomeoneCarries;
  }

  lemma MoverAndPeak(s: State, step: Step)
    requires PeakInv(s) && Enabled(s, step)
    ensures |After(s, step).threads| == |s.threads| && Moved(s, After(s, step), step.thread)
  {
    hide SomeoneCarries, Advance;
    if step.action.Go? {
      GoMoves(s, step.thread);
    }
  }

  lemma StepKeepsPeak(s: State, step: Step)
    requires PeakInv(s) && Enabled(s, step)
    ensures PeakInv(After(s, step))
  {
    var t := step.thread;
    var u := After(s, step);
    MoverAndPeak(s, step);
    CarriedOn(s.threads, t, u.threads[t], u.highest);
    hide After, Enabled, SomeoneCarries;
  }

  lemma {:induction false} RunKeepsInv(s: State, run: seq<Step>)
    requires Balanced(s) && PeakInv(s) && IsRun(s, run)
    ensures Balanced(Final(s, run)) && PeakInv(Final(s, run))
    decreases |run|
  {
    hide Balanced, PeakInv, After, Enabled;
    if run != [] {
      StepBalances(s, run[0]);
      StepKeepsPeak(s, run[0]);
      RunKeepsInv(After(s, run[0]), run[1..]);
    }
  }

  // The largest value the live count takes in a run.
  function MaxLive(s: State, run: seq<Step>): int
    requires IsRun(s, run)
    decreases |run|
  {
    if run == [] then s.live
    else
      var later := MaxLive(After(s, run[0]), run[1..]);
      if s.live > later then s.live else later
  }

  lemma StepHighest(s: State, step: Step)
    requires Enabled(s, step) && s.live <= s.highest
    ensures var u := After(s, step); u.highest == if u.live > s.highest then u.live else s.highest
  {
  }

  lemma {:induction false} HighestIsMaximum(s: State, run: seq<Step>)
    requires IsRun(s, run) && s.live <= s.highest
    ensures Final(s, run).highest == if MaxLive(s, run) > s.highest then MaxLive(s, run) else s.highest
    decreases |run|
  {
    hide After, Enabled;
    if run != [] {
      StepHighest(s, run[0]);
      HighestIsMaximum(After(s, run[0]), run[1..]);
    }
  }

  lemma {:induction false} MaxLiveFirst(s: State, run: seq<Step>)
    requires IsRun(s, run)
    ensures MaxLive(s, run) >= s.live
  {
  }

  ghost predicate AtRest(s: State) {
    forall t :: 0 <= t < |s.threads| ==> s.threads[t].Outside?
  }

  lemma RestingCounters(s: State)
    requires Balanced(s) && PeakInv(s) && AtRest(s)
    ensures s.live == s.allocatedBytes - s.deallocatedBytes == Sum(s.blocks)
    ensures s.allocations - s.deallocations == |s.blocks|
    ensures s.peak == s.highest
  {
    NothingOwed(s.threads, Objects);
    NothingOwed(s.threads, Bytes);
    NothingOwed(s.threads, Live);
    hide AllOwed, Sum;
  }

  // Whatever the interleaving: with no thread under way, the live count is what was allocated less
  // what was deallocated, which is the total of the blocks still out; and the peak is the largest
  // value the live count has taken in the whole run.
  lemma QuiescentCounters(threads: nat, run: seq<Step>)
    requires IsRun(Initial(threads), run) && AtRest(Final(Initial(threads), run))
    ensures var s := Final(Initial(threads), run);
            && s.live == s.allocatedBytes - s.deallocatedBytes == Sum(s.blocks)
            && s.allocations - s.deallocations == |s.blocks|
            && s.peak == MaxLive(Initial(threads), run)
  {
    MaxLiveFirst(Initial(threads), run);
    hide IsRun, Final, MaxLive, Balanced, PeakInv, AtRest;
    InitialInv(threads);
    RunKeepsInv(Initial(threads), run);
    HighestIsMaximum(Initial(threads), run);
    RestingCounters(Final(Initial(threads), run));
  }

  // At every moment of every run, with threads anywhere, the live count covers the blocks that are
  // out and the peak has not overshot.
  lemma LiveWithinBounds(threads: nat, run: seq<Step>)
    requires IsRun(Initial(threads), run)
    ensures var s := Final(Initial(threads), run);
            0 <= Sum(s.blocks) <= s.live && s.peak <= MaxLive(Initial(threads), run)
  {
    MaxLiveFirst(Initial(threads), run);
    hide IsRun, Final, MaxLive;
    InitialInv(threads);
    RunKeepsInv(Initial(threads), run);
    HighestIsMaximum(Initial(threads), run);
  }

  // ---- the steady state ----

  // By how much the allocation counters lead the steady-state ones, apart from what is under way.
  function Lead(s: State, m: Measure): int {
    if m == SteadyObjects then s.allocations - s.steadyAllocations - AllOwed(s.threads, m)
    else s.allocatedBytes - s.steadyBytes - AllOwed(s.threads, m)
  }

  lemma StepKeepsLead(s: State, step: Step, m: Measure)
    requires s.steady && Enabled(s, step) && (m == SteadyObjects || m == SteadyBytes)
    ensures After(s, step).steady && Lead(After(s, step), m) == Lead(s, m)
  {
    hide AllOwed;
    var t := step.thread;
    var u := After(s, step);
    AllChanged(s.threads, t, u.threads[t]);
    assert u.threads == s.threads[t := u.threads[t]];
  }

  lemma {:induction false} RunKeepsLead(s: State, run: seq<Step>, m: Measure)
    requires s.steady && IsRun(s, run) && (m == SteadyObjects || m == SteadyBytes)
    ensures Final(s, run).steady && Lead(Final(s, run), m) == Lead(s, m)
    decreases |run|
  {
    hide Lead, After, Enabled;
    if run != [] {
      StepKeepsLead(s, run[0], m);
      RunKeepsLead(After(s, run[0]), run[1..], m);
    }
  }

  // From the beginning of the steady state, at rest, to any later rest: the steady-state counters
  // have grown by exactly the allocations and the bytes allocated since.
  lemma SteadyCountersExact(s: State, run: seq<Step>)
    requires s.steady && AtRest(s) && IsRun(s, run) && AtRest(Final(s, run))
    ensures var u := Final(s, run);
            && u.steadyAllocations - s.steadyAllocations == u.allocations - s.allocations
            && u.steadyBytes - s.steadyBytes == u.allocatedBytes - s.allocatedBytes
  {
    hide IsRun, Final, AllOwed, Owed;
    RunKeepsLead(s, run, SteadyObjects);
    RunKeepsLead(s, run, SteadyBytes);
    NothingOwed(s.threads, SteadyObjects);
    NothingOwed(s.threads, SteadyBytes);
    NothingOwed(Final(s, run).threads, SteadyObjects);
    NothingOwed(Final(s, run).threads, SteadyBytes);
  }

  // ---- one call undisturbed ----

  function Rank(s: State, t: nat): nat
    requires t < |s.threads|
  {
    match s.threads[t]
    case Outside => 0
    case CountAllocation(_) => 10 case AddAllocated(_) => 9 case AddLive(_) => 8 case LoadPeak(_, _) => 7
    case SwapPeak(_, _, seen) => if seen == s.peak then 5 else 6
    case LoadSteady(_) => 4 case CountSteady(_) => 3 case AddSteady(_) => 2 case HandOut(_) => 1
    case CountDeallocation(_) => 3 case AddDeallocated(_) => 2 case SubtractLive(_) => 1
  }

  // Thread t goes on alone until its call is over.
  function Alone(s: State, t: nat): State
    requires t < |s.threads|
    decreases Rank(s, t)
  {
    if s.threads[t].Outside? then s else Alone(Advance(s, t), t)
  }

  lemma AloneStep(s: State, t: nat)
    requires t < |s.threads| && !s.threads[t].Outside?
    ensures |Advance(s, t).threads| == |s.threads| && Alone(s, t) == Alone(Advance(s, t), t)
  {
  }

  lemma {:induction false} AloneIsRun(s: State, t: nat) returns (run: seq<Step>)
    requires t < |s.threads|
    ensures IsRun(s, run) && Final(s, run) == Alone(s, t) && |run| <= 10
    ensures |run| <= Rank(s, t)
    ensures forall k :: 0 <= k < |run| ==> run[k] == Step(t, Go)
    decreases Rank(s, t)
  {
    if s.threads[t].Outside? {
      run := [];
    } else {
      var rest := AloneIsRun(Advance(s, t), t);
      run := [Step(t, Go)] + rest;
      assert run[1..] == rest;
    }
  }

  lemma LeavesAlone(s: State, t: nat)
    requires t < |s.threads| && s.threads[t].Outside?
    ensures Alone(s, t) == s
  {
  }

  lemma HandOutAlone(s: State, t: nat)
    requires t < |s.threads| && s.threads[t].HandOut?
    ensures Alone(s, t) == s.(blocks := s.blocks + [s.threads[t].n], threads := s.threads[t := Outside])
  {
    hide Alone;
    AloneStep(s, t);
    LeavesAlone(Advance(s, t), t);
  }

  lemma SteadyAlone(s: State, t: nat)
    requires t < |s.threads| && s.threads[t].LoadSteady?
    ensures var n := s.threads[t].n;
            Alone(s, t)
            == s.(steadyAllocations := s.steadyAllocations + (if s.steady then 1 else 0),
                  steadyBytes := s.steadyBytes + (if s.steady then n else 0),
                  blocks := s.blocks + [n], threads := s.threads[t := Outside])
  {
    hide Alone;
    AloneStep(s, t);
    var u := Advance(s, t);
    if s.steady {
      AloneStep(u, t);
      var v := Advance(u, t);
      AloneStep(v, t);
      HandOutAlone(Advance(v, t), t);
    } else {
      HandOutAlone(u, t);
    }
  }

  lemma PeakAlone(s: State, t: nat)
    requires t < |s.threads| && s.threads[t].LoadPeak?
    ensures var (n, candidate) := (s.threads[t].n, s.threads[t].candidate);
            Alone(s, t)
            == s.(peak := if candidate > s.peak then candidate else s.peak,
                  steadyAllocations := s.steadyAllocations + (if s.steady then 1 else 0),
                  steadyBytes := s.steadyBytes + (if s.steady then n else 0),
                  blocks := s.blocks + [n], threads := s.threads[t := Outside])
  {
    hide Alone;
    AloneStep(s, t);
    var u := Advance(s, t);
    AloneStep(u, t);
    SteadyAlone(Advance(u, t), t);
  }

  // An allocation that no other thread disturbs is over after ten atomic operations and counts once,
  // with its bytes, in every counter; the peak is raised to the new live count if that is higher.
  lemma AllocationAlone(s: State, t: nat, n: nat)
    requires Enabled(s, Step(t, Allocate(n))) && s.live <= s.highest
    ensures t < |s.threads| && |After(s, Step(t, Allocate(n))).threads| == |s.threads|
    ensures var live := s.live + n;
            Alone(After(s, Step(t, Allocate(n))), t)
            == s.(allocations := s.allocations + 1, allocatedBytes := s.allocatedBytes + n, live := live,
                  highest := if live > s.highest then live else s.highest,
                  peak := if live > s.peak then live else s.peak,
                  steadyAllocations := s.steadyAllocations + (if s.steady then 1 else 0),
                  steadyBytes := s.steadyBytes + (if s.steady then n else 0),
                  blocks := s.blocks + [n])
  {
    hide Alone;
    var u := After(s, Step(t, Allocate(n)));
    AloneStep(u, t);
    var v := Advance(u, t);
    AloneStep(v, t);
    var w := Advance(v, t);
    AloneStep(w, t);
    PeakAlone(Advance(w, t), t);
    assert s.threads[t := Outside] == s.threads;
  }

  // Likewise a deallocation: the block is gone, and counted once with its bytes.
  lemma DeallocationAlone(s: State, t: nat, block: nat)
    requires Enabled(s, Step(t, Deallocate(block)))
    ensures t < |s.threads| && |After(s, Step(t, Deallocate(block))).threads| == |s.threads|
    ensures var n := s.blocks[block];
            Alone(After(s, Step(t, Deallocate(block))), t)
            == s.(deallocations := s.deallocations + 1, deallocatedBytes := s.deallocatedBytes + n, live := s.live - n,
                  blocks := s.blocks[..block] + s.blocks[block + 1..])
  {
    hide Alone;
    var u := After(s, Step(t, Deallocate(block)));
    AloneStep(u, t);
    var v := Advance(u, t);
    AloneStep(v, t);
    var w := Advance(v, t);
    AloneStep(w, t);
    LeavesAlone(Advance(w, t), t);
    assert s.threads[t := Outside] == s.threads;
  }

  // ---- before the steady state ----

  ghost predicate NotCounting(s: State) {
    && !s.steady && s.steadyAllocations == 0 && s.steadyBytes == 0
    && forall t :: 0 <= t < |s.threads| ==> !s.threads[t].CountSteady? && !s.threads[t].AddSteady?
  }

  lemma StepNotCounting(s: State, step: Step)
    requires NotCounting(s) && Enabled(s, step) && !step.action.BeginSteady?
    ensures NotCounting(After(s, step))
  {
  }

  lemma {:induction false} RunNotCounting(s: State, run: seq<Step>)
    requires NotCounting(s) && IsRun(s, run) && forall k :: 0 <= k < |run| ==> !run[k].action.BeginSteady?
    ensures NotCounting(Final(s, run))
    decreases |run|
  {
    hide NotCounting, Enabled, After;
    if run != [] {
      StepNotCounting(s, run[0]);
      RunNotCounting(After(s, run[0]), run[1..]);
    }
  }

  // Until the steady state is begun its counters stay zero, whatever is allocated.
  lemma NothingBeforeSteady(threads: nat, run: seq<Step>)
    requires IsRun(Initial(threads), run) && forall k :: 0 <= k < |run| ==> !run[k].action.BeginSteady?
    ensures var s := Final(Initial(threads), run); !s.steady && s.steadyAllocations == 0 && s.steadyBytes == 0
  {
    hide IsRun, Final;
    RunNotCounting(Initial(threads), run);
  }
}
