// Bounded ramps of the process oven, over exact numbers: each zone moves towards its target by at
// most one increment a cycle, and how many cycles that takes is known beforehand.

module Ramp {
  import opened Bytes

  const ZONE_COUNT := 8
  const SIZE_LIMIT := 18446744073709551616.0  // what the largest std::size_t converts to

  function Abs(x: real): real {
    if x < 0.0 then -x else x
  }

  function Min(x: real, y: real): real {
    if y < x then y else x
  }

  function Max(x: real, y: real): real {
    if x < y then y else x
  }

  function Travel(k: nat, increment: real): real {
    k as real * increment
  }

  function Ceil(x: real): int {
    -((-x).Floor)
  }

  // A ramp under way.
  datatype Ramper = Ramper(current: real, target: real, increment: real) {
    function Step(): Ramper {
      if current < target then this.(current := Min(current + increment, target))
      else if current > target then this.(current := Max(current - increment, target))
      else this
    }

    function StepsRemaining(): (n: int)
      requires increment > 0.0
      ensures n >= 0
    {
      CeilAtLeast(Abs(target - current) / increment, 0);
      Ceil(Abs(target - current) / increment)
    }

    function After(k: nat): Ramper {
      if k == 0 then this else After(k - 1).Step()
    }

    // Where the ramp is after k steps, in closed form.
    function At(k: nat): real {
      if current <= target then Min(current + Travel(k, increment), target)
      else Max(current - Travel(k, increment), target)
    }
  }

  function CreateRamper(start: real, target: real, increment: real): (r: Option<Ramper>)
    ensures r.Some? ==> r.value == Ramper(start, target, increment) && increment > 0.0
  {
    if increment <= 0.0 then None
    else if Ceil(Abs(target - start) / increment) as real > SIZE_LIMIT then None
    else Some(Ramper(start, target, increment))
  }

  // ---- one ramp ----

  lemma CeilAtLeast(x: real, n: int)
    ensures n >= Ceil(x) <==> n as real >= x
  {
  }

  lemma Quotient(d: real, increment: real, k: nat)
    requires increment > 0.0
    ensures Travel(k, increment) >= d <==> k as real >= d / increment
  {
    var q := d / increment;
    assert q * increment == d;
    if k as real >= q {
      assert (k as real - q) * increment >= 0.0;
    } else {
      assert (q - k as real) * increment > 0.0;
    }
  }

  lemma OneMore(k: nat, increment: real)
    requires increment > 0.0
    ensures Travel(k + 1, increment) == Travel(k, increment) + increment
    ensures Travel(k, increment) >= 0.0 && Travel(0, increment) == 0.0
  {
    assert (k + 1) as real == k as real + 1.0;
  }

  // A step from m behind the start leads to one increment further.
  lemma StepFrom(r: Ramper, m: real)
    requires r.increment > 0.0 && m >= 0.0
    ensures var p := if r.current <= r.target then Min(r.current + m, r.target) else Max(r.current - m, r.target);
            var n := m + r.increment;
            r.(current := p).Step()
            == r.(current := if r.current <= r.target then Min(r.current + n, r.target)
                             else Max(r.current - n, r.target))
  {
  }

  lemma {:induction false} AfterIsAt(r: Ramper, k: nat)
    requires r.increment > 0.0
    ensures r.After(k) == r.(current := r.At(k))
    decreases k
  {
    hide Travel, Ramper.Step;
    OneMore(k, r.increment);
    if k > 0 {
      AfterIsAt(r, k - 1);
      OneMore(k - 1, r.increment);
      StepFrom(r, Travel(k - 1, r.increment));
    }
  }

  // The target is reached after exactly the predicted number of steps, and kept.
  lemma ReachedExactly(r: Ramper, k: nat)
    requires r.increment > 0.0
    ensures r.At(k) == r.target <==> k >= r.StepsRemaining()
  {
    hide Travel, Ceil;
    var d := Abs(r.target - r.current);
    Quotient(d, r.increment, k);
    CeilAtLeast(d / r.increment, k);
  }

  // No command overshoots, and none moves by more than one increment.
  lemma StaysBetween(r: Ramper, k: nat)
    requires r.increment > 0.0
    ensures Min(r.current, r.target) <= r.At(k) <= Max(r.current, r.target)
    ensures Abs(r.At(k + 1) - r.At(k)) <= r.increment
    ensures Abs(r.target - r.At(k + 1)) <= Abs(r.target - r.At(k))
  {
    hide Travel;
    OneMore(k, r.increment);
  }

  // One step uses up one of the steps remaining.
  lemma StepUsesOne(r: Ramper)
    requires r.increment > 0.0
    ensures r.Step().StepsRemaining() == if r.current == r.target then 0 else r.StepsRemaining() - 1
  {
    var d, e := Abs(r.target - r.current), Abs(r.target - r.Step().current);
    if d > r.increment {
      assert e == d - r.increment;
      LessOne(d, r.increment);
      assert Ceil(d / r.increment - 1.0) == Ceil(d / r.increment) - 1;
    } else {
      assert e == 0.0;
      SmallQuotient(d, r.increment);
    }
  }

  lemma LessOne(d: real, increment: real)
    requires increment > 0.0
    ensures (d - increment) / increment == d / increment - 1.0
  {
    var q, p := d / increment, (d - increment) / increment;
    assert q * increment == d && p * increment == d - increment;
    Cancel(p, q - 1.0, increment);
  }

  lemma Cancel(a: real, b: real, increment: real)
    requires increment > 0.0 && a * increment == b * increment
    ensures a == b
  {
    if a > b {
      Positive(a - b, increment);
    } else if a < b {
      Positive(b - a, increment);
    }
  }

  lemma Positive(x: real, y: real)
    requires x > 0.0 && y > 0.0
    ensures x * y > 0.0
  {
  }

  lemma SmallQuotient(d: real, increment: real)
    requires 0.0 <= d <= increment && increment > 0.0
    ensures Ceil(d / increment) == if d == 0.0 then 0 else 1
    ensures Ceil(0.0 / increment) == 0
  {
    Quotient(d, increment, 0);
    Quotient(d, increment, 1);
    CeilAtLeast(d / increment, 0);
    CeilAtLeast(d / increment, 1);
    CeilAtLeast(d / increment, -1);
  }

  // ---- all zones ----

  type Zones = seq<Ramper>

  ghost predicate Startable(zones: Zones) {
    |zones| == ZONE_COUNT && forall i :: 0 <= i < |zones| ==> zones[i].increment > 0.0
  }

  // The zones not yet at their target after k cycles.
  function ActiveAt(zones: Zones, k: nat): nat
    requires forall i :: 0 <= i < |zones| ==> zones[i].increment > 0.0
  {
    if zones == [] then 0
    else ActiveAt(zones[..|zones| - 1], k) + if k < zones[|zones| - 1].StepsRemaining() then 1 else 0
  }

  function UnfinishedAt(zones: Zones, k: nat): set<nat> {
    set i: nat | i < |zones| && zones[i].At(k) != zones[i].target
  }

  // These are the zones whose ramp has not reached its target.
  lemma {:induction false} ActiveExactly(zones: Zones, k: nat)
    requires forall i :: 0 <= i < |zones| ==> zones[i].increment > 0.0
    ensures ActiveAt(zones, k) == |UnfinishedAt(zones, k)|
    decreases |zones|
  {
    hide Ramper.At, Ramper.StepsRemaining;
    if zones != [] {
      var n := |zones| - 1;
      ActiveExactly(zones[..n], k);
      ReachedExactly(zones[n], k);
      var last: set<nat> := if zones[n].At(k) != zones[n].target then {n} else {};
      assert UnfinishedAt(zones, k) == UnfinishedAt(zones[..n], k) + last;
      assert n !in UnfinishedAt(zones[..n], k);
    }
  }

  function MaxSteps(zones: Zones): nat
    requires forall i :: 0 <= i < |zones| ==> zones[i].increment > 0.0
  {
    if zones == [] then 0
    else
      var before, last := MaxSteps(zones[..|zones| - 1]), zones[|zones| - 1].StepsRemaining();
      if before < last then last else before
  }

  lemma {:induction false} ActiveUntilMax(zones: Zones, k: nat)
    requires forall i :: 0 <= i < |zones| ==> zones[i].increment > 0.0
    ensures ActiveAt(zones, k) == 0 <==> k >= MaxSteps(zones)
    decreases |zones|
  {
    if zones != [] {
      ActiveUntilMax(zones[..|zones| - 1], k);
    }
  }

  lemma {:induction false} MaxIsMax(zones: Zones, i: nat)
    requires i < |zones| && forall j :: 0 <= j < |zones| ==> zones[j].increment > 0.0
    ensures zones[i].StepsRemaining() <= MaxSteps(zones)
    decreases |zones|
  {
    if i < |zones| - 1 {
      MaxIsMax(zones[..|zones| - 1], i);
    }
  }

  // The state of a zone after k cycles: its ramp, while that lasts.
  function ZoneAt(r: Ramper, k: nat): Option<Ramper>
    requires r.increment > 0.0
  {
    if k < r.StepsRemaining() then Some(r.(current := r.At(k))) else None
  }

  lemma ZoneSteps(r: Ramper, k: nat)
    requires r.increment > 0.0 && k < r.StepsRemaining()
    ensures r.(current := r.At(k)).Step() == r.(current := r.At(k + 1))
    ensures r.At(k + 1) == r.target <==> ZoneAt(r, k + 1) == None
  {
    AfterIsAt(r, k);
    AfterIsAt(r, k + 1);
    ReachedExactly(r, k + 1);
  }

  lemma ZoneDone(r: Ramper, k: nat)
    requires r.increment > 0.0 && k >= r.StepsRemaining()
    ensures r.At(k) == r.target && r.At(k + 1) == r.At(k) && ZoneAt(r, k) == ZoneAt(r, k + 1) == None
  {
    ReachedExactly(r, k);
    ReachedExactly(r, k + 1);
  }

  predicate ZoneIs(r: Ramper, command: real, ramper: Option<Ramper>, k: nat)
    requires r.increment > 0.0
  {
    command == r.At(k) && ramper == ZoneAt(r, k)
  }

  // One zone's part of a cycle.
  function StepZone(command: real, ramper: Option<Ramper>): (real, Option<Ramper>) {
    if ramper == None then (command, None)
    else
      var next := ramper.value.Step();
      (next.current, if next.current == next.target then None else Some(next))
  }

  lemma ZoneStepped(r: Ramper, command: real, ramper: Option<Ramper>, k: nat)
    requires r.increment > 0.0 && ZoneIs(r, command, ramper, k)
    ensures var (c, s) := StepZone(command, ramper); ZoneIs(r, c, s, k + 1)
    ensures ramper == None <==> k >= r.StepsRemaining()
  {
    hide Ramper.At, Ramper.StepsRemaining, Ramper.Step;
    if ramper == None {
      ZoneDone(r, k);
    } else {
      ZoneSteps(r, k);
    }
  }

  datatype CycleResult = CycleResult(cycle: nat, activeRampers: nat, complete: bool)

  class RampDriver {
    const commands: array<real>
    const rampers: array<Option<Ramper>>
    const predictedCycles: nat
    var cycle: nat
    var activeRampers: nat

    ghost const zones: Zones  // the ramps as they were ordered

    // Everything is where the closed form says it is after this many cycles.
    ghost predicate Valid()
      reads this, commands, rampers
    {
      && commands.Length == rampers.Length == ZONE_COUNT && Startable(zones)
      && predictedCycles == MaxSteps(zones) && cycle <= predictedCycles
      && activeRampers == ActiveAt(zones, cycle)
      && (forall i :: 0 <= i < ZONE_COUNT ==> ZoneIs(zones[i], commands[i], rampers[i], cycle))
    }

    constructor (zones: Zones)
      requires Startable(zones)
      ensures Valid() && cycle == 0 && this.zones == zones && fresh(commands) && fresh(rampers)
      ensures forall i :: 0 <= i < ZONE_COUNT ==> commands[i] == zones[i].current
    {
      commands := new real[ZONE_COUNT](i requires 0 <= i < ZONE_COUNT && Startable(zones) => zones[i].current);
      rampers := new Option<Ramper>[ZONE_COUNT](i requires 0 <= i < ZONE_COUNT && Startable(zones) =>
        if zones[i].StepsRemaining() != 0 then Some(zones[i]) else None);
      predictedCycles, cycle, activeRampers := MaxSteps(zones), 0, ActiveAt(zones, 0);
      this.zones := zones;
      new;
      forall i | 0 <= i < ZONE_COUNT
        ensures ZoneIs(zones[i], commands[i], rampers[i], 0) && commands[i] == zones[i].current
      {
        AfterIsAt(zones[i], 0);
      }
    }

    // One cycle: every ramp still under way takes one step.
    method Step() returns (result: CycleResult)
      requires Valid()
      modifies this`cycle, this`activeRampers, commands, rampers
      ensures Valid()
      ensures cycle == if old(cycle) < predictedCycles then old(cycle) + 1 else old(cycle)
      ensures result == CycleResult(cycle, ActiveAt(zones, cycle), cycle == predictedCycles)
    {
      hide MaxSteps, Ramper.At, Ramper.StepsRemaining, Ramper.Step, ZoneIs, ActiveAt;
      ActiveUntilMax(zones, cycle);
      if activeRampers == 0 {
        return CycleResult(cycle, 0, true);
      }
      ghost var k, n := cycle, cycle + 1;
      cycle := cycle + 1;
      var i := 0;
      assert zones[..0] == [] && ActiveAt([], n) == ActiveAt([], k) == 0 by {
        NoneActive(n);
        NoneActive(k);
      }
      while i < ZONE_COUNT
        invariant 0 <= i <= ZONE_COUNT && cycle == n
        invariant forall j :: 0 <= j < i ==> ZoneIs(zones[j], commands[j], rampers[j], n)
        invariant forall j :: i <= j < ZONE_COUNT ==> ZoneIs(zones[j], commands[j], rampers[j], k)
        invariant activeRampers == ActiveAt(zones[..i], n) + ActiveAt(zones, k) - ActiveAt(zones[..i], k)
      {
        ActiveMore(zones, i, k);
        ActiveMore(zones, i, n);
        ZoneStepped(zones[i], commands[i], rampers[i], k);
        StillActive(zones[i], StepZone(commands[i], rampers[i]).0, StepZone(commands[i], rampers[i]).1, n);
        if rampers[i].Some? {
          var next := rampers[i].value.Step();
          commands[i] := next.current;
          rampers[i] := Some(next);
          if next.current == next.target {
            rampers[i] := None;
            activeRampers := activeRampers - 1;
          }
        }
        i := i + 1;
      }
      assert zones[..ZONE_COUNT] == zones;
      ActiveUntilMax(zones, cycle);
      return CycleResult(cycle, activeRampers, activeRampers == 0);
    }

    static lemma NoneActive(k: nat)
      ensures ActiveAt([], k) == 0
    {
    }

    static lemma StillActive(r: Ramper, command: real, ramper: Option<Ramper>, k: nat)
      requires r.increment > 0.0 && ZoneIs(r, command, ramper, k)
      ensures ramper == None <==> k >= r.StepsRemaining()
    {
    }

    static lemma ActiveMore(zones: Zones, i: nat, k: nat)
      requires Startable(zones) && i < |zones|
      ensures ActiveAt(zones[..i + 1], k) == ActiveAt(zones[..i], k) + if k < zones[i].StepsRemaining() then 1 else 0
      ensures ActiveAt(zones[..i + 1], k) <= ActiveAt(zones, k)
    {
      assert zones[..i + 1][..i] == zones[..i];
      ActiveMonotone(zones, i + 1, k);
    }

    static lemma {:induction false} ActiveMonotone(zones: Zones, i: nat, k: nat)
      requires forall j :: 0 <= j < |zones| ==> zones[j].increment > 0.0
      requires i <= |zones|
      ensures ActiveAt(zones[..i], k) <= ActiveAt(zones, k)
      decreases |zones|
    {
      if i < |zones| {
        assert zones[..|zones| - 1][..i] == zones[..i];
        ActiveMonotone(zones[..|zones| - 1], i, k);
      } else {
        assert zones[..i] == zones;
      }
    }

    // Stepping until a result says complete takes exactly the predicted number of cycles and leaves
    // every command at its target.
    method RunToCompletion()
      requires Valid()
      modifies this`cycle, this`activeRampers, commands, rampers
      ensures Valid() && cycle == predictedCycles && activeRampers == 0
      ensures forall i :: 0 <= i < ZONE_COUNT ==> commands[i] == zones[i].target
    {
      hide MaxSteps, Ramper.At, Ramper.StepsRemaining, ActiveAt;
      var complete := cycle == predictedCycles;
      while !complete
        invariant Valid() && complete == (cycle == predictedCycles)
        decreases predictedCycles - cycle
      {
        var result := Step();
        complete := result.complete;
      }
      ActiveUntilMax(zones, cycle);
      forall i | 0 <= i < ZONE_COUNT ensures commands[i] == zones[i].target {
        MaxIsMax(zones, i);
        assert ZoneIs(zones[i], commands[i], rampers[i], cycle);
        ReachedExactly(zones[i], cycle);
      }
    }
  }

  // No driver is made for an increment or a period that is not positive, or a ramp too long to count.
  method CreateDriver(starts: seq<real>, targets: seq<real>, increment: real, period: int)
    returns (driver: Option<RampDriver>)
    requires |starts| == |targets| == ZONE_COUNT
    ensures driver.Some? <==>
              && increment > 0.0 && period > 0
              && forall i :: 0 <= i < ZONE_COUNT ==> Ceil(Abs(targets[i] - starts[i]) / increment) as real <= SIZE_LIMIT
    ensures driver.Some? ==>
              && driver.value.Valid() && driver.value.cycle == 0
              && (forall i :: 0 <= i < ZONE_COUNT ==>
                    && driver.value.commands[i] == starts[i]
                    && driver.value.zones[i] == Ramper(starts[i], targets[i], increment))
  {
    if increment <= 0.0 || period <= 0 {
      return None;
    }
    hide Ceil, Abs;
    var zones: Zones := [];
    for i := 0 to ZONE_COUNT
      invariant |zones| == i
      invariant forall j :: 0 <= j < i ==>
                  && zones[j] == Ramper(starts[j], targets[j], increment)
                  && Ceil(Abs(targets[j] - starts[j]) / increment) as real <= SIZE_LIMIT
    {
      var ramper := CreateRamper(starts[i], targets[i], increment);
      if ramper == None {
        return None;
      }
      zones := zones + [ramper.value];
    }
    var made := new RampDriver(zones);
    driver := Some(made);
  }
}
