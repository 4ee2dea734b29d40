// The parameter store: nine bytes of encoded values, the source of each, and a change counter.

module ParameterStore {
  import opened Bytes
  import opened WireFormat
  import opened BinaryStreams

  datatype ParameterId = ReportingInterval | TemperatureLimit | OperatingMode

  datatype ParameterSource = CompiledDefault | PersistentStorage | ConfigurationFile | CommandLine | Runtime

  datatype UpdateResult = Updated | InvalidValue | NotRuntimeWritable | LowerPrecedence

  datatype ChangeEvent = ChangeEvent(id: ParameterId, source: ParameterSource, generation: u32)

  const PARAMETER_COUNT := 3
  const VALUES_SIZE := 9

  function Index(id: ParameterId): (k: u16)
    ensures k < PARAMETER_COUNT
  {
    match id case ReportingInterval => 0 case TemperatureLimit => 1 case OperatingMode => 2
  }

  function IdAt(k: nat): (id: ParameterId)
    requires k < PARAMETER_COUNT
    ensures Index(id) == k
  {
    if k == 0 then ReportingInterval else if k == 1 then TemperatureLimit else OperatingMode
  }

  function Precedence(source: ParameterSource): nat {
    match source
    case CompiledDefault => 0
    case PersistentStorage => 1
    case ConfigurationFile => 2
    case CommandLine => 3
    case Runtime => 4
  }

  function Offset(id: ParameterId): nat {
    match id case ReportingInterval => 0 case TemperatureLimit => 4 case OperatingMode => 8
  }

  function EncodedSize(id: ParameterId): nat {
    if id == OperatingMode then 1 else 4
  }

  predicate RuntimeWritable(id: ParameterId) {
    id != TemperatureLimit
  }

  // A 32-bit IEEE 754 pattern denotes a number in [-40, 125]: magnitudes of equal sign are ordered
  // like their patterns, and every NaN lies above the largest admissible magnitude.
  predicate TemperatureInRange(bits: nat) {
    if bits < 0x8000_0000 then bits <= 0x42FA_0000 else bits - 0x8000_0000 <= 0x4220_0000
  }

  predicate Validate(id: ParameterId, value: nat) {
    match id
    case ReportingInterval => 100 <= value <= 60000
    case TemperatureLimit => value < 0x1_0000_0000 && TemperatureInRange(value)
    case OperatingMode => value <= 2
  }

  // 1000 ms, 45.0 degrees, normal mode.
  function DefaultValue(id: ParameterId): (value: u32)
    ensures Validate(id, value)
  {
    match id case ReportingInterval => 1000 case TemperatureLimit => 0x4234_0000 case OperatingMode => 0
  }

  // The 32-bit change counter.
  function Advance(generation: u32, changes: nat): u32 {
    (generation + changes) % 0x1_0000_0000
  }

  lemma AdvanceTwice(generation: u32, n: nat, m: nat)
    ensures Advance(Advance(generation, n), m) == Advance(generation, n + m)
  {
  }

  // ---- the store as a value ----

  datatype StoreState = StoreState(values: seq<byte>, sources: seq<ParameterSource>, generation: u32) {
    predicate Shaped() {
      |values| == VALUES_SIZE && |sources| == PARAMETER_COUNT
    }

    function Slot(id: ParameterId): (s: seq<byte>)
      requires Shaped()
      ensures |s| == EncodedSize(id)
    {
      values[Offset(id)..Offset(id) + EncodedSize(id)]
    }

    function Get(id: ParameterId): nat
      requires Shaped()
    {
      LittleValue(Slot(id))
    }

    function Source(id: ParameterId): ParameterSource
      requires Shaped()
    {
      sources[Index(id)]
    }

    // Every stored value passes its own validation.
    predicate AllValid()
      requires Shaped()
    {
      Validate(ReportingInterval, Get(ReportingInterval)) && Validate(TemperatureLimit, Get(TemperatureLimit))
      && Validate(OperatingMode, Get(OperatingMode))
    }

    function Put(id: ParameterId, bytes: seq<byte>, source: ParameterSource): (s: StoreState)
      requires Shaped() && |bytes| == EncodedSize(id)
      ensures s.Shaped()
    {
      StoreState(Spliced(values, Offset(id), bytes), sources[Index(id) := source],
                 Advance(generation, 1))
    }

    function Set(id: ParameterId, value: nat, source: ParameterSource): (r: (UpdateResult, StoreState))
      requires Shaped()
      ensures r.1.Shaped()
    {
      if source == Runtime && !RuntimeWritable(id) then (NotRuntimeWritable, this)
      else if !Validate(id, value) then (InvalidValue, this)
      else if Precedence(source) < Precedence(Source(id)) then (LowerPrecedence, this)
      else (Updated, Put(id, LittleBytes(value, EncodedSize(id)), source))
    }
  }

  const DEFAULT_STORE: StoreState :=
    StoreState(LittleBytes(1000, 4) + LittleBytes(0x4234_0000, 4) + LittleBytes(0, 1),
               [CompiledDefault, CompiledDefault, CompiledDefault], 0)

  // A parameter's slot and source are its own: changing one leaves the others as they were.
  lemma PutOnlyThere(s: StoreState, id: ParameterId, bytes: seq<byte>, source: ParameterSource, other: ParameterId)
    requires s.Shaped() && |bytes| == EncodedSize(id)
    ensures var t := s.Put(id, bytes, source);
            && t.Slot(other) == (if other == id then bytes else s.Slot(other))
            && t.Source(other) == (if other == id then source else s.Source(other))
  {
    SplicedSlice(s.values, Offset(id), bytes, Offset(other), EncodedSize(other));
    hide Spliced;
  }

  lemma ValueFits(id: ParameterId, value: nat)
    requires Validate(id, value)
    ensures value < Pow256(EncodedSize(id))
  {
    assert Pow256(4) == 256 * Pow256(3) == 256 * 256 * Pow256(2);
  }

  // Whatever is stored has been validated, in every store a program can build.
  lemma SetKeepsValid(s: StoreState, id: ParameterId, value: nat, source: ParameterSource)
    requires s.Shaped() && s.AllValid()
    ensures var (result, t) := s.Set(id, value, source);
            && t.AllValid()
            && (result == Updated ==> t.Get(id) == value && t.Source(id) == source)
            && (result != Updated ==> t == s)
            && (forall other :: other != id ==> t.Get(other) == s.Get(other) && t.Source(other) == s.Source(other))
  {
    if s.Set(id, value, source).0 == Updated {
      var bytes := LittleBytes(value, EncodedSize(id));
      ValueFits(id, value);
      LittleRoundTrip(value, EncodedSize(id));
      hide StoreState.Put, StoreState.Slot, LittleBytes, LittleValue, Validate;
      forall other {
        PutOnlyThere(s, id, bytes, source, other);
      }
    }
  }

  lemma DefaultSlots()
    ensures DEFAULT_STORE.Shaped()
    ensures DEFAULT_STORE.Slot(ReportingInterval) == LittleBytes(1000, 4)
    ensures DEFAULT_STORE.Slot(TemperatureLimit) == LittleBytes(0x4234_0000, 4)
    ensures DEFAULT_STORE.Slot(OperatingMode) == LittleBytes(0, 1)
  {
    hide LittleBytes;
  }

  lemma DefaultStoreValid()
    ensures DEFAULT_STORE.Shaped() && DEFAULT_STORE.AllValid()
    ensures forall id :: DEFAULT_STORE.Get(id) == DefaultValue(id) && DEFAULT_STORE.Source(id) == CompiledDefault
  {
    DefaultSlots();
    forall id ensures DEFAULT_STORE.Get(id) == DefaultValue(id) {
      ValueFits(id, DefaultValue(id));
      LittleRoundTrip(DefaultValue(id), EncodedSize(id));
    }
  }

  // ---- any history of updates ----

  datatype Request = Request(id: ParameterId, value: nat, source: ParameterSource)

  function AfterAll(s: StoreState, requests: seq<Request>): (t: StoreState)
    requires s.Shaped()
    ensures t.Shaped()
    decreases |requests|
  {
    if requests == [] then s
    else AfterAll(s.Set(requests[0].id, requests[0].value, requests[0].source).1, requests[1..])
  }

  function UpdatedCount(s: StoreState, requests: seq<Request>): nat
    requires s.Shaped()
    decreases |requests|
  {
    if requests == [] then 0
    else
      var (result, t) := s.Set(requests[0].id, requests[0].value, requests[0].source);
      (if result == Updated then 1 else 0) + UpdatedCount(t, requests[1..])
  }

  lemma SetRaises(s: StoreState, q: Request, id: ParameterId)
    requires s.Shaped()
    ensures var (result, t) := s.Set(q.id, q.value, q.source);
            && Precedence(t.Source(id)) >= Precedence(s.Source(id))
            && t.generation == Advance(s.generation, if result == Updated then 1 else 0)
  {
    if s.Set(q.id, q.value, q.source).0 == Updated {
      PutOnlyThere(s, q.id, LittleBytes(q.value, EncodedSize(q.id)), q.source, id);
    }
    hide LittleBytes, Validate, StoreState.Slot, Spliced;
  }

  // Whatever is asked of a store: its values stay valid, no parameter's source ever loses precedence,
  // and the counter counts the updates made.
  lemma {:induction false} AnyHistory(s: StoreState, requests: seq<Request>, id: ParameterId)
    requires s.Shaped() && s.AllValid()
    ensures var t := AfterAll(s, requests);
            && t.AllValid()
            && Precedence(t.Source(id)) >= Precedence(s.Source(id))
            && t.generation == Advance(s.generation, UpdatedCount(s, requests))
    decreases |requests|
  {
    hide StoreState.Set, StoreState.AllValid, StoreState.Source, Precedence;
    if requests != [] {
      var q := requests[0];
      var (result, t) := s.Set(q.id, q.value, q.source);
      SetKeepsValid(s, q.id, q.value, q.source);
      SetRaises(s, q, id);
      AnyHistory(t, requests[1..], id);
      AdvanceTwice(s.generation, if result == Updated then 1 else 0, UpdatedCount(t, requests[1..]));
    }
  }

  // ---- the store object ----

  class Store {
    const host: Endianness
    const values: array<byte>
    const sources: array<ParameterSource>
    var generation: u32

    ghost predicate Valid()
      reads this
    {
      values.Length == VALUES_SIZE && sources.Length == PARAMETER_COUNT
    }

    ghost function View(): (s: StoreState)
      reads this, values, sources
      requires Valid()
      ensures s.Shaped()
    {
      StoreState(values[..], sources[..], generation)
    }

    constructor (host: Endianness)
      ensures Valid() && View() == DEFAULT_STORE && fresh(values) && fresh(sources)
    {
      this.host := host;
      values := new byte[VALUES_SIZE](_ => 0);
      sources := new ParameterSource[PARAMETER_COUNT](_ => CompiledDefault);
      generation := 0;
      new;
      hide LittleBytes, Spliced;
      ghost var blank := values[..];
      assert sources[..] == [CompiledDefault, CompiledDefault, CompiledDefault];
      InitializeDefault(ReportingInterval);
      InitializeDefault(TemperatureLimit);
      InitializeDefault(OperatingMode);
      FilledInOrder(blank);
    }

    static lemma FilledInOrder(blank: seq<byte>)
      requires |blank| == VALUES_SIZE
      ensures var a, b, c := LittleBytes(1000, 4), LittleBytes(0x4234_0000, 4), LittleBytes(0, 1);
              Spliced(Spliced(Spliced(blank, 0, a), 4, b), 8, c) == DEFAULT_STORE.values
    {
      hide LittleBytes, Spliced;
      var a, b, c := LittleBytes(1000, 4), LittleBytes(0x4234_0000, 4), LittleBytes(0, 1);
      SplicedMore(blank, 0, a, b);
      SplicedMore(blank, 0, a + b, c);
      var filled := Spliced(blank, 0, a + b + c);
      assert filled[0..VALUES_SIZE] == filled;
    }

    method InitializeDefault(id: ParameterId)
      requires Valid()
      modifies values
      ensures values[..] == Spliced(old(values[..]), Offset(id), LittleBytes(DefaultValue(id), EncodedSize(id)))
    {
      var bytes := Encode(id, DefaultValue(id));
      CopyForward(values, Offset(id), bytes);
    }

    method Encode(id: ParameterId, value: nat) returns (bytes: seq<byte>)
      ensures bytes == LittleBytes(value, EncodedSize(id))
    {
      bytes := EncodeScalar(value, EncodedSize(id), host);
    }

    method Get(id: ParameterId) returns (ok: bool, value: nat)
      requires Valid()
      ensures ok && value == View().Get(id)
    {
      var bytes := values[Offset(id)..Offset(id) + EncodedSize(id)];
      var reader := new BinaryReadStream(bytes, host, Little, MAX_SIZE);
      value := reader.ReadScalar(EncodedSize(id), 0);
      assert bytes[0..|bytes|] == bytes == View().Slot(id);
      ok := reader.error == NoError;
    }

    method Set(id: ParameterId, value: nat, source: ParameterSource)
      returns (result: UpdateResult, event: Option<ChangeEvent>)
      requires Valid()
      modifies this`generation, values, sources
      ensures Valid() && (result, View()) == old(View()).Set(id, value, source)
      ensures event == if result == Updated then Some(ChangeEvent(id, source, generation)) else None
    {
      event := None;
      if source == Runtime && !RuntimeWritable(id) {
        return NotRuntimeWritable, None;
      }
      if !Validate(id, value) {
        return InvalidValue, None;
      }
      if Precedence(source) < Precedence(sources[Index(id)]) {
        return LowerPrecedence, None;
      }
      hide LittleBytes, Spliced;
      var bytes := Encode(id, value);
      CopyForward(values, Offset(id), bytes);
      sources[Index(id)] := source;
      generation := Advance(generation, 1);
      return Updated, Some(ChangeEvent(id, source, generation));
    }

    method Snapshot() returns (s: StoreState)
      requires Valid()
      ensures s == View()
    {
      s := StoreState(values[..], sources[..], generation);
    }

    method CopyFrom(s: StoreState)
      requires Valid() && s.Shaped()
      modifies this`generation, values, sources
      ensures Valid() && View() == s
    {
      forall k | 0 <= k < VALUES_SIZE { values[k] := s.values[k]; }
      forall k | 0 <= k < PARAMETER_COUNT { sources[k] := s.sources[k]; }
      generation := s.generation;
    }
  }
}
