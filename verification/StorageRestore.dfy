// Restoring an image is a merge by precedence, and a damaged image is never restored.

module StorageRestore {
  import opened Bytes
  import opened Crc16
  import opened MessageFrame
  import opened ParameterStore
  import opened StorageImage
  import opened StorageTheorems

  // The record can be restored: right type, right size, admissible value.
  predicate Restorable(r: Record) {
    Typed(r) && |r.payload| == EncodedSize(r.id) && Validate(r.id, LittleValue(r.payload))
  }

  // Stored values never displace a source of higher precedence.
  predicate Replaces(t: StoreState, id: ParameterId)
    requires t.Shaped()
  {
    Precedence(t.Source(id)) <= Precedence(PersistentStorage)
  }

  lemma StageOne(s: StoreState, r: Record)
    requires s.Shaped()
    ensures DecodeAndStage(s, r).0 == Ok <==> Restorable(r)
    ensures !Restorable(r) ==>
              DecodeAndStage(s, r)
              == (if Typed(r) && |r.payload| == EncodedSize(r.id) then BadValue else TypeMismatch, s)
    ensures Restorable(r) ==>
              DecodeAndStage(s, r).1 == if Replaces(s, r.id) then s.Put(r.id, r.payload, PersistentStorage) else s
  {
    LittleSurjective(r.payload);
    hide StoreState.Put, LittleBytes, LittleValue, Validate;
  }

  // ---- folding the records into the store ----

  function ReplacedCount(t: StoreState, records: seq<Record>): nat
    requires t.Shaped()
  {
    if records == [] then 0
    else (if Replaces(t, records[0].id) then 1 else 0) + ReplacedCount(t, records[1..])
  }

  ghost predicate Holds(u: StoreState, id: ParameterId, bytes: seq<byte>, source: ParameterSource)
    requires u.Shaped()
  {
    u.Slot(id) == bytes && u.Source(id) == source
  }

  // u is t with the records merged in: each parameter a record names takes the record's payload if
  // t's own source allows it; everything else is t's; the counter grows by the number replaced.
  ghost predicate MergedFrom(u: StoreState, t: StoreState, records: seq<Record>)
    requires u.Shaped() && t.Shaped()
  {
    && (forall k :: 0 <= k < |records| && Replaces(t, records[k].id) ==>
          Holds(u, records[k].id, records[k].payload, PersistentStorage))
    && (forall id :: (forall k :: 0 <= k < |records| && Replaces(t, id) ==> records[k].id != id) ==>
          Holds(u, id, t.Slot(id), t.Source(id)))
    && u.generation == Advance(t.generation, ReplacedCount(t, records))
  }

  lemma CountOne(t: StoreState, r: Record, tail: seq<Record>)
    requires t.Shaped()
    ensures ReplacedCount(t, [r] + tail) == (if Replaces(t, r.id) then 1 else 0) + ReplacedCount(t, tail)
  {
    hide Replaces;
    assert ([r] + tail)[1..] == tail;
  }

  lemma {:induction false} CountUnchanged(s: StoreState, t: StoreState, records: seq<Record>)
    requires s.Shaped() && t.Shaped()
    requires forall k :: 0 <= k < |records| ==> s.Source(records[k].id) == t.Source(records[k].id)
    ensures ReplacedCount(s, records) == ReplacedCount(t, records)
  {
    if records != [] {
      CountUnchanged(s, t, records[1..]);
    }
  }

  // Staging one restorable record touches that parameter only.
  lemma StagedSlots(s: StoreState, r: Record, id: ParameterId)
    requires s.Shaped() && Restorable(r)
    ensures var next := DecodeAndStage(s, r).1;
            && (id == r.id && Replaces(s, id) ==> Holds(next, id, r.payload, PersistentStorage))
            && (id != r.id || !Replaces(s, id) ==> Holds(next, id, s.Slot(id), s.Source(id)))
  {
    StageOne(s, r);
    hide DecodeAndStage, Restorable, StoreState.Slot, StoreState.Source, StoreState.Put;
    if Replaces(s, r.id) { PutOnlyThere(s, r.id, r.payload, PersistentStorage, id); }
  }

  // One record in front: what holds of the tail from the updated store holds of the whole.
  lemma MergeStep(s: StoreState, r: Record, tail: seq<Record>, u: StoreState)
    requires s.Shaped() && u.Shaped() && Restorable(r)
    requires forall k :: 0 <= k < |tail| ==> tail[k].id != r.id
    requires MergedFrom(u, DecodeAndStage(s, r).1, tail)
    ensures MergedFrom(u, s, [r] + tail)
  {
    var next := DecodeAndStage(s, r).1;
    var records := [r] + tail;
    MergeStepSlots(s, r, tail, u, next);
    MergeStepCount(s, r, tail, next);
    hide DecodeAndStage, Restorable, Holds, Replaces;
  }

  lemma SameCount(s: StoreState, r: Record, tail: seq<Record>)
    requires s.Shaped() && Restorable(r)
    requires forall k :: 0 <= k < |tail| ==> tail[k].id != r.id
    ensures ReplacedCount(DecodeAndStage(s, r).1, tail) == ReplacedCount(s, tail)
  {
    var next := DecodeAndStage(s, r).1;
    hide DecodeAndStage, Restorable, StoreState.Slot;
    forall k | 0 <= k < |tail| ensures next.Source(tail[k].id) == s.Source(tail[k].id) {
      StagedSlots(s, r, tail[k].id);
    }
    CountUnchanged(next, s, tail);
  }

  lemma StagedGeneration(s: StoreState, r: Record)
    requires s.Shaped() && Restorable(r)
    ensures DecodeAndStage(s, r).1.generation
         == if Replaces(s, r.id) then Advance(s.generation, 1) else s.generation
  {
    StageOne(s, r);
    hide DecodeAndStage, Restorable, Replaces;
  }

  lemma MergeStepCount(s: StoreState, r: Record, tail: seq<Record>, next: StoreState)
    requires s.Shaped() && Restorable(r) && next == DecodeAndStage(s, r).1
    requires forall k :: 0 <= k < |tail| ==> tail[k].id != r.id
    ensures Advance(next.generation, ReplacedCount(next, tail))
         == Advance(s.generation, ReplacedCount(s, [r] + tail))
  {
    hide *;
    SameCount(s, r, tail);
    StagedGeneration(s, r);
    CountOne(s, r, tail);
    AdvanceBehind(s.generation, Replaces(s, r.id), ReplacedCount(s, tail));
  }

  lemma AdvanceBehind(generation: u32, first: bool, n: nat)
    ensures Advance(if first then Advance(generation, 1) else generation, n)
         == Advance(generation, (if first then 1 else 0) + n)
  {
    AdvanceTwice(generation, 1, n);
    hide Advance;
  }

  lemma MergeStepSlots(s: StoreState, r: Record, tail: seq<Record>, u: StoreState, next: StoreState)
    requires s.Shaped() && u.Shaped() && Restorable(r) && next == DecodeAndStage(s, r).1
    requires forall k :: 0 <= k < |tail| ==> tail[k].id != r.id
    requires MergedFrom(u, next, tail)
    ensures forall id, k :: 0 <= k < |[r] + tail| && ([r] + tail)[k].id == id && Replaces(s, id) ==>
              Holds(u, id, ([r] + tail)[k].payload, PersistentStorage)
    ensures forall id :: (forall k :: 0 <= k < |[r] + tail| && Replaces(s, id) ==> ([r] + tail)[k].id != id) ==>
              Holds(u, id, s.Slot(id), s.Source(id))
  {
    var records := [r] + tail;
    hide DecodeAndStage, Restorable, StoreState.Slot, StoreState.Source, ReplacedCount;
    forall id, k | 0 <= k < |records| && records[k].id == id && Replaces(s, id)
      ensures Holds(u, id, records[k].payload, PersistentStorage)
    {
      StagedSlots(s, r, id);
      if k == 0 {
        assert Holds(u, id, next.Slot(id), next.Source(id));
      } else {
        assert records[k] == tail[k - 1];
      }
    }
    forall id | forall k :: 0 <= k < |records| && Replaces(s, id) ==> records[k].id != id
      ensures Holds(u, id, s.Slot(id), s.Source(id))
    {
      StagedSlots(s, r, id);
      assert records[0] == r;
      forall k | 0 <= k < |tail| && Replaces(next, id) ensures tail[k].id != id {
        assert records[k + 1] == tail[k];
      }
      assert Holds(u, id, next.Slot(id), next.Source(id));
    }
  }

  lemma {:induction false} FoldStage(records: seq<Record>, index: nat, s: Shaped)
    requires DistinctIds(records)
    ensures var (result, u) := FoldFrom(records, index, s, Stage);
            && (result.Succeeded() <==> forall k :: 0 <= k < |records| ==> Restorable(records[k]))
            && (result.Succeeded() ==>
                  result == PersistenceResult(Ok, index + |records|, None) && MergedFrom(u, s, records))
    decreases |records|
  {
    if records != [] {
      var r, tail := records[0], records[1..];
      StageOne(s, r);
      hide DecodeAndStage, Restorable, MergedFrom;
      if Restorable(r) {
        FoldStage(tail, index + 1, Stage(s, r).1);
        if FoldFrom(tail, index + 1, Stage(s, r).1, Stage).0.Succeeded() {
          MergeStep(s, r, tail, FoldFrom(tail, index + 1, Stage(s, r).1, Stage).1);
          assert records == [r] + tail;
        }
      }
    }
  }

  // ---- restore ----

  ghost predicate Accepted(image: seq<byte>, records: seq<Record>) {
    Composed(image, records) && forall k :: 0 <= k < |records| ==> Restorable(records[k])
  }

  // Restore succeeds exactly on images of restorable records, whatever the store; then the store
  // becomes the merge, and otherwise it stays.
  lemma RestoreExactly(image: seq<byte>, t: Shaped)
    ensures Restore(image, t).0.Succeeded() <==> exists records :: Accepted(image, records)
    ensures !Restore(image, t).0.Succeeded() ==> Restore(image, t).1 == t
  {
    hide Composed, Walk, FoldFrom;
    if Restore(image, t).0.Succeeded() {
      var records := WalkComposes(image, t, Stage);
      ComposedDistinct(image, records);
      FoldStage(records, 0, t);
      assert Accepted(image, records);
    }
    if records :| Accepted(image, records) {
      RestoreMerges(image, records, t);
    }
  }

  lemma ComposedDistinct(image: seq<byte>, records: seq<Record>)
    requires Composed(image, records)
    ensures |records| == PARAMETER_COUNT && DistinctIds(records)
  {
  }

  lemma RestoreMerges(image: seq<byte>, records: seq<Record>, t: Shaped)
    requires Accepted(image, records)
    ensures Restore(image, t).0 == DONE
    ensures MergedFrom(Restore(image, t).1, t, records)
  {
    hide Composed, Walk, FoldFrom, MergedFrom;
    ComposedDistinct(image, records);
    WalkComposed(image, records, t, Stage);
    FoldStage(records, 0, t);
  }

  // The records of a composed image are determined by its bytes.
  lemma RestoreOnlyIf(image: seq<byte>, records: seq<Record>, t: Shaped)
    requires Composed(image, records)
    ensures Restore(image, t).0.Succeeded() <==> Accepted(image, records)
  {
    hide Composed, Walk, FoldFrom, MergedFrom;
    ComposedDistinct(image, records);
    WalkComposed(image, records, t, Stage);
    FoldStage(records, 0, t);
  }

  // ---- create, then restore ----

  function RecordOf(s: StoreState, id: ParameterId, offset: nat): Record
    requires s.Shaped()
  {
    var payload := s.Slot(id);
    Record(id, offset, RecordFrame(id, payload), Finalized(RecordHeader(id), payload), payload)
  }

  function RecordsOf(s: StoreState): seq<Record>
    requires s.Shaped()
  {
    [RecordOf(s, ReportingInterval, 12), RecordOf(s, TemperatureLimit, 46), RecordOf(s, OperatingMode, 80)]
  }

  lemma RecordOfFramed(s: StoreState, id: ParameterId, offset: nat)
    requires s.Shaped()
    ensures var r := RecordOf(s, id, offset);
            && Framed(r) && Typed(r) && r.payload == s.Slot(id)
            && |r.frame| == HEADER_SIZE + EncodedSize(id)
  {
    FrameRoundTrip(RecordHeader(id), s.Slot(id));
    hide ReadFrame, HeaderCrc, HeaderBytes, Crc;
  }

  lemma JoinOne(a: Record, tail: seq<Record>)
    ensures Join([a] + tail) == RecordBytes(a) + Join(tail)
  {
    assert ([a] + tail)[1..] == tail;
  }

  lemma JoinThree(a: Record, b: Record, c: Record)
    ensures Join([a, b, c]) == RecordBytes(a) + RecordBytes(b) + RecordBytes(c)
  {
    hide RecordBytes;
    JoinOne(c, []);
    JoinOne(b, [c]);
    JoinOne(a, [b, c]);
    assert [c] + [] == [c] && [b] + [c] == [b, c] && [a] + [b, c] == [a, b, c];
    var x, y, z := RecordBytes(a), RecordBytes(b), RecordBytes(c);
    assert x + (y + (z + [])) == x + y + z;
  }

  lemma InPlaceThree(a: Record, b: Record, c: Record, start: nat)
    requires a.offset == start + 2 && b.offset == a.offset + |a.frame| + 2 && c.offset == b.offset + |b.frame| + 2
    ensures InPlace([a, b, c], start)
  {
    assert [a, b, c][1..] == [b, c] && [b, c][1..] == [c] && [c][1..] == [];
    assert InPlace([c], c.offset - 2);
    assert InPlace([b, c], b.offset - 2);
  }

  lemma ImageParts(s: StoreState)
    requires s.Shaped()
    ensures ImageOf(s) == ImageHeader(PARAMETER_COUNT) + Join(RecordsOf(s))
  {
    hide RecordFrame, ImageHeader, LittleBytes, StoreState.Slot, Finalized, Join;
    var a, b := RecordOf(s, ReportingInterval, 12), RecordOf(s, TemperatureLimit, 46);
    var c := RecordOf(s, OperatingMode, 80);
    JoinThree(a, b, c);
    Reassociate(ImageHeader(PARAMETER_COUNT), RecordBytes(a), RecordBytes(b), RecordBytes(c),
                LittleBytes(0, 2), a.frame, LittleBytes(1, 2), b.frame, LittleBytes(2, 2), c.frame);
  }

  lemma Reassociate(h: seq<byte>, a: seq<byte>, b: seq<byte>, c: seq<byte>, p: seq<byte>, x: seq<byte>,
                    q: seq<byte>, y: seq<byte>, r: seq<byte>, z: seq<byte>)
    requires a == p + x && b == q + y && c == r + z
    ensures h + (a + b + c) == h + p + x + q + y + r + z
  {
    assert h + (a + b + c) == h + a + b + c;
    assert h + a == h + p + x;
    assert h + a + b == h + p + x + q + y;
  }

  lemma ComposedThree(image: seq<byte>, a: Record, b: Record, c: Record)
    requires image == ImageHeader(PARAMETER_COUNT) + Join([a, b, c])
    requires Framed(a) && Framed(b) && Framed(c)
    requires InPlace([a, b, c], IMAGE_HEADER_SIZE)
    requires a.id != b.id && a.id != c.id && b.id != c.id
    ensures Composed(image, [a, b, c])
  {
    hide Framed, ImageHeader, Join, InPlace;
  }

  lemma ImageComposed(s: StoreState)
    requires s.Shaped()
    ensures Composed(ImageOf(s), RecordsOf(s))
  {
    var a, b := RecordOf(s, ReportingInterval, 12), RecordOf(s, TemperatureLimit, 46);
    var c := RecordOf(s, OperatingMode, 80);
    RecordOfFramed(s, ReportingInterval, 12);
    RecordOfFramed(s, TemperatureLimit, 46);
    RecordOfFramed(s, OperatingMode, 80);
    ImageParts(s);
    hide RecordFrame, Framed, ImageHeader, StoreState.Slot, Typed, ImageOf, Join, Finalized, Composed;
    InPlaceThree(a, b, c, IMAGE_HEADER_SIZE);
    ComposedThree(ImageOf(s), a, b, c);
  }

  function Picked(s: StoreState, t: StoreState, id: ParameterId): seq<byte>
    requires s.Shaped() && t.Shaped()
  {
    if Replaces(t, id) then s.Slot(id) else t.Slot(id)
  }

  function PickedSource(t: StoreState, id: ParameterId): ParameterSource
    requires t.Shaped()
  {
    if Replaces(t, id) then PersistentStorage else t.Source(id)
  }

  // The merge of a stored s into t, by precedence.
  function Merge(s: StoreState, t: StoreState): (u: StoreState)
    requires s.Shaped() && t.Shaped()
  {
    var replaced := set id | id in {ReportingInterval, TemperatureLimit, OperatingMode} && Replaces(t, id);
    StoreState(
      Picked(s, t, ReportingInterval) + Picked(s, t, TemperatureLimit) + Picked(s, t, OperatingMode),
      [PickedSource(t, ReportingInterval), PickedSource(t, TemperatureLimit), PickedSource(t, OperatingMode)],
      Advance(t.generation, |replaced|))
  }

  lemma SlotsAreValues(u: StoreState)
    requires u.Shaped()
    ensures u.values == u.Slot(ReportingInterval) + u.Slot(TemperatureLimit) + u.Slot(OperatingMode)
    ensures u.sources == [u.Source(ReportingInterval), u.Source(TemperatureLimit), u.Source(OperatingMode)]
  {
  }

  lemma CountThree(t: StoreState, a: Record, b: Record, c: Record)
    requires t.Shaped()
    ensures ReplacedCount(t, [a, b, c])
         == (if Replaces(t, a.id) then 1 else 0) + (if Replaces(t, b.id) then 1 else 0)
            + if Replaces(t, c.id) then 1 else 0
  {
    hide Replaces;
    CountOne(t, c, []);
    CountOne(t, b, [c]);
    CountOne(t, a, [b, c]);
    assert [c] + [] == [c] && [b] + [c] == [b, c] && [a] + [b, c] == [a, b, c];
  }

  ghost function Those(a: bool, b: bool, c: bool): set<ParameterId> {
    (if a then {ReportingInterval} else {}) + (if b then {TemperatureLimit} else {}) + if c then {OperatingMode} else {}
  }

  lemma SizeOfThose(a: bool, b: bool, c: bool)
    ensures |Those(a, b, c)| == (if a then 1 else 0) + (if b then 1 else 0) + if c then 1 else 0
  {
  }

  lemma ReplacedAreThose(t: StoreState)
    requires t.Shaped()
    ensures (set id | id in {ReportingInterval, TemperatureLimit, OperatingMode} && Replaces(t, id))
         == Those(Replaces(t, ReportingInterval), Replaces(t, TemperatureLimit), Replaces(t, OperatingMode))
  {
    hide Replaces;
  }

  lemma RecordIds(s: StoreState)
    requires s.Shaped()
    ensures var rs := RecordsOf(s);
            && rs == [rs[0], rs[1], rs[2]]
            && rs[0].id == ReportingInterval && rs[1].id == TemperatureLimit && rs[2].id == OperatingMode
  {
    hide RecordFrame, Finalized, StoreState.Slot;
  }

  lemma CountOfThree(s: StoreState, t: StoreState)
    requires s.Shaped() && t.Shaped()
    ensures ReplacedCount(t, RecordsOf(s))
         == |set id | id in {ReportingInterval, TemperatureLimit, OperatingMode} && Replaces(t, id)|
  {
    hide *;
    var rs := RecordsOf(s);
    RecordIds(s);
    CountThree(t, rs[0], rs[1], rs[2]);
    ReplacedAreThose(t);
    SizeOfThose(Replaces(t, ReportingInterval), Replaces(t, TemperatureLimit), Replaces(t, OperatingMode));
  }

  lemma MergedSlot(s: StoreState, t: StoreState, u: StoreState, id: ParameterId)
    requires s.Shaped() && t.Shaped() && u.Shaped()
    requires MergedFrom(u, t, RecordsOf(s))
    ensures u.Slot(id) == Picked(s, t, id) && u.Source(id) == PickedSource(t, id)
  {
    var rs := RecordsOf(s);
    hide RecordFrame, Finalized, Replaces, StoreState.Slot, StoreState.Source, ReplacedCount;
    var k := Index(id);
    assert rs[k].id == id && rs[k].payload == s.Slot(id);
    if Replaces(t, id) {
      assert Holds(u, rs[k].id, rs[k].payload, PersistentStorage);
    } else {
      assert Holds(u, id, t.Slot(id), t.Source(id));
    }
  }

  lemma MergedGeneration(s: StoreState, t: StoreState, u: StoreState)
    requires s.Shaped() && t.Shaped() && u.Shaped()
    requires MergedFrom(u, t, RecordsOf(s))
    ensures u.generation == Merge(s, t).generation
  {
    CountOfThree(s, t);
    hide RecordsOf, Replaces, ReplacedCount, Picked, PickedSource, Holds, StoreState.Slot, StoreState.Source, Advance;
  }

  lemma MergeIsMerged(s: StoreState, t: StoreState, u: StoreState)
    requires s.Shaped() && t.Shaped() && u.Shaped()
    requires MergedFrom(u, t, RecordsOf(s))
    ensures u == Merge(s, t)
  {
    MergedGeneration(s, t, u);
    MergedSlot(s, t, u, ReportingInterval);
    MergedSlot(s, t, u, TemperatureLimit);
    MergedSlot(s, t, u, OperatingMode);
    SlotsAreValues(u);
    hide RecordsOf, MergedFrom, Replaces, StoreState.Slot, StoreState.Source, Picked, PickedSource;
  }

  lemma RecordOfRestorable(s: StoreState, id: ParameterId)
    requires s.Shaped()
    ensures RecordsOf(s)[Index(id)].id == id
    ensures Restorable(RecordsOf(s)[Index(id)]) <==> Validate(id, s.Get(id))
  {
    hide Typed, Framed, RecordFrame, Finalized, Validate, StoreState.Slot;
    var r := RecordsOf(s)[Index(id)];
    assert r == RecordOf(s, id, r.offset);
    RecordOfFramed(s, id, r.offset);
    hide RecordsOf;
  }

  lemma AcceptedThree(image: seq<byte>, records: seq<Record>)
    requires Composed(image, records)
    ensures Accepted(image, records)
       <==> |records| == 3 && Restorable(records[0]) && Restorable(records[1]) && Restorable(records[2])
  {
    assert |records| == 3;
    hide Composed, Restorable;
    if Restorable(records[0]) && Restorable(records[1]) && Restorable(records[2]) {
      forall k | 0 <= k < |records| ensures Restorable(records[k]) {
        assert k == 0 || k == 1 || k == 2;
      }
    }
  }

  lemma CreatedAccepted(s: StoreState)
    requires s.Shaped()
    ensures Composed(ImageOf(s), RecordsOf(s))
    ensures Accepted(ImageOf(s), RecordsOf(s)) <==> s.AllValid()
  {
    ImageComposed(s);
    RecordOfRestorable(s, ReportingInterval);
    RecordOfRestorable(s, TemperatureLimit);
    RecordOfRestorable(s, OperatingMode);
    AcceptedThree(ImageOf(s), RecordsOf(s));
    hide Composed, Accepted, Restorable, ImageOf, RecordsOf, Validate, StoreState.Get;
  }

  // Restoring what was created from s succeeds exactly when every value in s is valid, as it is in
  // every store a program can build; the result is the merge by precedence.
  lemma CreateThenRestore(s: StoreState, t: Shaped)
    requires s.Shaped()
    ensures Restore(ImageOf(s), t).0.Succeeded() <==> s.AllValid()
    ensures s.AllValid() ==> Restore(ImageOf(s), t) == (DONE, Merge(s, t))
  {
    CreatedAccepted(s);
    hide Composed, ImageOf, RecordsOf, Merge, MergedFrom, Restore, Restorable, Accepted, StoreState.AllValid;
    RestoreOnlyIf(ImageOf(s), RecordsOf(s), t);
    if s.AllValid() {
      RestoreMerges(ImageOf(s), RecordsOf(s), t);
      MergeIsMerged(s, t, Restore(ImageOf(s), t).1);
    }
  }

  // So the image of any store a program can build is restored, by any other it can build.
  lemma ReachableStoreRestores(saved: seq<Request>, own: seq<Request>)
    ensures DEFAULT_STORE.Shaped()
    ensures var (s, t) := (AfterAll(DEFAULT_STORE, saved), AfterAll(DEFAULT_STORE, own));
            Restore(ImageOf(s), t) == (DONE, Merge(s, t))
  {
    DefaultStoreValid();
    AnyHistory(DEFAULT_STORE, saved, ReportingInterval);
    hide Restore, ImageOf, Merge, AfterAll, StoreState.AllValid;
    CreateThenRestore(AfterAll(DEFAULT_STORE, saved), AfterAll(DEFAULT_STORE, own));
  }

  // ---- a change inside two adjacent bytes is always noticed ----

  lemma PrefixAgrees(x: seq<byte>, y: seq<byte>, s: seq<byte>, t: seq<byte>, i: int)
    requires |s| == |t| && 2 + |s| <= |x| && 2 + |t| <= |y|
    requires s == x[2..2 + |s|] && t == y[2..2 + |t|]
    requires AgreeOutsidePair(x, y, i)
    ensures AgreeOutsidePair(s, t, i - 2)
  {
  }

  lemma HeadersAgree(r: Record, q: Record, a: seq<byte>, b: seq<byte>, i: int)
    requires Framed(r) && Framed(q)
    requires AgreeOutsidePair(RecordBytes(r) + a, RecordBytes(q) + b, i)
    ensures |r.frame| >= HEADER_SIZE && |q.frame| >= HEADER_SIZE
    ensures AgreeOutsidePair(r.frame[..HEADER_SIZE], q.frame[..HEADER_SIZE], i - 2)
  {
    hide ReadFrame, LittleBytes, DecodeHeader, AgreeOutsidePair;
    FrameSizeField(r.frame);
    FrameSizeField(q.frame);
    hide Framed;
    PrefixAgrees(RecordBytes(r) + a, RecordBytes(q) + b, r.frame[..HEADER_SIZE], q.frame[..HEADER_SIZE], i);
  }

  // The size field is covered by the header checksum.
  lemma SameSize(r: Record, q: Record, a: seq<byte>, b: seq<byte>, i: int)
    requires Framed(r) && Framed(q)
    requires AgreeOutsidePair(RecordBytes(r) + a, RecordBytes(q) + b, i)
    ensures |r.frame| == |q.frame|
  {
    hide ReadFrame, DecodeHeader, LittleBytes, AgreeOutsidePair, ValidHeader;
    HeadersAgree(r, q, a, b, i);
    FrameSizeField(r.frame);
    FrameSizeField(q.frame);
    FrameHeaderValid(r.frame);
    FrameHeaderValid(q.frame);
    hide *;
    SizeFieldAgrees(r.frame[..HEADER_SIZE], q.frame[..HEADER_SIZE], i - 2);
  }

  lemma SizeFieldAgrees(s: seq<byte>, t: seq<byte>, i: int)
    requires |s| == |t| == HEADER_SIZE
    requires ValidHeader(DecodeHeader(s)) && ValidHeader(DecodeHeader(t))
    requires AgreeOutsidePair(s, t, i)
    ensures DecodeHeader(s).payloadSize == DecodeHeader(t).payloadSize
  {
    hide ValidHeader, DecodeHeader;
    if s[16..20] == t[16..20] {
      SizeFieldEqual(s, t);
    } else {
      assert s[24..26] == t[24..26];
      HeaderPairDetected(s, t, i);
    }
  }

  lemma SizeFieldEqual(s: seq<byte>, t: seq<byte>)
    requires |s| == |t| == HEADER_SIZE && s[16..20] == t[16..20]
    ensures DecodeHeader(s).payloadSize == DecodeHeader(t).payloadSize
  {
  }

  // Two framed records of which one starts where the other does, the bytes behind them
  // differing only inside two adjacent places: the records are the same bytes.
  lemma RecordPairDetected(r: Record, q: Record, a: seq<byte>, b: seq<byte>, i: int)
    requires Framed(r) && Framed(q) && Typed(r) && Typed(q)
    requires AgreeOutsidePair(RecordBytes(r) + a, RecordBytes(q) + b, i)
    ensures RecordBytes(r) == RecordBytes(q)
  {
    SameSize(r, q, a, b, i);
    FramesAgree(r, q, a, b, i);
    hide ReadFrame, LittleBytes, AgreeOutsidePair;
    FramePairDetected(r.frame, q.frame, i - 2);
    SameFrameSameId(r, q);
  }

  lemma FramesAgree(r: Record, q: Record, a: seq<byte>, b: seq<byte>, i: int)
    requires |r.frame| == |q.frame|
    requires AgreeOutsidePair(RecordBytes(r) + a, RecordBytes(q) + b, i)
    ensures AgreeOutsidePair(r.frame, q.frame, i - 2)
  {
    hide LittleBytes, AgreeOutsidePair;
    PrefixAgrees(RecordBytes(r) + a, RecordBytes(q) + b, r.frame, q.frame, i);
  }

  lemma FrameHeaderValid(frame: seq<byte>)
    requires ReadFrame(frame).Frame?
    ensures |frame| >= HEADER_SIZE && ValidHeader(DecodeHeader(frame[..HEADER_SIZE]))
  {
  }

  lemma SameFrameSameId(r: Record, q: Record)
    requires Framed(r) && Framed(q) && Typed(r) && Typed(q) && r.frame == q.frame
    ensures r.id == q.id
  {
    hide ReadFrame;
  }

  lemma {:induction false} JoinPairDetected(records: seq<Record>, others: seq<Record>, i: int)
    requires |records| == |others|
    requires forall k :: 0 <= k < |records| ==> Framed(records[k]) && Typed(records[k])
    requires forall k :: 0 <= k < |others| ==> Framed(others[k]) && Typed(others[k])
    requires AgreeOutsidePair(Join(records), Join(others), i)
    ensures Join(records) == Join(others)
    decreases |records|
  {
    hide Framed, Typed, RecordBytes;
    if records != [] {
      var x, y := RecordBytes(records[0]), RecordBytes(others[0]);
      var a, b := Join(records[1..]), Join(others[1..]);
      RecordPairDetected(records[0], others[0], a, b, i);
      assert forall k :: 0 <= k < |a| ==> a[k] == (x + a)[k + |x|] && (k < |b| ==> b[k] == (y + b)[k + |x|]);
      JoinPairDetected(records[1..], others[1..], i - |x|);
    }
  }

  // No image that restore accepts, into any store, turns into another one it accepts by a change
  // confined to two adjacent bytes, wherever these lie. The record ids, which no checksum covers,
  // are no exception.
  lemma DamagedImageRejected(image: seq<byte>, damaged: seq<byte>, i: int, t: Shaped, u: Shaped)
    requires Restore(image, t).0.Succeeded()
    requires AgreeOutsidePair(image, damaged, i) && damaged != image
    ensures !Restore(damaged, u).0.Succeeded() && Restore(damaged, u).1 == u
  {
    hide Restore, Composed, Framed, ImageHeader, Restorable, Join;
    RestoreExactly(image, t);
    RestoreExactly(damaged, u);
    if Restore(damaged, u).0.Succeeded() {
      var records :| Accepted(image, records);
      var others :| Accepted(damaged, others);
      AcceptedParts(image, records);
      AcceptedParts(damaged, others);
      JoinAgrees(ImageHeader(PARAMETER_COUNT), Join(records), Join(others), i);
      JoinPairDetected(records, others, i - IMAGE_HEADER_SIZE);
      assert false;
    }
  }

  lemma AcceptedParts(image: seq<byte>, records: seq<Record>)
    requires Accepted(image, records)
    ensures image == ImageHeader(PARAMETER_COUNT) + Join(records) && |records| == PARAMETER_COUNT
    ensures forall k :: 0 <= k < |records| ==> Framed(records[k]) && Typed(records[k])
  {
    hide Framed, ImageHeader, Join, Typed, Validate;
  }

  lemma JoinAgrees(header: seq<byte>, a: seq<byte>, b: seq<byte>, i: int)
    requires AgreeOutsidePair(header + a, header + b, i)
    ensures AgreeOutsidePair(a, b, i - |header|)
  {
    assert forall k :: 0 <= k < |a| ==> a[k] == (header + a)[k + |header|];
    assert forall k :: 0 <= k < |b| ==> b[k] == (header + b)[k + |header|];
  }
}
