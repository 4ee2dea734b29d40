// Patching one record in place commutes with creating and with restoring.

module StorageUpdate {
  import opened Bytes
  import opened MessageFrame
  import opened ParameterStore
  import opened StorageImage
  import opened StorageTheorems
  import opened StorageRestore

  // ---- finding a record ----

  ghost predicate Absent(records: seq<Record>, id: ParameterId) {
    forall k :: 0 <= k < |records| ==> records[k].id != id
  }

  lemma {:induction false} LocateNone(records: seq<Record>, index: nat, place: (nat, nat), id: ParameterId)
    requires Absent(records, id)
    ensures FoldFrom(records, index, place, Locate(id)) == (PersistenceResult(Ok, index + |records|, None), place)
    decreases |records|
  {
    if records != [] {
      LocateNone(records[1..], index + 1, place, id);
    }
  }

  lemma {:induction false} LocateOne(records: seq<Record>, index: nat, place: (nat, nat), id: ParameterId, k: nat)
    requires k < |records| && records[k].id == id
    requires DistinctIds(records)
    ensures FoldFrom(records, index, place, Locate(id))
         == (PersistenceResult(Ok, index + |records|, None), (records[k].offset, |records[k].frame|))
    decreases |records|
  {
    var tail := records[1..];
    if k == 0 {
      assert Absent(tail, id);
      LocateNone(tail, index + 1, (records[0].offset, |records[0].frame|), id);
    } else {
      assert records[k] == tail[k - 1];
      LocateOne(tail, index + 1, place, id, k - 1);
    }
  }

  lemma ComposedAt(image: seq<byte>, records: seq<Record>, k: nat)
    requires Composed(image, records) && k < |records|
    ensures Framed(records[k]) && DistinctIds(records) && InPlace(records, IMAGE_HEADER_SIZE)
    ensures |records| == PARAMETER_COUNT && image == ImageHeader(PARAMETER_COUNT) + Join(records)
  {
    hide Framed, ImageHeader, Join, InPlace, DistinctIds;
  }

  // In an acceptable image every parameter is found, at the one record that carries it.
  lemma FindExactly(image: seq<byte>, records: seq<Record>, id: ParameterId, k: nat)
    requires Composed(image, records) && k < |records| && records[k].id == id
    ensures FindRecord(image, id) == Some((records[k].offset, |records[k].frame|))
  {
    ComposedAt(image, records, k);
    FrameSizeField(records[k].frame);
    hide Composed, Walk, FoldFrom, ReadFrame, DecodeHeader;
    WalkComposed(image, records, (0, 0), Locate(id));
    LocateOne(records, 0, (0, 0), id, k);
  }

  lemma FindFails(image: seq<byte>, id: ParameterId)
    requires !exists records :: Composed(image, records)
    ensures FindRecord(image, id) == None
  {
    hide Composed, Walk, FoldFrom;
    if Walk(image, (0, 0), Locate(id)).0.Succeeded() {
      var records := WalkComposes(image, (0, 0), Locate(id));
    }
  }

  // ---- replacing a record by one of the same size ----

  lemma {:induction false} JoinAt(records: seq<Record>, k: nat, r: Record, start: nat)
    requires k < |records| && InPlace(records, start)
    requires r.id == records[k].id && r.offset == records[k].offset && |r.frame| == |records[k].frame|
    ensures start + 2 <= r.offset && r.offset - start + |r.frame| <= |Join(records)|
    ensures Join(records[k := r]) == Spliced(Join(records), r.offset - start, r.frame)
    ensures InPlace(records[k := r], start)
    decreases |records|
  {
    hide LittleBytes, Spliced;
    var x, tail := RecordBytes(records[0]), records[1..];
    var patched := records[k := r];
    if k == 0 {
      assert patched[1..] == tail;
      SplicedMiddle(LittleBytes(Index(r.id), 2), records[0].frame, Join(tail), r.frame);
    } else {
      assert patched[1..] == tail[k - 1 := r];
      JoinAt(tail, k - 1, r, start + |x|);
      hide RecordBytes;
      SplicedBehind(x, Join(tail), r.offset - start - |x|, r.frame);
    }
  }

  lemma ComposedPatched(image: seq<byte>, records: seq<Record>, k: nat, r: Record)
    requires Composed(image, records) && k < |records| && Framed(r)
    requires r.id == records[k].id && r.offset == records[k].offset && |r.frame| == |records[k].frame|
    ensures r.offset + |r.frame| <= |image|
    ensures Composed(Spliced(image, r.offset, r.frame), records[k := r])
  {
    hide Framed, ImageHeader, Join, InPlace, Spliced;
    JoinAt(records, k, r, IMAGE_HEADER_SIZE);
    SplicedBehind(ImageHeader(PARAMETER_COUNT), Join(records), r.offset - IMAGE_HEADER_SIZE, r.frame);
  }

  // ---- update ----

  function RecordFrameSize(id: ParameterId): nat {
    HEADER_SIZE + EncodedSize(id)
  }

  lemma UpdateAt(image: seq<byte>, id: ParameterId, s: StoreState, offset: nat, size: nat)
    requires s.Shaped() && FindRecord(image, id) == Some((offset, size))
    ensures |RecordFrame(id, s.Slot(id))| == RecordFrameSize(id)
    ensures size != RecordFrameSize(id) ==>
              Update(image, id, s) == (PersistenceResult(TypeMismatch, 0, Some(id)), image)
    ensures size == RecordFrameSize(id) ==> offset + size <= |image|
    ensures size == RecordFrameSize(id) ==>
              Update(image, id, s)
              == (PersistenceResult(Ok, 1, Some(id)), Spliced(image, offset, RecordFrame(id, s.Slot(id))))
  {
    RecordOfFramed(s, id, offset);
    hide FindRecord, Finalized, RecordFrame, Framed, StoreState.Slot, Typed, Spliced;
    FoundInside(image, id);
  }

  lemma FoundInside(image: seq<byte>, id: ParameterId)
    requires FindRecord(image, id).Some?
    ensures FindRecord(image, id).value.0 + FindRecord(image, id).value.1 <= |image|
  {
    LocatedInside(image, IMAGE_HEADER_SIZE, 0, {}, (0, 0), id);
    hide WalkFrom, CheckImageHeader;
  }

  // On an acceptable image, update rewrites exactly the frame of one record, to the store's value,
  // or changes nothing; size, order and acceptability of the records stay.
  lemma UpdateExactly(image: seq<byte>, records: seq<Record>, id: ParameterId, k: nat, s: StoreState)
    requires Composed(image, records) && k < |records| && records[k].id == id && s.Shaped()
    ensures var (result, patched) := Update(image, id, s);
            var r := RecordOf(s, id, records[k].offset);
            if |records[k].frame| != RecordFrameSize(id)
            then result == PersistenceResult(TypeMismatch, 0, Some(id)) && patched == image
            else result == PersistenceResult(Ok, 1, Some(id))
                 && r.offset + |r.frame| <= |image| && patched == Spliced(image, r.offset, r.frame)
                 && Composed(patched, records[k := r])
  {
    hide Composed, FindRecord, Framed, Finalized, RecordFrame, Spliced, Update, Typed, StoreState.Slot, RecordFrameSize;
    FindExactly(image, records, id, k);
    UpdateAt(image, id, s, records[k].offset, |records[k].frame|);
    RecordOfFramed(s, id, records[k].offset);
    var r := RecordOf(s, id, records[k].offset);
    if |records[k].frame| == RecordFrameSize(id) {
      ComposedPatched(image, records, k, r);
    }
  }

  // On anything else it changes nothing.
  lemma UpdateRejects(image: seq<byte>, id: ParameterId, s: StoreState)
    requires s.Shaped() && !exists records :: Composed(image, records)
    ensures Update(image, id, s) == (PersistenceResult(UnknownParameter, 0, Some(id)), image)
  {
    hide Composed, FindRecord, RecordFrame;
    FindFails(image, id);
  }

  // ---- update and restore ----

  lemma RestorableExceptFor(records: seq<Record>, k: nat, r: Record, patched: seq<Record>)
    requires k < |records| && patched == records[k := r]
    ensures (forall j :: 0 <= j < |patched| ==> Restorable(patched[j]))
       <==> Restorable(r) && forall j :: 0 <= j < |records| && j != k ==> Restorable(records[j])
  {
    hide Restorable;
    if forall j :: 0 <= j < |patched| ==> Restorable(patched[j]) {
      assert Restorable(patched[k]);
      forall j | 0 <= j < |records| && j != k ensures Restorable(records[j]) {
        assert patched[j] == records[j];
      }
    }
  }

  lemma RecordOfAdmissible(s: StoreState, id: ParameterId, offset: nat)
    requires s.Shaped()
    ensures Restorable(RecordOf(s, id, offset)) <==> Validate(id, s.Get(id))
  {
    hide Typed, Framed, RecordFrame, Finalized, Validate, StoreState.Slot;
    RecordOfFramed(s, id, offset);
  }

  // The patched image is restored exactly when the other records can be and the new value is valid.
  lemma UpdatedAccepted(image: seq<byte>, records: seq<Record>, id: ParameterId, k: nat, s: StoreState)
    requires Composed(image, records) && k < |records| && records[k].id == id && s.Shaped()
    requires |records[k].frame| == RecordFrameSize(id)
    ensures var r := RecordOf(s, id, records[k].offset);
            && Composed(Update(image, id, s).1, records[k := r])
            && (Accepted(Update(image, id, s).1, records[k := r])
               <==> Validate(id, s.Get(id)) && forall j :: 0 <= j < |records| && j != k ==> Restorable(records[j]))
  {
    hide Composed, Update, Restorable, Framed, RecordOf, RecordFrameSize, Validate, StoreState.Get;
    UpdateExactly(image, records, id, k, s);
    RecordOfAdmissible(s, id, records[k].offset);
    var r := RecordOf(s, id, records[k].offset);
    RestorableExceptFor(records, k, r, records[k := r]);
  }

  lemma UpdatedRestored(image: seq<byte>, records: seq<Record>, id: ParameterId, k: nat, s: StoreState, t: Shaped)
    requires Composed(image, records) && k < |records| && records[k].id == id && s.Shaped()
    requires |records[k].frame| == RecordFrameSize(id)
    ensures Restore(Update(image, id, s).1, t).0.Succeeded()
       <==> Validate(id, s.Get(id)) && forall j :: 0 <= j < |records| && j != k ==> Restorable(records[j])
  {
    UpdatedAccepted(image, records, id, k, s);
    hide Composed, Update, Restorable, Accepted, Validate, RecordFrameSize, Restore;
    RestoreOnlyIf(Update(image, id, s).1, records[k := RecordOf(s, id, records[k].offset)], t);
  }

  // u and v agree but for one parameter's value.
  ghost predicate DifferOnlyAt(u: StoreState, v: StoreState, id: ParameterId)
    requires u.Shaped() && v.Shaped()
  {
    && (forall other :: other != id ==> v.Slot(other) == u.Slot(other))
    && (forall other :: v.Source(other) == u.Source(other))
    && v.generation == u.generation
  }

  lemma {:induction false} CountByIds(t: StoreState, a: seq<Record>, b: seq<Record>)
    requires t.Shaped() && |a| == |b| && forall j :: 0 <= j < |a| ==> a[j].id == b[j].id
    ensures ReplacedCount(t, a) == ReplacedCount(t, b)
  {
    if a != [] {
      CountByIds(t, a[1..], b[1..]);
    }
  }

  lemma MergedAt(u: StoreState, t: StoreState, records: seq<Record>, j: nat)
    requires u.Shaped() && t.Shaped() && MergedFrom(u, t, records) && j < |records|
    ensures Replaces(t, records[j].id) ==> Holds(u, records[j].id, records[j].payload, PersistentStorage)
    ensures !Replaces(t, records[j].id) ==> Holds(u, records[j].id, t.Slot(records[j].id), t.Source(records[j].id))
  {
    hide Replaces, Holds, StoreState.Slot, StoreState.Source, ReplacedCount, Advance;
  }

  lemma MergedGenerations(u: StoreState, v: StoreState, t: StoreState, a: seq<Record>, b: seq<Record>)
    requires u.Shaped() && v.Shaped() && t.Shaped() && MergedFrom(u, t, a) && MergedFrom(v, t, b)
    requires |a| == |b| && forall j :: 0 <= j < |a| ==> a[j].id == b[j].id
    ensures u.generation == v.generation
  {
    CountByIds(t, a, b);
    hide Replaces, Holds, StoreState.Slot, StoreState.Source, ReplacedCount, Advance;
  }

  lemma MergesDiffer(u: StoreState, v: StoreState, t: StoreState, a: seq<Record>, k: nat, r: Record)
    requires u.Shaped() && v.Shaped() && t.Shaped() && k < |a| && r.id == a[k].id
    requires MergedFrom(u, t, a) && MergedFrom(v, t, a[k := r])
    requires forall other :: !Absent(a, other)
    requires DistinctIds(a)
    ensures DifferOnlyAt(u, v, r.id)
    ensures v.Slot(r.id) == if Replaces(t, r.id) then r.payload else u.Slot(r.id)
  {
    hide Replaces, StoreState.Slot, StoreState.Source, MergedFrom;
    var b := a[k := r];
    forall other
      ensures v.Source(other) == u.Source(other)
      ensures other != r.id ==> v.Slot(other) == u.Slot(other)
      ensures other == r.id ==> v.Slot(other) == if Replaces(t, other) then r.payload else u.Slot(other)
    {
      assert !Absent(a, other);
      var j :| 0 <= j < |a| && a[j].id == other;
      assert other == r.id ==> j == k;
      MergedAt(u, t, a, j);
      MergedAt(v, t, b, j);
    }
    MergedGenerations(u, v, t, a, b);
  }

  // When both images are restored, restore yields what it yielded before except for that parameter,
  // which takes the new value where the store admits stored values at all.
  lemma UpdateThenRestore(image: seq<byte>, records: seq<Record>, id: ParameterId, k: nat, s: StoreState, t: Shaped)
    requires Accepted(image, records) && k < |records| && records[k].id == id
    requires s.Shaped() && Validate(id, s.Get(id))
    ensures Update(image, id, s).0 == PersistenceResult(Ok, 1, Some(id))
    ensures Restore(Update(image, id, s).1, t).0 == DONE
    ensures var u, v := Restore(image, t).1, Restore(Update(image, id, s).1, t).1;
            DifferOnlyAt(u, v, id) && v.Slot(id) == if Replaces(t, id) then s.Slot(id) else u.Slot(id)
  {
    AcceptedSize(image, records, k);
    hide Composed, Update, Restorable, Accepted, Validate, RecordFrameSize, Restore, MergedFrom, Replaces;
    hide StoreState.Slot, StoreState.Get;
    AcceptedComposed(image, records);
    UpdateSucceeds(image, records, id, k, s);
    UpdatedAccepted(image, records, id, k, s);
    var r := RecordOf(s, id, records[k].offset);
    RestoreMerges(image, records, t);
    RestoreMerges(Update(image, id, s).1, records[k := r], t);
    MergesDiffer(Restore(image, t).1, Restore(Update(image, id, s).1, t).1, t, records, k, r);
  }

  lemma UpdateSucceeds(image: seq<byte>, records: seq<Record>, id: ParameterId, k: nat, s: StoreState)
    requires Composed(image, records) && k < |records| && records[k].id == id && s.Shaped()
    requires |records[k].frame| == RecordFrameSize(id)
    ensures Update(image, id, s).0 == PersistenceResult(Ok, 1, Some(id))
  {
    hide Composed, Update, RecordOf, RecordFrameSize;
    UpdateExactly(image, records, id, k, s);
  }

  lemma AcceptedComposed(image: seq<byte>, records: seq<Record>)
    requires Accepted(image, records)
    ensures Composed(image, records) && DistinctIds(records)
    ensures forall j :: 0 <= j < |records| ==> Restorable(records[j])
    ensures forall id :: !Absent(records, id)
  {
    hide Restorable, Framed, InPlace, Join;
    forall id ensures !Absent(records, id) {
      var j := EveryParameterOnce(image, records, id);
    }
  }

  lemma AcceptedSize(image: seq<byte>, records: seq<Record>, k: nat)
    requires Accepted(image, records) && k < |records|
    ensures |records[k].frame| == RecordFrameSize(records[k].id)
  {
    assert Restorable(records[k]) && Framed(records[k]);
    PayloadSize(records[k].frame);
  }

  lemma PayloadSize(frame: seq<byte>)
    requires ReadFrame(frame).Frame?
    ensures |frame| == HEADER_SIZE + |ReadFrame(frame).payload|
  {
  }

  // ---- exactly when an update is local ----

  ghost predicate OthersRestorable(records: seq<Record>, k: nat) {
    forall j :: 0 <= j < |records| && j != k ==> Restorable(records[j])
  }

  // Replacing record k by the store's value turns no failing restore into a succeeding one, or the
  // other way round: the frame does not fit, another record fails anyway, or the old record and the new
  // value are both good or both bad.
  ghost predicate KeepsOutcome(records: seq<Record>, k: nat, s: StoreState)
    requires k < |records| && s.Shaped()
  {
    || |records[k].frame| != RecordFrameSize(records[k].id)
    || !OthersRestorable(records, k)
    || (Restorable(records[k]) <==> Validate(records[k].id, s.Get(records[k].id)))
  }

  lemma ExceptFor(records: seq<Record>, k: nat)
    requires k < |records|
    ensures (forall j :: 0 <= j < |records| ==> Restorable(records[j]))
       <==> Restorable(records[k]) && OthersRestorable(records, k)
  {
    hide Restorable;
  }

  // When restore succeeds on the image and on the updated one.
  lemma Outcomes(image: seq<byte>, records: seq<Record>, id: ParameterId, k: nat, s: StoreState, t: Shaped)
    requires Composed(image, records) && k < |records| && records[k].id == id && s.Shaped()
    requires |records[k].frame| == RecordFrameSize(id)
    ensures Restore(image, t).0.Succeeded() <==> Restorable(records[k]) && OthersRestorable(records, k)
    ensures Restore(Update(image, id, s).1, t).0.Succeeded()
       <==> Validate(id, s.Get(id)) && OthersRestorable(records, k)
    ensures !Restore(image, t).0.Succeeded() ==> Restore(image, t).1 == t
    ensures !Restore(Update(image, id, s).1, t).0.Succeeded() ==> Restore(Update(image, id, s).1, t).1 == t
  {
    hide Composed, Update, Restorable, Validate, RecordFrameSize, Restore, StoreState.Get;
    RestoreOnlyIf(image, records, t);
    ExceptFor(records, k);
    UpdatedRestored(image, records, id, k, s, t);
    RestoreExactly(image, t);
    RestoreExactly(Update(image, id, s).1, t);
  }

  lemma Unpatched(image: seq<byte>, records: seq<Record>, id: ParameterId, k: nat, s: StoreState)
    requires Composed(image, records) && k < |records| && records[k].id == id && s.Shaped()
    requires |records[k].frame| != RecordFrameSize(id)
    ensures Update(image, id, s).1 == image
  {
    hide Composed, Update, RecordOf, RecordFrameSize;
    UpdateExactly(image, records, id, k, s);
  }

  lemma SameStore(t: StoreState, id: ParameterId)
    requires t.Shaped()
    ensures DifferOnlyAt(t, t, id)
  {
  }

  lemma LocalWhenKept(image: seq<byte>, records: seq<Record>, id: ParameterId, k: nat, s: StoreState, t: Shaped)
    requires Composed(image, records) && k < |records| && records[k].id == id && s.Shaped()
    requires KeepsOutcome(records, k, s)
    ensures DifferOnlyAt(Restore(image, t).1, Restore(Update(image, id, s).1, t).1, id)
  {
    hide Composed, Update, Restorable, Validate, RecordFrameSize, Restore, DifferOnlyAt;
    hide StoreState.Get, StoreState.Slot;
    if |records[k].frame| != RecordFrameSize(id) {
      Unpatched(image, records, id, k, s);
      SameStore(Restore(image, t).1, id);
    } else {
      Outcomes(image, records, id, k, s, t);
      if Restore(image, t).0.Succeeded() {
        ExceptFor(records, k);
        UpdateThenRestore(image, records, id, k, s, t);
      } else {
        SameStore(t, id);
      }
    }
  }

  function Altered(bytes: seq<byte>): (other: seq<byte>)
    requires bytes != []
    ensures |other| == |bytes| && other != bytes
  {
    var b: byte := if bytes[0] == 0 then 1 else 0;
    var other := [b] + bytes[1..];
    assert other[0] != bytes[0];
    other
  }

  lemma RestoredSlot(image: seq<byte>, records: seq<Record>, j: nat, t: Shaped)
    requires Accepted(image, records) && j < |records| && Replaces(t, records[j].id)
    ensures Restore(image, t).1.Slot(records[j].id) == records[j].payload
  {
    hide Composed, Restorable, Restore, MergedFrom, StoreState.Slot, StoreState.Source, Replaces;
    RestoreMerges(image, records, t);
    MergedAt(Restore(image, t).1, t, records, j);
  }

  // A store that holds something else at one parameter, and displaces nothing.
  lemma AlteredStore(id: ParameterId, bytes: seq<byte>)
    requires |bytes| == EncodedSize(id) && DEFAULT_STORE.Shaped()
    ensures var t := DEFAULT_STORE.Put(id, Altered(bytes), CompiledDefault);
            t.Shaped() && t.Slot(id) != bytes && Replaces(t, id)
  {
    PutOnlyThere(DEFAULT_STORE, id, Altered(bytes), CompiledDefault, id);
    hide StoreState.Put, StoreState.Slot, StoreState.Source, Altered;
  }

  // Where one of the two restores fails and the other does not, some store shows it at a parameter
  // the update was not about.
  lemma NotLocal(image: seq<byte>, records: seq<Record>, id: ParameterId, k: nat, s: StoreState)
      returns (t: Shaped, other: ParameterId)
    requires Composed(image, records) && k < |records| && records[k].id == id && s.Shaped()
    requires !KeepsOutcome(records, k, s)
    ensures other != id && Restore(image, t).1.Slot(other) != Restore(Update(image, id, s).1, t).1.Slot(other)
  {
    other := if id == OperatingMode then ReportingInterval else OperatingMode;
    var j := EveryParameterOnce(image, records, other);
    RestorablePayload(records[j]);
    DefaultSlots();
    AlteredStore(other, records[j].payload);
    t := DEFAULT_STORE.Put(other, Altered(records[j].payload), CompiledDefault);
    hide Composed, Update, Restorable, Validate, RecordFrameSize, Restore;
    hide StoreState.Get, StoreState.Slot, StoreState.Put;
    Outcomes(image, records, id, k, s, t);
    ExceptFor(records, k);
    if Restorable(records[k]) {
      RestoredSlot(image, records, j, t);
    } else {
      UpdatedAccepted(image, records, id, k, s);
      RestoredSlot(Update(image, id, s).1, records[k := RecordOf(s, id, records[k].offset)], j, t);
    }
  }

  lemma RestorablePayload(r: Record)
    requires Restorable(r)
    ensures |r.payload| == EncodedSize(r.id) > 0
  {
  }

  // For every image the walk accepts: an update changes what restore makes of that one parameter and
  // nothing else, into whatever store, if and only if it keeps the outcome.
  lemma UpdateIsLocal(image: seq<byte>, records: seq<Record>, id: ParameterId, k: nat, s: StoreState)
    requires Composed(image, records) && k < |records| && records[k].id == id && s.Shaped()
    ensures KeepsOutcome(records, k, s)
       <==> forall t: Shaped :: DifferOnlyAt(Restore(image, t).1, Restore(Update(image, id, s).1, t).1, id)
  {
    hide Composed, Update, Restore, KeepsOutcome, StoreState.Slot, StoreState.Source;
    if KeepsOutcome(records, k, s) {
      forall t: Shaped ensures DifferOnlyAt(Restore(image, t).1, Restore(Update(image, id, s).1, t).1, id) {
        LocalWhenKept(image, records, id, k, s, t);
      }
    } else {
      var t, other := NotLocal(image, records, id, k, s);
      assert !DifferOnlyAt(Restore(image, t).1, Restore(Update(image, id, s).1, t).1, id);
    }
  }

  // ---- an update that is not ----

  // The default store's image, but for the type of its second record.
  function MistypedRecord(): Record
    requires DEFAULT_STORE.Shaped()
  {
    var header := RecordHeader(TemperatureLimit).(messageType := ExpectedType(ReportingInterval));
    var payload := DEFAULT_STORE.Slot(TemperatureLimit);
    Record(TemperatureLimit, 46, FrameBytes(header, payload), Finalized(header, payload), payload)
  }

  function MistypedRecords(): seq<Record>
    requires DEFAULT_STORE.Shaped()
  {
    [RecordOf(DEFAULT_STORE, ReportingInterval, 12), MistypedRecord(), RecordOf(DEFAULT_STORE, OperatingMode, 80)]
  }

  function MistypedImage(): seq<byte>
    requires DEFAULT_STORE.Shaped()
  {
    ImageHeader(PARAMETER_COUNT) + Join(MistypedRecords())
  }

  lemma FramedWith(id: ParameterId, offset: nat, header: MessageHeaderV1, payload: seq<byte>)
    requires Acceptable(header) && HEADER_SIZE + |payload| <= MAX_IMAGE
    ensures var r := Record(id, offset, FrameBytes(header, payload), Finalized(header, payload), payload);
            Framed(r) && r.header.messageType == header.messageType && |r.frame| == HEADER_SIZE + |payload|
  {
    FrameRoundTrip(header, payload);
    hide ReadFrame, HeaderBytes, HeaderCrc;
  }

  lemma MistypedFramed()
    requires DEFAULT_STORE.Shaped()
    ensures var r := MistypedRecord();
            && Framed(r) && !Typed(r) && |r.frame| == RecordFrameSize(r.id)
            && r.id == TemperatureLimit && r.offset == 46
  {
    hide StoreState.Slot, FrameBytes, Finalized, Framed;
    var header := RecordHeader(TemperatureLimit).(messageType := ExpectedType(ReportingInterval));
    FramedWith(TemperatureLimit, 46, header, DEFAULT_STORE.Slot(TemperatureLimit));
  }

  lemma MistypedComposed()
    requires DEFAULT_STORE.Shaped()
    ensures Composed(MistypedImage(), MistypedRecords())
  {
    hide Framed, Typed, MistypedRecord, ImageHeader, Join, InPlace, Composed, StoreState.Slot, RecordFrame, Finalized;
    var a, c := RecordOf(DEFAULT_STORE, ReportingInterval, 12), RecordOf(DEFAULT_STORE, OperatingMode, 80);
    RecordOfFramed(DEFAULT_STORE, ReportingInterval, 12);
    MistypedFramed();
    RecordOfFramed(DEFAULT_STORE, OperatingMode, 80);
    InPlaceThree(a, MistypedRecord(), c, IMAGE_HEADER_SIZE);
    ComposedThree(MistypedImage(), a, MistypedRecord(), c);
  }

  lemma MistypedOutcome()
    requires DEFAULT_STORE.Shaped()
    ensures |MistypedRecords()| == PARAMETER_COUNT
    ensures !Restorable(MistypedRecords()[1]) && OthersRestorable(MistypedRecords(), 1)
    ensures |MistypedRecords()[1].frame| == RecordFrameSize(TemperatureLimit)
    ensures MistypedRecords()[1].id == TemperatureLimit && MistypedRecords()[1].offset == 46
    ensures MistypedRecords()[0].id == ReportingInterval
    ensures MistypedRecords()[0].payload == DEFAULT_STORE.Slot(ReportingInterval)
  {
    hide Framed, Typed, MistypedRecord, StoreState.Slot, StoreState.Get, RecordFrame, Finalized, Validate;
    MistypedFramed();
    DefaultStoreValid();
    RecordOfAdmissible(DEFAULT_STORE, ReportingInterval, 12);
    RecordOfAdmissible(DEFAULT_STORE, OperatingMode, 80);
  }

  lemma GetOfSlot(s: StoreState, t: StoreState, id: ParameterId)
    requires s.Shaped() && t.Shaped() && s.Slot(id) == t.Slot(id)
    ensures s.Get(id) == t.Get(id)
  {
  }

  // A store that the failing restore leaves alone is set back to the default interval by the other.
  lemma HealedInto(t: Shaped)
    requires DEFAULT_STORE.Shaped() && Replaces(t, ReportingInterval)
    ensures var image := MistypedImage();
            var patched := Update(image, TemperatureLimit, DEFAULT_STORE).1;
            && !Restore(image, t).0.Succeeded() && Restore(image, t).1 == t
            && Restore(patched, t).0 == DONE
            && Restore(patched, t).1.Get(ReportingInterval) == DEFAULT_STORE.Get(ReportingInterval)
  {
    hide Composed, Update, Restorable, Restore, StoreState.Slot, StoreState.Get, MistypedImage, MistypedRecords;
    hide Replaces, Validate, RecordOf, OthersRestorable, RecordFrameSize;
    MistypedComposed();
    MistypedOutcome();
    DefaultStoreValid();
    var image, records := MistypedImage(), MistypedRecords();
    Outcomes(image, records, TemperatureLimit, 1, DEFAULT_STORE, t);
    UpdatedAccepted(image, records, TemperatureLimit, 1, DEFAULT_STORE);
    var patched := Update(image, TemperatureLimit, DEFAULT_STORE).1;
    var others := records[1 := RecordOf(DEFAULT_STORE, TemperatureLimit, 46)];
    RestoreOnlyIf(patched, others, t);
    RestoreMerges(patched, others, t);
    RestoredSlot(patched, others, 0, t);
    GetOfSlot(Restore(patched, t).1, DEFAULT_STORE, ReportingInterval);
  }

  lemma IntervalChanged()
    ensures DEFAULT_STORE.Shaped() && DEFAULT_STORE.Get(ReportingInterval) == 1000
    ensures var t := DEFAULT_STORE.Set(ReportingInterval, 2000, CompiledDefault).1;
            t.Get(ReportingInterval) == 2000 && Replaces(t, ReportingInterval)
  {
    hide StoreState.Put, StoreState.Get, StoreState.Slot, StoreState.AllValid;
    DefaultStoreValid();
    SetKeepsValid(DEFAULT_STORE, ReportingInterval, 2000, CompiledDefault);
    assert DEFAULT_STORE.Get(ReportingInterval) == DefaultValue(ReportingInterval);
    assert DEFAULT_STORE.Set(ReportingInterval, 2000, CompiledDefault).0 == Updated;
    hide StoreState.Set, StoreState.Source;
  }

  // A store whose reporting interval was 2000 keeps it when the mistyped image is restored. Once the
  // temperature record has been updated, restoring sets the interval back to the image's 1000.
  lemma HealedRecordSpreads()
    ensures DEFAULT_STORE.Shaped()
    ensures var (image, t) := (MistypedImage(), DEFAULT_STORE.Set(ReportingInterval, 2000, CompiledDefault).1);
            var patched := Update(image, TemperatureLimit, DEFAULT_STORE).1;
            && !Restore(image, t).0.Succeeded() && Restore(image, t).1.Get(ReportingInterval) == 2000
            && Restore(patched, t).0 == DONE && Restore(patched, t).1.Get(ReportingInterval) == 1000
  {
    IntervalChanged();
    hide StoreState.Set, StoreState.Get, Restore, Update, MistypedImage, Replaces;
    HealedInto(DEFAULT_STORE.Set(ReportingInterval, 2000, CompiledDefault).1);
  }

  // ---- update and create ----

  // The store with one parameter's value taken from another store.
  function WithValueFrom(base: StoreState, id: ParameterId, s: StoreState): (u: StoreState)
    requires base.Shaped() && s.Shaped()
    ensures u.Shaped()
  {
    base.(values := Spliced(base.values, Offset(id), s.Slot(id)))
  }

  lemma WithValueSlots(base: StoreState, id: ParameterId, s: StoreState, other: ParameterId)
    requires base.Shaped() && s.Shaped()
    ensures WithValueFrom(base, id, s).Slot(other) == if other == id then s.Slot(id) else base.Slot(other)
  {
    SplicedSlice(base.values, Offset(id), s.Slot(id), Offset(other), EncodedSize(other));
    hide Spliced;
  }

  // Updating a created image is creating the image of the updated store.
  lemma UpdateCreated(base: StoreState, id: ParameterId, s: StoreState)
    requires base.Shaped() && s.Shaped()
    ensures Update(ImageOf(base), id, s) == (PersistenceResult(Ok, 1, Some(id)), ImageOf(WithValueFrom(base, id, s)))
  {
    hide ImageOf, Composed, Update, Join, ImageHeader, Spliced, RecordFrame, Finalized, StoreState.Slot, Framed, Typed;
    var records, u := RecordsOf(base), WithValueFrom(base, id, s);
    var k := Index(id);
    ImageComposed(base);
    ImageParts(u);
    RecordOfFramed(base, id, records[k].offset);
    WithRecords(base, id, s);
    hide RecordsOf, WithValueFrom, RecordOf;
    UpdateExactly(ImageOf(base), records, id, k, s);
    ComposedImage(Update(ImageOf(base), id, s).1, RecordsOf(u));
  }

  lemma ComposedImage(image: seq<byte>, records: seq<Record>)
    requires Composed(image, records)
    ensures image == ImageHeader(PARAMETER_COUNT) + Join(records)
  {
    hide ImageHeader, Join, Framed;
  }

  lemma WithRecord(base: StoreState, id: ParameterId, s: StoreState, other: ParameterId, offset: nat)
    requires base.Shaped() && s.Shaped()
    ensures RecordOf(WithValueFrom(base, id, s), other, offset)
         == RecordOf(if other == id then s else base, other, offset)
  {
    hide RecordFrame, Finalized;
    WithValueSlots(base, id, s, other);
    hide StoreState.Slot, WithValueFrom;
  }

  lemma WithRecords(base: StoreState, id: ParameterId, s: StoreState)
    requires base.Shaped() && s.Shaped()
    ensures var rs := RecordsOf(base);
            var r := rs[Index(id)];
            && r.id == id && r == RecordOf(base, id, r.offset)
            && RecordsOf(WithValueFrom(base, id, s)) == rs[Index(id) := RecordOf(s, id, r.offset)]
  {
    hide StoreState.Slot, RecordFrame, Finalized, WithValueFrom;
    var rs := RecordsOf(base);
    assert rs[Index(id)] == RecordOf(base, id, rs[Index(id)].offset);
    WithRecord(base, id, s, ReportingInterval, 12);
    WithRecord(base, id, s, TemperatureLimit, 46);
    WithRecord(base, id, s, OperatingMode, 80);
    assert rs[Index(id)].offset == if id == ReportingInterval then 12 else if id == TemperatureLimit then 46 else 80;
    hide RecordOf;
  }
}
