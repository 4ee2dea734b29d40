// The persistent image byte by byte, and what restoring it does to each parameter.

module StorageLayout {
  import opened Bytes
  import opened Crc16
  import opened FrameLayout
  import opened MessageFrame
  import opened ParameterStore
  import opened ParameterRules
  import opened StorageImage
  import opened StorageTheorems
  import opened StorageRestore

  // ---- the image header ----

  // "PIMG", version 1, three records, checksum. Every byte string passes or fails for the first of
  // these reasons.
  lemma HeaderDecides(image: seq<byte>)
    ensures CheckImageHeader(image)
         == if |image| < 10 then InvalidImageHeader
            else if !(image[0] == 0x50 && image[1] == 0x49 && image[2] == 0x4D && image[3] == 0x47) then
              InvalidImageMagic
            else if WordAt(image, 4) != 1 then UnsupportedImageVersion
            else if WordAt(image, 8) != Crc(image[..8]) then InvalidImageHeader
            else if WordAt(image, 6) != 3 then InvalidRecordCount
            else Ok
  {
    hide Crc;
    if |image| >= 10 {
      WordIs(image, 4);
      WordIs(image, 6);
      WordIs(image, 8);
      hide Word, WordAt;
      assert image[..4] == [image[0], image[1], image[2], image[3]];
    }
  }

  // An image that fails there is refused before any record, without an id, and no callback is made.
  lemma HeaderReported<S>(image: seq<byte>, s: S, callback: Callback<S>)
    requires CheckImageHeader(image) != Ok
    ensures Walk(image, s, callback) == (PersistenceResult(CheckImageHeader(image), 0, None), s)
  {
    hide CheckImageHeader, WalkFrom;
  }

  lemma WordIs(s: seq<byte>, i: nat)
    requires i + 2 <= |s|
    ensures Word(s[i..i + 2]) == WordAt(s, i)
  {
  }

  // ---- records ----

  // The number a parameter has in an image, and the message type of its record.
  function RawId(id: ParameterId): byte {
    match id case ReportingInterval => 0 case TemperatureLimit => 1 case OperatingMode => 2
  }

  function Size(id: ParameterId): nat {
    match id case ReportingInterval => 4 case TemperatureLimit => 4 case OperatingMode => 1
  }

  // The number in a record's payload.
  function PayloadValue(id: ParameterId, f: seq<byte>): nat
    requires |f| == 28 + Size(id)
  {
    if id == OperatingMode then f[28] else DoubleWordAt(f, 28)
  }

  // A frame of the storage service, of the parameter's own type, in little-endian order.
  predicate HasType(id: ParameterId, f: seq<byte>)
    requires |f| >= 28
  {
    f[6] == 0 && WordAt(f, 8) == 0x17 && WordAt(f, 10) == RawId(id) as int + 1
  }

  predicate Fits(id: ParameterId, f: seq<byte>)
    requires |f| >= 28
  {
    HasType(id, f) && |f| == 28 + Size(id) && InRange(id, PayloadValue(id, f))
  }

  lemma TypedExactly(r: Record)
    requires Framed(r)
    ensures |r.frame| >= 28 && r.payload == r.frame[28..]
    ensures Typed(r) <==> HasType(r.id, r.frame)
  {
    ReadExactly(r.frame);
    hide ReadFrame, HeaderFits, Crc;
  }

  lemma ValueExactly(id: ParameterId, f: seq<byte>)
    requires |f| == 28 + Size(id)
    ensures LittleValue(f[28..]) == PayloadValue(id, f)
  {
    if id == OperatingMode {
      ValueOfOne(f[28..]);
    } else {
      ValueOfFour(f[28..]);
    }
    hide LittleValue;
  }

  // A record is staged, or refused for its type or size, or for its value.
  lemma StageDecides(s: StoreState, r: Record)
    requires s.Shaped() && Framed(r)
    ensures |r.frame| >= 28
    ensures DecodeAndStage(s, r).0
         == if !HasType(r.id, r.frame) || |r.frame| != 28 + Size(r.id) then TypeMismatch
            else if !InRange(r.id, PayloadValue(r.id, r.frame)) then BadValue
            else Ok
    ensures DecodeAndStage(s, r).0 != Ok ==> DecodeAndStage(s, r).1 == s
  {
    TypedExactly(r);
    if |r.frame| == 28 + Size(r.id) {
      ValueExactly(r.id, r.frame);
      InRangeExactly(r.id, LittleValue(r.payload));
    }
    StageOne(s, r);
    hide Typed, HasType, Framed, DecodeAndStage, LittleValue, Validate, InRange, PayloadValue;
  }

  lemma RestorableExactly(r: Record)
    requires Framed(r)
    ensures |r.frame| >= 28
    ensures Restorable(r) <==> Fits(r.id, r.frame)
  {
    TypedExactly(r);
    if |r.frame| == 28 + Size(r.id) {
      ValueExactly(r.id, r.frame);
      InRangeExactly(r.id, LittleValue(r.payload));
    }
    hide Typed, HasType, Framed, LittleValue, Validate, InRange, PayloadValue;
  }

  // ---- the bytes restore accepts ----

  // A header and three records behind one another, of three different parameters.
  ghost predicate IsImage(image: seq<byte>, x: ParameterId, p: seq<byte>, y: ParameterId, q: seq<byte>,
                          z: ParameterId, r: seq<byte>) {
    && |image| >= 10
    && image[0] == 0x50 && image[1] == 0x49 && image[2] == 0x4D && image[3] == 0x47
    && WordAt(image, 4) == 1 && WordAt(image, 6) == 3 && WordAt(image, 8) == Crc(image[..8])
    && image[10..] == [RawId(x), 0] + p + [RawId(y), 0] + q + [RawId(z), 0] + r
    && x != y && x != z && y != z
    && IsFrame(p) && IsFrame(q) && IsFrame(r)
    && Fits(x, p) && Fits(y, q) && Fits(z, r)
  }

  lemma RecordStart(r: Record)
    ensures RecordBytes(r) == [RawId(r.id), 0] + r.frame
  {
    WordBytes(Index(r.id));
    hide LittleBytes;
  }

  lemma JoinedBytes(a: Record, b: Record, c: Record)
    ensures Join([a, b, c])
         == [RawId(a.id), 0] + a.frame + [RawId(b.id), 0] + b.frame + [RawId(c.id), 0] + c.frame
  {
    JoinThree(a, b, c);
    RecordStart(a);
    RecordStart(b);
    RecordStart(c);
    Reassociate([], RecordBytes(a), RecordBytes(b), RecordBytes(c), [RawId(a.id), 0], a.frame,
                [RawId(b.id), 0], b.frame, [RawId(c.id), 0], c.frame);
    hide RecordBytes, Join;
    var x, y, z := RecordBytes(a), RecordBytes(b), RecordBytes(c);
    assert [] + (x + y + z) == x + y + z;
    assert [] + [RawId(a.id), 0] == [RawId(a.id), 0];
  }

  lemma FrameRecord(r: Record)
    requires Framed(r)
    ensures IsFrame(r.frame)
    ensures r == Record(r.id, r.offset, r.frame, ReadFrame(r.frame).header, ReadFrame(r.frame).payload)
  {
    IsFrameExactly(r.frame);
    hide ReadFrame, IsFrame;
  }

  function RecordOfFrame(id: ParameterId, offset: nat, f: seq<byte>): Record
    requires ReadFrame(f).Frame?
  {
    Record(id, offset, f, ReadFrame(f).header, ReadFrame(f).payload)
  }

  lemma FrameFramed(id: ParameterId, offset: nat, f: seq<byte>)
    requires IsFrame(f) && Fits(id, f)
    ensures ReadFrame(f).Frame? && Framed(RecordOfFrame(id, offset, f)) && Restorable(RecordOfFrame(id, offset, f))
  {
    IsFrameExactly(f);
    hide ReadFrame, HeaderFits, Crc, HasType, InRange;
    RestorableExactly(RecordOfFrame(id, offset, f));
  }

  lemma ThreeRecords(records: seq<Record>)
    requires |records| == 3
    ensures records == [records[0], records[1], records[2]]
  {
  }

  lemma ImageFromRecords(image: seq<byte>, records: seq<Record>)
    requires Accepted(image, records)
    ensures |records| == 3
    ensures var (a, b, c) := (records[0], records[1], records[2]);
            IsImage(image, a.id, a.frame, b.id, b.frame, c.id, c.frame)
  {
    hide Framed, Restorable, ImageHeader, Join, InPlace, Fits, IsFrame, Crc, CheckImageHeader, WordAt;
    var (a, b, c) := (records[0], records[1], records[2]);
    ThreeRecords(records);
    FrameRecord(a);
    FrameRecord(b);
    FrameRecord(c);
    RestorableExactly(a);
    RestorableExactly(b);
    RestorableExactly(c);
    JoinedBytes(a, b, c);
    HeaderAcceptedExactly(image);
    HeaderDecides(image);
    assert image[..10] == ImageHeader(3) && image[10..] == Join(records);
  }

  lemma RightHeader(image: seq<byte>)
    requires CheckImageHeader(image) == Ok
    ensures |image| >= 10 && image == ImageHeader(3) + image[10..]
  {
    hide CheckImageHeader, ImageHeader;
    HeaderAcceptedExactly(image);
    assert image == image[..10] + image[10..];
  }

  lemma ImageHeaderOk(image: seq<byte>, x: ParameterId, p: seq<byte>, y: ParameterId, q: seq<byte>,
                      z: ParameterId, r: seq<byte>)
    requires IsImage(image, x, p, y, q, z, r)
    ensures CheckImageHeader(image) == Ok
  {
    hide CheckImageHeader, Fits, IsFrame, Crc, WordAt;
    HeaderDecides(image);
  }

  lemma RecordsFromImage(image: seq<byte>, x: ParameterId, p: seq<byte>, y: ParameterId, q: seq<byte>,
                         z: ParameterId, r: seq<byte>) returns (records: seq<Record>)
    requires IsImage(image, x, p, y, q, z, r)
    ensures Accepted(image, records)
  {
    hide Framed, Restorable, ImageHeader, Join, InPlace, Fits, IsFrame, Crc, CheckImageHeader, WordAt, Composed;
    hide Accepted, ReadFrame;
    FrameFramed(x, 12, p);
    FrameFramed(y, 14 + |p|, q);
    FrameFramed(z, 16 + |p| + |q|, r);
    var a, b := RecordOfFrame(x, 12, p), RecordOfFrame(y, 14 + |p|, q);
    var c := RecordOfFrame(z, 16 + |p| + |q|, r);
    records := [a, b, c];
    JoinedBytes(a, b, c);
    ImageHeaderOk(image, x, p, y, q, z, r);
    RightHeader(image);
    InPlaceThree(a, b, c, 10);
    ComposedThree(image, a, b, c);
    AcceptedThree(image, records);
  }

  // Restore accepts exactly these byte strings, whatever the store.
  lemma RestoreAcceptsExactly(image: seq<byte>, t: Shaped)
    ensures Restore(image, t).0.Succeeded() <==> exists x, p, y, q, z, r :: IsImage(image, x, p, y, q, z, r)
  {
    hide Restore, IsImage, Accepted;
    RestoreExactly(image, t);
    if Restore(image, t).0.Succeeded() {
      var records :| Accepted(image, records);
      ImageFromRecords(image, records);
    }
    if x, p, y, q, z, r :| IsImage(image, x, p, y, q, z, r) {
      var records := RecordsFromImage(image, x, p, y, q, z, r);
    }
  }

  // ---- which parameters a restore changes ----

  predicate Yields(source: ParameterSource) {
    source.CompiledDefault? || source.PersistentStorage?
  }

  // A parameter that came from the compiled defaults or from storage takes the record's bytes and is
  // from storage then; one from the configuration file, the command line or the program at run time
  // keeps bytes and source.
  lemma RestoreBySource(image: seq<byte>, records: seq<Record>, t: Shaped, k: nat)
    requires Accepted(image, records) && k < |records|
    ensures var (u, id) := (Restore(image, t).1, records[k].id);
            && Restore(image, t).0 == PersistenceResult(Ok, 3, None)
            && (t.Source(id).CompiledDefault? || t.Source(id).PersistentStorage? ==>
                  |records[k].frame| >= 28 && u.Slot(id) == records[k].frame[28..] && u.Source(id).PersistentStorage?)
            && (t.Source(id).ConfigurationFile? || t.Source(id).CommandLine? || t.Source(id).Runtime? ==>
                  u.Slot(id) == t.Slot(id) && u.Source(id) == t.Source(id))
  {
    RestoreMerges(image, records, t);
    YieldsExactly(t, records[k].id);
    AcceptedFramed(image, records, k);
    TypedExactly(records[k]);
    hide Restore, Accepted, StoreState.Slot, StoreState.Source, Replaces, Framed, ReplacedCount, Advance, Typed;
    assert Replaces(t, records[k].id) ==>
        Holds(Restore(image, t).1, records[k].id, records[k].payload, PersistentStorage);
  }

  lemma AcceptedFramed(image: seq<byte>, records: seq<Record>, k: nat)
    requires Accepted(image, records) && k < |records|
    ensures Framed(records[k])
  {
    hide Framed, Restorable, Join, ImageHeader;
  }

  lemma YieldsExactly(t: StoreState, id: ParameterId)
    requires t.Shaped()
    ensures Replaces(t, id) <==> t.Source(id).CompiledDefault? || t.Source(id).PersistentStorage?
  {
    hide StoreState.Source;
  }

  function One(t: StoreState, id: ParameterId): nat
    requires t.Shaped()
  {
    if Yields(t.Source(id)) then 1 else 0
  }

  lemma AnyOrder(t: StoreState, x: ParameterId, y: ParameterId, z: ParameterId)
    requires t.Shaped() && x != y && x != z && y != z
    ensures One(t, x) + One(t, y) + One(t, z)
         == One(t, ReportingInterval) + One(t, TemperatureLimit) + One(t, OperatingMode)
  {
    hide One;
  }

  lemma OnesCounted(t: StoreState, a: Record, b: Record, c: Record)
    requires t.Shaped()
    ensures ReplacedCount(t, [a, b, c]) == One(t, a.id) + One(t, b.id) + One(t, c.id)
  {
    hide Replaces, ReplacedCount, StoreState.Source;
    CountThree(t, a, b, c);
    YieldsExactly(t, a.id);
    YieldsExactly(t, b.id);
    YieldsExactly(t, c.id);
  }

  lemma GenerationCounts(image: seq<byte>, records: seq<Record>, t: Shaped)
    requires Accepted(image, records)
    ensures Restore(image, t).1.generation == (t.generation + ReplacedCount(t, records)) % 0x1_0000_0000
  {
    hide Restore, Accepted, MergedFrom, ReplacedCount;
    RestoreMerges(image, records, t);
    MergedCount(Restore(image, t).1, t, records);
  }

  lemma MergedCount(u: StoreState, t: StoreState, records: seq<Record>)
    requires u.Shaped() && t.Shaped() && MergedFrom(u, t, records)
    ensures u.generation == (t.generation + ReplacedCount(t, records)) % 0x1_0000_0000
  {
    hide Replaces, Holds, ReplacedCount, StoreState.Slot, StoreState.Source;
  }

  // The generation counts the parameters that changed hands.
  lemma RestoreCounts(image: seq<byte>, records: seq<Record>, t: Shaped)
    requires Accepted(image, records)
    ensures Restore(image, t).1.generation
         == (t.generation + (if Yields(t.Source(ReportingInterval)) then 1 else 0)
             + (if Yields(t.Source(TemperatureLimit)) then 1 else 0)
             + if Yields(t.Source(OperatingMode)) then 1 else 0) % 0x1_0000_0000
  {
    hide Restore, Accepted, StoreState.Source, ReplacedCount, Yields;
    GenerationCounts(image, records, t);
    AcceptedIds(image, records);
    ThreeRecords(records);
    OnesCounted(t, records[0], records[1], records[2]);
    AnyOrder(t, records[0].id, records[1].id, records[2].id);
  }

  lemma AcceptedIds(image: seq<byte>, records: seq<Record>)
    requires Accepted(image, records)
    ensures |records| == 3
    ensures records[0].id != records[1].id && records[0].id != records[2].id && records[1].id != records[2].id
  {
    hide Framed, Restorable, Join, ImageHeader;
  }

  // ---- what create writes ----

  lemma RecordFrameBytes(id: ParameterId, payload: seq<byte>)
    requires |payload| == Size(id)
    ensures var f := RecordFrame(id, payload);
            && |f| == 28 + Size(id) && f[28..] == payload && IsFrame(f) && HasType(id, f)
            && DoubleWordAt(f, 12) == 0 && DoubleWordAt(f, 20) == 0
  {
    WrittenExactly(RecordHeader(id), payload);
    FrameRoundTrip(RecordHeader(id), payload);
    IsFrameExactly(RecordFrame(id, payload));
    hide ReadFrame, FrameBytes, Crc, IsFrame, Finalized;
  }

  // A created image is 109 bytes: the header and, at their places, one frame each for the nine bytes of
  // the store, in order.
  lemma CreatedBytes(s: StoreState)
    requires s.Shaped()
    ensures |ImageOf(s)| == 109
    ensures var i := ImageOf(s);
            && i[0] == 0x50 && i[1] == 0x49 && i[2] == 0x4D && i[3] == 0x47
            && WordAt(i, 4) == 1 && WordAt(i, 6) == 3 && WordAt(i, 8) == Crc(i[..8])
            && i[10..12] == [0, 0] && IsFrame(i[12..44]) && HasType(ReportingInterval, i[12..44])
            && i[40..44] == s.values[0..4]
            && i[44..46] == [1, 0] && IsFrame(i[46..78]) && HasType(TemperatureLimit, i[46..78])
            && i[74..78] == s.values[4..8]
            && i[78..80] == [2, 0] && IsFrame(i[80..109]) && HasType(OperatingMode, i[80..109])
            && i[108] == s.values[8]
  {
    hide ImageOf, RecordsOf, IsFrame, HasType, Crc, CheckImageHeader, WordAt, RecordFrame, StoreState.Slot, ImageHeader;
    var p := RecordFrame(ReportingInterval, s.Slot(ReportingInterval));
    var q := RecordFrame(TemperatureLimit, s.Slot(TemperatureLimit));
    var r := RecordFrame(OperatingMode, s.Slot(OperatingMode));
    RecordFrameBytes(ReportingInterval, s.Slot(ReportingInterval));
    RecordFrameBytes(TemperatureLimit, s.Slot(TemperatureLimit));
    RecordFrameBytes(OperatingMode, s.Slot(OperatingMode));
    CreatedParts(s);
    HeaderAcceptedExactly(ImageOf(s));
    HeaderDecides(ImageOf(s));
    CreatedPlaces(ImageOf(s), ImageHeader(3), p, q, r);
    SlotBytes(s, ReportingInterval);
    SlotBytes(s, TemperatureLimit);
    SlotBytes(s, OperatingMode);
  }

  lemma CreatedParts(s: StoreState)
    requires s.Shaped()
    ensures ImageOf(s) == ImageHeader(3) + ([0, 0] + RecordFrame(ReportingInterval, s.Slot(ReportingInterval))
                                            + [1, 0] + RecordFrame(TemperatureLimit, s.Slot(TemperatureLimit))
                                            + [2, 0] + RecordFrame(OperatingMode, s.Slot(OperatingMode)))
  {
    ImageParts(s);
    hide RecordFrame, StoreState.Slot, ImageHeader, Join, ImageOf, Finalized;
    JoinedBytes(RecordOf(s, ReportingInterval, 12), RecordOf(s, TemperatureLimit, 46), RecordOf(s, OperatingMode, 80));
  }

  lemma CreatedPlaces(i: seq<byte>, h: seq<byte>, p: seq<byte>, q: seq<byte>, r: seq<byte>)
    requires |h| == 10 && |p| == 32 && |q| == 32 && |r| == 29
    requires i == h + ([0, 0] + p + [1, 0] + q + [2, 0] + r)
    ensures |i| == 109 && i[..10] == h
    ensures i[10..12] == [0, 0] && i[12..44] == p && i[40..44] == p[28..]
    ensures i[44..46] == [1, 0] && i[46..78] == q && i[74..78] == q[28..]
    ensures i[78..80] == [2, 0] && i[80..109] == r && i[108] == r[28]
  {
  }
}
