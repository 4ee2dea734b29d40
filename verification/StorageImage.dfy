// The persistent image as functions on byte strings: how it is laid out, walked, restored and
// patched.

module StorageImage {
  import opened Bytes
  import opened Crc16
  import opened MessageFrame
  import opened ParameterStore

  const MAX_IMAGE := 1024
  const IMAGE_HEADER_SIZE := 10
  const IMAGE_VERSION: u16 := 1
  const SERVICE_ID: u16 := 0x17
  const IMAGE_MAGIC: seq<byte> := [0x50, 0x49, 0x4d, 0x47]

  // BadValue is the original's InvalidValue, a name the store's results already have.
  datatype PersistenceStatus =
    | Ok | ImageFull | ReadFailed | InvalidImageMagic | UnsupportedImageVersion | InvalidImageHeader
    | InvalidRecordCount | UnknownParameter | DuplicateParameter | InvalidBdsMessage | TypeMismatch | BadValue

  datatype PersistenceResult =
    PersistenceResult(status: PersistenceStatus, recordsProcessed: nat, parameterId: Option<ParameterId>)
  {
    predicate Succeeded() { status == Ok }
  }

  const DONE := PersistenceResult(Ok, PARAMETER_COUNT, None)

  // ---- layout ----

  function ImageHeaderBase(count: u16): (s: seq<byte>)
    ensures |s| == 8
  {
    IMAGE_MAGIC + LittleBytes(IMAGE_VERSION, 2) + LittleBytes(count, 2)
  }

  function ImageHeader(count: u16): (s: seq<byte>)
    ensures |s| == IMAGE_HEADER_SIZE
  {
    ImageHeaderBase(count) + LittleBytes(Crc(ImageHeaderBase(count)), 2)
  }

  function ExpectedType(id: ParameterId): u16 {
    match id case ReportingInterval => 1 case TemperatureLimit => 2 case OperatingMode => 3
  }

  function RecordHeader(id: ParameterId): MessageHeaderV1 {
    DEFAULT_HEADER.(serviceId := SERVICE_ID, messageType := ExpectedType(id))
  }

  function RecordFrame(id: ParameterId, payload: seq<byte>): seq<byte>
    requires |payload| < 0x1_0000_0000
  {
    FrameBytes(RecordHeader(id), payload)
  }

  // A record as the walk hands it to its callback; the offset is that of its frame in the image.
  datatype Record = Record(id: ParameterId, offset: nat, frame: seq<byte>, header: MessageHeaderV1, payload: seq<byte>)

  function RecordBytes(r: Record): seq<byte> {
    LittleBytes(Index(r.id), 2) + r.frame
  }

  function Join(records: seq<Record>): seq<byte> {
    if records == [] then [] else RecordBytes(records[0]) + Join(records[1..])
  }

  ghost predicate Framed(r: Record) {
    ReadFrame(r.frame) == Frame(r.header, r.payload) && |r.frame| <= MAX_IMAGE
  }

  // The records lie one behind the other from `start`.
  ghost predicate InPlace(records: seq<Record>, start: nat)
    decreases |records|
  {
    records == [] || (records[0].offset == start + 2 && InPlace(records[1..], start + 2 + |records[0].frame|))
  }

  ghost predicate DistinctIds(records: seq<Record>) {
    forall j, k :: 0 <= j < k < |records| ==> records[j].id != records[k].id
  }

  // What an acceptable image is: a header and exactly one well-framed record per parameter, in any
  // order, with nothing before, between or behind them.
  ghost predicate Composed(image: seq<byte>, records: seq<Record>) {
    && image == ImageHeader(PARAMETER_COUNT) + Join(records)
    && |records| == PARAMETER_COUNT
    && (forall k :: 0 <= k < |records| ==> Framed(records[k]))
    && InPlace(records, IMAGE_HEADER_SIZE)
    && DistinctIds(records)
  }

  // ---- walking ----

  function CheckImageHeader(image: seq<byte>): PersistenceStatus {
    if |image| < IMAGE_HEADER_SIZE then InvalidImageHeader
    else if image[..4] != IMAGE_MAGIC then InvalidImageMagic
    else if Word(image[4..6]) != IMAGE_VERSION then UnsupportedImageVersion
    else if Word(image[8..10]) != Crc(image[..8]) then InvalidImageHeader
    else if Word(image[6..8]) != PARAMETER_COUNT then InvalidRecordCount
    else Ok
  }

  datatype Step = Next(record: Record) | Stop(status: PersistenceStatus, id: Option<ParameterId>)

  // The record at an offset, or why there is none.
  function NextRecord(image: seq<byte>, offset: nat, seen: set<ParameterId>): (r: Step)
    ensures r.Next? ==> r.record.id !in seen && r.record.offset == offset + 2
    ensures r.Next? ==> offset + 2 + |r.record.frame| <= |image|
    ensures r.Stop? ==> r.status != Ok
  {
    if offset + 2 > |image| then Stop(ReadFailed, None)
    else
      var raw := Word(image[offset..offset + 2]);
      if raw >= PARAMETER_COUNT then Stop(UnknownParameter, None)
      else
        var id := IdAt(raw);
        var start := offset + 2;
        if id in seen then Stop(DuplicateParameter, Some(id))
        else if start + HEADER_SIZE > |image| then Stop(InvalidBdsMessage, Some(id))
        else
          var size := HEADER_SIZE + DecodeHeader(image[start..start + HEADER_SIZE]).payloadSize;
          if size > MAX_IMAGE || start + size > |image| then Stop(InvalidBdsMessage, Some(id))
          else
            match ReadFrame(image[start..start + size])
            case Frame(header, payload) => Next(Record(id, start, image[start..start + size], header, payload))
            case Rejected(_) => Stop(InvalidBdsMessage, Some(id))
  }

  // The callback sees each record in turn together with what it has accumulated so far.
  type Callback<!S> = (S, Record) -> (PersistenceStatus, S)

  function WalkFrom<S>(image: seq<byte>, offset: nat, index: nat, seen: set<ParameterId>, s: S, callback: Callback<S>)
    : (PersistenceResult, S)
    requires index <= PARAMETER_COUNT
    decreases PARAMETER_COUNT - index
  {
    if index == PARAMETER_COUNT then
      (if offset != |image| then PersistenceResult(InvalidRecordCount, index, None) else DONE, s)
    else
      match NextRecord(image, offset, seen)
      case Stop(status, id) => (PersistenceResult(status, index, id), s)
      case Next(r) =>
        var (status, t) := callback(s, r);
        if status != Ok then (PersistenceResult(status, index, Some(r.id)), t)
        else WalkFrom(image, offset + 2 + |r.frame|, index + 1, seen + {r.id}, t, callback)
  }

  function Walk<S>(image: seq<byte>, s: S, callback: Callback<S>): (PersistenceResult, S) {
    var status := CheckImageHeader(image);
    if status != Ok then (PersistenceResult(status, 0, None), s)
    else WalkFrom(image, IMAGE_HEADER_SIZE, 0, {}, s, callback)
  }

  // What the callback makes of a list of records, stopping at the first it rejects.
  function FoldFrom<S>(records: seq<Record>, index: nat, s: S, callback: Callback<S>): (PersistenceResult, S)
    decreases |records|
  {
    if records == [] then (PersistenceResult(Ok, index, None), s)
    else
      var (status, t) := callback(s, records[0]);
      if status != Ok then (PersistenceResult(status, index, Some(records[0].id)), t)
      else FoldFrom(records[1..], index + 1, t, callback)
  }

  // ---- create ----

  // Any store's image: its three parameters in order.
  function ImageOf(s: StoreState): seq<byte>
    requires s.Shaped()
  {
    ImageHeader(PARAMETER_COUNT)
    + LittleBytes(0, 2) + RecordFrame(ReportingInterval, s.Slot(ReportingInterval))
    + LittleBytes(1, 2) + RecordFrame(TemperatureLimit, s.Slot(TemperatureLimit))
    + LittleBytes(2, 2) + RecordFrame(OperatingMode, s.Slot(OperatingMode))
  }

  // ---- restore ----

  // The record carries this parameter, in the right encoding.
  predicate Typed(r: Record) {
    && r.header.serviceId == SERVICE_ID
    && r.header.messageType == ExpectedType(r.id)
    && r.header.payloadEndian == 0
  }

  function DecodeAndStage(staged: StoreState, r: Record): (q: (PersistenceStatus, StoreState))
    requires staged.Shaped()
    ensures q.1.Shaped()
  {
    if !Typed(r) || |r.payload| != EncodedSize(r.id) then (TypeMismatch, staged)
    else
      var (result, t) := staged.Set(r.id, LittleValue(r.payload), PersistentStorage);
      if result == Updated || result == LowerPrecedence then (Ok, t) else (BadValue, staged)
  }

  type Shaped = s: StoreState | s.Shaped() witness DEFAULT_STORE

  function Stage(staged: Shaped, r: Record): (PersistenceStatus, Shaped) {
    DecodeAndStage(staged, r)
  }

  // A failed restore leaves the store as it was.
  function Restore(image: seq<byte>, store: Shaped): (PersistenceResult, Shaped) {
    var (result, staged) := Walk(image, store, Stage);
    (result, if result.Succeeded() then staged else store)
  }

  // ---- update ----

  // Position and size of a parameter's frame; the last one found counts.
  function Locate(wanted: ParameterId): Callback<(nat, nat)> {
    (place: (nat, nat), r: Record) => (Ok, if r.id == wanted then (r.offset, |r.frame|) else place)
  }

  function FindRecord(image: seq<byte>, wanted: ParameterId): Option<(nat, nat)> {
    var (result, place) := Walk(image, (0, 0), Locate(wanted));
    if !result.Succeeded() || place.1 == 0 then None else Some(place)
  }

  // Whatever the bytes, a located frame lies inside the image.
  lemma {:induction false} LocatedInside(image: seq<byte>, offset: nat, index: nat, seen: set<ParameterId>,
                                         place: (nat, nat), wanted: ParameterId)
    requires index <= PARAMETER_COUNT && place.0 + place.1 <= |image|
    ensures var p := WalkFrom(image, offset, index, seen, place, Locate(wanted)).1;
            p.0 + p.1 <= |image|
    decreases PARAMETER_COUNT - index
  {
    hide NextRecord;
    if index < PARAMETER_COUNT {
      match NextRecord(image, offset, seen)
      case Stop(_, _) =>
      case Next(r) =>
        var next := if r.id == wanted then (r.offset, |r.frame|) else place;
        assert Locate(wanted)(place, r) == (Ok, next);
        LocatedInside(image, offset + 2 + |r.frame|, index + 1, seen + {r.id}, next, wanted);
    }
  }

  // Any image `update` leaves behind, and what it reports.
  function Update(image: seq<byte>, id: ParameterId, s: StoreState): (PersistenceResult, seq<byte>)
    requires s.Shaped()
  {
    match FindRecord(image, id)
    case None => (PersistenceResult(UnknownParameter, 0, Some(id)), image)
    case Some((offset, size)) =>
      var frame := RecordFrame(id, s.Slot(id));
      LocatedInside(image, IMAGE_HEADER_SIZE, 0, {}, (0, 0), id);
      if |frame| != size then (PersistenceResult(TypeMismatch, 0, Some(id)), image)
      else (PersistenceResult(Ok, 1, Some(id)), Spliced(image, offset, frame))
  }
}
