// The storage image object: a fixed buffer that is created, patched, walked and restored in place.

module StorageDevice {
  import opened Bytes
  import opened Crc16
  import opened WireFormat
  import opened BinaryStreams
  import opened MessageFrame
  import opened FrameStreams
  import opened ParameterStore
  import opened StorageImage
  import opened StorageRestore
  import opened StorageUpdate

  method WriteUInt16(data: array<byte>, offset: nat, value: u16, host: Endianness)
    requires offset + 2 <= data.Length
    modifies data
    ensures data[..] == Spliced(old(data[..]), offset, LittleBytes(value, 2))
  {
    var writer := new BinaryWriteStream(MutableByteView(data, offset, 2), host, Little, MAX_SIZE);
    hide LittleBytes, Spliced, BinaryWriteStream.Valid;
    writer.WriteScalar(value, 2);
    assert [] + LittleBytes(value, 2) == LittleBytes(value, 2);
    writer.BufferSpliced();
  }

  method ReadUInt16(bytes: seq<byte>, offset: nat, host: Endianness) returns (value: Option<u16>)
    ensures value == if offset + 2 > |bytes| then None else Some(Word(bytes[offset..offset + 2]))
  {
    if offset + 2 > |bytes| {
      return None;
    }
    var source := bytes[offset..offset + 2];
    var reader := new BinaryReadStream(source, host, Little, MAX_SIZE);
    assert source[0..2] == source;
    var v := ReadField(reader, 2);
    return Some(v);
  }

  method EncodeImageHeader(destination: array<byte>, recordCount: u16, host: Endianness)
    requires destination.Length >= IMAGE_HEADER_SIZE
    modifies destination
    ensures destination[..] == Spliced(old(destination[..]), 0, ImageHeader(recordCount))
  {
    hide LittleBytes, Crc, Spliced;
    ghost var before := destination[..];
    CopyForward(destination, 0, IMAGE_MAGIC);
    WriteUInt16(destination, 4, IMAGE_VERSION, host);
    WriteUInt16(destination, 6, recordCount, host);
    WriteUInt16(destination, 8, 0, host);
    HeaderSpliced(before, recordCount, 0);
    assert destination[..8] == destination[..][..8] == ImageHeaderBase(recordCount);
    var crc := Crc16CcittFalse(destination[..8]);
    WriteUInt16(destination, 8, crc, host);
    HeaderCrcSpliced(before, recordCount, crc);
  }

  // What the pieces of the header amount to.
  lemma HeaderSpliced(before: seq<byte>, count: u16, crc: u16)
    requires |before| >= IMAGE_HEADER_SIZE
    ensures var s := Spliced(Spliced(Spliced(Spliced(before, 0, IMAGE_MAGIC), 4, LittleBytes(IMAGE_VERSION, 2)),
                                     6, LittleBytes(count, 2)), 8, LittleBytes(crc, 2));
            s == Spliced(before, 0, ImageHeaderBase(count) + LittleBytes(crc, 2)) && s[..8] == ImageHeaderBase(count)
  {
    hide LittleBytes;
    var v, n, c := LittleBytes(IMAGE_VERSION, 2), LittleBytes(count, 2), LittleBytes(crc, 2);
    SplicedMore(before, 0, IMAGE_MAGIC, v);
    SplicedMore(before, 0, IMAGE_MAGIC + v, n);
    SplicedMore(before, 0, IMAGE_MAGIC + v + n, c);
  }

  lemma HeaderCrcSpliced(before: seq<byte>, count: u16, crc: u16)
    requires |before| >= IMAGE_HEADER_SIZE
    ensures Spliced(Spliced(before, 0, ImageHeaderBase(count) + LittleBytes(0, 2)), 8, LittleBytes(crc, 2))
         == Spliced(before, 0, ImageHeaderBase(count) + LittleBytes(crc, 2))
  {
    hide LittleBytes, ImageHeaderBase;
  }

  method DecodeImageHeader(image: seq<byte>, host: Endianness) returns (status: PersistenceStatus)
    ensures status == CheckImageHeader(image)
  {
    hide Crc;
    if |image| < IMAGE_HEADER_SIZE {
      return InvalidImageHeader;
    }
    if image[..4] != IMAGE_MAGIC {
      return InvalidImageMagic;
    }
    var version := ReadUInt16(image, 4, host);
    var recordCount := ReadUInt16(image, 6, host);
    var headerCrc := ReadUInt16(image, 8, host);
    if version != Some(IMAGE_VERSION) {
      return UnsupportedImageVersion;
    }
    var expected := Crc16CcittFalse(image[..8]);
    if headerCrc != Some(expected) {
      return InvalidImageHeader;
    }
    if recordCount != Some(PARAMETER_COUNT) {
      return InvalidRecordCount;
    }
    return Ok;
  }

  // The parameters whose flag is set.
  ghost function Flagged(seen: seq<bool>): set<ParameterId>
    requires |seen| == PARAMETER_COUNT
  {
    set id | id in {ReportingInterval, TemperatureLimit, OperatingMode} && seen[Index(id)]
  }

  lemma NoneFlagged()
    ensures Flagged([false, false, false]) == {}
  {
  }

  lemma OneMoreFlagged(seen: seq<bool>, id: ParameterId)
    requires |seen| == PARAMETER_COUNT
    ensures Flagged(seen[Index(id) := true]) == Flagged(seen) + {id}
  {
  }

  // One record, read where the walk stands.
  method ReadRecord(image: seq<byte>, offset: nat, seen: seq<bool>, host: Endianness) returns (step: Step)
    requires |seen| == PARAMETER_COUNT
    ensures step == NextRecord(image, offset, Flagged(seen))
  {
    hide Word, DecodeHeader, ReadFrame, ReadState.GetRaw, After, FieldAt, HeaderAt, AfterHeader;
    var rawId := ReadUInt16(image, offset, host);
    if rawId == None {
      return Stop(ReadFailed, None);
    }
    if rawId.value >= PARAMETER_COUNT {
      return Stop(UnknownParameter, None);
    }
    var id := IdAt(rawId.value);
    var start := offset + 2;
    if seen[rawId.value] {
      return Stop(DuplicateParameter, Some(id));
    }
    if start + HEADER_SIZE > |image| {
      return Stop(InvalidBdsMessage, Some(id));
    }
    var headerBytes := image[start..start + HEADER_SIZE];
    var headerReader := new BinaryReadStream(headerBytes, host, Little, MAX_SIZE);
    assert headerBytes[0..HEADER_SIZE] == headerBytes;
    var header := ReadHeaderV1(headerReader);
    if header.payloadSize > MAX_IMAGE - HEADER_SIZE {
      return Stop(InvalidBdsMessage, Some(id));
    }
    var frameSize := HEADER_SIZE + header.payloadSize;
    if start + frameSize > |image| {
      return Stop(InvalidBdsMessage, Some(id));
    }
    var frame := image[start..start + frameSize];
    var status, h, payload := ReadFrameV1(frame, host);
    if status != FrameOk {
      return Stop(InvalidBdsMessage, Some(id));
    }
    return Next(Record(id, start, frame, h, payload));
  }

  // One turn of the walk.
  lemma WalkTurn<S>(image: seq<byte>, offset: nat, index: nat, seen: set<ParameterId>, s: S, callback: Callback<S>,
                    step: Step)
    requires index < PARAMETER_COUNT && step == NextRecord(image, offset, seen)
    ensures step.Stop? ==>
              WalkFrom(image, offset, index, seen, s, callback) == (PersistenceResult(step.status, index, step.id), s)
    ensures step.Next? ==>
              var r := step.record;
              var (verdict, t) := callback(s, r);
              WalkFrom(image, offset, index, seen, s, callback)
              == if verdict != Ok then (PersistenceResult(verdict, index, Some(r.id)), t)
                 else WalkFrom(image, r.offset + |r.frame|, index + 1, seen + {r.id}, t, callback)
  {
    hide NextRecord;
  }

  lemma WalkEnds<S>(image: seq<byte>, offset: nat, seen: set<ParameterId>, s: S, callback: Callback<S>)
    ensures WalkFrom(image, offset, PARAMETER_COUNT, seen, s, callback)
         == (if offset != |image| then PersistenceResult(InvalidRecordCount, PARAMETER_COUNT, None) else DONE, s)
  {
  }

  // The loop over the records; the image header has been checked.
  method WalkLoop<S>(image: seq<byte>, s: S, callback: Callback<S>, host: Endianness)
    returns (result: PersistenceResult, t: S)
    ensures (result, t) == WalkFrom(image, IMAGE_HEADER_SIZE, 0, {}, s, callback)
  {
    hide NextRecord, WalkFrom, Flagged, Index;
    t := s;
    var seen := [false, false, false];
    NoneFlagged();
    var offset: nat := IMAGE_HEADER_SIZE;
    var recordIndex := 0;
    while recordIndex < PARAMETER_COUNT
      invariant recordIndex <= PARAMETER_COUNT && |seen| == PARAMETER_COUNT
      invariant WalkFrom(image, offset, recordIndex, Flagged(seen), t, callback)
             == WalkFrom(image, IMAGE_HEADER_SIZE, 0, {}, s, callback)
    {
      var step := ReadRecord(image, offset, seen, host);
      WalkTurn(image, offset, recordIndex, Flagged(seen), t, callback, step);
      if step.Stop? {
        return PersistenceResult(step.status, recordIndex, step.id), t;
      }
      var r := step.record;
      OneMoreFlagged(seen, r.id);
      seen := seen[Index(r.id) := true];
      var (verdict, next) := callback(t, r);
      t := next;
      if verdict != Ok {
        return PersistenceResult(verdict, recordIndex, Some(r.id)), t;
      }
      offset := r.offset + |r.frame|;
      recordIndex := recordIndex + 1;
    }
    WalkEnds(image, offset, Flagged(seen), t, callback);
    result := if offset != |image| then PersistenceResult(InvalidRecordCount, recordIndex, None) else DONE;
  }

  method WalkRecords<S>(image: seq<byte>, s: S, callback: Callback<S>, host: Endianness)
    returns (result: PersistenceResult, t: S)
    ensures (result, t) == Walk(image, s, callback)
  {
    hide WalkFrom, CheckImageHeader;
    var status := DecodeImageHeader(image, host);
    if status != Ok {
      return PersistenceResult(status, 0, None), s;
    }
    result, t := WalkLoop(image, s, callback, host);
  }

  method FindRecordIn(image: seq<byte>, wanted: ParameterId, host: Endianness) returns (location: Option<(nat, nat)>)
    ensures location == FindRecord(image, wanted)
  {
    hide Walk;
    var result, place := WalkRecords(image, (0, 0), Locate(wanted), host);
    location := if !result.Succeeded() || place.1 == 0 then None else Some(place);
  }

  // The parameter's value, encoded and framed at the front of the destination.
  method MakeFrame(id: ParameterId, parameters: Store, destination: MutableByteView, host: Endianness)
    returns (ok: bool, bytesWritten: nat)
    requires parameters.Valid() && destination.Valid() && destination.data != parameters.values
    modifies destination.data
    ensures parameters.View() == old(parameters.View())
    ensures ok == (RecordFrameSize(id) <= destination.size)
    ensures !ok ==> destination.data[..] == old(destination.data[..])
    ensures ok ==>
              && bytesWritten == RecordFrameSize(id) == |RecordFrame(id, parameters.View().Slot(id))|
              && destination.data[..]
                 == Spliced(old(destination.data[..]), destination.offset, RecordFrame(id, parameters.View().Slot(id)))
  {
    hide LittleBytes, LittleValue, HeaderBytes, Finalized, Spliced, StoreState.Slot;
    var _, value := parameters.Get(id);
    LittleSurjective(parameters.View().Slot(id));
    var payload := parameters.Encode(id, value);
    var status, n := WriteFrameV1(destination, RecordHeader(id), payload, host);
    ok, bytesWritten := status == FrameOk, n;
  }

  // The image of the first n parameters.
  ghost function CreatedTo(s: StoreState, n: nat): (image: seq<byte>)
    requires s.Shaped() && n <= PARAMETER_COUNT
    ensures IMAGE_HEADER_SIZE <= |image| <= IMAGE_HEADER_SIZE + 34 * n
  {
    if n == 0 then ImageHeader(PARAMETER_COUNT)
    else
      var id := IdAt(n - 1);
      RecordOfFramed(s, id, 0);
      CreatedTo(s, n - 1) + LittleBytes(Index(id), 2) + RecordFrame(id, s.Slot(id))
  }

  lemma CreatedAll(s: StoreState)
    requires s.Shaped()
    ensures CreatedTo(s, PARAMETER_COUNT) == ImageOf(s)
  {
    hide LittleBytes, RecordFrame, ImageHeader, StoreState.Slot;
    assert CreatedTo(s, 1)
        == CreatedTo(s, 0) + LittleBytes(0, 2) + RecordFrame(ReportingInterval, s.Slot(ReportingInterval));
    assert CreatedTo(s, 2)
        == CreatedTo(s, 1) + LittleBytes(1, 2) + RecordFrame(TemperatureLimit, s.Slot(TemperatureLimit));
    assert CreatedTo(s, 3) == CreatedTo(s, 2) + LittleBytes(2, 2) + RecordFrame(OperatingMode, s.Slot(OperatingMode));
  }

  lemma Appended(before: seq<byte>, prefix: seq<byte>, a: seq<byte>, b: seq<byte>)
    requires |prefix| + |a| + |b| <= |before| && before[..|prefix|] == prefix
    ensures Spliced(Spliced(before, |prefix|, a), |prefix| + |a|, b)[..|prefix| + |a| + |b|] == prefix + a + b
  {
  }

  class ParameterStorageImage {
    const host: Endianness
    const data: array<byte>
    var size: nat

    ghost predicate Valid()
      reads this
    {
      data.Length == MAX_IMAGE && size <= MAX_IMAGE
    }

    ghost function Image(): seq<byte>
      reads this, data
      requires Valid()
    {
      data[..][..size]
    }

    constructor (host: Endianness)
      ensures Valid() && Image() == [] && fresh(data)
    {
      this.host := host;
      data, size := new byte[MAX_IMAGE](_ => 0), 0;
    }

    // The three records always fit and their frames always have the expected size.
    method Create(parameters: Store) returns (result: PersistenceResult)
      requires Valid() && parameters.Valid() && parameters.values != data
      modifies this`size, data
      ensures Valid() && parameters.View() == old(parameters.View())
      ensures result == DONE && Image() == ImageOf(parameters.View())
    {
      hide ImageHeader, Spliced, CreatedTo, RecordFrame, StoreState.Slot;
      ghost var s := parameters.View();
      EncodeImageHeader(data, PARAMETER_COUNT, host);
      size := IMAGE_HEADER_SIZE;
      CreatedNone(old(data[..]), s);
      var rawId := 0;
      while rawId < PARAMETER_COUNT
        invariant rawId <= PARAMETER_COUNT && Valid() && parameters.View() == s
        invariant Image() == CreatedTo(s, rawId) && size <= IMAGE_HEADER_SIZE + 34 * rawId
      {
        var id := IdAt(rawId);
        AppendRecord(parameters, id);
        CreatedNext(s, rawId + 1);
        rawId := rawId + 1;
      }
      CreatedAll(s);
      return DONE;
    }

    // One turn of the loop in create: the id, then the frame behind it.
    method AppendRecord(parameters: Store, id: ParameterId)
      requires Valid() && parameters.Valid() && parameters.values != data
      requires size + 2 + RecordFrameSize(id) <= MAX_IMAGE
      modifies this`size, data
      ensures Valid() && parameters.View() == old(parameters.View())
      ensures size == old(size) + 2 + RecordFrameSize(id)
      ensures Image() == old(Image()) + LittleBytes(Index(id), 2) + RecordFrame(id, parameters.View().Slot(id))
    {
      hide Spliced, RecordFrame, StoreState.Slot, LittleBytes;
      ghost var before := data[..];
      WriteUInt16(data, size, Index(id), host);
      var ok, frameSize :=
        MakeFrame(id, parameters, MutableByteView(data, size + 2, RecordFrameSize(id)), host);
      Appended(before, old(Image()), LittleBytes(Index(id), 2), RecordFrame(id, parameters.View().Slot(id)));
      size := size + 2 + frameSize;
    }

    static lemma CreatedNone(before: seq<byte>, s: StoreState)
      requires s.Shaped() && |before| == MAX_IMAGE
      ensures Spliced(before, 0, ImageHeader(PARAMETER_COUNT))[..IMAGE_HEADER_SIZE] == CreatedTo(s, 0)
    {
      hide ImageHeader;
    }

    static lemma CreatedNext(s: StoreState, n: nat)
      requires s.Shaped() && 0 < n <= PARAMETER_COUNT
      ensures CreatedTo(s, n)
           == CreatedTo(s, n - 1) + LittleBytes(Index(IdAt(n - 1)), 2) + RecordFrame(IdAt(n - 1), s.Slot(IdAt(n - 1)))
    {
      hide RecordFrame, StoreState.Slot, ImageHeader;
    }

    method Update(id: ParameterId, parameters: Store) returns (result: PersistenceResult)
      requires Valid() && parameters.Valid() && parameters.values != data
      modifies data
      ensures Valid() && parameters.View() == old(parameters.View())
      ensures (result, Image()) == StorageImage.Update(old(Image()), id, parameters.View())
    {
      hide FindRecord, RecordFrame, StoreState.Slot, Spliced;
      ghost var image := Image();
      assert data[..size] == image;
      var location := FindRecordIn(data[..size], id, host);
      if location == None {
        return PersistenceResult(UnknownParameter, 0, Some(id));
      }
      var scratch := new byte[HEADER_SIZE + 256](_ => 0);
      ghost var blank := scratch[..];
      var ok, frameSize := MakeFrame(id, parameters, MutableByteView(scratch, 0, scratch.Length), host);
      UpdateAt(image, id, parameters.View(), location.value.0, location.value.1);
      if frameSize != location.value.1 {
        return PersistenceResult(TypeMismatch, 0, Some(id));
      }
      FoundInside(image, id);
      assert scratch[..frameSize] == RecordFrame(id, parameters.View().Slot(id)) by {
        ScratchFront(blank, RecordFrame(id, parameters.View().Slot(id)));
        assert scratch[..][..frameSize] == scratch[..frameSize];
      }
      CopyForward(data, location.value.0, scratch[..frameSize]);
      SplicedFront(old(data[..]), size, location.value.0, scratch[..frameSize]);
      return PersistenceResult(Ok, 1, Some(id));
    }

    static lemma ScratchFront(before: seq<byte>, frame: seq<byte>)
      requires |frame| <= |before|
      ensures Spliced(before, 0, frame)[..|frame|] == frame
    {
      SplicedSlice(before, 0, frame, 0, |frame|);
      hide Spliced;
    }

    static lemma SplicedFront(before: seq<byte>, size: nat, offset: nat, bytes: seq<byte>)
      requires offset + |bytes| <= size <= |before|
      ensures Spliced(before, offset, bytes)[..size] == Spliced(before[..size], offset, bytes)
    {
      SplicedBefore(before[..size], before[size..], offset, bytes);
      hide Spliced;
      assert before == before[..size] + before[size..];
    }

    method RestoreInto(parameters: Store) returns (result: PersistenceResult)
      requires Valid() && parameters.Valid()
      modifies parameters`generation, parameters.values, parameters.sources
      requires parameters.values != data
      ensures Valid() && parameters.Valid() && Image() == old(Image())
      ensures (result, parameters.View()) == Restore(Image(), old(parameters.View()))
    {
      hide Walk;
      var staged: Shaped := parameters.Snapshot();
      assert data[..size] == Image();
      var r, filled := WalkRecords<Shaped>(data[..size], staged, Stage, host);
      if r.Succeeded() {
        parameters.CopyFrom(filled);
      }
      return r;
    }

    method Assign(bytes: seq<byte>) returns (result: PersistenceResult)
      requires Valid()
      modifies this`size, data
      ensures Valid()
      ensures result == PersistenceResult(if |bytes| > MAX_IMAGE then ImageFull else Ok, 0, None)
      ensures Image() == if |bytes| > MAX_IMAGE then old(Image()) else bytes
    {
      if |bytes| > data.Length {
        return PersistenceResult(ImageFull, 0, None);
      }
      CopyForward(data, 0, bytes);
      size := |bytes|;
      return PersistenceResult(Ok, 0, None);
    }
  }

  // A whole cycle on real objects: what one program saves, the next one restores, merged by
  // precedence into its own store, if every value is valid. The two may be one store.
  method SaveAndRestore(image: ParameterStorageImage, saved: Store, target: Store) returns (result: PersistenceResult)
    requires image.Valid() && saved.Valid() && target.Valid()
    requires saved.values != image.data && target.values != image.data
    modifies image`size, image.data, target`generation, target.values, target.sources
    ensures target.Valid() && (result.Succeeded() <==> old(saved.View()).AllValid())
    ensures result.Succeeded() ==>
              result == DONE && target.View() == Merge(old(saved.View()), old(target.View()))
    ensures !result.Succeeded() ==> target.View() == old(target.View())
  {
    hide Restore, Merge, ImageOf, StoreState.AllValid;
    var created := image.Create(saved);
    CreateThenRestore(saved.View(), target.View());
    RestoreExactly(image.Image(), target.View());
    result := image.RestoreInto(target);
  }
}
