// Headers and frames as the streams write and read them.

module FrameStreams {
  import opened Bytes
  import opened Crc16
  import opened WireFormat
  import opened BinaryStreams
  import opened MessageFrame

  function PutStart(s: WriteState, h: MessageHeaderV1): WriteState {
    s.PutScalar(h.magic, 4, Little)
    .PutScalar(h.version, 1, Little).PutScalar(h.headerSize, 1, Little)
    .PutScalar(h.payloadEndian, 1, Little).PutScalar(h.headerFlags, 1, Little)
    .PutScalar(h.serviceId, 2, Little).PutScalar(h.messageType, 2, Little)
  }

  function PutRest(s: WriteState, h: MessageHeaderV1): WriteState {
    s.PutScalar(h.transactionId, 4, Little).PutScalar(h.payloadSize, 4, Little).PutScalar(h.flags, 4, Little)
    .PutScalar(h.headerCrc, 2, Little).PutScalar(h.payloadCrc, 2, Little)
  }

  lemma ByteAlone(b: byte)
    ensures LittleBytes(b, 1) == [b]
  {
    assert LittleBytes(b, 1) == [b % 256] + LittleBytes(b / 256, 0);
  }

  lemma PutStartBytes(s: WriteState, h: MessageHeaderV1)
    requires s.Ok() && s.capacity - |s.out| >= HEADER_SIZE
    ensures PutStart(s, h) == s.(out := s.out + Start(h))
  {
    ByteAlone(h.version);
    ByteAlone(h.headerSize);
    ByteAlone(h.payloadEndian);
    ByteAlone(h.headerFlags);
    hide LittleBytes;
    var out := s.out + LittleBytes(h.magic, 4) + [h.version] + [h.headerSize] + [h.payloadEndian] + [h.headerFlags]
               + LittleBytes(h.serviceId, 2) + LittleBytes(h.messageType, 2);
    assert PutStart(s, h) == s.(out := out);
    assert out == s.out + Start(h);
  }

  lemma PutHeaderBytes(s: WriteState, h: MessageHeaderV1)
    requires s.Ok() && s.capacity - |s.out| >= HEADER_SIZE
    ensures PutRest(PutStart(s, h), h) == s.(out := s.out + HeaderBytes(h))
  {
    PutStartBytes(s, h);
    hide LittleBytes, PutStart, Start;
    var t := s.(out := s.out + Start(h));
    var out := t.out + LittleBytes(h.transactionId, 4) + LittleBytes(h.payloadSize, 4) + LittleBytes(h.flags, 4)
               + LittleBytes(h.headerCrc, 2) + LittleBytes(h.payloadCrc, 2);
    assert PutRest(t, h) == s.(out := out);
    assert out == s.out + HeaderBytes(h);
  }

  method WriteHeaderStart(writer: BinaryWriteStream, h: MessageHeaderV1)
    requires writer.Valid() && writer.wire == Little
    modifies writer`pos, writer`error, writer.buffer
    ensures writer.Valid() && writer.View() == PutStart(old(writer.View()), h)
  {
    hide WriteState.PutScalar, BinaryWriteStream.View, BinaryWriteStream.Valid;
    writer.WriteScalar(h.magic, 4);
    writer.WriteScalar(h.version, 1);
    writer.WriteScalar(h.headerSize, 1);
    writer.WriteScalar(h.payloadEndian, 1);
    writer.WriteScalar(h.headerFlags, 1);
    writer.WriteScalar(h.serviceId, 2);
    writer.WriteScalar(h.messageType, 2);
  }

  method WriteHeaderV1(writer: BinaryWriteStream, h: MessageHeaderV1)
    requires writer.Valid() && writer.wire == Little
    modifies writer`pos, writer`error, writer.buffer
    ensures writer.Valid() && writer.View() == PutRest(PutStart(old(writer.View()), h), h)
    ensures var s := old(writer.View());
            s.Ok() && s.capacity - |s.out| >= HEADER_SIZE ==>
              writer.View() == s.(out := s.out + HeaderBytes(h))
  {
    hide WriteState.PutScalar, PutStart, BinaryWriteStream.View, BinaryWriteStream.Valid;
    ghost var s := writer.View();
    WriteHeaderStart(writer, h);
    writer.WriteScalar(h.transactionId, 4);
    writer.WriteScalar(h.payloadSize, 4);
    writer.WriteScalar(h.flags, 4);
    writer.WriteScalar(h.headerCrc, 2);
    writer.WriteScalar(h.payloadCrc, 2);
    if s.Ok() && s.capacity - |s.out| >= HEADER_SIZE {
      PutHeaderBytes(s, h);
    }
  }

  // A little-endian field of 1, 2 or 4 bytes, as a number of that width.
  function FieldValue(s: seq<byte>): (v: u32)
    requires |s| == 1 || |s| == 2 || |s| == 4
    ensures |s| == 1 ==> v < 0x100
    ensures |s| == 2 ==> v < 0x1_0000
  {
    if |s| == 1 then s[0] else if |s| == 2 then Word(s) else DoubleWord(s)
  }

  function After(s: ReadState, width: nat): ReadState {
    s.GetRaw(width).0
  }

  // The value the field's variable, zero before, has after the read.
  function FieldAt(s: ReadState, width: nat): (v: u32)
    requires width == 1 || width == 2 || width == 4
    ensures width == 1 ==> v < 0x100
    ensures width == 2 ==> v < 0x1_0000
  {
    var got := s.GetRaw(width).1;
    if got.Some? then FieldValue(got.value) else 0
  }

  method ReadField(reader: BinaryReadStream, width: nat) returns (value: u32)
    requires width == 1 || width == 2 || width == 4
    requires reader.Valid() && reader.wire == Little
    modifies reader`pos, reader`error
    ensures reader.Valid()
    ensures reader.View() == After(old(reader.View()), width)
    ensures value == FieldAt(old(reader.View()), width)
  {
    ghost var got := reader.View().GetRaw(width).1;
    var v := reader.ReadScalar(width, 0);
    if got.Some? {
      FieldBounds(got.value);
    }
    value := v;
  }

  lemma FieldBounds(s: seq<byte>)
    requires |s| == 1 || |s| == 2 || |s| == 4
    ensures LittleValue(s) == FieldValue(s)
  {
    if |s| == 1 {
      assert LittleValue(s) == s[0] + 256 * LittleValue(s[1..]);
    } else if |s| == 2 {
      WordValue(s);
    } else {
      DoubleWordValue(s);
    }
  }

  // The header a sequence of field reads yields, and where it leaves the stream.
  function HeaderAt(s: ReadState): MessageHeaderV1 {
    var s4 := After(s, 4);
    var s5 := After(s4, 1);
    var s6 := After(s5, 1);
    var s7 := After(s6, 1);
    var s8 := After(s7, 1);
    var s10 := After(s8, 2);
    var s12 := After(s10, 2);
    var s16 := After(s12, 4);
    var s20 := After(s16, 4);
    var s24 := After(s20, 4);
    var s26 := After(s24, 2);
    MessageHeaderV1(FieldAt(s, 4), FieldAt(s4, 1), FieldAt(s5, 1), FieldAt(s6, 1), FieldAt(s7, 1),
                    FieldAt(s8, 2), FieldAt(s10, 2), FieldAt(s12, 4), FieldAt(s16, 4), FieldAt(s20, 4),
                    FieldAt(s24, 2), FieldAt(s26, 2))
  }

  function AfterHeader(s: ReadState): ReadState {
    var s8 := After(After(After(After(After(s, 4), 1), 1), 1), 1);
    After(After(After(After(After(After(After(s8, 2), 2), 4), 4), 4), 2), 2)
  }

  lemma HeaderFieldsInPlace(data: seq<byte>, pos: nat)
    requires pos + HEADER_SIZE <= |data|
    ensures var s := ReadState(data, pos, NoError);
            HeaderAt(s) == DecodeHeader(data[pos..pos + HEADER_SIZE])
            && AfterHeader(s) == s.(pos := pos + HEADER_SIZE)
  {
    hide Word, DoubleWord;
    var s := data[pos..pos + HEADER_SIZE];
    assert s[0..4] == data[pos..pos + 4] && s[8..10] == data[pos + 8..pos + 10];
    assert s[10..12] == data[pos + 10..pos + 12] && s[12..16] == data[pos + 12..pos + 16];
    assert s[16..20] == data[pos + 16..pos + 20] && s[20..24] == data[pos + 20..pos + 24];
    assert s[24..26] == data[pos + 24..pos + 26] && s[26..28] == data[pos + 26..pos + 28];
  }

  // Reads the fields one by one; if the view is long enough they are the header its bytes decode to.
  method ReadHeaderV1(reader: BinaryReadStream) returns (h: MessageHeaderV1)
    requires reader.Valid() && reader.wire == Little
    modifies reader`pos, reader`error
    ensures reader.Valid()
    ensures h == HeaderAt(old(reader.View())) && reader.View() == AfterHeader(old(reader.View()))
    ensures var s := old(reader.View());
            s.Ok() && s.Has(HEADER_SIZE) ==>
              && reader.View() == s.(pos := s.pos + HEADER_SIZE)
              && h == DecodeHeader(s.data[s.pos..s.pos + HEADER_SIZE])
  {
    hide After, FieldAt, BinaryReadStream.View, BinaryReadStream.Valid, DecodeHeader;
    ghost var s := reader.View();
    var magic := ReadField(reader, 4);
    var version := ReadField(reader, 1);
    var headerSize := ReadField(reader, 1);
    var payloadEndian := ReadField(reader, 1);
    var headerFlags := ReadField(reader, 1);
    var serviceId := ReadField(reader, 2);
    var messageType := ReadField(reader, 2);
    var transactionId := ReadField(reader, 4);
    var payloadSize := ReadField(reader, 4);
    var flags := ReadField(reader, 4);
    var headerCrc := ReadField(reader, 2);
    var payloadCrc := ReadField(reader, 2);
    h := MessageHeaderV1(magic, version, headerSize, payloadEndian, headerFlags, serviceId, messageType,
                         transactionId, payloadSize, flags, headerCrc, payloadCrc);
    if s.Ok() && s.Has(HEADER_SIZE) {
      HeaderFieldsInPlace(s.data, s.pos);
    }
  }

  method ComputeHeaderCrc(h: MessageHeaderV1, host: Endianness) returns (crc: u16)
    ensures crc == HeaderCrc(h)
  {
    hide Crc, HeaderBytes;
    var wireBytes := new byte[HEADER_SIZE](_ => 0);
    var writer := new BinaryWriteStream(MutableByteView(wireBytes, 0, HEADER_SIZE), host, Little, MAX_SIZE);
    WriteHeaderV1(writer, h.(headerCrc := 0));
    assert wireBytes[..] == writer.View().out;
    crc := Crc16CcittFalse(wireBytes[..]);
  }

  method FinalizeCrcs(h: MessageHeaderV1, payload: seq<byte>, host: Endianness) returns (f: MessageHeaderV1)
    requires |payload| < 0x1_0000_0000
    ensures f == Finalized(h, payload)
  {
    hide Crc, HeaderBytes;
    f := h.(headerSize := 28, payloadSize := |payload|);
    var crc := Crc16CcittFalse(payload);
    f := f.(payloadCrc := crc);
    crc := ComputeHeaderCrc(f, host);
    f := f.(headerCrc := crc);
  }

  method ValidateHeaderV1(h: MessageHeaderV1, host: Endianness) returns (ok: bool)
    ensures ok == ValidHeader(h)
  {
    hide Crc, HeaderBytes;
    if h.magic != MAGIC { return false; }
    if h.version != VERSION { return false; }
    if h.headerSize != 28 { return false; }
    if h.payloadEndian != 0 && h.payloadEndian != 1 { return false; }
    if h.headerFlags != 0 { return false; }
    if h.flags / 2 != 0 { return false; }
    var crc := ComputeHeaderCrc(h, host);
    return crc == h.headerCrc;
  }

  method WriteFinalized(destination: MutableByteView, f: MessageHeaderV1, payload: seq<byte>, host: Endianness)
    requires destination.Valid() && HEADER_SIZE + |payload| <= destination.size
    modifies destination.data
    ensures destination.data[..]
         == Spliced(old(destination.data[..]), destination.offset, HeaderBytes(f) + payload)
  {
    hide HeaderBytes, PutStart, PutRest, Spliced, BinaryWriteStream.View, BinaryWriteStream.Valid, WriteState.PutRaw;
    var writer := new BinaryWriteStream(destination, host, Little, MAX_SIZE);
    WriteHeaderV1(writer, f);
    writer.WriteRawBytes(payload);
    FrameBehindNothing(destination.size, HeaderBytes(f), payload);
    writer.BufferSpliced();
  }

  lemma FrameBehindNothing(capacity: nat, header: seq<byte>, payload: seq<byte>)
    requires |header| + |payload| <= capacity
    ensures var s := WriteState([], capacity, NoError);
            s.(out := s.out + header).PutRaw(payload) == s.(out := header + payload)
  {
    assert [] + header == header;
  }

  // On success the frame fills the front of the destination and nothing else of the buffer changes;
  // otherwise the buffer does not change at all. On a 64-bit target the second size check of the
  // original is implied by the first.
  method WriteFrameV1(destination: MutableByteView, h: MessageHeaderV1, payload: seq<byte>, host: Endianness)
    returns (status: FrameStatus, bytesWritten: nat)
    requires destination.Valid()
    modifies destination.data
    ensures status == if |payload| > 0xFFFF_FFFF then PayloadTooLarge
                      else if destination.size < HEADER_SIZE + |payload| then OutputTooSmall
                      else FrameOk
    ensures status != FrameOk ==> bytesWritten == 0 && destination.data[..] == old(destination.data[..])
    ensures status == FrameOk ==>
              && bytesWritten == HEADER_SIZE + |payload|
              && destination.data[..]
                 == Spliced(old(destination.data[..]), destination.offset, FrameBytes(h, payload))
  {
    bytesWritten := 0;
    if |payload| > 0xFFFF_FFFF {
      return PayloadTooLarge, 0;
    }
    var required := HEADER_SIZE + |payload|;
    if destination.size < required {
      return OutputTooSmall, 0;
    }
    hide Crc, HeaderBytes, Finalized, Spliced;
    var f := FinalizeCrcs(h, payload, host);
    WriteFinalized(destination, f, payload, host);
    return FrameOk, required;
  }

  method ReadFrameV1(frame: seq<byte>, host: Endianness)
    returns (status: FrameStatus, h: MessageHeaderV1, payload: seq<byte>)
    ensures match ReadFrame(frame)
            case Frame(header, body) => status == FrameOk && h == header && payload == body
            case Rejected(reason) => status == reason && status != FrameOk && payload == []
  {
    hide Crc, HeaderBytes, DecodeHeader, ValidHeader;
    h, payload := DEFAULT_HEADER, [];
    if |frame| < HEADER_SIZE {
      return FrameTooSmall, h, [];
    }
    var reader := new BinaryReadStream(frame[..HEADER_SIZE], host, Little, MAX_SIZE);
    assert reader.View().Has(HEADER_SIZE);
    h := ReadHeaderV1(reader);
    assert frame[..HEADER_SIZE][0..HEADER_SIZE] == frame[..HEADER_SIZE];
    var ok := ValidateHeaderV1(h, host);
    if !ok {
      return InvalidHeader, h, [];
    }
    if |frame| != HEADER_SIZE + h.payloadSize {
      return InvalidFrameSize, h, [];
    }
    payload := frame[HEADER_SIZE..];
    var crc := Crc16CcittFalse(payload);
    if crc != h.payloadCrc {
      return InvalidPayloadCrc, h, [];
    }
    return FrameOk, h, payload;
  }
}
