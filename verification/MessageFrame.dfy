// Version 1 BDS frames: a 28-byte little-endian header with its own checksum, then the payload.

module MessageFrame {
  import opened Bytes
  import opened Crc16

  const MAGIC: u32 := 0x3153_4442
  const VERSION: byte := 1
  const HEADER_SIZE := 28

  datatype MessageHeaderV1 = MessageHeaderV1(
    magic: u32, version: byte, headerSize: byte, payloadEndian: byte, headerFlags: byte,
    serviceId: u16, messageType: u16, transactionId: u32, payloadSize: u32, flags: u32,
    headerCrc: u16, payloadCrc: u16)

  // A header as the struct's initialisers leave it.
  const DEFAULT_HEADER := MessageHeaderV1(MAGIC, VERSION, 28, 0, 0, 0, 0, 0, 0, 0, 0, 0)

  // ---- the wire form of a header ----

  function Start(h: MessageHeaderV1): (s: seq<byte>)
    ensures |s| == 12
  {
    LittleBytes(h.magic, 4) + [h.version, h.headerSize, h.payloadEndian, h.headerFlags]
    + LittleBytes(h.serviceId, 2) + LittleBytes(h.messageType, 2)
  }

  function Middle(h: MessageHeaderV1): (s: seq<byte>)
    ensures |s| == 12
  {
    LittleBytes(h.transactionId, 4) + LittleBytes(h.payloadSize, 4) + LittleBytes(h.flags, 4)
  }

  function HeaderBytes(h: MessageHeaderV1): (s: seq<byte>)
    ensures |s| == HEADER_SIZE
  {
    Start(h) + Middle(h) + LittleBytes(h.headerCrc, 2) + LittleBytes(h.payloadCrc, 2)
  }

  function Word(s: seq<byte>): (v: u16)
    requires |s| == 2
  {
    s[0] + 0x100 * s[1] as int
  }

  function DoubleWord(s: seq<byte>): (v: u32)
    requires |s| == 4
  {
    Word(s[..2]) + 0x1_0000 * Word(s[2..]) as int
  }

  function DecodeHeader(s: seq<byte>): MessageHeaderV1
    requires |s| == HEADER_SIZE
  {
    MessageHeaderV1(
      DoubleWord(s[0..4]), s[4], s[5], s[6], s[7], Word(s[8..10]), Word(s[10..12]),
      DoubleWord(s[12..16]), DoubleWord(s[16..20]), DoubleWord(s[20..24]),
      Word(s[24..26]), Word(s[26..28]))
  }

  lemma WordBytes(v: u16)
    ensures LittleBytes(v, 2) == [v % 0x100, v / 0x100]
    ensures Word(LittleBytes(v, 2)) == v
    ensures LittleValue(LittleBytes(v, 2)) == v
  {
    assert LittleBytes(v, 2) == [v % 0x100] + LittleBytes(v / 0x100, 1);
    assert LittleBytes(v / 0x100, 1) == [v / 0x100 % 0x100];
    assert Pow256(2) == 0x1_0000;
    LittleRoundTrip(v, 2);
  }

  lemma WordValue(s: seq<byte>)
    requires |s| == 2
    ensures LittleBytes(Word(s), 2) == s && LittleValue(s) == Word(s)
  {
    WordBytes(Word(s));
    assert LittleValue(s[1..]) == s[1] + 256 * LittleValue(s[1..][1..]);
  }

  lemma DoubleWordBytes(v: u32)
    ensures |LittleBytes(v, 4)| == 4
    ensures DoubleWord(LittleBytes(v, 4)) == v
  {
    var low, high := v % 0x1_0000, v / 0x1_0000;
    assert LittleBytes(v, 4) == LittleBytes(low, 2) + LittleBytes(high, 2) by {
      WordBytes(low);
      WordBytes(high);
      assert LittleBytes(v / 0x100, 3) == [v / 0x100 % 0x100] + LittleBytes(high, 2);
    }
    WordBytes(low);
    WordBytes(high);
    assert LittleBytes(v, 4)[..2] == LittleBytes(low, 2) && LittleBytes(v, 4)[2..] == LittleBytes(high, 2);
  }

  lemma DoubleWordValue(s: seq<byte>)
    requires |s| == 4
    ensures LittleBytes(DoubleWord(s), 4) == s && LittleValue(s) == DoubleWord(s)
  {
    var v := DoubleWord(s);
    DoubleWordBytes(v);
    LittleSurjective(s);
    WordValue(s[..2]);
    WordValue(s[2..]);
    LittleValueSplit(s);
  }

  lemma LittleValueSplit(s: seq<byte>)
    requires |s| == 4
    ensures LittleValue(s) == LittleValue(s[..2]) + 0x1_0000 * LittleValue(s[2..])
  {
    assert LittleValue(s) == s[0] + 256 * LittleValue(s[1..]);
    assert s[1..][1..] == s[2..] && LittleValue(s[1..]) == s[1] + 256 * LittleValue(s[2..]);
    assert LittleValue(s[..2]) == s[0] + 256 * LittleValue(s[..2][1..]);
    assert s[..2][1..] == [s[1]];
    assert LittleValue([s[1]]) == s[1] + 256 * LittleValue([]);
  }

  lemma HeaderParts(h: MessageHeaderV1)
    ensures var s := HeaderBytes(h);
            && s[0..4] == LittleBytes(h.magic, 4)
            && s[4] == h.version && s[5] == h.headerSize && s[6] == h.payloadEndian && s[7] == h.headerFlags
            && s[8..10] == LittleBytes(h.serviceId, 2) && s[10..12] == LittleBytes(h.messageType, 2)
            && s[12..16] == LittleBytes(h.transactionId, 4) && s[16..20] == LittleBytes(h.payloadSize, 4)
            && s[20..24] == LittleBytes(h.flags, 4)
            && s[24..26] == LittleBytes(h.headerCrc, 2) && s[26..28] == LittleBytes(h.payloadCrc, 2)
  {
    hide LittleBytes;
    var s := HeaderBytes(h);
    assert s[..12] == Start(h) && s[12..24] == Middle(h);
    StartParts(h);
    MiddleParts(h);
    assert s[0..4] == s[..12][0..4] && s[8..10] == s[..12][8..10] && s[10..12] == s[..12][10..12];
    assert s[12..16] == s[12..24][0..4] && s[16..20] == s[12..24][4..8] && s[20..24] == s[12..24][8..12];
  }

  lemma StartParts(h: MessageHeaderV1)
    ensures var s := Start(h);
            && s[0..4] == LittleBytes(h.magic, 4)
            && s[4] == h.version && s[5] == h.headerSize && s[6] == h.payloadEndian && s[7] == h.headerFlags
            && s[8..10] == LittleBytes(h.serviceId, 2) && s[10..12] == LittleBytes(h.messageType, 2)
  {
  }

  lemma MiddleParts(h: MessageHeaderV1)
    ensures var s := Middle(h);
            && s[0..4] == LittleBytes(h.transactionId, 4) && s[4..8] == LittleBytes(h.payloadSize, 4)
            && s[8..12] == LittleBytes(h.flags, 4)
  {
  }

  lemma HeaderRoundTrip(h: MessageHeaderV1)
    ensures DecodeHeader(HeaderBytes(h)) == h
  {
    hide LittleBytes, Word, DoubleWord, HeaderBytes;
    HeaderParts(h);
    DoubleWordBytes(h.magic);
    WordBytes(h.serviceId);
    WordBytes(h.messageType);
    DoubleWordBytes(h.transactionId);
    DoubleWordBytes(h.payloadSize);
    DoubleWordBytes(h.flags);
    WordBytes(h.headerCrc);
    WordBytes(h.payloadCrc);
  }

  lemma HeaderSurjective(s: seq<byte>)
    requires |s| == HEADER_SIZE
    ensures HeaderBytes(DecodeHeader(s)) == s
  {
    hide LittleBytes, Word, DoubleWord;
    var h := DecodeHeader(s);
    DoubleWordValue(s[0..4]);
    WordValue(s[8..10]);
    WordValue(s[10..12]);
    DoubleWordValue(s[12..16]);
    DoubleWordValue(s[16..20]);
    DoubleWordValue(s[20..24]);
    WordValue(s[24..26]);
    WordValue(s[26..28]);
    assert Start(h) == s[..12];
    assert Middle(h) == s[12..24];
    assert s == s[..12] + s[12..24] + s[24..26] + s[26..28];
  }

  // ---- checksums and validation ----

  function HeaderCrc(h: MessageHeaderV1): u16 {
    Crc(HeaderBytes(h.(headerCrc := 0)))
  }

  function Finalized(h: MessageHeaderV1, payload: seq<byte>): MessageHeaderV1
    requires |payload| < 0x1_0000_0000
  {
    var sealed := h.(headerSize := 28, payloadSize := |payload|, payloadCrc := Crc(payload));
    sealed.(headerCrc := HeaderCrc(sealed))
  }

  function FrameBytes(h: MessageHeaderV1, payload: seq<byte>): (s: seq<byte>)
    requires |payload| < 0x1_0000_0000
    ensures |s| == HEADER_SIZE + |payload|
  {
    HeaderBytes(Finalized(h, payload)) + payload
  }

  // The fields a sender chooses are acceptable. Only bit 0 of the flags is assigned.
  predicate Acceptable(h: MessageHeaderV1) {
    && h.magic == MAGIC
    && h.version == VERSION
    && h.payloadEndian <= 1
    && h.headerFlags == 0
    && h.flags <= 1
  }

  predicate ValidHeader(h: MessageHeaderV1) {
    Acceptable(h) && h.headerSize == 28 && HeaderCrc(h) == h.headerCrc
  }

  datatype FrameStatus =
    FrameOk | OutputTooSmall | PayloadTooLarge | FrameTooSmall | InvalidHeader | InvalidFrameSize | InvalidPayloadCrc

  datatype ReadResult = Frame(header: MessageHeaderV1, payload: seq<byte>) | Rejected(status: FrameStatus)

  function ReadFrame(frame: seq<byte>): ReadResult {
    if |frame| < HEADER_SIZE then Rejected(FrameTooSmall)
    else
      var h := DecodeHeader(frame[..HEADER_SIZE]);
      if !ValidHeader(h) then Rejected(InvalidHeader)
      else if |frame| != HEADER_SIZE + h.payloadSize then Rejected(InvalidFrameSize)
      else if Crc(frame[HEADER_SIZE..]) != h.payloadCrc then Rejected(InvalidPayloadCrc)
      else Frame(h, frame[HEADER_SIZE..])
  }

  // ---- a frame comes back exactly when its sender's fields are acceptable ----

  lemma FrameRoundTrip(h: MessageHeaderV1, payload: seq<byte>)
    requires |payload| < 0x1_0000_0000
    ensures ReadFrame(FrameBytes(h, payload))
         == if Acceptable(h) then Frame(Finalized(h, payload), payload) else Rejected(InvalidHeader)
  {
    hide HeaderBytes, DecodeHeader, Crc;
    var f := Finalized(h, payload);
    var frame := FrameBytes(h, payload);
    assert frame[..HEADER_SIZE] == HeaderBytes(f) && frame[HEADER_SIZE..] == payload;
    HeaderRoundTrip(f);
    var sealed := h.(headerSize := 28, payloadSize := |payload|, payloadCrc := Crc(payload));
    assert f.(headerCrc := 0) == sealed.(headerCrc := 0);
  }

  // ---- a change inside two adjacent bytes is always noticed ----

  // The header with its checksum field cleared, which is what the checksum covers.
  function Cleared(s: seq<byte>): (t: seq<byte>)
    requires |s| == HEADER_SIZE
    ensures |t| == HEADER_SIZE
    ensures forall k :: 0 <= k < HEADER_SIZE ==> t[k] == if 24 <= k < 26 then 0 else s[k]
  {
    s[..24] + [0, 0] + s[26..]
  }

  // What acceptance says about the header's bytes.
  ghost predicate Sealed(s: seq<byte>) {
    && |s| == HEADER_SIZE
    && Crc(Cleared(s)) == Word(s[24..26])
    && s[21] == 0 && s[22] == 0 && s[23] == 0
  }

  lemma ValidBytes(s: seq<byte>)
    requires |s| == HEADER_SIZE && ValidHeader(DecodeHeader(s))
    ensures Sealed(s)
  {
    hide Crc, LittleBytes, HeaderBytes;
    var h := DecodeHeader(s);
    HeaderSurjective(s);
    HeaderParts(h);
    HeaderParts(h.(headerCrc := 0));
    assert HeaderBytes(h.(headerCrc := 0)) == Cleared(s) by {
      WordBytes(0);
      SameOutside(h);
    }
    FlagBytes(s[20..24]);
  }

  lemma FlagBytes(s: seq<byte>)
    requires |s| == 4 && DoubleWord(s) <= 1
    ensures s[1] == 0 && s[2] == 0 && s[3] == 0
  {
  }

  lemma SameOutside(h: MessageHeaderV1)
    ensures HeaderBytes(h.(headerCrc := 0))[..24] == HeaderBytes(h)[..24]
    ensures HeaderBytes(h.(headerCrc := 0))[26..] == HeaderBytes(h)[26..]
  {
    hide LittleBytes;
    var z := h.(headerCrc := 0);
    assert Start(z) == Start(h) && Middle(z) == Middle(h);
    assert HeaderBytes(h)[..24] == Start(h) + Middle(h) == HeaderBytes(z)[..24];
    assert HeaderBytes(h)[26..] == LittleBytes(h.payloadCrc, 2) == HeaderBytes(z)[26..];
  }

  lemma WordInjective(s: seq<byte>, t: seq<byte>)
    requires |s| == |t| == 2 && Word(s) == Word(t)
    ensures s == t
  {
  }

  // Two valid headers that differ only inside two adjacent bytes, and agree on the payload's
  // checksum or keep their own, are the same header.
  lemma HeaderPairDetected(s: seq<byte>, t: seq<byte>, i: int)
    requires |s| == |t| == HEADER_SIZE
    requires ValidHeader(DecodeHeader(s)) && ValidHeader(DecodeHeader(t))
    requires AgreeOutsidePair(s, t, i)
    requires s[26..28] == t[26..28] || s[24..26] == t[24..26]
    ensures s == t
  {
    hide Crc, DecodeHeader;
    ValidBytes(s);
    ValidBytes(t);
    if s[26..28] == t[26..28] && 23 <= i {
      // Everything outside the checksum field agrees.
      assert Cleared(s) == Cleared(t) by {
        assert s[26] == s[26..28][0] && s[27] == s[26..28][1];
        assert t[26] == t[26..28][0] && t[27] == t[26..28][1];
      }
      WordInjective(s[24..26], t[24..26]);
    } else {
      assert s[24..26] == t[24..26];
      PairDetected(Cleared(s), Cleared(t), i);
    }
    forall k | 0 <= k < HEADER_SIZE ensures s[k] == t[k] {
      assert k == 24 ==> s[k] == s[24..26][0] && t[k] == t[24..26][0];
      assert k == 25 ==> s[k] == s[24..26][1] && t[k] == t[24..26][1];
      assert !(24 <= k < 26) ==> Cleared(s)[k] == Cleared(t)[k];
    }
  }

  // Two accepted frames of the same length that differ only inside two adjacent bytes are the same
  // frame: every such change to a frame that was accepted makes it rejected.
  lemma FramePairDetected(f: seq<byte>, g: seq<byte>, i: int)
    requires ReadFrame(f).Frame? && ReadFrame(g).Frame?
    requires AgreeOutsidePair(f, g, i)
    ensures f == g
  {
    hide Crc, DecodeHeader, ValidHeader;
    var s, t := f[..HEADER_SIZE], g[..HEADER_SIZE];
    var p, q := f[HEADER_SIZE..], g[HEADER_SIZE..];
    assert AgreeOutsidePair(s, t, i) && AgreeOutsidePair(p, q, i - HEADER_SIZE);
    PayloadCrcBytes(s);
    PayloadCrcBytes(t);
    if i + 1 < HEADER_SIZE {
      assert p == q;
      WordInjective(s[26..28], t[26..28]);
    } else {
      assert s[24..26] == t[24..26];
    }
    HeaderPairDetected(s, t, i);
    PairDetected(p, q, i - HEADER_SIZE);
    assert f == s + p && g == t + q;
  }

  lemma PayloadCrcBytes(s: seq<byte>)
    requires |s| == HEADER_SIZE
    ensures DecodeHeader(s).payloadCrc == Word(s[26..28])
  {
  }
}
