// Frames byte by byte: which byte strings are read as a frame, with which fields, and where a writer
// puts each of them.

module FrameLayout {
  import opened Bytes
  import opened Crc16
  import opened MessageFrame

  // The 16-bit and the 32-bit number at a place, least significant byte first.
  function WordAt(f: seq<byte>, i: nat): nat
    requires i + 2 <= |f|
  {
    f[i] + 0x100 * f[i + 1] as int
  }

  function DoubleWordAt(f: seq<byte>, i: nat): nat
    requires i + 4 <= |f|
  {
    f[i] + 0x100 * f[i + 1] as int + 0x1_0000 * f[i + 2] as int + 0x100_0000 * f[i + 3] as int
  }

  // "BDS1", version 1, header size 28, either payload order, no header flag, no flag but bit 0, and the
  // checksum of the other 26 bytes, its own two read as zero.
  predicate HeaderFits(f: seq<byte>)
    requires |f| >= 28
  {
    && f[0] == 0x42 && f[1] == 0x44 && f[2] == 0x53 && f[3] == 0x31
    && f[4] == 1 && f[5] == 28 && f[6] <= 1 && f[7] == 0
    && f[20] <= 1 && f[21] == 0 && f[22] == 0 && f[23] == 0
    && WordAt(f, 24) == Crc(f[..24] + [0, 0] + f[26..28])
  }

  lemma FieldsAt(s: seq<byte>)
    requires |s| == 28
    ensures var h := DecodeHeader(s);
            && h.magic == DoubleWordAt(s, 0)
            && h.version == s[4] && h.headerSize == s[5] && h.payloadEndian == s[6] && h.headerFlags == s[7]
            && h.serviceId == WordAt(s, 8) && h.messageType == WordAt(s, 10)
            && h.transactionId == DoubleWordAt(s, 12) && h.payloadSize == DoubleWordAt(s, 16)
            && h.flags == DoubleWordAt(s, 20)
            && h.headerCrc == WordAt(s, 24) && h.payloadCrc == WordAt(s, 26)
  {
    DoubleWordOf(s, 0);
    DoubleWordOf(s, 12);
    DoubleWordOf(s, 16);
    DoubleWordOf(s, 20);
    hide DoubleWord, DoubleWordAt;
  }

  lemma DoubleWordOf(s: seq<byte>, i: nat)
    requires i + 4 <= |s|
    ensures DoubleWord(s[i..i + 4]) == DoubleWordAt(s, i)
  {
    var t := s[i..i + 4];
    assert t[..2] == [s[i], s[i + 1]] && t[2..] == [s[i + 2], s[i + 3]];
  }

  lemma CoveredBytes(s: seq<byte>)
    requires |s| == 28
    ensures HeaderBytes(DecodeHeader(s).(headerCrc := 0)) == s[..24] + [0, 0] + s[26..28]
  {
    hide Word, DoubleWord, HeaderBytes, Crc;
    var h, t := DecodeHeader(s), s[..24] + [0, 0] + s[26..28];
    assert t[0..4] == s[0..4] && t[8..10] == s[8..10] && t[10..12] == s[10..12] && t[12..16] == s[12..16];
    assert t[16..20] == s[16..20] && t[20..24] == s[20..24] && t[26..28] == s[26..28];
    assert Word(t[24..26]) == 0 by { ZeroWord(t[24..26]); }
    assert DecodeHeader(t) == h.(headerCrc := 0);
    HeaderSurjective(t);
  }

  lemma ZeroWord(s: seq<byte>)
    requires s == [0, 0]
    ensures Word(s) == 0
  {
  }

  lemma FitsIsValid(s: seq<byte>)
    requires |s| == 28
    ensures ValidHeader(DecodeHeader(s)) <==> HeaderFits(s)
  {
    hide DecodeHeader, Crc, HeaderBytes;
    FieldsAt(s);
    CoveredBytes(s);
    assert s[..24] + [0, 0] + s[26..28] == s[..24] + [0, 0] + s[26..28];
  }

  lemma FrontOnly(f: seq<byte>)
    requires |f| >= 28
    ensures HeaderFits(f[..28]) <==> HeaderFits(f)
  {
    hide Crc;
    assert f[..28][..24] == f[..24] && f[..28][26..28] == f[26..28];
  }

  // Every byte string is read as a frame, with these fields, or refused for the first of these reasons.
  lemma ReadExactly(f: seq<byte>)
    ensures var r := ReadFrame(f);
            if |f| < 28 then r == Rejected(FrameTooSmall)
            else if !HeaderFits(f) then r == Rejected(InvalidHeader)
            else if |f| != 28 + DoubleWordAt(f, 16) then r == Rejected(InvalidFrameSize)
            else if WordAt(f, 26) != Crc(f[28..]) then r == Rejected(InvalidPayloadCrc)
            else
              && r.Frame? && r.payload == f[28..]
              && r.header.serviceId == WordAt(f, 8) && r.header.messageType == WordAt(f, 10)
              && r.header.transactionId == DoubleWordAt(f, 12)
              && r.header.payloadEndian == f[6] && r.header.flags == f[20]
  {
    hide DecodeHeader, Crc, HeaderBytes, ValidHeader, HeaderFits;
    if |f| >= 28 {
      FieldsAt(f[..28]);
      FitsIsValid(f[..28]);
      FrontOnly(f);
      if HeaderFits(f) { FrontFlags(f); }
    }
  }

  lemma FrontFlags(f: seq<byte>)
    requires |f| >= 28 && HeaderFits(f)
    ensures DoubleWordAt(f[..28], 20) == f[20]
  {
    hide Crc;
  }

  // So a frame is read exactly if its first 28 bytes fit, its length is theirs, and its payload's
  // checksum is right.
  predicate IsFrame(f: seq<byte>) {
    |f| >= 28 && HeaderFits(f) && |f| == 28 + DoubleWordAt(f, 16) && WordAt(f, 26) == Crc(f[28..])
  }

  lemma IsFrameExactly(f: seq<byte>)
    ensures ReadFrame(f).Frame? <==> IsFrame(f)
  {
    ReadExactly(f);
    hide ReadFrame, HeaderFits, Crc;
  }

  // Where a finished frame has what: the sender's fields, the size of the payload, both checksums, the
  // payload.
  lemma WrittenExactly(h: MessageHeaderV1, payload: seq<byte>)
    requires |payload| < 0x1_0000_0000
    ensures var f := FrameBytes(h, payload);
            && |f| == 28 + |payload| && f[28..] == payload
            && DoubleWordAt(f, 0) == h.magic
            && f[4] == h.version && f[5] == 28 && f[6] == h.payloadEndian && f[7] == h.headerFlags
            && WordAt(f, 8) == h.serviceId && WordAt(f, 10) == h.messageType
            && DoubleWordAt(f, 12) == h.transactionId && DoubleWordAt(f, 16) == |payload|
            && DoubleWordAt(f, 20) == h.flags
            && WordAt(f, 24) == Crc(f[..24] + [0, 0] + f[26..28]) && WordAt(f, 26) == Crc(payload)
  {
    hide HeaderBytes, Crc, DecodeHeader;
    var f, z := FrameBytes(h, payload), Finalized(h, payload);
    var s := HeaderBytes(z);
    assert f[..28] == s && f[28..] == payload;
    HeaderRoundTrip(z);
    FieldsAt(s);
    CoveredBytes(s);
    assert f[..24] == s[..24] && f[26..28] == s[26..28];
    assert z.(headerCrc := 0)
        == h.(headerSize := 28, payloadSize := |payload|, payloadCrc := Crc(payload), headerCrc := 0);
    SealedCrc(h, payload);
  }

  lemma SealedCrc(h: MessageHeaderV1, payload: seq<byte>)
    requires |payload| < 0x1_0000_0000
    ensures var z := Finalized(h, payload); z.headerCrc == Crc(HeaderBytes(z.(headerCrc := 0)))
  {
    hide HeaderBytes, Crc;
  }
}
