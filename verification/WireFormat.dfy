// The typed field streams as functions on values: what every primitive does to the bytes written so
// far, or to the position read up to, and to the latched error.

module WireFormat {
  import opened Bytes

  datatype StreamError = NoError | BufferOverflow | BufferUnderflow | SizeLimitExceeded | InvalidData

  const MAX_SIZE: u32 := 0xFF_FFFF

  // Sizes up to 254 take one byte; larger ones an 0xFF and three bytes, most significant first.
  function SizeBytes(n: nat): (s: seq<byte>)
    requires n <= MAX_SIZE
  {
    if n <= 254 then [n] else [0xFF, n / 0x1_0000, n / 0x100 % 0x100, n % 0x100]
  }

  // The two's complement bit pattern of a value of the signed type.
  function ToUnsigned(v: int, width: nat): nat {
    if v >= 0 then v else if v + Pow256(width) >= 0 then v + Pow256(width) else 0
  }

  function ToSigned(u: nat, width: nat): int {
    if 2 * u < Pow256(width) then u else u - Pow256(width)
  }

  datatype Field =
    | Scalar(width: nat, value: nat)
    | Signed(width: nat, signed: int)
    | Flag(on: bool)
    | Size(size: nat)
    | Raw(bytes: seq<byte>)
    | Text(text: seq<byte>)
  {
    // The value fits the C++ type that carries it.
    ghost predicate Fits() {
      match this
      case Scalar(width, value) => value < Pow256(width)
      case Signed(width, v) => 0 <= 2 * v + Pow256(width) < 2 * Pow256(width)
      case Size(n) => n < 0x1_0000_0000
      case Raw(bytes) => |bytes| < 0x1_0000_0000
      case _ => true
    }
  }

  datatype Kind = KScalar(width: nat) | KSigned(width: nat) | KFlag | KSize | KRaw(length: nat) | KText

  function KindOf(f: Field): Kind {
    match f
    case Scalar(width, _) => KScalar(width)
    case Signed(width, _) => KSigned(width)
    case Flag(_) => KFlag
    case Size(_) => KSize
    case Raw(bytes) => KRaw(|bytes|)
    case Text(_) => KText
  }

  function KindsOf(fields: seq<Field>): (ks: seq<Kind>)
    ensures |ks| == |fields|
  {
    if fields == [] then [] else [KindOf(fields[0])] + KindsOf(fields[1..])
  }

  // ---- writing ----

  datatype WriteState = WriteState(out: seq<byte>, capacity: nat, error: StreamError) {
    predicate Ok() { error == NoError }

    function PutRaw(bytes: seq<byte>): WriteState {
      if !Ok() then this
      else if capacity - |out| < |bytes| then this.(error := BufferOverflow)
      else this.(out := out + bytes)
    }

    function PutScalar(value: nat, width: nat, wire: Endianness): WriteState {
      PutRaw(WireBytes(value, width, wire))
    }

    function PutSize(n: nat, max: nat): WriteState {
      if !Ok() then this
      else if n > max || n > MAX_SIZE then this.(error := SizeLimitExceeded)
      else PutRaw(SizeBytes(n))
    }

    // The length is narrowed to 32 bits before it is written; the body is not.
    function PutText(text: seq<byte>, max: nat): WriteState {
      PutSize(|text| % 0x1_0000_0000, max).PutRaw(text)
    }

    function Put(f: Field, wire: Endianness, max: nat): WriteState {
      match f
      case Scalar(width, value) => PutScalar(value, width, wire)
      case Signed(width, v) => PutScalar(ToUnsigned(v, width), width, wire)
      case Flag(on) => PutScalar(if on then 1 else 0, 1, wire)
      case Size(n) => PutSize(n, max)
      case Raw(bytes) => PutRaw(bytes)
      case Text(text) => PutText(text, max)
    }

    function PutAll(fields: seq<Field>, wire: Endianness, max: nat): WriteState
      decreases |fields|
    {
      if fields == [] then this else Put(fields[0], wire, max).PutAll(fields[1..], wire, max)
    }
  }

  // ---- reading ----

  datatype ReadState = ReadState(data: seq<byte>, pos: nat, error: StreamError) {
    predicate Ok() { error == NoError }

    predicate Has(n: nat) { pos + n <= |data| }

    function Fail(e: StreamError): ReadState { this.(error := e) }

    // Every read yields the next state and, if it succeeded, the value.
    function GetRaw(n: nat): (r: (ReadState, Option<seq<byte>>))
      ensures r.1.Some? ==> Ok() && Has(n) && r.0 == this.(pos := pos + n) && r.1.value == data[pos..pos + n]
    {
      if !Ok() then (this, None)
      else if !Has(n) then (Fail(BufferUnderflow), None)
      else (this.(pos := pos + n), Some(data[pos..pos + n]))
    }

    function GetScalar(width: nat, wire: Endianness): (ReadState, Option<nat>) {
      match GetRaw(width)
      case (s, Some(bytes)) => (s, Some(WireValue(bytes, wire)))
      case (s, None) => (s, None)
    }

    function GetSize(max: nat): (ReadState, Option<nat>) {
      if !Ok() then (this, None)
      else if !Has(1) then (Fail(BufferUnderflow), None)
      else if data[pos] <= 254 then (this.(pos := pos + 1), Some(data[pos] as nat))
      else if !Has(4) then (Fail(BufferUnderflow), None)
      else
        var b1: nat, b2: nat, b3: nat := data[pos + 1], data[pos + 2], data[pos + 3];
        var n := b1 * 0x1_0000 + b2 * 0x100 + b3;
        if n <= 254 || n > max then (Fail(InvalidData), None) else (this.(pos := pos + 4), Some(n))
    }

    function GetText(max: nat): (ReadState, Option<seq<byte>>) {
      match GetSize(max)
      case (s, Some(n)) => s.GetRaw(n)
      case (s, None) => (s, None)
    }

    function Get(k: Kind, wire: Endianness, max: nat): (ReadState, Option<Field>) {
      match k
      case KScalar(width) =>
        (match GetScalar(width, wire) case (s, Some(v)) => (s, Some(Scalar(width, v))) case (s, None) => (s, None))
      case KSigned(width) =>
        (match GetScalar(width, wire)
         case (s, Some(v)) => (s, Some(Signed(width, ToSigned(v, width))))
         case (s, None) => (s, None))
      case KFlag =>
        (match GetScalar(1, wire) case (s, Some(v)) => (s, Some(Flag(v != 0))) case (s, None) => (s, None))
      case KSize =>
        (match GetSize(max) case (s, Some(n)) => (s, Some(Size(n))) case (s, None) => (s, None))
      case KRaw(n) =>
        (match GetRaw(n) case (s, Some(bytes)) => (s, Some(Raw(bytes))) case (s, None) => (s, None))
      case KText =>
        (match GetText(max) case (s, Some(text)) => (s, Some(Text(text))) case (s, None) => (s, None))
    }

    function GetAll(kinds: seq<Kind>, wire: Endianness, max: nat): (ReadState, seq<Option<Field>>)
      decreases |kinds|
    {
      if kinds == [] then (this, [])
      else
        var (s, f) := Get(kinds[0], wire, max);
        var (t, fs) := s.GetAll(kinds[1..], wire, max);
        (t, [f] + fs)
    }
  }

  function AllRead(fields: seq<Field>): seq<Option<Field>> {
    seq(|fields|, k requires 0 <= k < |fields| => Some(fields[k]))
  }

  // ---- an error stays, and nothing is written after it ----

  lemma {:induction false} WriteErrorLatched(s: WriteState, fields: seq<Field>, wire: Endianness, max: nat)
    requires !s.Ok()
    ensures s.PutAll(fields, wire, max) == s
    decreases |fields|
  {
    if fields != [] {
      assert s.Put(fields[0], wire, max) == s;
      WriteErrorLatched(s, fields[1..], wire, max);
    }
  }

  lemma {:induction false} ReadErrorLatched(s: ReadState, kinds: seq<Kind>, wire: Endianness, max: nat)
    requires !s.Ok()
    ensures s.GetAll(kinds, wire, max) == (s, seq(|kinds|, _ => None))
    decreases |kinds|
  {
    if kinds != [] {
      ReadErrorLatched(s, kinds[1..], wire, max);
      assert s.Get(kinds[0], wire, max) == (s, None);
      var none: seq<Option<Field>> := seq(|kinds| - 1, _ => None);
      assert [None] + none == seq(|kinds|, _ => None);
    } else {
      var none: seq<Option<Field>> := seq(0, _ => None);
      assert none == [];
    }
  }

  lemma PutAppends(s: WriteState, f: Field, wire: Endianness, max: nat)
    ensures s.out <= s.Put(f, wire, max).out
  {
    hide WireBytes, SizeBytes, ToUnsigned;
  }

  // The bytes already written never change.
  lemma {:induction false} WritesAppend(s: WriteState, fields: seq<Field>, wire: Endianness, max: nat)
    ensures s.out <= s.PutAll(fields, wire, max).out
    decreases |fields|
  {
    hide WriteState.Put;
    if fields != [] {
      PutAppends(s, fields[0], wire, max);
      WritesAppend(s.Put(fields[0], wire, max), fields[1..], wire, max);
    }
  }

  // ---- round trip ----

  lemma ThreeBytes(n: nat)
    requires n <= MAX_SIZE
    ensures n / 0x1_0000 < 0x100
    ensures n / 0x1_0000 * 0x1_0000 + n / 0x100 % 0x100 * 0x100 + n % 0x100 == n
  {
  }

  lemma ThreeBytesBack(b1: byte, b2: byte, b3: byte)
    ensures var n := b1 * 0x1_0000 + b2 * 0x100 + b3;
            n <= MAX_SIZE && n / 0x1_0000 == b1 && n / 0x100 % 0x100 == b2 && n % 0x100 == b3
  {
    var n := b1 * 0x1_0000 + b2 * 0x100 + b3;
    assert n / 0x100 == b1 * 0x100 + b2;
  }

  lemma ShortSizeRead(data: seq<byte>, pos: nat, n: nat, max: nat)
    requires n <= 254 && pos < |data| && data[pos] == n
    ensures ReadState(data, pos, NoError).GetSize(max) == (ReadState(data, pos + 1, NoError), Some(n))
  {
  }

  lemma LongSizeRead(data: seq<byte>, pos: nat, n: nat, max: nat)
    requires 254 < n <= MAX_SIZE && n <= max && pos + 4 <= |data|
    requires data[pos] == 0xFF && data[pos + 1] == n / 0x1_0000
    requires data[pos + 2] == n / 0x100 % 0x100 && data[pos + 3] == n % 0x100
    ensures ReadState(data, pos, NoError).GetSize(max) == (ReadState(data, pos + 4, NoError), Some(n))
  {
    ThreeBytes(n);
  }

  lemma SizeRoundTrip(data: seq<byte>, pos: nat, n: nat, max: nat)
    requires n <= MAX_SIZE && (n <= 254 || n <= max)
    requires pos <= |data| && SizeBytes(n) <= data[pos..]
    ensures ReadState(data, pos, NoError).GetSize(max) == (ReadState(data, pos + |SizeBytes(n)|, NoError), Some(n))
  {
    hide ReadState.GetSize;
    var bytes := SizeBytes(n);
    assert forall k :: 0 <= k < |bytes| ==> data[pos + k] == data[pos..][k] == bytes[k];
    if n <= 254 {
      assert data[pos + 0] == bytes[0];
      ShortSizeRead(data, pos, n, max);
    } else {
      assert data[pos + 0] == bytes[0] && data[pos + 1] == bytes[1];
      assert data[pos + 2] == bytes[2] && data[pos + 3] == bytes[3];
      LongSizeRead(data, pos, n, max);
    }
  }

  lemma SignedRoundTrip(v: int, width: nat)
    requires 0 <= 2 * v + Pow256(width) < 2 * Pow256(width)
    ensures ToUnsigned(v, width) < Pow256(width)
    ensures ToSigned(ToUnsigned(v, width), width) == v
  {
  }

  lemma ScalarRoundTrip(s: WriteState, value: nat, width: nat, rest: seq<byte>, wire: Endianness)
    requires value < Pow256(width)
    requires s.Ok() && s.PutScalar(value, width, wire).Ok()
    ensures var out := s.PutScalar(value, width, wire).out;
            ReadState(out + rest, |s.out|, NoError).GetScalar(width, wire)
            == (ReadState(out + rest, |out|, NoError), Some(value))
  {
    var data := s.PutScalar(value, width, wire).out + rest;
    assert data[|s.out|..|s.out| + width] == WireBytes(value, width, wire);
    WireRoundTrip(value, width, wire);
  }

  ghost predicate ComesBack(s: WriteState, f: Field, rest: seq<byte>, wire: Endianness, max: nat, readMax: nat) {
    var out := s.Put(f, wire, max).out;
    ReadState(out + rest, |s.out|, NoError).Get(KindOf(f), wire, readMax)
    == (ReadState(out + rest, |out|, NoError), Some(f))
  }

  lemma SignedFieldRoundTrip(s: WriteState, f: Field, rest: seq<byte>, wire: Endianness, max: nat, readMax: nat)
    requires f.Signed? && f.Fits() && s.Ok() && s.Put(f, wire, max).Ok()
    ensures ComesBack(s, f, rest, wire, max, readMax)
  {
    SignedRoundTrip(f.signed, f.width);
    ScalarRoundTrip(s, ToUnsigned(f.signed, f.width), f.width, rest, wire);
  }

  lemma FlagFieldRoundTrip(s: WriteState, f: Field, rest: seq<byte>, wire: Endianness, max: nat, readMax: nat)
    requires f.Flag? && s.Ok() && s.Put(f, wire, max).Ok()
    ensures ComesBack(s, f, rest, wire, max, readMax)
  {
    assert Pow256(1) == 256;
    ScalarRoundTrip(s, if f.on then 1 else 0, 1, rest, wire);
  }

  lemma RawFieldRoundTrip(s: WriteState, f: Field, rest: seq<byte>, wire: Endianness, max: nat, readMax: nat)
    requires f.Raw? && s.Ok() && s.Put(f, wire, max).Ok()
    ensures ComesBack(s, f, rest, wire, max, readMax)
  {
    assert (s.out + f.bytes + rest)[|s.out|..|s.out| + |f.bytes|] == f.bytes;
  }

  // Writing one field and reading it back, wherever it lies and whatever follows it.
  lemma FieldRoundTrip(s: WriteState, f: Field, rest: seq<byte>, wire: Endianness, max: nat, readMax: nat)
    requires f.Fits() && (f.Text? ==> |f.text| < 0x1_0000_0000)
    requires s.Ok() && s.Put(f, wire, max).Ok() && max <= readMax
    ensures ComesBack(s, f, rest, wire, max, readMax)
  {
    match f
    case Scalar(width, value) => ScalarRoundTrip(s, value, width, rest, wire);
    case Signed(_, _) => SignedFieldRoundTrip(s, f, rest, wire, max, readMax);
    case Flag(_) => FlagFieldRoundTrip(s, f, rest, wire, max, readMax);
    case Size(n) => SizeFieldRoundTrip(s, n, rest, max, readMax);
    case Raw(_) => RawFieldRoundTrip(s, f, rest, wire, max, readMax);
    case Text(text) => TextRoundTrip(s, text, rest, max, readMax);
  }

  lemma SizeFieldRoundTrip(s: WriteState, n: nat, rest: seq<byte>, max: nat, readMax: nat)
    requires s.Ok() && s.PutSize(n, max).Ok() && max <= readMax
    ensures var out := s.PutSize(n, max).out;
            ReadState(out + rest, |s.out|, NoError).GetSize(readMax)
            == (ReadState(out + rest, |out|, NoError), Some(n))
  {
    hide SizeBytes, ReadState.GetSize;
    var data := s.PutSize(n, max).out + rest;
    assert data[|s.out|..] == SizeBytes(n) + rest;
    SizeRoundTrip(data, |s.out|, n, readMax);
  }

  // What an accepted text appends: its narrowed length, then all of it.
  lemma TextOut(s: WriteState, text: seq<byte>, max: nat)
    requires s.Ok() && s.PutText(text, max).Ok()
    ensures var n := |text| % 0x1_0000_0000;
            && n <= max && n <= MAX_SIZE
            && s.PutText(text, max) == s.(out := s.out + SizeBytes(n) + text)
  {
    hide SizeBytes;
  }

  // Reading a text where a size and enough bytes lie.
  lemma TextRead(before: seq<byte>, n: nat, rest: seq<byte>, max: nat)
    requires n <= MAX_SIZE && n <= max && n <= |rest|
    ensures var data := before + SizeBytes(n) + rest;
            ReadState(data, |before|, NoError).GetText(max)
            == (ReadState(data, |before| + |SizeBytes(n)| + n, NoError), Some(rest[..n]))
  {
    hide SizeBytes, ReadState.GetSize;
    var data := before + SizeBytes(n) + rest;
    var start := |before| + |SizeBytes(n)|;
    assert data[|before|..] == SizeBytes(n) + rest;
    SizeRoundTrip(data, |before|, n, max);
    assert data[start..start + n] == rest[..n];
  }

  lemma TextRoundTrip(s: WriteState, text: seq<byte>, rest: seq<byte>, max: nat, readMax: nat)
    requires |text| < 0x1_0000_0000
    requires s.Ok() && s.PutText(text, max).Ok() && max <= readMax
    ensures var out := s.PutText(text, max).out;
            ReadState(out + rest, |s.out|, NoError).GetText(readMax)
            == (ReadState(out + rest, |out|, NoError), Some(text))
  {
    hide SizeBytes, ReadState.GetText, WriteState.PutText;
    var n := |text|;
    TextOut(s, text, max);
    TextRead(s.out, n, text + rest, readMax);
    assert s.out + SizeBytes(n) + (text + rest) == s.out + SizeBytes(n) + text + rest;
    assert (text + rest)[..n] == text;
  }

  lemma KindsOfFirst(fields: seq<Field>)
    requires fields != []
    ensures KindsOf(fields) == [KindOf(fields[0])] + KindsOf(fields[1..])
  {
    hide KindOf;
  }

  lemma AllReadFirst(fields: seq<Field>)
    requires fields != []
    ensures AllRead(fields) == [Some(fields[0])] + AllRead(fields[1..])
  {
  }

  // Reading one more field in front.
  lemma GetAllFirst(s: ReadState, k: Kind, kinds: seq<Kind>, f: Field, t: ReadState, wire: Endianness, max: nat,
                    rest: (ReadState, seq<Option<Field>>))
    requires s.Get(k, wire, max) == (t, Some(f)) && t.GetAll(kinds, wire, max) == rest
    ensures s.GetAll([k] + kinds, wire, max) == (rest.0, [Some(f)] + rest.1)
  {
    hide ReadState.Get;
    assert ([k] + kinds)[1..] == kinds;
  }

  // Any sequence of fields that fits the buffer is read back unchanged, for either byte order of
  // the wire, from any position and whatever lies behind it.
  lemma {:induction false} RoundTrip(s: WriteState, fields: seq<Field>, rest: seq<byte>,
                                     wire: Endianness, max: nat, readMax: nat)
    requires forall k :: 0 <= k < |fields| ==>
               fields[k].Fits() && (fields[k].Text? ==> |fields[k].text| < 0x1_0000_0000)
    requires s.PutAll(fields, wire, max).Ok() && max <= readMax
    ensures var out := s.PutAll(fields, wire, max).out;
            ReadState(out + rest, |s.out|, NoError).GetAll(KindsOf(fields), wire, readMax)
            == (ReadState(out + rest, |out|, NoError), AllRead(fields))
    decreases |fields|
  {
    hide WriteState.Put, ReadState.Get, KindOf, Field.Fits;
    if fields == [] {
      assert AllRead(fields) == [];
    } else {
      var f, tail := fields[0], fields[1..];
      var t := s.Put(f, wire, max);
      if !s.Ok() { WriteErrorLatched(s, fields, wire, max); }
      if !t.Ok() { WriteErrorLatched(t, tail, wire, max); }
      WritesAppend(t, tail, wire, max);
      hide ReadState.GetAll, KindsOf, AllRead;
      var out := t.PutAll(tail, wire, max).out;
      assert out + rest == t.out + (out[|t.out|..] + rest);
      FieldRoundTrip(s, f, out[|t.out|..] + rest, wire, max, readMax);
      RoundTrip(t, tail, rest, wire, max, readMax);
      KindsOfFirst(fields);
      AllReadFirst(fields);
      GetAllFirst(ReadState(out + rest, |s.out|, NoError), KindOf(f), KindsOf(tail), f,
                  ReadState(out + rest, |t.out|, NoError), wire, readMax,
                  (ReadState(out + rest, |out|, NoError), AllRead(tail)));
    }
  }

  // A text longer than the 32-bit length field can say is accepted by the writer whenever its
  // narrowed length is, and then never comes back: for texts the writer accepts, the round trip
  // holds exactly below 2^32 bytes.
  lemma TextRoundTripExactly(s: WriteState, text: seq<byte>, rest: seq<byte>, max: nat)
    requires s.Ok() && s.PutText(text, max).Ok()
    ensures ReadState(s.PutText(text, max).out + rest, |s.out|, NoError).GetText(max).1 == Some(text)
            <==> |text| < 0x1_0000_0000
  {
    hide SizeBytes, ReadState.GetText, WriteState.PutText;
    if |text| < 0x1_0000_0000 {
      TextRoundTrip(s, text, rest, max, max);
    } else {
      var n := |text| % 0x1_0000_0000;
      TextOut(s, text, max);
      TextRead(s.out, n, text + rest, max);
      assert s.out + SizeBytes(n) + (text + rest) == s.out + SizeBytes(n) + text + rest;
      assert |(text + rest)[..n]| < |text|;
    }
  }

  // Such a text: 2^32 NULs are accepted as the empty text, which is what comes back.
  lemma OverlongTextLost() returns (s: WriteState, text: seq<byte>)
    ensures s.Ok() && |text| == 0x1_0000_0000 && s.PutText(text, MAX_SIZE).Ok()
    ensures ReadState(s.PutText(text, MAX_SIZE).out, |s.out|, NoError).GetText(MAX_SIZE).1 == Some([])
  {
    s, text := WriteState([], 0x1_0000_0001, NoError), seq(0x1_0000_0000, _ => 0);
    hide ReadState.GetText;
    assert SizeBytes(0) == [0];
    TextRead([], 0, text, MAX_SIZE);
    assert [] + SizeBytes(0) + text == [0] + text;
    assert s.PutSize(0, MAX_SIZE) == s.(out := [0]);
    assert s.PutText(text, MAX_SIZE) == s.(out := [0] + text);
  }

  // ---- the size encoding is canonical ----

  // The reader accepts n here, consuming k bytes.
  predicate AcceptsSize(data: seq<byte>, n: nat, k: nat, max: nat) {
    ReadState(data, 0, NoError).GetSize(max) == (ReadState(data, k, NoError), Some(n))
  }

  // The writer, given room, produces exactly the first k bytes for n.
  predicate WritesSize(data: seq<byte>, n: nat, k: nat, max: nat) {
    k <= |data| && WriteState([], k, NoError).PutSize(n, max) == WriteState(data[..k], k, NoError)
  }

  lemma WrittenSizeAccepted(data: seq<byte>, n: nat, k: nat, max: nat)
    requires WritesSize(data, n, k, max)
    ensures AcceptsSize(data, n, k, max)
  {
    hide SizeBytes, ReadState.GetSize;
    var s := WriteState([], k, NoError);
    SizeFieldRoundTrip(s, n, data[k..], max, max);
    assert s.PutSize(n, max).out + data[k..] == data;
  }

  lemma AcceptedSizeWritten(data: seq<byte>, n: nat, k: nat, max: nat)
    requires AcceptsSize(data, n, k, max) && n <= max
    ensures WritesSize(data, n, k, max)
  {
    if n > 254 {
      ThreeBytesBack(data[1], data[2], data[3]);
      assert data[..4] == [data[0], data[1], data[2], data[3]];
    } else {
      assert data[..1] == [data[0]];
    }
    assert data[..k] == SizeBytes(n);
    hide SizeBytes, ReadState.GetSize;
    assert [] + SizeBytes(n) == data[..k];
  }

  // The reader's one-byte form ignores the limit, so the two agree exactly when the limit leaves
  // every one-byte size writable.
  lemma SizesAgreeExactly(max: nat)
    ensures (forall data, n, k :: AcceptsSize(data, n, k, max) <==> WritesSize(data, n, k, max)) <==> max >= 254
  {
    if max >= 254 {
      forall data, n, k ensures AcceptsSize(data, n, k, max) <==> WritesSize(data, n, k, max) {
        if WritesSize(data, n, k, max) { WrittenSizeAccepted(data, n, k, max); }
        if AcceptsSize(data, n, k, max) { AcceptedSizeWritten(data, n, k, max); }
      }
    } else {
      assert AcceptsSize([254], 254, 1, max) && !WritesSize([254], 254, 1, max);
    }
  }
}
