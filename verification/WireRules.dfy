// The typed streams byte by byte: how much room each field takes, what is put there, and when and how
// a write or a read fails.

module WireRules {
  import opened Arithmetic
  import opened Bytes
  import opened WireFormat

  // ---- writing ----

  // A size up to 254 takes one byte, any other four.
  function SizeWidth(n: nat): nat {
    if n <= 254 then 1 else 4
  }

  // How many bytes a field takes.
  function Needed(f: Field): nat {
    match f
    case Scalar(width, _) => width
    case Signed(width, _) => width
    case Flag(_) => 1
    case Size(n) => SizeWidth(n)
    case Raw(bytes) => |bytes|
    case Text(text) => SizeWidth(|text| % 0x1_0000_0000) + |text|
  }

  // Only sizes are limited: by the stream's own limit and by three bytes.
  predicate Writable(f: Field, max: nat) {
    match f
    case Size(n) => n <= max && n <= 0xFF_FFFF
    case Text(text) => |text| % 0x1_0000_0000 <= max && |text| % 0x1_0000_0000 <= 0xFF_FFFF
    case _ => true
  }

  function NeededAll(fields: seq<Field>): nat {
    if fields == [] then 0 else Needed(fields[0]) + NeededAll(fields[1..])
  }

  // A write succeeds exactly if the size is admissible and there is room; it says which of the two it
  // was, and only a text's size may stay behind.
  lemma PutExactly(s: WriteState, f: Field, wire: Endianness, max: nat)
    requires s.Ok()
    ensures var t := s.Put(f, wire, max);
            && t.capacity == s.capacity
            && t.error == (if !Writable(f, max) then SizeLimitExceeded
                           else if |s.out| + Needed(f) > s.capacity then BufferOverflow else NoError)
            && (t.Ok() ==> |t.out| == |s.out| + Needed(f))
            && (!t.Ok() && !f.Text? ==> t == s.(error := t.error))
            && (!t.Ok() ==> t.out == s.out || (f.Text? && |t.out| == |s.out| + SizeWidth(|f.text| % 0x1_0000_0000)))
  {
  }

  // So does a sequence of writes, if all together find room.
  lemma {:induction false} PutAllExactly(s: WriteState, fields: seq<Field>, wire: Endianness, max: nat)
    requires s.Ok() && |s.out| <= s.capacity
    ensures s.PutAll(fields, wire, max).Ok()
       <==> (forall k :: 0 <= k < |fields| ==> Writable(fields[k], max)) && |s.out| + NeededAll(fields) <= s.capacity
    decreases |fields|
  {
    if fields != [] {
      var t := s.Put(fields[0], wire, max);
      PutExactly(s, fields[0], wire, max);
      hide WriteState.Put, Writable, Needed;
      if t.Ok() {
        PutAllExactly(t, fields[1..], wire, max);
        assert forall k :: 0 < k < |fields| ==> fields[k] == fields[1..][k - 1];
      } else {
        WriteErrorLatched(t, fields[1..], wire, max);
      }
    }
  }

  // What a field leaves: a scalar's bytes in wire order, a signed one's modulo the power of 256, one
  // byte for a flag, a size in one byte or behind 0xFF in three, highest first.
  function FieldBytes(f: Field, wire: Endianness): seq<byte> {
    match f
    case Scalar(width, value) => WireBytes(value, width, wire)
    case Signed(width, v) => WireBytes(v % Pow256(width), width, wire)
    case Flag(on) => [if on then 1 else 0]
    case Size(n) => SizeOnWire(n)
    case Raw(bytes) => bytes
    case Text(text) => SizeOnWire(|text| % 0x1_0000_0000) + text
  }

  function SizeOnWire(n: nat): seq<byte> {
    if n <= 254 then [n] else [0xFF, n / 0x1_0000 % 0x100, n / 0x100 % 0x100, n % 0x100]
  }

  lemma SizeOnWireExactly(n: nat)
    requires n <= MAX_SIZE
    ensures SizeBytes(n) == SizeOnWire(n)
  {
  }

  lemma SignedPattern(v: int, width: nat)
    requires 0 <= 2 * v + Pow256(width) < 2 * Pow256(width)
    ensures ToUnsigned(v, width) == v % Pow256(width)
  {
    var p := Pow256(width);
    hide Pow256;
    if v < 0 {
      RemainderIs(v, p, -1, v + p);
    } else {
      RemainderIs(v, p, 0, v);
    }
  }

  lemma FlagBytes(on: bool, wire: Endianness)
    ensures WireBytes(if on then 1 else 0, 1, wire) == [if on then 1 else 0]
  {
    var v := if on then 1 else 0;
    WireByteAt(v, 1, wire, 0);
    assert Pow256(0) == 1;
    hide WireBytes, Pow256;
    assert WireBytes(v, 1, wire) == [WireBytes(v, 1, wire)[0]];
  }

  lemma PutLeaves(s: WriteState, f: Field, wire: Endianness, max: nat)
    requires f.Fits() && s.Put(f, wire, max).Ok()
    ensures s.Put(f, wire, max).out == s.out + FieldBytes(f, wire)
  {
    hide WireBytes, SizeBytes, SizeOnWire, ToUnsigned;
    match f
    case Signed(width, v) => SignedPattern(v, width);
    case Flag(on) => FlagBytes(on, wire);
    case Size(n) => SizeOnWireExactly(n);
    case Text(text) =>
      SizeOnWireExactly(|text| % 0x1_0000_0000);
      assert s.out + SizeOnWire(|text| % 0x1_0000_0000) + text == s.out + (SizeOnWire(|text| % 0x1_0000_0000) + text);
    case _ =>
  }

  // ---- reading ----

  // How many bytes a read of this kind takes, if it succeeds; for a size, by its first byte.
  function SizeTaken(s: ReadState): nat {
    if s.pos < |s.data| && s.data[s.pos] <= 254 then 1 else 4
  }

  function SizeRead(s: ReadState): nat
    requires s.pos + SizeTaken(s) <= |s.data|
  {
    if s.data[s.pos] <= 254 then s.data[s.pos]
    else 0x1_0000 * s.data[s.pos + 1] as int + 0x100 * s.data[s.pos + 2] as int + s.data[s.pos + 3]
  }

  // A fixed number of bytes is read if and only if they are there; else the position stays.
  lemma FixedExactly(s: ReadState, k: Kind, wire: Endianness, max: nat)
    requires s.Ok() && (k.KScalar? || k.KSigned? || k.KFlag? || k.KRaw?)
    ensures var n := if k.KFlag? then 1 else if k.KRaw? then k.length else k.width;
            var (t, f) := s.Get(k, wire, max);
            && (f.Some? <==> s.pos + n <= |s.data|)
            && t == (if s.pos + n <= |s.data| then s.(pos := s.pos + n) else s.(error := BufferUnderflow))
  {
    hide WireValue, ToSigned;
  }

  // A size is read if and only if its bytes are there and, in the long form, it is above 254 and within
  // the limit; else the position stays, and the error says which it was.
  lemma SizeExactly(s: ReadState, max: nat)
    requires s.Ok()
    ensures s.GetSize(max)
         == if s.pos + SizeTaken(s) > |s.data| then (s.(error := BufferUnderflow), None)
            else if SizeTaken(s) == 4 && (SizeRead(s) <= 254 || SizeRead(s) > max) then (s.(error := InvalidData), None)
            else (s.(pos := s.pos + SizeTaken(s)), Some(SizeRead(s)))
  {
  }

  // A text: its size, and then that many bytes; if these are missing the size stays consumed.
  lemma TextExactly(s: ReadState, max: nat)
    requires s.Ok()
    ensures var (t, n) := s.GetSize(max);
            s.GetText(max)
            == if n == None then (t, None)
               else if t.pos + n.value > |s.data| then (t.(error := BufferUnderflow), None)
               else (t.(pos := t.pos + n.value), Some(s.data[t.pos..t.pos + n.value]))
  {
  }

  // The value of a signed field read is the one in its range that is the pattern's modulo the power of
  // 256.
  lemma SignedExactly(u: nat, width: nat)
    requires u < Pow256(width)
    ensures var v := ToSigned(u, width);
            v % Pow256(width) == u && 0 <= 2 * v + Pow256(width) < 2 * Pow256(width)
  {
    var p := Pow256(width);
    hide Pow256;
    if 2 * u < p {
      RemainderIs(u, p, 0, u);
    } else {
      RemainderIs(u - p, p, -1, u);
    }
  }
}
