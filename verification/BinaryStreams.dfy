// The write stream over a window of a byte buffer and the read stream over an immutable view. Every
// method moves the stream exactly as the functions of WireFormat say.

module BinaryStreams {
  import opened Bytes
  import opened WireFormat

  // A window into a buffer that somebody else owns.
  datatype MutableByteView = MutableByteView(data: array<byte>, offset: nat, size: nat) {
    predicate Valid() {
      offset + size <= data.Length
    }
  }

  class BinaryWriteStream {
    const buffer: array<byte>
    const offset: nat
    const size: nat
    const host: Endianness
    const wire: Endianness
    const swap: bool
    const maxSizedField: nat
    var pos: nat
    var error: StreamError

    ghost const before: seq<byte>  // the buffer when the stream was made

    // Only the bytes written differ from what the buffer held before.
    ghost predicate Valid()
      reads this, buffer
    {
      && offset + size <= buffer.Length == |before|
      && pos <= size
      && swap == (host != wire)
      && buffer[..] == Spliced(before, offset, buffer[..][offset..offset + pos])
    }

    ghost function View(): WriteState
      reads this, buffer
      requires Valid()
    {
      WriteState(buffer[..][offset..offset + pos], size, error)
    }

    constructor (view: MutableByteView, host: Endianness, wire: Endianness, maxSizedField: nat)
      requires view.Valid()
      ensures Valid() && View() == WriteState([], view.size, NoError)
      ensures buffer == view.data && offset == view.offset && size == view.size
      ensures this.wire == wire && this.maxSizedField == maxSizedField && before == view.data[..]
    {
      buffer, offset, size, before := view.data, view.offset, view.size, view.data[..];
      this.host, this.wire, swap := host, wire, host != wire;
      this.maxSizedField := maxSizedField;
      pos, error := 0, NoError;
    }

    method EnsureCapacity(n: nat) returns (enough: bool)
      requires Valid()
      modifies this`error
      ensures Valid() && enough == (n <= size - pos)
      ensures error == if enough then old(error) else BufferOverflow
    {
      enough := n <= size - pos;
      if !enough {
        error := BufferOverflow;
      }
    }

    method WriteRawBytes(bytes: seq<byte>)
      requires Valid()
      modifies this`pos, this`error, buffer
      ensures Valid() && View() == old(View()).PutRaw(bytes)
    {
      if error != NoError {
        return;
      }
      var enough := EnsureCapacity(|bytes|);
      if !enough {
        return;
      }
      hide Spliced;
      CopyForward(buffer, offset + pos, bytes);
      SplicedMore(before, offset, old(View()).out, bytes);
      pos := pos + |bytes|;
    }

    lemma BufferSpliced()
      requires Valid()
      ensures |View().out| <= size && offset + size <= |before|
      ensures buffer[..] == Spliced(before, offset, View().out)
    {
    }

    method CopyValue(memory: seq<byte>)
      requires Valid() && |memory| <= size - pos
      modifies this`pos, buffer
      ensures Valid()
      ensures View() == old(View()).(out := old(View()).out + if swap then Reversed(memory) else memory)
    {
      hide Spliced, Reversed;
      if swap {
        CopyReversed(buffer, offset + pos, memory);
      } else {
        CopyForward(buffer, offset + pos, memory);
      }
      SplicedMore(before, offset, old(View()).out, if swap then Reversed(memory) else memory);
      pos := pos + |memory|;
    }

    // UInt8 (width 1), UInt16, UInt32 and UInt64; Float and Double pass their bit patterns.
    method WriteScalar(value: nat, width: nat)
      requires Valid()
      modifies this`pos, this`error, buffer
      ensures Valid() && View() == old(View()).PutScalar(value, width, wire)
    {
      if error != NoError {
        return;
      }
      var enough := EnsureCapacity(width);
      if !enough {
        return;
      }
      var memory := HostBytes(value, width, host);
      SwapIfDifferent(value, width, [], host, wire);
      CopyValue(memory);
    }

    method WriteSigned(value: int, width: nat)
      requires Valid()
      modifies this`pos, this`error, buffer
      ensures Valid() && View() == old(View()).Put(Signed(width, value), wire, maxSizedField)
    {
      WriteScalar(ToUnsigned(value, width), width);
    }

    method WriteBool(value: bool)
      requires Valid()
      modifies this`pos, this`error, buffer
      ensures Valid() && View() == old(View()).Put(Flag(value), wire, maxSizedField)
    {
      WriteScalar(if value then 1 else 0, 1);
    }

    method WriteSize(n: nat)
      requires Valid()
      modifies this`pos, this`error, buffer
      ensures Valid() && View() == old(View()).PutSize(n, maxSizedField)
    {
      if error != NoError {
        return;
      }
      if n > maxSizedField || n > MAX_SIZE {
        error := SizeLimitExceeded;
        return;
      }
      if n <= 254 {
        WriteRawBytes([n]);
        return;
      }
      WriteRawBytes([0xFF, n / 0x1_0000, n / 0x100 % 0x100, n % 0x100]);
    }

    method WriteString(text: seq<byte>)
      requires Valid()
      modifies this`pos, this`error, buffer
      ensures Valid() && View() == old(View()).PutText(text, maxSizedField)
    {
      WriteSize(|text| % 0x1_0000_0000);
      if error != NoError {
        return;
      }
      WriteRawBytes(text);
    }
  }

  class BinaryReadStream {
    const data: seq<byte>
    const host: Endianness
    const wire: Endianness
    const swap: bool
    const maxSizedField: nat
    var pos: nat
    var error: StreamError

    ghost predicate Valid()
      reads this
    {
      pos <= |data| && swap == (host != wire)
    }

    ghost function View(): ReadState
      reads this
    {
      ReadState(data, pos, error)
    }

    constructor (data: seq<byte>, host: Endianness, wire: Endianness, maxSizedField: nat)
      ensures Valid() && View() == ReadState(data, 0, NoError)
      ensures this.wire == wire && this.maxSizedField == maxSizedField
    {
      this.data := data;
      this.host, this.wire, swap := host, wire, host != wire;
      this.maxSizedField := maxSizedField;
      pos, error := 0, NoError;
    }

    method EnsureAvailable(n: nat) returns (enough: bool)
      requires Valid()
      modifies this`error
      ensures Valid() && enough == View().Has(n)
      ensures error == if enough then old(error) else BufferUnderflow
    {
      enough := n <= |data| - pos;
      if !enough {
        error := BufferUnderflow;
      }
    }

    // The variable the value goes to keeps what it had when the read fails.
    method ReadScalar(width: nat, variable: nat) returns (value: nat)
      requires Valid()
      modifies this`pos, this`error
      ensures Valid()
      ensures var (state, got) := old(View()).GetScalar(width, wire);
              View() == state && value == (if got.Some? then got.value else variable)
    {
      value := variable;
      if error != NoError {
        return;
      }
      var enough := EnsureAvailable(width);
      if !enough {
        return;
      }
      var source := data[pos..pos + width];
      SwapIfDifferent(0, 0, source, host, wire);
      var memory := if swap then Reversed(source) else source;
      value := HostValue(memory, host);
      pos := pos + width;
    }

    method ReadSigned(width: nat, variable: int) returns (value: int)
      requires Valid()
      modifies this`pos, this`error
      ensures Valid()
      ensures var (state, got) := old(View()).Get(KSigned(width), wire, maxSizedField);
              View() == state && value == (if got.Some? then got.value.signed else variable)
    {
      var bits := ReadScalar(width, 0);
      value := if error == NoError then ToSigned(bits, width) else variable;
    }

    method ReadBool(variable: bool) returns (value: bool)
      requires Valid()
      modifies this`pos, this`error
      ensures Valid()
      ensures var (state, got) := old(View()).Get(KFlag, wire, maxSizedField);
              View() == state && value == (if got.Some? then got.value.on else variable)
    {
      var b := ReadScalar(1, 0);
      value := if error == NoError then b != 0 else variable;
    }

    method ReadSize(variable: nat) returns (value: nat)
      requires Valid()
      modifies this`pos, this`error
      ensures Valid()
      ensures var (state, got) := old(View()).GetSize(maxSizedField);
              View() == state && value == (if got.Some? then got.value else variable)
    {
      value := variable;
      if error != NoError {
        return;
      }
      var enough := EnsureAvailable(1);
      if !enough {
        return;
      }
      var first := data[pos];
      if first <= 254 {
        value := first;
        pos := pos + 1;
        return;
      }
      // first is 0xFF from here on, so the second look at it in the original cannot fail.
      enough := EnsureAvailable(4);
      if !enough {
        return;
      }
      var b1: nat, b2: nat, b3: nat := data[pos + 1], data[pos + 2], data[pos + 3];
      var n := b1 * 0x1_0000 + b2 * 0x100 + b3;
      if n <= 254 || n > maxSizedField {
        error := InvalidData;
        return;
      }
      value := n;
      pos := pos + 4;
    }

    method ReadBytesView(n: nat, variable: seq<byte>) returns (value: seq<byte>)
      requires Valid()
      modifies this`pos, this`error
      ensures Valid()
      ensures var (state, got) := old(View()).GetRaw(n);
              View() == state && value == (if got.Some? then got.value else variable)
    {
      value := variable;
      if error != NoError {
        return;
      }
      var enough := EnsureAvailable(n);
      if !enough {
        return;
      }
      value := data[pos..pos + n];
      pos := pos + n;
    }

    method ReadStringView(variable: seq<byte>) returns (value: seq<byte>)
      requires Valid()
      modifies this`pos, this`error
      ensures Valid()
      ensures var (state, got) := old(View()).GetText(maxSizedField);
              View() == state && value == (if got.Some? then got.value else variable)
    {
      value := variable;
      var n := ReadSize(0);
      if error != NoError {
        return;
      }
      var enough := EnsureAvailable(n);
      if !enough {
        return;
      }
      value := data[pos..pos + n];
      pos := pos + n;
    }
  }

  // One little-endian scalar, in a buffer of its own.
  method EncodeScalar(value: nat, width: nat, host: Endianness) returns (bytes: seq<byte>)
    ensures bytes == LittleBytes(value, width)
  {
    hide LittleBytes, Spliced;
    var storage := new byte[width](_ => 0);
    var writer := new BinaryWriteStream(MutableByteView(storage, 0, width), host, Little, MAX_SIZE);
    writer.WriteScalar(value, width);
    assert writer.View().out == [] + LittleBytes(value, width);
    assert storage[..] == writer.View().out;
    bytes := storage[..];
  }
}
