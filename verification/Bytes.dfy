// Bytes, fixed-width unsigned values and byte order.
//
// A byte is an integer in 0..255, so scalars can be reasoned about with plain arithmetic.

module Bytes {
  import opened Arithmetic

  type byte = x: int | 0 <= x < 0x100
  type u16 = x: int | 0 <= x < 0x1_0000
  type u32 = x: int | 0 <= x < 0x1_0000_0000

  datatype Endianness = Little | Big

  datatype Option<+T> = None | Some(value: T)

  function Pow2(n: nat): (p: nat)
    ensures p > 0
  {
    if n == 0 then 1 else 2 * Pow2(n - 1)
  }

  function Pow256(n: nat): (p: nat)
    ensures p > 0
  {
    if n == 0 then 1 else 256 * Pow256(n - 1)
  }

  // The n low-order bytes of v, least significant first.
  function LittleBytes(v: nat, n: nat): (s: seq<byte>)
    ensures |s| == n
  {
    if n == 0 then [] else [v % 256] + LittleBytes(v / 256, n - 1)
  }

  function LittleValue(s: seq<byte>): nat {
    if s == [] then 0 else s[0] + 256 * LittleValue(s[1..])
  }

  lemma {:induction false} LittleRoundTrip(v: nat, n: nat)
    requires v < Pow256(n)
    ensures LittleValue(LittleBytes(v, n)) == v
  {
    if n != 0 {
      LittleRoundTrip(v / 256, n - 1);
      assert LittleBytes(v, n)[1..] == LittleBytes(v / 256, n - 1);
    }
  }

  lemma {:induction false} LittleSurjective(s: seq<byte>)
    ensures LittleValue(s) < Pow256(|s|)
    ensures LittleBytes(LittleValue(s), |s|) == s
  {
    if s != [] {
      LittleSurjective(s[1..]);
      var v := LittleValue(s);
      assert v % 256 == s[0] && v / 256 == LittleValue(s[1..]);
      assert s == [s[0]] + s[1..];
    }
  }

  lemma {:induction false} LittleByteAt(v: nat, n: nat, k: nat)
    requires k < n
    ensures LittleBytes(v, n)[k] == v / Pow256(k) % 256
  {
    if k > 0 {
      LittleByteAt(v / 256, n - 1, k - 1);
      DivideTwice(v, 256, Pow256(k - 1));
    }
  }

  function Reversed<T>(s: seq<T>): (r: seq<T>)
    ensures |r| == |s|
    ensures forall k :: 0 <= k < |s| ==> r[k] == s[|s| - 1 - k]
  {
    seq(|s|, k requires 0 <= k < |s| => s[|s| - 1 - k])
  }

  lemma ReversedTwice<T>(s: seq<T>)
    ensures Reversed(Reversed(s)) == s
  {
  }

  // How a value of n bytes lies in the memory of a host of the given byte order.
  function HostBytes(v: nat, n: nat, host: Endianness): (s: seq<byte>)
    ensures |s| == n
  {
    if host == Little then LittleBytes(v, n) else Reversed(LittleBytes(v, n))
  }

  function HostValue(s: seq<byte>, host: Endianness): nat {
    if host == Little then LittleValue(s) else LittleValue(Reversed(s))
  }

  // The byte order a wire prescribes, whatever the host is.
  function WireBytes(v: nat, n: nat, wire: Endianness): (s: seq<byte>)
    ensures |s| == n
  {
    HostBytes(v, n, wire)
  }

  function WireValue(s: seq<byte>, wire: Endianness): nat {
    HostValue(s, wire)
  }

  // Reversing the host representation exactly when the two orders differ yields the wire
  // representation, and the other way round.
  lemma SwapIfDifferent(v: nat, n: nat, s: seq<byte>, host: Endianness, wire: Endianness)
    ensures (if host != wire then Reversed(HostBytes(v, n, host)) else HostBytes(v, n, host))
            == WireBytes(v, n, wire)
    ensures HostValue(if host != wire then Reversed(s) else s, host) == WireValue(s, wire)
  {
    ReversedTwice(LittleBytes(v, n));
    ReversedTwice(s);
  }

  // Which byte of a value lies where on the wire.
  lemma WireByteAt(v: nat, n: nat, wire: Endianness, k: nat)
    requires k < n
    ensures WireBytes(v, n, wire)[k] == v / Pow256(if wire == Little then k else n - 1 - k) % 256
  {
    LittleByteAt(v, n, if wire == Little then k else n - 1 - k);
  }

  lemma WireRoundTrip(v: nat, n: nat, wire: Endianness)
    requires v < Pow256(n)
    ensures WireValue(WireBytes(v, n, wire), wire) == v
  {
    ReversedTwice(LittleBytes(v, n));
    LittleRoundTrip(v, n);
  }

  // Two byte strings of the same length that agree outside bytes i and i + 1.
  ghost predicate AgreeOutsidePair(a: seq<byte>, b: seq<byte>, i: int) {
    && |a| == |b|
    && forall k :: 0 <= k < |a| && k != i && k != i + 1 ==> a[k] == b[k]
  }

  // A slice of the middle part is a slice of the whole.
  lemma SliceInside(before: seq<byte>, middle: seq<byte>, after: seq<byte>, i: nat, n: nat)
    requires i + n <= |middle|
    ensures var whole, start := before + middle + after, |before| + i;
            whole[start..start + n] == middle[i..i + n]
  {
    var whole, start := before + middle + after, |before| + i;
    var a, b := whole[start..start + n], middle[i..i + n];
    forall k | 0 <= k < n ensures a[k] == b[k] {
      assert whole[start + k] == middle[i + k];
    }
  }

  // The buffer with the bytes at offset replaced.
  function Spliced(before: seq<byte>, offset: nat, bytes: seq<byte>): (after: seq<byte>)
    requires offset + |bytes| <= |before|
    ensures |after| == |before|
  {
    before[..offset] + bytes + before[offset + |bytes|..]
  }

  lemma SplicedAt(before: seq<byte>, offset: nat, bytes: seq<byte>, k: nat)
    requires offset + |bytes| <= |before| && k < |before|
    ensures Spliced(before, offset, bytes)[k] == if offset <= k < offset + |bytes| then bytes[k - offset] else before[k]
  {
  }

  // A slice that is the replaced part, or does not touch it.
  lemma SplicedSlice(before: seq<byte>, offset: nat, bytes: seq<byte>, start: nat, n: nat)
    requires offset + |bytes| <= |before| && start + n <= |before|
    ensures start == offset && n == |bytes| ==> Spliced(before, offset, bytes)[start..start + n] == bytes
    ensures start + n <= offset || offset + |bytes| <= start ==>
              Spliced(before, offset, bytes)[start..start + n] == before[start..start + n]
  {
    var after := Spliced(before, offset, bytes);
    forall k | start <= k < start + n
      ensures after[k] == if offset <= k < offset + |bytes| then bytes[k - offset] else before[k]
    {
      SplicedAt(before, offset, bytes, k);
    }
    hide Spliced;
    var slice, was := after[start..start + n], before[start..start + n];
    if start == offset && n == |bytes| {
      forall k | 0 <= k < n ensures slice[k] == bytes[k] {
        assert slice[k] == after[start + k];
      }
    }
    if start + n <= offset || offset + |bytes| <= start {
      forall k | 0 <= k < n ensures slice[k] == was[k] {
        assert slice[k] == after[start + k];
      }
    }
  }

  lemma SplicedMore(before: seq<byte>, start: nat, a: seq<byte>, b: seq<byte>)
    requires start + |a| + |b| <= |before|
    ensures var after := Spliced(Spliced(before, start, a), start + |a|, b);
            after == Spliced(before, start, a + b) && after[start..start + |a| + |b|] == a + b
  {
    var after := Spliced(Spliced(before, start, a), start + |a|, b);
    forall k | 0 <= k < |before| ensures after[k] == Spliced(before, start, a + b)[k] {
      SplicedAt(before, start, a, k);
      SplicedAt(Spliced(before, start, a), start + |a|, b, k);
      SplicedAt(before, start, a + b, k);
    }
    SplicedSlice(before, start, a + b, start, |a| + |b|);
    hide Spliced;
  }

  lemma SplicedBehind(header: seq<byte>, body: seq<byte>, offset: nat, bytes: seq<byte>)
    requires offset + |bytes| <= |body|
    ensures Spliced(header + body, |header| + offset, bytes) == header + Spliced(body, offset, bytes)
  {
    var whole, patched := header + body, header + Spliced(body, offset, bytes);
    forall k | 0 <= k < |whole| ensures Spliced(whole, |header| + offset, bytes)[k] == patched[k] {
      SplicedAt(whole, |header| + offset, bytes, k);
      if k >= |header| { SplicedAt(body, offset, bytes, k - |header|); }
    }
    hide Spliced;
  }

  lemma SplicedBefore(body: seq<byte>, tail: seq<byte>, offset: nat, bytes: seq<byte>)
    requires offset + |bytes| <= |body|
    ensures Spliced(body + tail, offset, bytes) == Spliced(body, offset, bytes) + tail
  {
    var whole, patched := body + tail, Spliced(body, offset, bytes) + tail;
    forall k | 0 <= k < |whole| ensures Spliced(whole, offset, bytes)[k] == patched[k] {
      SplicedAt(whole, offset, bytes, k);
      if k < |body| { SplicedAt(body, offset, bytes, k); }
    }
    hide Spliced;
  }

  lemma SplicedMiddle(before: seq<byte>, middle: seq<byte>, after: seq<byte>, bytes: seq<byte>)
    requires |bytes| == |middle|
    ensures Spliced(before + middle + after, |before|, bytes) == before + bytes + after
  {
    var whole, patched := before + middle + after, before + bytes + after;
    forall k | 0 <= k < |whole| ensures Spliced(whole, |before|, bytes)[k] == patched[k] {
      SplicedAt(whole, |before|, bytes, k);
    }
    hide Spliced;
  }

  // destination[offset ..] receives the bytes of source as they are.
  method CopyForward(destination: array<byte>, offset: nat, source: seq<byte>)
    requires offset + |source| <= destination.Length
    modifies destination
    ensures destination[..] == Spliced(old(destination[..]), offset, source)
  {
    forall k | 0 <= k < |source| {
      destination[offset + k] := source[k];
    }
  }

  method CopyReversed(destination: array<byte>, offset: nat, source: seq<byte>)
    requires offset + |source| <= destination.Length
    modifies destination
    ensures destination[..] == Spliced(old(destination[..]), offset, Reversed(source))
  {
    var size := |source|;
    var index := 0;
    while index < size
      invariant 0 <= index <= size
      invariant forall k :: 0 <= k < destination.Length ==>
                  destination[k] == if offset <= k < offset + index then source[size - 1 - (k - offset)]
                                    else old(destination[k])
    {
      destination[offset + index] := source[size - 1 - index];
      index := index + 1;
    }
  }
}
