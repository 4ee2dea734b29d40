// Where the heap monitor puts the header and the payload inside a raw block.

module HeapBlocks {
  import opened Arithmetic
  import opened Bytes

  const HEADER_SIZE := 16

  // ---- masking, bit by bit ----

  // Bitwise and, and bitwise complement, of n-bit words.
  function AndBits(a: nat, b: nat, n: nat): nat
    decreases n
  {
    if n == 0 then 0 else (a % 2) * (b % 2) + 2 * AndBits(a / 2, b / 2, n - 1)
  }

  function NotBits(a: nat, n: nat): nat
    decreases n
  {
    if n == 0 then 0 else (1 - a % 2) + 2 * NotBits(a / 2, n - 1)
  }

  lemma {:induction false} AndWithOnes(a: nat, n: nat)
    requires a < Pow2(n)
    ensures AndBits(a, NotBits(0, n), n) == a
    decreases n
  {
    if n > 0 {
      AndWithOnes(a / 2, n - 1);
      assert NotBits(0, n) == 1 + 2 * NotBits(0, n - 1);
      assert NotBits(0, n) / 2 == NotBits(0, n - 1);
    }
  }

  lemma LowMask(k: nat)
    requires k > 0
    ensures (Pow2(k) - 1) % 2 == 1 && (Pow2(k) - 1) / 2 == Pow2(k - 1) - 1
  {
  }

  function RoundDown(a: nat, p: nat): nat
    requires p > 0
  {
    a / p * p
  }

  lemma MaskStep(a: nat, k: nat, n: nat)
    requires 0 < k <= n
    ensures AndBits(a, NotBits(Pow2(k) - 1, n), n) == 2 * AndBits(a / 2, NotBits(Pow2(k - 1) - 1, n - 1), n - 1)
  {
    LowMask(k);
    var m := NotBits(Pow2(k - 1) - 1, n - 1);
    assert NotBits(Pow2(k) - 1, n) == 2 * m;
    hide NotBits, Pow2;
    assert (2 * m) % 2 == 0 && 2 * m / 2 == m;
    assert (a % 2) * 0 == 0;
  }

  lemma Half(a: nat, n: nat)
    requires n > 0 && a < Pow2(n)
    ensures a / 2 < Pow2(n - 1)
  {
  }

  // Clearing the lowest k bits rounds down to a multiple of the power of two.
  lemma {:induction false} MaskRoundsDown(a: nat, k: nat, n: nat)
    requires k <= n && a < Pow2(n)
    ensures AndBits(a, NotBits(Pow2(k) - 1, n), n) == RoundDown(a, Pow2(k))
    decreases n
  {
    hide AndBits, NotBits, Pow2, RoundDown;
    if k == 0 {
      NoMask(a, n);
    } else {
      Half(a, n);
      MaskStep(a, k, n);
      PowStep(k);
      Halving(a, Pow2(k - 1));
      MaskRoundsDown(a / 2, k - 1, n - 1);
    }
  }

  lemma NoMask(a: nat, n: nat)
    requires a < Pow2(n)
    ensures AndBits(a, NotBits(Pow2(0) - 1, n), n) == RoundDown(a, Pow2(0))
  {
    hide AndBits, NotBits;
    AndWithOnes(a, n);
    assert Pow2(0) == 1;
  }

  lemma PowStep(k: nat)
    requires k > 0
    ensures Pow2(k) == 2 * Pow2(k - 1)
  {
  }

  lemma Halving(a: nat, p: nat)
    requires p > 0
    ensures RoundDown(a, 2 * p) == 2 * RoundDown(a / 2, p)
  {
    var q, r := a / 2 / p, a / 2 % p;
    assert a / 2 == p * q + r;
    assert a == 2 * (p * q + r) + a % 2;
    assert a == (2 * p) * q + (2 * r + a % 2);
    QuotientIs(a, 2 * p, q, 2 * r + a % 2);
    assert q * (2 * p) == 2 * (q * p);
  }

  // ---- the block ----

  function PayloadBytes(requested: nat): nat {
    if requested == 0 then 1 else requested
  }

  function Overhead(alignment: nat): nat
    requires alignment > 0
  {
    HEADER_SIZE + alignment - 1
  }

  // The size of the raw block to ask for, if a word of w bits can express it.
  function RawSize(requested: nat, alignment: nat, w: nat): (size: Option<nat>)
    requires alignment > 0
    ensures size.Some? ==> size.value < Pow2(w)
  {
    if PayloadBytes(requested) > Pow2(w) - 1 - Overhead(alignment) then None
    else Some(PayloadBytes(requested) + Overhead(alignment))
  }

  // The arithmetic of allocate on the raw block's address, in words of w bits.
  function AlignedAddress(allocation: nat, alignment: nat, w: nat): nat
    requires alignment > 0
  {
    AndBits(allocation + HEADER_SIZE + alignment - 1, NotBits(alignment - 1, w), w)
  }

  lemma RoundedUp(start: nat, alignment: nat)
    requires alignment > 0
    ensures var aligned := RoundDown(start + alignment - 1, alignment);
            start <= aligned < start + alignment && aligned % alignment == 0
  {
    var x := start + alignment - 1;
    assert x == alignment * (x / alignment) + x % alignment;
    MultipleModulo(x / alignment, alignment);
  }

  lemma MultipleModulo(q: nat, p: nat)
    requires p > 0
    ensures (q * p) % p == 0
  {
    var r := (q * p) % p;
    assert q * p == p * (q * p / p) + r;
    assert p * (q - q * p / p) == r;
    Multiples(p, q - q * p / p);
  }

  // A raw block is asked for exactly if header, padding and payload fit a word; an empty request is one
  // for a byte.
  lemma RawSizeExactly(requested: nat, alignment: nat, w: nat)
    requires alignment > 0
    ensures var bytes := if requested == 0 then 1 else requested;
            RawSize(requested, alignment, w)
            == if bytes + 16 + (alignment - 1) < Pow2(w) then Some(bytes + 16 + (alignment - 1)) else None
  {
  }

  // For every alignment that is a power of two, every request and every raw block the system hands
  // out for it: the payload is at the first aligned address that leaves room for the header, and header
  // and payload lie inside the block, the header right before the payload.
  lemma PlacementIsRight(requested: nat, k: nat, allocation: nat, w: nat)
    requires k <= w && RawSize(requested, Pow2(k), w).Some?
    requires allocation + RawSize(requested, Pow2(k), w).value <= Pow2(w)
    ensures var payload := AlignedAddress(allocation, Pow2(k), w);
            && payload % Pow2(k) == 0
            && allocation + 16 <= payload < allocation + 16 + Pow2(k)
            && allocation <= payload - HEADER_SIZE
            && payload + PayloadBytes(requested) <= allocation + RawSize(requested, Pow2(k), w).value
  {
    hide AndBits, NotBits, Pow2, RoundDown;
    MaskRoundsDown(allocation + HEADER_SIZE + Pow2(k) - 1, k, w);
    RoundedUp(allocation + HEADER_SIZE, Pow2(k));
  }

  // The blocks of two requests do not touch each other: what one writes to its payload never
  // changes the header the other will be freed by.
  lemma HeadersAreSafe(request: nat, k: nat, first: nat, other: nat, j: nat, second: nat, w: nat)
    requires k <= w && RawSize(request, Pow2(k), w).Some? && first + RawSize(request, Pow2(k), w).value <= Pow2(w)
    requires j <= w && RawSize(other, Pow2(j), w).Some? && second + RawSize(other, Pow2(j), w).value <= Pow2(w)
    requires first + RawSize(request, Pow2(k), w).value <= second || second + RawSize(other, Pow2(j), w).value <= first
    ensures var (p, q) := (AlignedAddress(first, Pow2(k), w), AlignedAddress(second, Pow2(j), w));
            p + PayloadBytes(request) <= q - HEADER_SIZE || q + PayloadBytes(other) <= p - HEADER_SIZE
  {
    hide AlignedAddress, Pow2;
    PlacementIsRight(request, k, first, w);
    PlacementIsRight(other, j, second, w);
  }
}
