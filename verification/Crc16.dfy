// CRC-16/CCITT-FALSE: polynomial 0x1021, initial value 0xFFFF, nothing reflected, no final XOR.
//
// The code feeds a byte at a time; the theory is told a bit at a time, over strings of bits. Facts
// about bit-vectors are kept in one-line lemmas and hidden from the inductive proofs.

module Crc16 {
  import opened Bytes

  // The 16-bit shift register.
  datatype Reg = Reg(bits: bv16)

  const ZERO := Reg(0)
  const INITIAL := Reg(0xFFFF)

  function Xor(r: Reg, q: Reg): Reg { Reg(r.bits ^ q.bits) }

  function Shift(r: Reg): Reg { Reg(r.bits << 1) }

  function TopBit(x: bv16): bool { x & 0x8000 != 0 }

  function Top(r: Reg): bool { TopBit(r.bits) }

  // What is subtracted from the shifted register: the polynomial or nothing.
  function Feedback(on: bool): Reg { if on then Reg(0x1021) else ZERO }

  // One turn of the register with a message bit entering at the top.
  function BitStep(r: Reg, b: bool): Reg { Xor(Shift(r), Feedback(Top(r) != b)) }

  function RunBits(r: Reg, bits: seq<bool>): Reg
    decreases |bits|
  {
    if bits == [] then r else RunBits(BitStep(r, bits[0]), bits[1..])
  }

  // ---- binary numerals, most significant bit first ----

  function Digits(v: nat, n: nat): (s: seq<bool>)
    ensures |s| == n
  {
    if n == 0 then [] else Digits(v / 2, n - 1) + [v % 2 == 1]
  }

  function DigitsValue(s: seq<bool>): nat {
    if s == [] then 0 else 2 * DigitsValue(s[..|s| - 1]) + if s[|s| - 1] then 1 else 0
  }

  lemma {:induction false} DigitsRoundTrip(v: nat, n: nat)
    requires v < Pow2(n)
    ensures DigitsValue(Digits(v, n)) == v
  {
    if n != 0 {
      DigitsRoundTrip(v / 2, n - 1);
      assert Digits(v, n)[..n - 1] == Digits(v / 2, n - 1);
    }
  }

  lemma {:induction false} ValueRoundTrip(s: seq<bool>)
    ensures DigitsValue(s) < Pow2(|s|)
    ensures Digits(DigitsValue(s), |s|) == s
  {
    if s != [] {
      var front, last := s[..|s| - 1], s[|s| - 1];
      ValueRoundTrip(front);
      assert DigitsValue(s) / 2 == DigitsValue(front) && DigitsValue(s) % 2 == (if last then 1 else 0);
      assert s == front + [last];
    }
  }

  // ---- the checksum of a message ----

  function ByteBits(b: byte): (s: seq<bool>)
    ensures |s| == 8
  {
    Digits(b, 8)
  }

  function Bits(data: seq<byte>): (s: seq<bool>)
    ensures |s| == 8 * |data|
  {
    if data == [] then [] else ByteBits(data[0]) + Bits(data[1..])
  }

  // The n most significant bits of a register.
  function TopBits(r: Reg, n: nat): (s: seq<bool>)
    ensures |s| == n
    decreases n
  {
    if n == 0 then [] else [Top(r)] + TopBits(Shift(r), n - 1)
  }

  function Register(data: seq<byte>): Reg {
    RunBits(INITIAL, Bits(data))
  }

  // A register as the 16-bit number the frames carry.
  function Number(r: Reg): (n: u16) {
    ValueRoundTrip(TopBits(r, 16));
    SixteenBits();
    DigitsValue(TopBits(r, 16))
  }

  lemma SixteenBits()
    ensures Pow2(16) == 0x1_0000 && Pow2(8) == 0x100
  {
    assert Pow2(4) == 16;
    assert Pow2(8) == 16 * Pow2(4);
    assert Pow2(12) == 16 * Pow2(8);
    assert Pow2(16) == 16 * Pow2(12);
  }

  function Crc(data: seq<byte>): u16 {
    Number(Register(data))
  }

  // ---- bit-vector facts ----

  lemma XorZero(r: Reg)
    ensures Xor(r, r) == ZERO && Xor(r, ZERO) == r
  {
  }

  lemma XorEqual(r: Reg, q: Reg)
    ensures Xor(r, q) == ZERO ==> r == q
  {
  }

  lemma XorAssociative(x: Reg, y: Reg, z: Reg)
    ensures Xor(Xor(x, y), z) == Xor(x, Xor(y, z))
  {
  }

  lemma XorCommutative(x: Reg, y: Reg)
    ensures Xor(x, y) == Xor(y, x)
  {
  }

  lemma XorShift(r: Reg, q: Reg)
    ensures Xor(Shift(r), Shift(q)) == Shift(Xor(r, q))
  {
  }

  lemma TopXor(r: Reg, q: Reg)
    ensures Top(Xor(r, q)) == (Top(r) != Top(q))
  {
    hide TopBit, Xor;
    TopBitXor(r.bits, q.bits);
    XorBitwise(r, q);
  }

  lemma XorBitwise(r: Reg, q: Reg)
    ensures Xor(r, q).bits == r.bits ^ q.bits
  {
  }

  lemma TopBitXor(x: bv16, y: bv16)
    ensures TopBit(x ^ y) == (TopBit(x) != TopBit(y))
  {
  }

  lemma FeedbackXor(a: bool, b: bool)
    ensures Xor(Feedback(a), Feedback(b)) == Feedback(a != b)
  {
  }

  // The polynomial's constant term is 1, so no nonzero register steps to zero on a clear bit.
  lemma StepToZero(d: Reg)
    ensures BitStep(d, false) == ZERO ==> d == ZERO
  {
  }

  lemma StepFromZero()
    ensures BitStep(ZERO, true).bits & 1 == 1 && BitStep(ZERO, false) == ZERO
  {
  }

  lemma StepLowBit(d: Reg, b: bool)
    ensures BitStep(d, b) == Shift(d) || BitStep(d, b).bits & 1 == 1
  {
  }

  lemma TopAndRest(x: Reg, y: Reg)
    ensures Top(x) == Top(y) && Shift(x) == Shift(y) ==> Xor(x, y) == ZERO
  {
  }

  // ---- shifting a register empty ----

  function ShiftedLeft(r: Reg, n: nat): Reg
    decreases n
  {
    if n == 0 then r else ShiftedLeft(Shift(r), n - 1)
  }

  lemma {:induction false} ShiftedLeftAdd(r: Reg, m: nat, n: nat)
    ensures ShiftedLeft(r, m + n) == ShiftedLeft(ShiftedLeft(r, m), n)
    decreases m
  {
    if m != 0 {
      ShiftedLeftAdd(Shift(r), m - 1, n);
    }
  }

  lemma ShiftReg(x: bv16)
    ensures Shift(Reg(x)) == Reg(x << 1)
  {
  }

  lemma ShiftSums(x: bv16)
    ensures (x << 1) << 1 == x << 2 && (x << 2) << 2 == x << 4 && (x << 4) << 4 == x << 8 && (x << 8) << 8 == 0
  {
  }

  lemma By2(x: bv16)
    ensures ShiftedLeft(Reg(x), 2) == Reg(x << 2)
  {
    hide Shift;
    ShiftReg(x);
    ShiftReg(x << 1);
    ShiftSums(x);
    assert ShiftedLeft(Reg(x), 2) == Shift(Shift(Reg(x)));
  }

  lemma By4(x: bv16)
    ensures ShiftedLeft(Reg(x), 4) == Reg(x << 4)
  {
    hide ShiftedLeft;
    ShiftedLeftAdd(Reg(x), 2, 2);
    By2(x);
    By2(x << 2);
    ShiftSums(x);
  }

  lemma By8(x: bv16)
    ensures ShiftedLeft(Reg(x), 8) == Reg(x << 8)
  {
    hide ShiftedLeft;
    ShiftedLeftAdd(Reg(x), 4, 4);
    By4(x);
    By4(x << 4);
    ShiftSums(x);
  }

  lemma By16(r: Reg)
    ensures ShiftedLeft(r, 16) == ZERO
  {
    hide ShiftedLeft;
    var x := r.bits;
    assert r == Reg(x);
    ShiftedLeftAdd(r, 8, 8);
    By8(x);
    By8(x << 8);
    ShiftSums(x);
  }

  lemma {:induction false} TopBitsInjective(x: Reg, y: Reg, n: nat)
    requires TopBits(x, n) == TopBits(y, n)
    requires ShiftedLeft(x, n) == ShiftedLeft(y, n)
    ensures x == y
    decreases n
  {
    hide Xor, Shift, Top;
    if n != 0 {
      assert TopBits(x, n)[0] == TopBits(y, n)[0];
      assert TopBits(x, n)[1..] == TopBits(Shift(x), n - 1);
      assert TopBits(y, n)[1..] == TopBits(Shift(y), n - 1);
      TopBitsInjective(Shift(x), Shift(y), n - 1);
      TopAndRest(x, y);
      XorEqual(x, y);
    }
  }

  lemma NumberInjective(r: Reg, q: Reg)
    requires Number(r) == Number(q)
    ensures r == q
  {
    hide Xor, Shift, Top, TopBits;
    ValueRoundTrip(TopBits(r, 16));
    ValueRoundTrip(TopBits(q, 16));
    By16(r);
    By16(q);
    TopBitsInjective(r, q, 16);
  }

  // ---- a byte is its eight bits ----

  function Pick(on: bool, mask: bv16): bv16 { if on then mask else 0 }

  // Eight bits in the top half of the register.
  function Packed(s: seq<bool>): Reg
    requires |s| == 8
  {
    Reg(Pick(s[0], 0x8000) | Pick(s[1], 0x4000) | Pick(s[2], 0x2000) | Pick(s[3], 0x1000)
        | Pick(s[4], 0x0800) | Pick(s[5], 0x0400) | Pick(s[6], 0x0200) | Pick(s[7], 0x0100))
  }

  // A byte moved to the top half of the register.
  function Lifted(b: byte): Reg {
    Packed(ByteBits(b))
  }

  lemma PackedShift(s: seq<bool>)
    requires |s| == 8
    ensures Top(Packed(s)) == s[0]
    ensures Shift(Packed(s)) == Packed(s[1..] + [false])
  {
    var t := s[1..] + [false];
    assert t[0] == s[1] && t[1] == s[2] && t[2] == s[3] && t[3] == s[4];
    assert t[4] == s[5] && t[5] == s[6] && t[6] == s[7] && t[7] == false;
  }

  lemma {:induction false} PackedBits(s: seq<bool>, n: nat)
    requires |s| == 8 && n <= 8
    requires forall k :: n <= k < 8 ==> !s[k]
    ensures TopBits(Packed(s), n) == s[..n]
    ensures ShiftedLeft(Packed(s), n) == ZERO
    decreases n
  {
    hide Shift, Top;
    if n == 0 {
      assert Packed(s) == ZERO;
    } else {
      hide Packed;
      PackedShift(s);
      PackedBits(s[1..] + [false], n - 1);
      assert (s[1..] + [false])[..n - 1] == s[1..n];
    }
  }

  lemma XorSwapMiddle(x: Reg, f: Reg, y: Reg, g: Reg)
    ensures Xor(Xor(x, f), Xor(y, g)) == Xor(Xor(x, y), Xor(f, g))
  {
    hide Xor;
    XorAssociative(Xor(x, f), y, g);
    XorAssociative(x, f, y);
    XorCommutative(f, y);
    XorAssociative(x, y, f);
    XorAssociative(Xor(x, y), f, g);
  }

  lemma StepLinear(r: Reg, q: Reg, a: bool, b: bool)
    ensures Xor(BitStep(r, a), BitStep(q, b)) == BitStep(Xor(r, q), a != b)
  {
    hide Xor, Shift, Top, Feedback;
    TopXor(r, q);
    XorSwapMiddle(Shift(r), Feedback(Top(r) != a), Shift(q), Feedback(Top(q) != b));
    XorShift(r, q);
    FeedbackXor(Top(r) != a, Top(q) != b);
  }

  lemma StepWithLifted(r: Reg, y: Reg)
    ensures BitStep(Xor(r, y), false) == Xor(BitStep(r, Top(y)), Shift(y))
  {
    hide Xor, Shift, Top, Feedback;
    StepLinear(r, y, Top(y), Top(y));
    assert BitStep(y, Top(y)) == Xor(Shift(y), Feedback(false));
    FeedbackXor(false, false);
    XorZero(Feedback(false));
    XorZero(Shift(y));
  }

  function Shifts(r: Reg, n: nat): Reg
    decreases n
  {
    if n == 0 then r else Shifts(BitStep(r, false), n - 1)
  }

  // XORing bits into the top and shifting is feeding them one by one.
  lemma {:induction false} FeedAtOnce(r: Reg, y: Reg, n: nat)
    ensures Shifts(Xor(r, y), n) == Xor(RunBits(r, TopBits(y, n)), ShiftedLeft(y, n))
    decreases n
  {
    hide Xor, Shift, Top, Feedback, BitStep;
    if n != 0 {
      StepWithLifted(r, y);
      FeedAtOnce(BitStep(r, Top(y)), Shift(y), n - 1);
      assert TopBits(y, n)[1..] == TopBits(Shift(y), n - 1);
    }
  }

  lemma ByteIsEightBits(r: Reg, b: byte)
    ensures Shifts(Xor(r, Lifted(b)), 8) == RunBits(r, ByteBits(b))
  {
    hide Xor, Shift, Top, Feedback, BitStep, Packed, RunBits, Shifts;
    FeedAtOnce(r, Lifted(b), 8);
    PackedBits(ByteBits(b), 8);
    assert ByteBits(b)[..8] == ByteBits(b);
    XorZero(RunBits(r, ByteBits(b)));
  }

  lemma {:induction false} RunConcat(r: Reg, a: seq<bool>, b: seq<bool>)
    ensures RunBits(r, a + b) == RunBits(RunBits(r, a), b)
    decreases |a|
  {
    hide BitStep;
    if a == [] {
      assert a + b == b;
    } else {
      RunConcat(BitStep(r, a[0]), a[1..], b);
      assert (a + b)[1..] == a[1..] + b;
    }
  }

  lemma {:induction false} BitsConcat(a: seq<byte>, b: seq<byte>)
    ensures Bits(a + b) == Bits(a) + Bits(b)
  {
    hide ByteBits;
    if a == [] {
      assert a + b == b;
    } else {
      BitsConcat(a[1..], b);
      assert (a + b)[1..] == a[1..] + b;
      Associative(ByteBits(a[0]), Bits(a[1..]), Bits(b));
    }
  }

  lemma Associative(a: seq<bool>, b: seq<bool>, c: seq<bool>)
    ensures (a + b) + c == a + (b + c)
  {
  }

  lemma RegisterExtend(data: seq<byte>, b: byte)
    ensures Register(data + [b]) == RunBits(Register(data), ByteBits(b))
  {
    hide BitStep, ByteBits;
    BitsConcat(data, [b]);
    assert Bits([b]) == ByteBits(b) by {
      assert [b][1..] == [];
      assert ByteBits(b) + [] == ByteBits(b);
    }
    RunConcat(INITIAL, Bits(data), Bits([b]));
  }

  // ---- registers as machine words ----

  function ValueOf(x: bv16): nat { x as int }

  function WordOf(r: Reg): nat { ValueOf(r.bits) }

  lemma Doubled(x: bv16)
    ensures (x << 1) as int == 2 * (x as int) - if x & 0x8000 != 0 then 0x1_0000 else 0
  {
  }

  lemma ValueDoubled(x: bv16)
    ensures ValueOf(x << 1) == 2 * ValueOf(x) - if TopBit(x) then 0x1_0000 else 0
  {
    Doubled(x);
  }

  lemma WordShifted(r: Reg)
    ensures WordOf(Shift(r)) == 2 * WordOf(r) - if Top(r) then 0x1_0000 else 0
  {
    hide ValueOf, Shift, TopBit;
    ShiftBits(r);
    ValueDoubled(r.bits);
  }

  lemma WordZero()
    ensures WordOf(ZERO) == 0
  {
  }

  lemma SameWord(r: Reg, q: Reg)
    requires WordOf(r) == WordOf(q)
    ensures r == q
  {
    assert r.bits as int as bv16 == r.bits && q.bits as int as bv16 == q.bits;
  }

  lemma {:induction false} DigitsInFront(b: bool, s: seq<bool>)
    ensures DigitsValue([b] + s) == (if b then Pow2(|s|) else 0) + DigitsValue(s)
    decreases |s|
  {
    if s == [] {
      assert [b] + s == [b] && [b][..0] == [];
    } else {
      var n := |s| - 1;
      DigitsInFront(b, s[..n]);
      assert ([b] + s)[..n + 1] == [b] + s[..n];
    }
  }

  lemma Scaled(p: nat, x: int, y: int, top: bool, v: int, rest: int)
    requires y == 2 * x - if top then 0x1_0000 else 0
    requires p * y == 0x1_0000 * v + rest
    ensures 2 * p * x == 0x1_0000 * ((if top then p else 0) + v) + rest
  {
    assert p * y == p * (2 * x) - p * if top then 0x1_0000 else 0;
  }

  // The n leading bits, and what is left of the word behind them.
  lemma {:induction false} WordSplits(r: Reg, n: nat)
    ensures Pow2(n) * WordOf(r) == 0x1_0000 * DigitsValue(TopBits(r, n)) + WordOf(ShiftedLeft(r, n))
    decreases n
  {
    hide Shift, Top, WordOf, DigitsValue;
    if n == 0 {
      NoDigits();
    } else {
      WordSplits(Shift(r), n - 1);
      WordShifted(r);
      DigitsInFront(Top(r), TopBits(Shift(r), n - 1));
      Scaled(Pow2(n - 1), WordOf(r), WordOf(Shift(r)), Top(r), DigitsValue(TopBits(Shift(r), n - 1)),
             WordOf(ShiftedLeft(Shift(r), n - 1)));
    }
  }

  lemma NoDigits()
    ensures DigitsValue([]) == 0
  {
  }

  // The number of a register is the value of the machine word.
  lemma NumberIsWord(r: Reg)
    ensures Number(r) == r.bits as int
  {
    WordIsNumber(r);
    hide Number;
  }

  lemma WordIsNumber(r: Reg)
    ensures Number(r) == WordOf(r)
  {
    hide ShiftedLeft, TopBits, DigitsValue, WordOf, Pow2;
    WordSplits(r, 16);
    By16(r);
    WordZero();
    SixteenBits();
  }

  lemma TopByte(x: bv8)
    ensures WordOf(Reg((x as bv16) << 8)) == 256 * (x as int)
  {
  }

  // The byte moved to the top half of the register is, for the machine byte of that value, byte << 8.
  lemma LiftedIsShifted(b: byte, machine: bv8)
    requires machine as int == b
    ensures Lifted(b) == Reg((machine as bv16) << 8) && Lifted(b).bits as int == 256 * b
  {
    LiftedWord(b);
    LiftedValue(b);
    hide Lifted, WordOf;
    TopByte(machine);
    SameWord(Lifted(b), Reg((machine as bv16) << 8));
  }

  lemma LiftedValue(b: byte)
    ensures Lifted(b).bits as int == WordOf(Lifted(b))
  {
    hide Lifted;
  }

  lemma LiftedWord(b: byte)
    ensures WordOf(Lifted(b)) == 256 * b
  {
    hide ShiftedLeft, TopBits, Packed, WordOf, Pow2, DigitsValue;
    WordSplits(Lifted(b), 8);
    PackedBits(ByteBits(b), 8);
    assert ByteBits(b)[..8] == ByteBits(b);
    SixteenBits();
    DigitsRoundTrip(b, 8);
    WordZero();
  }

  // The register after one more byte, as the inner loop computes it.
  method FeedByte(start: Reg, b: byte) returns (crc: Reg)
    ensures crc == RunBits(start, ByteBits(b))
  {
    hide Xor, Shift, Top, Packed, ByteBits, RunBits;
    ghost var fed := Xor(start, Lifted(b));
    crc := Xor(start, Lifted(b));
    var bit := 0;
    while bit < 8
      invariant 0 <= bit <= 8
      invariant Shifts(crc, 8 - bit) == Shifts(fed, 8)
    {
      XorZero(Shift(crc));
      if Top(crc) {
        crc := Xor(Shift(crc), Reg(0x1021));
      } else {
        crc := Shift(crc);
      }
      bit := bit + 1;
    }
    ByteIsEightBits(start, b);
  }

  method Crc16CcittFalse(data: seq<byte>) returns (number: u16)
    ensures number == Crc(data)
  {
    hide BitStep, ByteBits, RunBits, Number;
    var crc := INITIAL;
    assert Register([]) == INITIAL by { EmptyRegister(); }
    var index := 0;
    while index < |data|
      invariant 0 <= index <= |data|
      invariant crc == Register(data[..index])
    {
      crc := FeedByte(crc, data[index]);
      RegisterExtend(data[..index], data[index]);
      assert data[..index] + [data[index]] == data[..index + 1];
      index := index + 1;
    }
    assert data[..|data|] == data;
    NumberIsWord(crc);
    number := crc.bits as int;
  }

  lemma EmptyRegister()
    ensures Register([]) == INITIAL
  {
  }

  // ---- error detection ----

  function XorBits(a: seq<bool>, b: seq<bool>): (s: seq<bool>)
    requires |a| == |b|
    ensures |s| == |a|
    ensures forall k :: 0 <= k < |a| ==> s[k] == (a[k] != b[k])
  {
    seq(|a|, k requires 0 <= k < |a| => a[k] != b[k])
  }

  // The difference of two registers is the register of the difference of the bits fed to them.
  lemma {:induction false} RunLinear(r: Reg, q: Reg, a: seq<bool>, b: seq<bool>)
    requires |a| == |b|
    ensures Xor(RunBits(r, a), RunBits(q, b)) == RunBits(Xor(r, q), XorBits(a, b))
    decreases |a|
  {
    hide Xor, Shift, Top, Feedback, BitStep;
    if a != [] {
      StepLinear(r, q, a[0], b[0]);
      RunLinear(BitStep(r, a[0]), BitStep(q, b[0]), a[1..], b[1..]);
      assert XorBits(a, b)[1..] == XorBits(a[1..], b[1..]);
    }
  }

  lemma {:induction false} ClearBitsToZero(d: Reg, bits: seq<bool>)
    requires forall k :: 0 <= k < |bits| ==> !bits[k]
    requires RunBits(d, bits) == ZERO
    ensures d == ZERO
    decreases |bits|
  {
    hide BitStep;
    if bits != [] {
      ClearBitsToZero(BitStep(d, false), bits[1..]);
      StepToZero(d);
    }
  }

  // The same bits lead two registers to the same place only if they started together.
  lemma RunInjective(r: Reg, q: Reg, bits: seq<bool>)
    requires RunBits(r, bits) == RunBits(q, bits)
    ensures r == q
  {
    hide Xor, BitStep, RunBits;
    RunLinear(r, q, bits, bits);
    XorZero(RunBits(r, bits));
    ClearBitsToZero(Xor(r, q), XorBits(bits, bits));
    XorEqual(r, q);
  }

  lemma {:induction false} ZeroStaysZero(n: nat)
    ensures ShiftedLeft(ZERO, n) == ZERO
  {
    if n != 0 {
      ZeroStaysZero(n - 1);
    }
  }

  predicate SharesOneBit(r: bv16, bit: bv16) {
    bit & (bit - 1) == 0 && r & bit != 0
  }

  lemma SharedBitShifts(r: bv16, bit: bv16)
    requires SharesOneBit(r, bit)
    ensures SharesOneBit(r << 1, bit << 1) || bit << 1 == 0
  {
  }

  lemma ShiftBits(r: Reg)
    ensures Shift(r).bits == r.bits << 1
  {
  }

  lemma SharedBitNonzero(r: bv16, bit: bv16)
    requires SharesOneBit(r, bit)
    ensures r != 0
  {
  }

  // A single bit that survives n shifts keeps every register that has it away from zero.
  lemma {:induction false} BitSurvives(r: Reg, n: nat, bit: Reg)
    requires SharesOneBit(r.bits, bit.bits) && ShiftedLeft(bit, n) != ZERO
    ensures ShiftedLeft(r, n) != ZERO
    decreases n
  {
    hide SharesOneBit, Shift;
    if n == 0 {
      SharedBitNonzero(r.bits, bit.bits);
    } else {
      SharedBitShifts(r.bits, bit.bits);
      ShiftBits(r);
      ShiftBits(bit);
      if Shift(bit) == ZERO {
        ZeroStaysZero(n - 1);
      } else {
        BitSurvives(Shift(r), n - 1, Shift(bit));
      }
    }
  }

  lemma OneFifteenTimes()
    ensures ShiftedLeft(Reg(1), 15) == Reg(0x8000)
  {
    ShiftedLeftAdd(Reg(1), 8, 7);
    By8(1);
    ShiftedLeftAdd(Reg(0x100), 4, 3);
    By4(0x100);
    ShiftedLeftAdd(Reg(0x1000), 2, 1);
    By2(0x1000);
  }

  lemma LowBitSurvives(r: Reg, n: nat)
    requires n <= 15 && r.bits & 1 == 1
    ensures ShiftedLeft(r, n) != ZERO
  {
    if ShiftedLeft(Reg(1), n) == ZERO {
      ShiftedLeftAdd(Reg(1), n, 15 - n);
      ZeroStaysZero(15 - n);
      OneFifteenTimes();
      assert false;
    }
    BitSurvives(r, n, Reg(1));
  }

  // A register that n <= 16 more bits bring to zero has its low 16 - n bits clear.
  lemma {:induction false} ReachesZero(r: Reg, bits: seq<bool>)
    requires |bits| <= 16 && RunBits(r, bits) == ZERO
    ensures ShiftedLeft(r, |bits|) == ZERO
    decreases |bits|
  {
    hide BitStep, Shift;
    if bits != [] {
      var next := BitStep(r, bits[0]);
      ReachesZero(next, bits[1..]);
      StepLowBit(r, bits[0]);
      if next != Shift(r) {
        LowBitSurvives(next, |bits| - 1);
        assert false;
      }
    }
  }

  // From the zero register, at most 16 bits lead back to zero only if they are all clear.
  lemma {:induction false} NonzeroWindow(bits: seq<bool>)
    requires |bits| <= 16 && RunBits(ZERO, bits) == ZERO
    ensures forall k :: 0 <= k < |bits| ==> !bits[k]
    decreases |bits|
  {
    hide BitStep;
    if bits != [] {
      ReachesZero(BitStep(ZERO, bits[0]), bits[1..]);
      StepFromZero();
      if bits[0] {
        LowBitSurvives(BitStep(ZERO, true), |bits| - 1);
        assert false;
      }
      NonzeroWindow(bits[1..]);
    }
  }

  // Two bit strings that differ only inside a window of at most 16 bits leave different registers.
  lemma BurstBits(r: Reg, before: seq<bool>, a: seq<bool>, b: seq<bool>, after: seq<bool>)
    requires |a| == |b| <= 16
    requires RunBits(r, before + a + after) == RunBits(r, before + b + after)
    ensures a == b
  {
    hide Xor, RunBits;
    var start := RunBits(r, before);
    RunConcat(r, before, a);
    RunConcat(r, before + a, after);
    RunConcat(r, before, b);
    RunConcat(r, before + b, after);
    RunInjective(RunBits(start, a), RunBits(start, b), after);
    RunLinear(start, start, a, b);
    XorZero(start);
    XorZero(RunBits(start, a));
    NonzeroWindow(XorBits(a, b));
    forall k | 0 <= k < |a| ensures a[k] == b[k] {
      assert !XorBits(a, b)[k];
    }
  }

  lemma ByteBitsInjective(b: byte, c: byte)
    requires ByteBits(b) == ByteBits(c)
    ensures b == c
  {
    SixteenBits();
    DigitsRoundTrip(b, 8);
    DigitsRoundTrip(c, 8);
  }

  lemma {:induction false} BitsInjective(a: seq<byte>, b: seq<byte>)
    requires |a| == |b| && Bits(a) == Bits(b)
    ensures a == b
  {
    hide ByteBits;
    if a != [] {
      assert ByteBits(a[0]) == Bits(a)[..8];
      assert ByteBits(b[0]) == Bits(b)[..8];
      ByteBitsInjective(a[0], b[0]);
      assert Bits(a[1..]) == Bits(a)[8..];
      assert Bits(b[1..]) == Bits(b)[8..];
      BitsInjective(a[1..], b[1..]);
      assert a == [a[0]] + a[1..] && b == [b[0]] + b[1..];
    }
  }

  // Two messages of the same length whose bits differ only within `width` <= 16 consecutive
  // positions, starting anywhere, have the same checksum only if they are the same message.
  lemma BurstDetected(a: seq<byte>, b: seq<byte>, start: nat, width: nat)
    requires |a| == |b| && width <= 16 && start + width <= 8 * |a|
    requires forall k :: 0 <= k < 8 * |a| && !(start <= k < start + width) ==> Bits(a)[k] == Bits(b)[k]
    requires Crc(a) == Crc(b)
    ensures a == b
  {
    hide RunBits, Bits, Number;
    var x, y := Bits(a), Bits(b);
    NumberInjective(Register(a), Register(b));
    var end := start + width;
    SplitThree(x, x, start, end);
    SplitThree(x, y, start, end);
    BurstBits(INITIAL, x[..start], x[start..end], y[start..end], x[end..]);
    BitsInjective(a, b);
  }

  lemma SplitThree(x: seq<bool>, y: seq<bool>, start: nat, end: nat)
    requires start <= end <= |x| == |y|
    requires forall k :: 0 <= k < |x| && !(start <= k < end) ==> x[k] == y[k]
    ensures y == x[..start] + y[start..end] + x[end..]
  {
  }

  // In terms of bytes: a change inside two adjacent bytes always changes the checksum.
  lemma PairDetected(a: seq<byte>, b: seq<byte>, i: int)
    requires AgreeOutsidePair(a, b, i)
    requires Crc(a) == Crc(b)
    ensures a == b
  {
    hide RunBits, Bits, Number;
    var low := if i < 0 then 0 else if i > |a| then |a| else i;
    var high := if i + 2 < 0 then 0 else if i + 2 > |a| then |a| else i + 2;
    var before, after := a[..low], a[high..];
    assert a == before + a[low..high] + after;
    assert b == before + b[low..high] + after;
    BitsConcat(before, a[low..high]);
    BitsConcat(before + a[low..high], after);
    BitsConcat(before, b[low..high]);
    BitsConcat(before + b[low..high], after);
    NumberInjective(Register(a), Register(b));
    BurstBits(INITIAL, Bits(before), Bits(a[low..high]), Bits(b[low..high]), Bits(after));
    BitsInjective(a[low..high], b[low..high]);
  }
}
