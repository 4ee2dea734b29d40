// What the checksum is, independently of how it is computed: the remainder of a polynomial
// division over GF(2). A polynomial is the string of its coefficients, highest power first.

module CrcPolynomial {
  import opened Bytes
  import opened Crc16

  function Zeros(n: nat): (s: seq<bool>)
    ensures |s| == n
    ensures forall k :: 0 <= k < n ==> !s[k]
  {
    seq(n, _ => false)
  }

  function Ones(n: nat): (s: seq<bool>)
    ensures |s| == n
    ensures forall k :: 0 <= k < n ==> s[k]
  {
    seq(n, _ => true)
  }

  // x^16 + x^12 + x^5 + 1.
  const GENERATOR: seq<bool> := [true] + LOW_TERMS
  const LOW_TERMS: seq<bool> := [false, false, false, true, false, false, false, false,
                                 false, false, true, false, false, false, false, true]

  // Schoolbook multiplication: one shifted copy of g for every coefficient of q.
  function Times(q: seq<bool>, g: seq<bool>): (p: seq<bool>)
    requires |g| > 0
    ensures |p| == |q| + |g| - 1
  {
    if q == [] then
      Zeros(|g| - 1)
    else
      var n := |q| - 1;
      XorBits(Times(q[..n], g) + [false], Zeros(n) + if q[n] then g else Zeros(|g|))
  }

  // The message times x^16, with the all-ones initial value added in front.
  function Dividend(message: seq<bool>): (p: seq<bool>)
    ensures |p| == |message| + 16
  {
    XorBits(message + Zeros(16), Ones(16) + Zeros(|message|))
  }

  ghost predicate Divides(message: seq<bool>, quotient: seq<bool>, remainder: seq<bool>) {
    && |quotient| == |message|
    && |remainder| == 16
    && Dividend(message) == XorBits(Times(quotient, GENERATOR), Zeros(|message|) + remainder)
  }

  // ---- registers as polynomials ----

  lemma {:induction false} TopBitsXor(r: Reg, q: Reg, n: nat)
    ensures TopBits(Xor(r, q), n) == XorBits(TopBits(r, n), TopBits(q, n))
    decreases n
  {
    hide Xor, Shift, Top;
    if n != 0 {
      TopXor(r, q);
      XorShift(r, q);
      TopBitsXor(Shift(r), Shift(q), n - 1);
    }
  }

  lemma {:induction false} TopBitsExtend(r: Reg, n: nat)
    ensures TopBits(r, n + 1) == TopBits(r, n) + [Top(ShiftedLeft(r, n))]
    decreases n
  {
    hide Xor, Shift, Top;
    if n != 0 {
      TopBitsExtend(Shift(r), n - 1);
    }
  }

  lemma TopBitsShift(r: Reg)
    ensures TopBits(r, 16)[0] == Top(r)
    ensures TopBits(Shift(r), 16) == TopBits(r, 16)[1..] + [false]
  {
    hide Shift, Xor, TopBits, ShiftedLeft, Top;
    TopBitsPeel(r, 15);
    TopBitsPeel(r, 16);
    TopBitsExtend(r, 16);
    By16(r);
    TopOfZero();
    assert TopBits(Shift(r), 16) == TopBits(r, 17)[1..];
  }

  lemma TopBitsPeel(r: Reg, n: nat)
    ensures TopBits(r, n + 1) == [Top(r)] + TopBits(Shift(r), n)
  {
    hide Shift, Top;
  }

  lemma TopOfZero()
    ensures !Top(ZERO)
  {
  }

  lemma FeedbackTerms(on: bool)
    ensures TopBits(Feedback(on), 16) == if on then LOW_TERMS else Zeros(16)
  {
    TopBitsPoly();
    if !on { TopBitsZero(16); }
  }

  lemma {:induction false} TopBitsZero(n: nat)
    ensures TopBits(ZERO, n) == Zeros(n)
  {
    if n != 0 {
      assert Shift(ZERO) == ZERO;
      TopBitsZero(n - 1);
    }
  }

  lemma TopBitsPoly()
    ensures TopBits(Reg(0x1021), 16) == LOW_TERMS
  {
    hide TopBits;
    Peel4(0x1021, 0x2042, 0x4084, 0x8108, 0x0210, 16);
    Peel4(0x0210, 0x0420, 0x0840, 0x1080, 0x2100, 12);
    Peel4(0x2100, 0x4200, 0x8400, 0x0800, 0x1000, 8);
    Peel4(0x1000, 0x2000, 0x4000, 0x8000, 0x0000, 4);
    TopBitsNone(Reg(0));
  }

  lemma TopBitsNone(r: Reg)
    ensures TopBits(r, 0) == []
  {
  }

  // The four leading bits of a register, and what remains.
  lemma Peel4(x0: bv16, x1: bv16, x2: bv16, x3: bv16, x4: bv16, n: nat)
    requires n >= 4
    requires x1 == x0 << 1 && x2 == x1 << 1 && x3 == x2 << 1 && x4 == x3 << 1
    ensures TopBits(Reg(x0), n)
         == [TopBit(x0), TopBit(x1), TopBit(x2), TopBit(x3)] + TopBits(Reg(x4), n - 4)
  {
    hide TopBit, TopBits, Shift;
    ShiftReg(x0);
    ShiftReg(x1);
    ShiftReg(x2);
    ShiftReg(x3);
    Peel2(Reg(x0), n);
    Peel2(Reg(x2), n - 2);
  }

  lemma Peel2(r: Reg, n: nat)
    requires n >= 2
    ensures TopBits(r, n) == [Top(r), Top(Shift(r))] + TopBits(Shift(Shift(r)), n - 2)
  {
    hide Top, Shift;
  }

  lemma StepTerms(r: Reg, b: bool)
    ensures var t := TopBits(r, 16)[0] != b;
            TopBits(BitStep(r, b), 16)
            == XorBits(TopBits(r, 16)[1..] + [false], if t then LOW_TERMS else Zeros(16))
  {
    hide Shift, Xor, TopBits;
    TopBitsShift(r);
    var f := Feedback(Top(r) != b);
    TopBitsXor(Shift(r), f, 16);
    FeedbackTerms(Top(r) != b);
  }

  // ---- the register holds the remainder ----

  lemma DividendExtended(m: seq<bool>, b: bool, k: nat)
    requires k < |m| + 17
    ensures Dividend(m + [b])[k] == ((k < |m| + 16 && Dividend(m)[k]) != (k == |m| && b))
  {
  }

  lemma TimesExtended(q: seq<bool>, t: bool, k: nat)
    requires k < |q| + 17
    ensures Times(q + [t], GENERATOR)[k]
         == ((k < |q| + 16 && Times(q, GENERATOR)[k]) != (k >= |q| && t && GENERATOR[k - |q|]))
  {
    TimesExtend(q, t, GENERATOR);
    hide Times;
    var shifted := Zeros(|q|) + if t then GENERATOR else Zeros(17);
    assert shifted[k] == (k >= |q| && t && GENERATOR[k - |q|]);
  }

  lemma TimesExtend(q: seq<bool>, t: bool, g: seq<bool>)
    requires |g| > 0
    ensures Times(q + [t], g) == XorBits(Times(q, g) + [false], Zeros(|q|) + if t then g else Zeros(|g|))
  {
    assert (q + [t])[..|q|] == q;
  }

  // The coefficients of the division so far.
  lemma DividedAt(m: seq<bool>, q: seq<bool>, r: seq<bool>, k: nat)
    requires Divides(m, q, r) && k < |m| + 16
    ensures Dividend(m)[k] == (Times(q, GENERATOR)[k] != (k >= |m| && r[k - |m|]))
  {
    hide Times, Dividend;
    assert (Zeros(|m|) + r)[k] == (k >= |m| && r[k - |m|]);
  }

  // One step of long division brings down the message bit b.
  lemma DivisionStep(m: seq<bool>, q: seq<bool>, r: seq<bool>, b: bool, r': seq<bool>)
    requires Divides(m, q, r)
    requires r' == XorBits(r[1..] + [false], if r[0] != b then LOW_TERMS else Zeros(16))
    ensures Divides(m + [b], q + [r[0] != b], r')
  {
    var n, t := |m|, r[0] != b;
    var left := Dividend(m + [b]);
    var right := XorBits(Times(q + [t], GENERATOR), Zeros(n + 1) + r');
    hide Times, Dividend;
    forall k | 0 <= k < n + 17 ensures left[k] == right[k] {
      DividendExtended(m, b, k);
      TimesExtended(q, t, k);
      if k < n + 16 { DividedAt(m, q, r, k); }
      if k > n {
        assert r'[k - n - 1] == ((r[1..] + [false])[k - n - 1] != (t && LOW_TERMS[k - n - 1]));
      }
    }
  }

  lemma {:induction false} DivisionExists(message: seq<bool>) returns (quotient: seq<bool>)
    ensures Divides(message, quotient, TopBits(RunBits(INITIAL, message), 16))
  {
    hide BitStep, TopBits, RunBits;
    if message == [] {
      quotient := [];
      InitialTerms();
      assert Dividend([]) == Ones(16);
    } else {
      var n := |message| - 1;
      var m, b := message[..n], message[n];
      var q := DivisionExists(m);
      var r := RunBits(INITIAL, m);
      assert message == m + [b];
      RunConcat(INITIAL, m, [b]);
      RunOne(r, b);
      StepTerms(r, b);
      quotient := q + [TopBits(r, 16)[0] != b];
      DivisionStep(m, q, TopBits(r, 16), b, TopBits(BitStep(r, b), 16));
    }
  }

  lemma RunOne(r: Reg, b: bool)
    ensures RunBits(r, [b]) == BitStep(r, b)
  {
    hide BitStep;
    assert [b][1..] == [];
  }

  lemma InitialTerms()
    ensures TopBits(RunBits(INITIAL, []), 16) == Ones(16)
  {
    hide TopBits;
    Peel4(0xFFFF, 0xFFFE, 0xFFFC, 0xFFF8, 0xFFF0, 16);
    Peel4(0xFFF0, 0xFFE0, 0xFFC0, 0xFF80, 0xFF00, 12);
    Peel4(0xFF00, 0xFE00, 0xFC00, 0xF800, 0xF000, 8);
    Peel4(0xF000, 0xE000, 0xC000, 0x8000, 0x0000, 4);
    TopBitsNone(Reg(0));
  }

  // ---- remainders are unique ----

  lemma {:induction false} FirstDifference(q: seq<bool>, p: seq<bool>, j: nat)
    requires j < |q| == |p| && q[..j] == p[..j] && q[j] != p[j]
    ensures Times(q, GENERATOR)[j] != Times(p, GENERATOR)[j]
  {
    var n := |q| - 1;
    if j == n {
      assert q[..n] == p[..n];
    } else {
      assert q[..n][..j] == q[..j] && p[..n][..j] == p[..j];
      FirstDifference(q[..n], p[..n], j);
    }
  }

  // Above the remainder, the dividend is the product.
  lemma HighCoefficient(message: seq<bool>, q: seq<bool>, r: seq<bool>, j: nat)
    requires Divides(message, q, r) && j < |message|
    ensures Dividend(message)[j] == Times(q, GENERATOR)[j]
  {
    assert !(Zeros(|message|) + r)[j];
  }

  lemma LowCoefficient(message: seq<bool>, q: seq<bool>, r: seq<bool>, k: nat)
    requires Divides(message, q, r) && k < 16
    ensures Dividend(message)[|message| + k] == (Times(q, GENERATOR)[|message| + k] != r[k])
  {
    assert (Zeros(|message|) + r)[|message| + k] == r[k];
  }

  lemma DivisionUnique(message: seq<bool>, q: seq<bool>, r: seq<bool>, p: seq<bool>, s: seq<bool>)
    requires Divides(message, q, r) && Divides(message, p, s)
    ensures q == p && r == s
  {
    if q != p {
      var j := DifferenceAt(q, p);
      HighCoefficient(message, q, r, j);
      HighCoefficient(message, p, s, j);
      FirstDifference(q, p, j);
      assert false;
    }
    forall k | 0 <= k < 16 ensures r[k] == s[k] {
      LowCoefficient(message, q, r, k);
      LowCoefficient(message, p, s, k);
    }
  }

  lemma {:induction false} DifferenceAt(q: seq<bool>, p: seq<bool>) returns (j: nat)
    requires |q| == |p| && q != p
    ensures j < |q| && q[..j] == p[..j] && q[j] != p[j]
  {
    if q[0] != p[0] {
      j := 0;
    } else {
      j := DifferenceAt(q[1..], p[1..]);
      j := j + 1;
      assert q[..j] == [q[0]] + q[1..][..j - 1] && p[..j] == [p[0]] + p[1..][..j - 1];
    }
  }

  // The checksum is the one number whose 16 digits are the remainder of the message.
  lemma CrcIsRemainder(data: seq<byte>, remainder: seq<bool>)
    ensures (exists quotient :: Divides(Bits(data), quotient, remainder))
            <==> remainder == Digits(Crc(data), 16)
  {
    hide Bits, RunBits, TopBits, Digits, DigitsValue, Divides;
    var top := TopBits(Register(data), 16);
    var q := DivisionExists(Bits(data));
    assert Divides(Bits(data), q, top);
    ValueRoundTrip(top);
    assert Digits(Crc(data), 16) == top;
    if p :| Divides(Bits(data), p, remainder) {
      DivisionUnique(Bits(data), q, top, p, remainder);
    }
  }
}
