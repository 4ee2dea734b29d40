// Division facts shared by the deadline and the alignment proofs.

module Arithmetic {
  lemma Multiples(p: int, d: int)
    requires p > 0
    ensures d >= 1 ==> p * d >= p
    ensures d <= -1 ==> p * d <= -p
  {
  }

  lemma Distribute(p: int, n: int, m: int)
    ensures p * (n + m) == p * n + p * m
    ensures p * -m == -(p * m)
  {
  }

  lemma QuotientIs(x: int, p: int, q: int, r: int)
    requires p > 0 && x == p * q + r && 0 <= r < p
    ensures x / p == q
  {
    var d := x / p - q;
    assert p * d == r - x % p;
    Multiples(p, d);
  }

  lemma RemainderIs(x: int, p: int, q: int, r: int)
    requires p > 0 && x == p * q + r && 0 <= r < p
    ensures x % p == r
  {
    QuotientIs(x, p, q, r);
  }

  lemma QuotientStep(x: int, p: int)
    requires p > 0
    ensures (x - p) / p == x / p - 1
  {
    var q, r := x / p, x % p;
    assert x - p == p * (q - 1) + r;
    QuotientIs(x - p, p, q - 1, r);
  }

  lemma Associative(p: int, q: int, b: int)
    ensures p * (q * b) == (p * q) * b
  {
  }

  lemma RemainderBelow(p: int, q: int, r: int, c: int)
    requires 0 <= r < q && 0 <= c < p
    ensures 0 <= p * r + c < p * q
  {
    Distribute(p, r, q - r);
    Multiples(p, q - r);
    Multiples(p, r);
  }

  lemma DivideTwice(v: nat, p: nat, q: nat)
    requires p > 0 && q > 0
    ensures p * q > 0 && v / p / q == v / (p * q)
  {
    var a, c := v / p, v % p;
    var b, r := a / q, a % q;
    RemainderBelow(p, q, r, c);
    Distribute(p, q * b, r);
    Associative(p, q, b);
    QuotientIs(v, p * q, b, p * r + c);
  }
}
