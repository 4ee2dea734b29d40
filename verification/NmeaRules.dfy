// NMEA sentences character by character: the checksum bit by bit, and for every text what each parser
// makes of it.

module NmeaRules {
  import opened Arithmetic
  import opened Bytes
  import opened Nmea
  import opened NmeaTheorems

  // ---- the checksum ----

  function Bit(x: nat, k: nat): nat {
    x / Pow2(k) % 2
  }

  // How many characters have bit k set.
  function CountBit(s: Text, k: nat): nat {
    if s == [] then 0 else CountBit(s[..|s| - 1], k) + Bit(s[|s| - 1], k)
  }

  lemma HalveBit(x: nat, k: nat)
    requires k > 0
    ensures Bit(x, k) == Bit(x / 2, k - 1)
  {
    DivideTwice(x, 2, Pow2(k - 1));
  }

  lemma HalveSum(c: nat, y: nat)
    requires c < 2
    ensures (c + 2 * y) / 2 == y && (c + 2 * y) % 2 == c
  {
  }

  lemma XorHalves(a: nat, b: nat, n: nat)
    requires n > 0
    ensures XorBits(a, b, n) % 2 == (a + b) % 2 && XorBits(a, b, n) / 2 == XorBits(a / 2, b / 2, n - 1)
  {
    HalveSum((a + b) % 2, XorBits(a / 2, b / 2, n - 1));
  }

  lemma {:induction false} XorBitAt(a: nat, b: nat, n: nat, k: nat)
    requires k < n
    ensures Bit(XorBits(a, b, n), k) == (Bit(a, k) + Bit(b, k)) % 2
    decreases n
  {
    hide Bit, XorBits;
    XorHalves(a, b, n);
    if k == 0 {
      LowBit(XorBits(a, b, n));
      LowBit(a);
      LowBit(b);
    } else {
      HalveBit(XorBits(a, b, n), k);
      HalveBit(a, k);
      HalveBit(b, k);
      XorBitAt(a / 2, b / 2, n - 1, k - 1);
    }
  }

  lemma LowBit(x: nat)
    ensures Bit(x, 0) == x % 2
  {
  }

  // Bit k of the checksum is set exactly if an odd number of characters have it.
  lemma {:induction false} ChecksumIsParity(s: Text, k: nat)
    requires k < 8
    ensures Bit(Checksum(s), k) == CountBit(s, k) % 2
    decreases |s|
  {
    hide Bit, XorBits;
    if s == [] {
      NoBit(k);
    } else {
      var front, last := s[..|s| - 1], s[|s| - 1];
      ChecksumIsParity(front, k);
      XorBitAt(Checksum(front), last, 8, k);
    }
  }

  lemma NoBit(k: nat)
    ensures Bit(0, k) == 0
  {
    QuotientIs(0, Pow2(k), 0, 0);
  }

  // Eight bits make a character: no other checksum has these.
  lemma {:induction false} BitsDetermine(x: nat, y: nat, n: nat)
    requires x < Pow2(n) && y < Pow2(n)
    requires forall k :: 0 <= k < n ==> Bit(x, k) == Bit(y, k)
    ensures x == y
    decreases n
  {
    if n > 0 {
      forall k | 0 <= k < n - 1 ensures Bit(x / 2, k) == Bit(y / 2, k) {
        HalveBit(x, k + 1);
        HalveBit(y, k + 1);
      }
      LowBit(x);
      LowBit(y);
      assert Bit(x, 0) == Bit(y, 0);
      hide Bit;
      BitsDetermine(x / 2, y / 2, n - 1);
    }
  }

  // So a character is the checksum of a text if and only if each of its eight bits is the parity.
  lemma ChecksumExactly(s: Text, c: byte)
    ensures c == Checksum(s) <==> forall k :: 0 <= k < 8 ==> Bit(c, k) == CountBit(s, k) % 2
  {
    hide Checksum, Bit, CountBit;
    forall k | 0 <= k < 8 ensures Bit(Checksum(s), k) == CountBit(s, k) % 2 {
      ChecksumIsParity(s, k);
    }
    if forall k :: 0 <= k < 8 ==> Bit(c, k) == CountBit(s, k) % 2 {
      EightBits();
      BitsDetermine(c, Checksum(s), 8);
    }
  }

  // ---- hexadecimal digits ----

  predicate IsHex(c: byte) {
    0x30 <= c <= 0x39 || 0x41 <= c <= 0x46 || 0x61 <= c <= 0x66
  }

  function HexNumber(c: byte): nat
    requires IsHex(c)
  {
    if c <= 0x39 then c - 0x30 else if c <= 0x46 then c - 0x37 else c - 0x57
  }

  lemma HexExactly(c: byte)
    ensures HexValue(c) == if IsHex(c) then Some(HexNumber(c)) else None
  {
  }

  // ---- the text without its line ends ----

  lemma {:induction false} StrippedExactly(s: Text)
    ensures var t := Stripped(s);
            && t <= s && LineEnds(s[|t|..])
            && (t == [] || (t[|t| - 1] != 0x0D && t[|t| - 1] != 0x0A))
    decreases |s|
  {
    if s != [] && (s[|s| - 1] == CR || s[|s| - 1] == LF) {
      var front := s[..|s| - 1];
      StrippedExactly(front);
      var t := Stripped(front);
      forall k | |t| <= k < |s| ensures s[k] == 0x0D || s[k] == 0x0A {
        if k < |s| - 1 { assert front[|t|..][k - |t|] == s[k]; }
      }
    }
  }

  // ---- the strict parser ----

  // A checksum of two digits behind a star that is the third character from the end.
  predicate Closed(s: Text) {
    |s| >= 3 && s[|s| - 3] == 0x2A && s[|s| - 2] != 0x2A && s[|s| - 1] != 0x2A
  }

  predicate Numbered(s: Text)
    requires |s| >= 3
  {
    IsHex(s[|s| - 2]) && IsHex(s[|s| - 1])
  }

  function Stated(s: Text): nat
    requires |s| >= 3 && Numbered(s)
  {
    16 * HexNumber(s[|s| - 2]) + HexNumber(s[|s| - 1])
  }

  lemma LastStar(s: Text)
    requires s != [] && s[0] != STAR
    ensures var star := FindLast(s, STAR);
            star != |s| && star + 3 == |s| <==> Closed(s)
  {
  }

  // For every text: the first reason to refuse it, or its parts.
  lemma ParseDecides(sentence: Text)
    ensures var (s, p) := (Stripped(sentence), Parse(sentence));
            if s == [] then p == Parsed(Empty, [], [])
            else if s[0] != 0x24 then p == Parsed(MissingStart, [], [])
            else if !Closed(s) then p == Parsed(MissingChecksum, [], [])
            else if !Numbered(s) then p == Parsed(BadChecksumText, [], [])
            else if Checksum(s[1..|s| - 3]) != Stated(s) then p == Parsed(ChecksumMismatch, [], [])
            else
              var parts := Split(s[1..|s| - 3]);
              if |parts[0]| != 5 then p == Parsed(BadIdentifier, parts[0], [])
              else if |parts| > 9 then p == Parsed(TooManyFields, [], [])
              else p == Parsed(ParseOk, parts[0], parts[1..])
  {
    hide Stripped, Checksum, Split, HexValue, IsHex, HexNumber, FindLast;
    var s := Stripped(sentence);
    if s != [] && s[0] == DOLLAR {
      LastStar(s);
      if Closed(s) {
        HexExactly(s[|s| - 2]);
        HexExactly(s[|s| - 1]);
      }
    }
  }

  // The parts of a body: no part has a comma, and joined by commas they are the body. There is one
  // more of them than there are commas.
  lemma SplitExactly(body: Text, parts: seq<Text>)
    ensures parts == Split(body)
       <==> && parts != [] && (forall k :: 0 <= k < |parts| ==> 0x2C !in parts[k])
            && JoinFields(parts) == body
  {
    JoinSplit(body);
    SplitHasNoComma(body);
    if parts != [] && (forall k :: 0 <= k < |parts| ==> COMMA !in parts[k]) && JoinFields(parts) == body {
      SplitJoin(parts);
    }
    hide Split, JoinFields;
  }

  // ---- the tokenizer ----

  // For every text, with its first star at the given place.
  lemma TokenizeDecides(sentence: Text, star: nat)
    requires star <= |Stripped(sentence)|
    requires forall j :: 0 <= j < star ==> Stripped(sentence)[j] != 0x2A
    requires star < |Stripped(sentence)| ==> Stripped(sentence)[star] == 0x2A
    ensures var (s, t) := (Stripped(sentence), Tokenize(sentence));
            if s == [] then t == Tokens(EmptyInput, false, [], None)
            else if s[0] != 0x24 then t == Tokens(MissingStartDelimiter, false, [], None)
            else if star == |s| then t == Tokens(MissingChecksumDelimiter, false, [], None)
            else if |s| < star + 3 then t == Tokens(MissingChecksumValue, false, [], None)
            else if !IsHex(s[star + 1]) || !IsHex(s[star + 2]) then t == Tokens(InvalidChecksumValue, false, [], None)
            else
              var body := s[1..star];
              var right := Checksum(body) == 16 * HexNumber(s[star + 1]) + HexNumber(s[star + 2]);
              if |body| < 5 then t == Tokens(MissingIdentifier, right, [], None)
              else if |body| == 5 then t == Tokens(TokenOk, right, body, None)
              else if body[5] != 0x2C then t == Tokens(InvalidIdentifierLength, right, body[..5], None)
              else t == Tokens(TokenOk, right, body[..5], Some(body[6..]))
  {
    hide Stripped, Checksum, HexValue, IsHex, HexNumber, Find;
    var s := Stripped(sentence);
    FindAt(s, STAR, star);
    if star + 2 < |s| {
      HexExactly(s[star + 1]);
      HexExactly(s[star + 2]);
    }
  }

  // ---- building ----

  // What is built: a dollar, the body up to its first NUL, a star, two upper-case digits of the whole
  // body's checksum, and a line end; if that and a closing NUL fit 256 characters.
  lemma BuildExactly(body: Text, n: nat)
    requires n <= |body| && (forall j :: 0 <= j < n ==> body[j] != 0) && (n < |body| ==> body[n] == 0)
    ensures Build(body).Some? <==> n <= 249
    ensures Build(body).Some? ==>
              var t := Build(body).value;
              && |t| == n + 6 && t[0] == 0x24 && t[1..n + 1] == body[..n] && t[n + 1] == 0x2A
              && (0x30 <= t[n + 2] <= 0x39 || 0x41 <= t[n + 2] <= 0x46)
              && (0x30 <= t[n + 3] <= 0x39 || 0x41 <= t[n + 3] <= 0x46)
              && 16 * HexNumber(t[n + 2]) + HexNumber(t[n + 3]) == Checksum(body)
              && t[n + 4] == 0x0D && t[n + 5] == 0x0A
  {
    hide Checksum, Find;
    FindAt(body, NUL, n);
  }

  // ---- inserting ----

  // A sentence begins with a dollar and an identifier of five characters, or not at all; each field
  // puts a comma before it until the sentence is finished or wrong; finishing puts the checksum of
  // everything behind the dollar, and a second time does nothing.
  lemma InsertionExactly(i: Insertion, identifier: Text, field: Text, crlf: bool)
    ensures Begin(identifier)
         == if |identifier| == 5 then Insertion([0x24] + identifier, false, TokenOk)
            else Insertion([], false, InvalidIdentifierLength)
    ensures i.Write(field)
         == if i.status != TokenOk then i
            else if i.finalized then Insertion(i.sentence, true, AlreadyFinalized)
            else Insertion(i.sentence + [0x2C] + field, false, TokenOk)
    ensures var f := i.Finalize(crlf);
            if i.status != TokenOk || i.finalized then f == i
            else if i.sentence == [] || i.sentence[0] != 0x24 then
              f == Insertion(i.sentence, false, MissingStartDelimiter)
            else
              var n := |i.sentence|;
              && f.finalized && f.status == TokenOk && |f.sentence| == n + (if crlf then 5 else 3)
              && f.sentence[..n] == i.sentence && f.sentence[n] == 0x2A
              && IsHex(f.sentence[n + 1]) && IsHex(f.sentence[n + 2])
              && 16 * HexNumber(f.sentence[n + 1]) + HexNumber(f.sentence[n + 2]) == Checksum(i.sentence[1..])
              && (crlf ==> f.sentence[n + 3] == 0x0D && f.sentence[n + 4] == 0x0A)
  {
    hide Checksum;
  }
}
