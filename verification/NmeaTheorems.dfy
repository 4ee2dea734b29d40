// Sentences come back as they were built, and the two parsers agree.

module NmeaTheorems {
  import opened Bytes
  import opened Nmea

  // ---- what a sealed body parses as ----

  predicate LineEnds(tail: Text) {
    forall k :: 0 <= k < |tail| ==> tail[k] == CR || tail[k] == LF
  }

  lemma {:induction false} StrippedTail(s: Text, tail: Text)
    requires LineEnds(tail) && s != [] && s[|s| - 1] != CR && s[|s| - 1] != LF
    ensures Stripped(s + tail) == s
    decreases |tail|
  {
    if tail == [] {
      assert s + tail == s;
    } else {
      var n := |tail| - 1;
      assert (s + tail)[..|s + tail| - 1] == s + tail[..n];
      StrippedTail(s, tail[..n]);
    }
  }

  lemma SealedParts(body: Text, checksum: byte)
    ensures var s := SealedWith(body, checksum);
            && |s| == |body| + 4 && s[0] == DOLLAR && s[|body| + 1] == STAR && s[1..|body| + 1] == body
            && HexValue(s[|body| + 2]) == Some(checksum / 16) && HexValue(s[|body| + 3]) == Some(checksum % 16)
            && s[|body| + 2] != STAR && s[|body| + 3] != STAR && s[|body| + 3] != CR && s[|body| + 3] != LF
  {
    hide HexDigit;
    HexRoundTrip(checksum / 16);
    HexRoundTrip(checksum % 16);
  }

  // Any body at all, with any line ends behind: the parser sees that body, if the digits fit it.
  lemma ParseSealed(body: Text, checksum: byte, tail: Text)
    requires LineEnds(tail)
    ensures Parse(SealedWith(body, checksum) + tail)
         == if Checksum(body) == checksum then ParseBody(body) else Parsed(ChecksumMismatch, [], [])
  {
    hide Checksum, ParseBody, HexValue, SealedWith;
    SealedParts(body, checksum);
    var s := SealedWith(body, checksum);
    StrippedTail(s, tail);
    assert FindLast(s, STAR) == |body| + 1;
  }

  // The tokenizer sees it if it holds no star.
  lemma TokenizeSealed(body: Text, tail: Text)
    requires LineEnds(tail) && STAR !in body
    ensures Tokenize(Sealed(body) + tail) == TokenizeBody(body, true)
  {
    hide Checksum, TokenizeBody, HexValue, SealedWith;
    SealedParts(body, Checksum(body));
    StrippedTail(Sealed(body), tail);
    var s := Sealed(body);
    assert forall j :: 1 <= j < |body| + 1 ==> s[j] == s[1..|body| + 1][j - 1];
    FindAt(s, STAR, |body| + 1);
  }

  // ---- build, then parse ----

  lemma BuildSealed(body: Text)
    requires NUL !in body
    ensures Formatted(body) == Sealed(body) + [CR, LF]
  {
    hide Checksum, HexDigit;
    FindAt(body, NUL, |body|);
  }

  // What is built from a body without NULs parses back exactly if its identifier has five characters
  // and there are at most eight fields; then identifier and fields join to the body again.
  lemma BuildThenParse(body: Text)
    requires NUL !in body && Build(body).Some?
    ensures var p := Parse(Build(body).value);
            && (p.status == ParseOk <==> |Split(body)[0]| == IDENTIFIER_SIZE && |Split(body)| <= MAX_FIELDS + 1)
            && (p.status == ParseOk ==>
                  |p.identifier| == IDENTIFIER_SIZE && JoinFields([p.identifier] + p.fields) == body
                  && COMMA !in p.identifier && forall k :: 0 <= k < |p.fields| ==> COMMA !in p.fields[k])
  {
    BuildSealed(body);
    ParseSealed(body, Checksum(body), [CR, LF]);
    JoinSplit(body);
    SplitHasNoComma(body);
    hide Parse, Build, Split, JoinFields;
    var parts := Split(body);
    assert [parts[0]] + parts[1..] == parts;
  }

  // It fits exactly if it is at most 249 characters long.
  lemma BuildFits(body: Text)
    requires NUL !in body
    ensures Build(body).Some? <==> |body| <= 249
  {
    BuildSealed(body);
    hide Checksum, HexDigit, Formatted;
    assert |Sealed(body)| == |body| + 4;
  }

  // ---- what the parser accepts ----

  // An accepted sentence is a dollar, a body, a star, the body's checksum in two digits, and line ends.
  lemma AcceptedIs(sentence: Text)
    requires Parse(sentence).status == ParseOk
    ensures var s := Stripped(sentence);
            && |s| >= 9 && s[0] == DOLLAR && s[|s| - 3] == STAR
            && Parse(sentence) == ParseBody(s[1..|s| - 3])
            && (exists high, low :: HexValue(s[|s| - 2]) == Some(high) && HexValue(s[|s| - 1]) == Some(low)
                                 && Checksum(s[1..|s| - 3]) == 16 * high + low)
            && JoinFields([Parse(sentence).identifier] + Parse(sentence).fields) == s[1..|s| - 3]
  {
    var s := Stripped(sentence);
    hide Checksum, HexValue, Stripped, Split, JoinFields;
    var body := s[1..|s| - 3];
    JoinSplit(body);
    var parts := Split(body);
    assert [parts[0]] + parts[1..] == parts;
    FirstPartInside(body);
  }

  lemma FirstPartInside(body: Text)
    ensures |Split(body)[0]| <= |body|
  {
  }

  // ---- the parsers agree ----

  lemma BodyAgreement(body: Text, checksumValid: bool)
    requires ParseBody(body).status == ParseOk
    ensures var t := TokenizeBody(body, checksumValid);
            t.status == TokenOk && t.identifier == ParseBody(body).identifier && t.Fields() == ParseBody(body).fields
  {
    SplitFirst(body);
    hide Split;
  }

  lemma SplitFirst(body: Text)
    ensures var c := Find(body, COMMA, 0);
            && Split(body)[0] == body[..c]
            && (c == |body| ==> Split(body)[1..] == [])
            && (c < |body| ==> Split(body)[1..] == Split(body[c + 1..]))
  {
  }

  predicate OneStar(s: Text) {
    forall j :: 0 <= j < |s| - 3 ==> s[j] != STAR
  }

  // Whatever the strict parser accepts, if it holds just the one star, the tokenizer accepts with the
  // same identifier and the same fields.
  lemma ParsersAgree(sentence: Text)
    requires Parse(sentence).status == ParseOk && OneStar(Stripped(sentence))
    ensures var (p, t) := (Parse(sentence), Tokenize(sentence));
            t.Valid() && t.identifier == p.identifier && t.Fields() == p.fields
  {
    hide Checksum, HexValue, Stripped, ParseBody, Tokens.Fields, FindLast, Find;
    var s := Stripped(sentence);
    var star := FindLast(s, STAR);
    assert star + 3 == |s|;
    FindAt(s, STAR, star);
    BodyAgreement(s[1..star], true);
  }

  lemma BodyAgreementBack(body: Text)
    requires TokenizeBody(body, true).status == TokenOk && COMMA !in TokenizeBody(body, true).identifier
    requires |TokenizeBody(body, true).Fields()| <= MAX_FIELDS
    ensures ParseBody(body).status == ParseOk
  {
    if |body| > 5 {
      assert forall j :: 0 <= j < 5 ==> body[j] == body[..5][j];
    }
    FindAt(body, COMMA, 5);
    SplitFirst(body);
    hide Split;
  }

  // Conversely: a valid tokenization is also strictly parsed if its identifier has no comma, there are
  // at most eight fields and nothing but line ends follows the checksum.
  lemma ParsersAgreeBack(sentence: Text)
    requires Tokenize(sentence).Valid()
    requires COMMA !in Tokenize(sentence).identifier && |Tokenize(sentence).Fields()| <= MAX_FIELDS
    requires var s := Stripped(sentence); s != [] && Find(s, STAR, 0) + 3 == |s|
    ensures Parse(sentence).status == ParseOk
  {
    hide Checksum, Stripped, ParseBody, Tokens.Fields, HexValue;
    var s := Stripped(sentence);
    var star := Find(s, STAR, 0);
    assert s[0] == DOLLAR && star + 2 < |s|;
    HexIsNotStar(s[star + 1]);
    HexIsNotStar(s[star + 2]);
    assert FindLast(s, STAR) == star;
    BodyAgreementBack(s[1..star]);
  }

  lemma HexIsNotStar(c: byte)
    ensures HexValue(c).Some? ==> c != STAR
  {
  }

  // ---- insert, then tokenize ----

  lemma {:induction false} WriteAllIs(s: Insertion, fields: seq<Text>)
    requires s.status == TokenOk && !s.finalized
    ensures s.WriteAll(fields)
         == s.(sentence := s.sentence + if fields == [] then [] else [COMMA] + JoinFields(fields))
    decreases |fields|
  {
    if fields == [] {
      assert s.sentence + [] == s.sentence;
    } else {
      var t := s.Write(fields[0]);
      WriteAllIs(t, fields[1..]);
      if |fields| > 1 {
        var rest := JoinFields(fields[1..]);
        assert s.sentence + [COMMA] + fields[0] + ([COMMA] + rest)
            == s.sentence + ([COMMA] + (fields[0] + [COMMA] + rest));
      } else {
        assert t.sentence + [] == s.sentence + ([COMMA] + fields[0]);
      }
    }
  }

  function BodyOf(identifier: Text, fields: seq<Text>): Text {
    identifier + if fields == [] then [] else [COMMA] + JoinFields(fields)
  }

  function Inserted(identifier: Text, fields: seq<Text>, crlf: bool): Insertion {
    Begin(identifier).WriteAll(fields).Finalize(crlf)
  }

  lemma InsertedIs(identifier: Text, fields: seq<Text>, crlf: bool)
    requires |identifier| == IDENTIFIER_SIZE
    ensures Inserted(identifier, fields, crlf)
         == Insertion(Sealed(BodyOf(identifier, fields)) + (if crlf then [CR, LF] else []), true, TokenOk)
  {
    hide Checksum, HexDigit, JoinFields;
    WriteAllIs(Begin(identifier), fields);
    var body := BodyOf(identifier, fields);
    var u := Begin(identifier).WriteAll(fields);
    assert u.sentence == [DOLLAR] + body;
    assert u.sentence[1..] == body;
    var hh := [STAR, HexDigit(Checksum(body) / 16), HexDigit(Checksum(body) % 16)];
    assert u.sentence + hh == Sealed(body);
  }

  predicate Clean(identifier: Text, fields: seq<Text>) {
    STAR !in identifier && forall k :: 0 <= k < |fields| ==> STAR !in fields[k] && COMMA !in fields[k]
  }

  lemma {:induction false} JoinHasNoStar(fields: seq<Text>)
    requires fields != [] && forall k :: 0 <= k < |fields| ==> STAR !in fields[k]
    ensures STAR !in JoinFields(fields)
    decreases |fields|
  {
    if |fields| > 1 {
      JoinHasNoStar(fields[1..]);
    }
  }

  // What the tokenizer hands out never holds a star, its fields no comma.
  lemma TokensAreClean(sentence: Text)
    ensures var t := Tokenize(sentence); Clean(t.identifier, t.Fields())
  {
    var t := Tokenize(sentence);
    hide Checksum, HexValue, Stripped, Split;
    if t.payload.Some? {
      var fields := Split(t.payload.value);
      SplitHasNoComma(t.payload.value);
      assert STAR !in t.payload.value;
      forall k | 0 <= k < |fields| ensures STAR !in fields[k] {
        SplitElements(t.payload.value, STAR, k);
      }
    }
  }

  lemma CleanComesBack(identifier: Text, fields: seq<Text>, tail: Text)
    requires |identifier| == IDENTIFIER_SIZE && Clean(identifier, fields) && LineEnds(tail)
    ensures var t := Tokenize(Sealed(BodyOf(identifier, fields)) + tail);
            t.Valid() && t.identifier == identifier && t.Fields() == fields
  {
    hide Tokenize, Sealed, Split, JoinFields;
    var body := BodyOf(identifier, fields);
    if fields != [] {
      JoinHasNoStar(fields);
      SplitJoin(fields);
      assert body[..5] == identifier && body[5] == COMMA && body[6..] == JoinFields(fields);
    } else {
      assert body == identifier;
    }
    assert STAR !in body;
    TokenizeSealed(body, tail);
  }

  // Fields written through the insertion stream come back unchanged through the tokenizer exactly if
  // they hold no comma and no star and the identifier no star, with or without line end.
  lemma InsertThenTokenize(identifier: Text, fields: seq<Text>, crlf: bool)
    requires |identifier| == IDENTIFIER_SIZE
    ensures var t := Tokenize(Inserted(identifier, fields, crlf).sentence);
            t.Valid() && t.identifier == identifier && t.Fields() == fields <==> Clean(identifier, fields)
  {
    hide Tokenize, Inserted, Sealed, Tokens.Fields;
    InsertedIs(identifier, fields, crlf);
    var tail: Text := if crlf then [CR, LF] else [];
    TokensAreClean(Sealed(BodyOf(identifier, fields)) + tail);
    if Clean(identifier, fields) {
      CleanComesBack(identifier, fields, tail);
    }
  }

  // ---- one damaged character ----

  lemma LowBits(a: nat, b: nat, c: nat, x: nat, y: nat)
    requires (a + c) % 2 + 2 * x == (b + c) % 2 + 2 * y
    ensures a % 2 == b % 2 && x == y
  {
  }

  lemma Halved(a: nat, n: nat)
    requires a < Pow2(n) && n > 0
    ensures a / 2 < Pow2(n - 1) && a == 2 * (a / 2) + a % 2
  {
  }

  lemma {:induction false} XorBitsInjective(a: nat, b: nat, c: nat, n: nat)
    requires a < Pow2(n) && b < Pow2(n)
    requires XorBits(a, c, n) == XorBits(b, c, n)
    ensures a == b
    decreases n
  {
    if n > 0 {
      LowBits(a, b, c, XorBits(a / 2, c / 2, n - 1), XorBits(b / 2, c / 2, n - 1));
      Halved(a, n);
      Halved(b, n);
      hide XorBits, Pow2;
      XorBitsInjective(a / 2, b / 2, c / 2, n - 1);
    }
  }

  lemma {:induction false} XorBitsCommutes(a: nat, b: nat, n: nat)
    ensures XorBits(a, b, n) == XorBits(b, a, n)
    decreases n
  {
    if n > 0 {
      XorBitsCommutes(a / 2, b / 2, n - 1);
    }
  }

  lemma XorInjective(a: byte, b: byte, c: byte)
    ensures Xor(a, c) == Xor(b, c) ==> a == b
    ensures Xor(c, a) == Xor(c, b) ==> a == b
  {
    hide XorBits, Pow2;
    EightBits();
    XorBitsCommutes(c, a, 8);
    XorBitsCommutes(c, b, 8);
    if XorBits(a, c, 8) == XorBits(b, c, 8) {
      XorBitsInjective(a, b, c, 8);
    }
  }

  // Bodies that differ in exactly one character have different checksums.
  lemma {:induction false} OneCharacterDetected(a: Text, b: Text, k: nat)
    requires |a| == |b| && k < |a| && a[k] != b[k]
    requires forall j :: 0 <= j < |a| && j != k ==> a[j] == b[j]
    ensures Checksum(a) != Checksum(b)
    decreases |a|
  {
    hide Xor;
    var n := |a| - 1;
    if k == n {
      assert a[..n] == b[..n];
      XorInjective(a[n], b[n], Checksum(a[..n]));
    } else {
      OneCharacterDetected(a[..n], b[..n], k);
      XorInjective(Checksum(a[..n]), Checksum(b[..n]), a[n]);
    }
  }

  // A sentence one character of whose body was exchanged, for whatever other character, is rejected.
  lemma DamagedSentenceRejected(body: Text, damaged: Text, k: nat, tail: Text)
    requires |damaged| == |body| && k < |body| && damaged[k] != body[k]
    requires forall j :: 0 <= j < |body| && j != k ==> damaged[j] == body[j]
    requires LineEnds(tail)
    ensures Parse(SealedWith(damaged, Checksum(body)) + tail).status == ChecksumMismatch
  {
    hide Checksum, Parse, SealedWith;
    OneCharacterDetected(body, damaged, k);
    ParseSealed(damaged, Checksum(body), tail);
  }
}
