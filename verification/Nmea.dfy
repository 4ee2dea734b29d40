// NMEA sentences as functions on characters: the strict parser and the builder of the monitoring
// protocol, the tokenizer and the insertion stream of the common library.

module Nmea {
  import opened Bytes

  const DOLLAR: byte := 0x24
  const STAR: byte := 0x2A
  const COMMA: byte := 0x2C
  const CR: byte := 0x0D
  const LF: byte := 0x0A
  const NUL: byte := 0

  const MAX_SENTENCE_SIZE := 256
  const MAX_FIELDS := 8
  const IDENTIFIER_SIZE := 5

  type Text = seq<byte>

  // ---- searching ----

  // Where c first occurs at or behind from; the length if it does not.
  function Find(s: Text, c: byte, from: nat): (k: nat)
    requires from <= |s|
    ensures from <= k <= |s|
    ensures k < |s| ==> s[k] == c
    ensures forall j :: from <= j < k ==> s[j] != c
    decreases |s| - from
  {
    if from == |s| || s[from] == c then from else Find(s, c, from + 1)
  }

  function FindLast(s: Text, c: byte): (k: nat)
    ensures k <= |s|
    ensures k < |s| ==> s[k] == c && forall j :: k < j < |s| ==> s[j] != c
    ensures k == |s| ==> c !in s
  {
    if s == [] then 0
    else if s[|s| - 1] == c then |s| - 1
    else
      var k := FindLast(s[..|s| - 1], c);
      assert s == s[..|s| - 1] + [s[|s| - 1]];
      if k == |s| - 1 then |s| else k
  }

  function Stripped(s: Text): (t: Text)
    ensures t <= s
    ensures t != [] ==> t[|t| - 1] != CR && t[|t| - 1] != LF
  {
    if s != [] && (s[|s| - 1] == CR || s[|s| - 1] == LF) then Stripped(s[..|s| - 1]) else s
  }

  // ---- fields ----

  function Split(s: Text): (parts: seq<Text>)
    ensures parts != []
    decreases |s|
  {
    var c := Find(s, COMMA, 0);
    if c == |s| then [s] else [s[..c]] + Split(s[c + 1..])
  }

  function JoinFields(parts: seq<Text>): Text
    requires parts != []
    decreases |parts|
  {
    if |parts| == 1 then parts[0] else parts[0] + [COMMA] + JoinFields(parts[1..])
  }

  lemma {:induction false} JoinSplit(s: Text)
    ensures JoinFields(Split(s)) == s
    decreases |s|
  {
    var c := Find(s, COMMA, 0);
    if c < |s| {
      JoinSplit(s[c + 1..]);
      assert Split(s)[1..] == Split(s[c + 1..]);
      assert s == s[..c] + [COMMA] + s[c + 1..];
    }
  }

  lemma FindAt(s: Text, c: byte, k: nat)
    requires k <= |s| && (k < |s| ==> s[k] == c) && forall j :: 0 <= j < k ==> s[j] != c
    ensures Find(s, c, 0) == k
  {
  }

  lemma {:induction false} SplitJoin(parts: seq<Text>)
    requires parts != [] && forall k :: 0 <= k < |parts| ==> COMMA !in parts[k]
    ensures Split(JoinFields(parts)) == parts
    decreases |parts|
  {
    var s := JoinFields(parts);
    if |parts| == 1 {
      FindAt(s, COMMA, |s|);
    } else {
      var c := |parts[0]|;
      SplitJoin(parts[1..]);
      assert s[c] == COMMA && s[..c] == parts[0] && s[c + 1..] == JoinFields(parts[1..]);
      FindAt(s, COMMA, c);
    }
  }

  lemma {:induction false} SplitHasNoComma(s: Text)
    ensures forall k :: 0 <= k < |Split(s)| ==> COMMA !in Split(s)[k]
    decreases |s|
  {
    var c := Find(s, COMMA, 0);
    if c < |s| {
      SplitHasNoComma(s[c + 1..]);
    }
  }

  lemma {:induction false} SplitElements(s: Text, c: byte, k: nat)
    requires c !in s && k < |Split(s)|
    ensures c !in Split(s)[k]
    decreases |s|
  {
    var i := Find(s, COMMA, 0);
    if i < |s| && k > 0 {
      SplitElements(s[i + 1..], c, k - 1);
    }
  }

  // ---- checksum and hexadecimal ----

  // Exclusive or of the lowest n bits, bit by bit.
  function XorBits(a: nat, b: nat, n: nat): (x: nat)
    ensures x < Pow2(n)
    decreases n
  {
    if n == 0 then 0 else (a + b) % 2 + 2 * XorBits(a / 2, b / 2, n - 1)
  }

  lemma EightBits()
    ensures Pow2(8) == 256
  {
    assert Pow2(4) == 16;
  }

  function Xor(a: byte, b: byte): byte {
    EightBits();
    XorBits(a, b, 8)
  }

  function Checksum(s: Text): byte {
    if s == [] then 0 else Xor(Checksum(s[..|s| - 1]), s[|s| - 1])
  }

  function HexDigit(n: nat): byte
    requires n < 16
  {
    if n < 10 then 0x30 + n else 0x41 + (n - 10)
  }

  function HexValue(c: byte): (v: Option<nat>)
    ensures v.Some? ==> v.value < 16
  {
    if 0x30 <= c <= 0x39 then Some(c - 0x30)
    else if 0x41 <= c <= 0x46 then Some(10 + (c - 0x41))
    else if 0x61 <= c <= 0x66 then Some(10 + (c - 0x61))
    else None
  }

  lemma HexRoundTrip(n: nat)
    requires n < 16
    ensures HexValue(HexDigit(n)) == Some(n)
    ensures HexDigit(n) != STAR && HexDigit(n) != CR && HexDigit(n) != LF
  {
  }

  // A dollar, the body, a star and two digits.
  function SealedWith(body: Text, checksum: byte): Text {
    [DOLLAR] + body + [STAR, HexDigit(checksum / 16), HexDigit(checksum % 16)]
  }

  function Sealed(body: Text): Text {
    SealedWith(body, Checksum(body))
  }

  // ---- building ----

  // What formatting with %s makes of the text: it stops at the first NUL.
  function CString(s: Text): Text {
    s[..Find(s, NUL, 0)]
  }

  // The whole sentence; its checksum is that of the body, its text stops at the first NUL.
  function Formatted(body: Text): Text {
    SealedWith(CString(body), Checksum(body)) + [CR, LF]
  }

  function Build(body: Text): Option<Text> {
    if |Formatted(body)| >= MAX_SENTENCE_SIZE then None else Some(Formatted(body))
  }

  // ---- the strict parser ----

  datatype ParseStatus =
    | ParseOk | Empty | MissingStart | MissingChecksum | BadChecksumText | ChecksumMismatch | BadIdentifier
    | TooManyFields

  datatype Parsed = Parsed(status: ParseStatus, identifier: Text, fields: seq<Text>)

  function ParseBody(body: Text): Parsed {
    var parts := Split(body);
    if |parts[0]| != IDENTIFIER_SIZE then Parsed(BadIdentifier, parts[0], [])
    else if |parts| - 1 > MAX_FIELDS then Parsed(TooManyFields, [], [])
    else Parsed(ParseOk, parts[0], parts[1..])
  }

  function Parse(sentence: Text): Parsed {
    var s := Stripped(sentence);
    if s == [] then Parsed(Empty, [], [])
    else if s[0] != DOLLAR then Parsed(MissingStart, [], [])
    else
      var star := FindLast(s, STAR);
      if star == |s| || star + 3 != |s| then Parsed(MissingChecksum, [], [])
      else
        var high, low := HexValue(s[star + 1]), HexValue(s[star + 2]);
        if high == None || low == None then Parsed(BadChecksumText, [], [])
        else if Checksum(s[1..star]) != 16 * high.value + low.value then Parsed(ChecksumMismatch, [], [])
        else ParseBody(s[1..star])
  }

  // ---- the tokenizer ----

  datatype TokenStatus =
    | TokenOk | EmptyInput | MissingStartDelimiter | MissingChecksumDelimiter | MissingChecksumValue
    | InvalidChecksumValue | MissingIdentifier | InvalidIdentifierLength | AlreadyFinalized

  datatype Tokens = Tokens(status: TokenStatus, checksumValid: bool, identifier: Text, payload: Option<Text>) {
    predicate Valid() { status == TokenOk && checksumValid }

    function Fields(): seq<Text> { if payload.Some? then Split(payload.value) else [] }
  }

  function TokenizeBody(between: Text, checksumValid: bool): Tokens {
    if |between| < IDENTIFIER_SIZE then Tokens(MissingIdentifier, checksumValid, [], None)
    else if |between| == IDENTIFIER_SIZE then Tokens(TokenOk, checksumValid, between, None)
    else if between[5] != COMMA then Tokens(InvalidIdentifierLength, checksumValid, between[..5], None)
    else Tokens(TokenOk, checksumValid, between[..5], Some(between[6..]))
  }

  function Tokenize(sentence: Text): Tokens {
    var s := Stripped(sentence);
    if s == [] then Tokens(EmptyInput, false, [], None)
    else if s[0] != DOLLAR then Tokens(MissingStartDelimiter, false, [], None)
    else
      var star := Find(s, STAR, 0);
      if star == |s| then Tokens(MissingChecksumDelimiter, false, [], None)
      else if star + 2 >= |s| then Tokens(MissingChecksumValue, false, [], None)
      else
        var high, low := HexValue(s[star + 1]), HexValue(s[star + 2]);
        if high == None || low == None then Tokens(InvalidChecksumValue, false, [], None)
        else TokenizeBody(s[1..star], Checksum(s[1..star]) == 16 * high.value + low.value)
  }

  // ---- inserting ----

  // A sentence under construction.
  datatype Insertion = Insertion(sentence: Text, finalized: bool, status: TokenStatus) {
    function Fail(e: TokenStatus): Insertion {
      if status == TokenOk then this.(status := e) else this
    }

    function Write(field: Text): Insertion {
      if status != TokenOk then this
      else if finalized then Fail(AlreadyFinalized)
      else this.(sentence := sentence + [COMMA] + field)
    }

    function WriteAll(fields: seq<Text>): Insertion
      decreases |fields|
    {
      if fields == [] then this else Write(fields[0]).WriteAll(fields[1..])
    }

    function Finalize(crlf: bool): Insertion {
      if status != TokenOk || finalized then this
      else if sentence == [] || sentence[0] != DOLLAR then Fail(MissingStartDelimiter)
      else
        var between := sentence[1..];
        Insertion(sentence + [STAR, HexDigit(Checksum(between) / 16), HexDigit(Checksum(between) % 16)]
                  + (if crlf then [CR, LF] else []), true, TokenOk)
    }
  }

  function Begin(identifier: Text): Insertion {
    if |identifier| != IDENTIFIER_SIZE then Insertion([], false, InvalidIdentifierLength)
    else Insertion([DOLLAR] + identifier, false, TokenOk)
  }
}
