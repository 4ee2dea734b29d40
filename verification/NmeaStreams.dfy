// The NMEA code as it runs: the parser's loops, the tokenizer with its field iterator, the builder
// writing into a buffer, and the insertion stream.

module NmeaStreams {
  import opened Bytes
  import opened Nmea

  method NmeaChecksum(body: Text) returns (checksum: byte)
    ensures checksum == Checksum(body)
  {
    hide Xor;
    checksum := 0;
    for k := 0 to |body|
      invariant checksum == Checksum(body[..k])
    {
      assert body[..k + 1][..k] == body[..k];
      checksum := Xor(checksum, body[k]);
    }
    assert body[..|body|] == body;
  }

  method Strip(sentence: Text) returns (s: Text)
    ensures s == Stripped(sentence)
  {
    s := sentence;
    while s != [] && (s[|s| - 1] == CR || s[|s| - 1] == LF)
      invariant Stripped(s) == Stripped(sentence)
      decreases |s|
    {
      s := s[..|s| - 1];
    }
  }

  method FindFrom(s: Text, c: byte, start: nat) returns (k: nat)
    requires start <= |s|
    ensures k == Find(s, c, start)
  {
    k := start;
    while k < |s| && s[k] != c
      invariant start <= k <= |s| && Find(s, c, k) == Find(s, c, start)
    {
      k := k + 1;
    }
  }

  method FindLastOf(s: Text, c: byte) returns (k: nat)
    ensures k == FindLast(s, c)
  {
    var n := |s|;
    while n > 0 && s[n - 1] != c
      invariant 0 <= n <= |s| && forall j :: n <= j < |s| ==> s[j] != c
    {
      n := n - 1;
    }
    k := if n > 0 then n - 1 else |s|;
  }

  // ---- the strict parser ----

  lemma {:induction false} FindBehind(s: Text, c: byte, from: nat, k: nat)
    requires from + k <= |s|
    ensures Find(s, c, from + k) == from + Find(s[from..], c, k)
    decreases |s| - from - k
  {
    if from + k < |s| && s[from + k] != c {
      FindBehind(s, c, from, k + 1);
    }
  }

  lemma SplitBehind(body: Text, start: nat)
    requires start <= |body|
    ensures var c := Find(body, COMMA, start);
            Split(body[start..]) == if c == |body| then [body[start..]] else [body[start..c]] + Split(body[c + 1..])
  {
    FindBehind(body, COMMA, start, 0);
    var c := Find(body, COMMA, start);
    assert body[start..][..c - start] == body[start..c];
    if c < |body| {
      assert body[start..][c - start + 1..] == body[c + 1..];
    }
  }

  // The loop over the fields behind the identifier.
  method ParseFields(body: Text, first: nat) returns (tooMany: bool, fields: seq<Text>)
    requires first <= |body|
    ensures tooMany == (|Split(body[first..])| > MAX_FIELDS)
    ensures fields == if tooMany then [] else Split(body[first..])
  {
    hide Split;
    fields := [];
    var start := first;
    while start <= |body|
      invariant first <= start <= |body| && |fields| <= MAX_FIELDS
      invariant fields + Split(body[start..]) == Split(body[first..])
      decreases |body| + 1 - start
    {
      if |fields| >= MAX_FIELDS {
        return true, [];
      }
      SplitBehind(body, start);
      var comma := FindFrom(body, COMMA, start);
      if comma == |body| {
        fields := fields + [body[start..]];
        return false, fields;
      }
      assert fields + ([body[start..comma]] + Split(body[comma + 1..]))
          == fields + [body[start..comma]] + Split(body[comma + 1..]);
      fields := fields + [body[start..comma]];
      start := comma + 1;
      if start == |body| {
        SplitBehind(body, start);
        if |fields| >= MAX_FIELDS {
          return true, [];
        }
        fields := fields + [[]];
        return false, fields;
      }
    }
  }

  method ParseBodyText(body: Text) returns (parsed: Parsed)
    ensures parsed == ParseBody(body)
  {
    SplitBehind(body, 0);
    assert body[0..] == body;
    hide Split;
    var firstComma := FindFrom(body, COMMA, 0);
    var identifier := body[..firstComma];
    if |identifier| != IDENTIFIER_SIZE {
      return Parsed(BadIdentifier, identifier, []);
    }
    if firstComma == |body| {
      return Parsed(ParseOk, identifier, []);
    }
    var tooMany, fields := ParseFields(body, firstComma + 1);
    if tooMany {
      return Parsed(TooManyFields, [], []);
    }
    return Parsed(ParseOk, identifier, fields);
  }

  method ParseSentence(sentence: Text) returns (parsed: Parsed)
    ensures parsed == Parse(sentence)
  {
    hide Checksum, ParseBody, Stripped;
    var s := Strip(sentence);
    if s == [] {
      return Parsed(Empty, [], []);
    }
    if s[0] != DOLLAR {
      return Parsed(MissingStart, [], []);
    }
    var star := FindLastOf(s, STAR);
    if star == |s| || star + 3 != |s| {
      return Parsed(MissingChecksum, [], []);
    }
    var high, low := HexValue(s[star + 1]), HexValue(s[star + 2]);
    if high == None || low == None {
      return Parsed(BadChecksumText, [], []);
    }
    var checksum := NmeaChecksum(s[1..star]);
    if checksum != 16 * high.value + low.value {
      return Parsed(ChecksumMismatch, [], []);
    }
    parsed := ParseBodyText(s[1..star]);
  }

  // ---- building ----

  // Formats text and a closing NUL into the buffer, cutting off what does not fit, and says how long
  // the text would have been.
  method PrintInto(destination: array<byte>, text: Text) returns (written: nat)
    requires destination.Length > 0
    modifies destination
    ensures written == |text|
    ensures var n := if |text| < destination.Length then |text| else destination.Length - 1;
            destination[..] == Spliced(old(destination[..]), 0, text[..n] + [NUL])
  {
    var n := if |text| < destination.Length then |text| else destination.Length - 1;
    CopyForward(destination, 0, text[..n] + [NUL]);
    written := |text|;
  }

  method BuildSentence(body: Text, destination: array<byte>) returns (ok: bool, length: nat)
    requires destination.Length == MAX_SENTENCE_SIZE
    modifies destination
    ensures ok == Build(body).Some?
    ensures ok ==>
              && length == |Build(body).value| < MAX_SENTENCE_SIZE
              && destination[..] == Spliced(old(destination[..]), 0, Build(body).value + [NUL])
    ensures !ok ==> length == 0 && destination[0] == NUL
  {
    hide Checksum, HexDigit, SealedWith, Spliced;
    var checksum := NmeaChecksum(body);
    var stop := FindFrom(body, NUL, 0);
    var written := PrintInto(destination, SealedWith(body[..stop], checksum) + [CR, LF]);
    if written >= destination.Length {
      destination[0] := NUL;
      return false, 0;
    }
    assert Formatted(body)[..written] == Formatted(body);
    return true, written;
  }

  // ---- the tokenizer ----

  // Walks over the fields of a payload, one at a time.
  class FieldIterator {
    const payload: Text
    var start: nat
    var next: nat
    var atEnd: bool
    var current: Text

    ghost predicate Valid()
      reads this
    {
      !atEnd ==>
        && start <= |payload| && current == Split(payload[start..])[0]
        && (if next == |payload| + 1 then Split(payload[start..]) == [current]
            else next <= |payload| && Split(payload[start..]) == [current] + Split(payload[next..]))
    }

    // The fields not yet passed.
    ghost function Remaining(): seq<Text>
      reads this
      requires Valid()
    {
      if atEnd then [] else Split(payload[start..])
    }

    constructor (payload: Text)
      ensures Valid() && this.payload == payload && Remaining() == Split(payload)
    {
      this.payload := payload;
      start, next, atEnd, current := 0, 0, false, [];
      new;
      ComputeCurrent();
      assert payload[0..] == payload;
    }

    lemma CurrentIsNext()
      requires Valid()
      ensures if atEnd then Remaining() == [] else Remaining() != [] && Remaining()[0] == current
    {
      hide Split;
    }

    method ComputeCurrent()
      requires start <= |payload| && !atEnd
      modifies this`next, this`current
      ensures Valid()
    {
      SplitBehind(payload, start);
      var comma := FindFrom(payload, COMMA, start);
      if comma == |payload| {
        current := payload[start..];
        next := |payload| + 1;
        return;
      }
      current := payload[start..comma];
      next := comma + 1;
    }

    method Advance()
      requires Valid()
      modifies this
      ensures Valid()
      ensures Remaining() == if old(Remaining()) == [] then [] else old(Remaining())[1..]
    {
      if atEnd {
        return;
      }
      if next == |payload| + 1 {
        atEnd := true;
        current := [];
        return;
      }
      start := next;
      ComputeCurrent();
    }
  }

  class Tokenizer {
    var sentence: Text
    var identifier: Text
    var payload: Text
    var hasPayload: bool
    var fieldCount: nat
    var checksumValid: bool
    var status: TokenStatus

    ghost function View(): Tokens
      reads this
    {
      Tokens(status, checksumValid, identifier, if hasPayload then Some(payload) else None)
    }

    constructor (sentence: Text)
      ensures View() == Tokenize(sentence)
      ensures fieldCount == |View().Fields()|
    {
      this.sentence := sentence;
      identifier, payload, hasPayload, fieldCount, checksumValid, status := [], [], false, 0, false, TokenOk;
      new;
      ParseIt();
    }

    method ParseIt()
      modifies this
      ensures View() == Tokenize(old(sentence)) && fieldCount == |View().Fields()|
    {
      hide Checksum, TokenizeBody, Split, Stripped;
      identifier, payload, hasPayload, fieldCount, checksumValid, status := [], [], false, 0, false, TokenOk;
      sentence := Strip(sentence);
      if sentence == [] {
        status := EmptyInput;
        return;
      }
      if sentence[0] != DOLLAR {
        status := MissingStartDelimiter;
        return;
      }
      var star := FindFrom(sentence, STAR, 0);
      if star == |sentence| {
        status := MissingChecksumDelimiter;
        return;
      }
      if star + 2 >= |sentence| {
        status := MissingChecksumValue;
        return;
      }
      var high, low := HexValue(sentence[star + 1]), HexValue(sentence[star + 2]);
      if high == None || low == None {
        status := InvalidChecksumValue;
        return;
      }
      var actual := NmeaChecksum(sentence[1..star]);
      checksumValid := actual == 16 * high.value + low.value;
      ParseBetween(sentence[1..star]);
    }

    method ParseBetween(between: Text)
      requires identifier == [] && !hasPayload && fieldCount == 0 && status == TokenOk
      modifies this`identifier, this`payload, this`hasPayload, this`fieldCount, this`status
      ensures View() == TokenizeBody(between, checksumValid) && fieldCount == |View().Fields()|
    {
      if |between| < IDENTIFIER_SIZE {
        status := MissingIdentifier;
        return;
      }
      identifier := between[..5];
      if |between| == 5 {
        assert between[..5] == between;
        return;
      }
      if between[5] != COMMA {
        status := InvalidIdentifierLength;
        return;
      }
      hasPayload := true;
      payload := between[6..];
      var commas := CountCommas(payload);
      fieldCount := commas + 1;
    }

    method CollectFields() returns (fields: seq<Text>)
      ensures fields == View().Fields()
    {
      fields := [];
      if hasPayload {
        fields := CollectAll(payload);
      }
    }
  }

  lemma MoveFirst(fields: seq<Text>, rest: seq<Text>)
    requires rest != []
    ensures fields + rest == fields + [rest[0]] + rest[1..]
  {
  }

  // The fields, taken one by one from begin to end.
  method CollectAll(payload: Text) returns (fields: seq<Text>)
    ensures fields == Split(payload)
  {
    hide *;
    fields := [];
    var it := new FieldIterator(payload);
    it.CurrentIsNext();
    while !it.atEnd
      invariant it.Valid() && fresh(it)
      invariant fields + it.Remaining() == Split(payload)
      invariant if it.atEnd then it.Remaining() == [] else it.Remaining() != [] && it.Remaining()[0] == it.current
      decreases |it.Remaining()|
    {
      MoveFirst(fields, it.Remaining());
      fields := fields + [it.current];
      it.Advance();
      it.CurrentIsNext();
    }
  }

  function Commas(s: Text): nat {
    if s == [] then 0 else Commas(s[..|s| - 1]) + if s[|s| - 1] == COMMA then 1 else 0
  }

  lemma {:induction false} CommasJoin(a: Text, b: Text)
    ensures Commas(a + b) == Commas(a) + Commas(b)
    decreases |b|
  {
    if b == [] {
      assert a + b == a;
    } else {
      assert (a + b)[..|a + b| - 1] == a + b[..|b| - 1];
      CommasJoin(a, b[..|b| - 1]);
    }
  }

  lemma {:induction false} NoCommas(s: Text)
    requires COMMA !in s
    ensures Commas(s) == 0
    decreases |s|
  {
    if s != [] {
      NoCommas(s[..|s| - 1]);
    }
  }

  // Counting commas counts fields.
  lemma {:induction false} CommasAreFields(s: Text)
    ensures |Split(s)| == Commas(s) + 1
    decreases |s|
  {
    var c := Find(s, COMMA, 0);
    if c == |s| {
      NoCommas(s);
    } else {
      var a, b: Text := s[..c], [COMMA];
      CommasAreFields(s[c + 1..]);
      NoCommas(a);
      assert b[..0] == [] && Commas(b) == 1;
      CommasJoin(a, b);
      CommasJoin(a + b, s[c + 1..]);
      assert s == a + b + s[c + 1..];
    }
  }

  method CountCommas(s: Text) returns (commas: nat)
    ensures commas + 1 == |Split(s)|
  {
    commas := 0;
    for k := 0 to |s|
      invariant commas == Commas(s[..k])
    {
      assert s[..k + 1][..k] == s[..k];
      if s[k] == COMMA {
        commas := commas + 1;
      }
    }
    assert s[..|s|] == s;
    CommasAreFields(s);
  }

  // ---- the insertion stream ----

  class InsertionStream {
    var sentence: Text
    var finalized: bool
    var status: TokenStatus

    ghost function View(): Insertion
      reads this
    {
      Insertion(sentence, finalized, status)
    }

    constructor (identifier: Text)
      ensures View() == Begin(identifier)
    {
      sentence, finalized, status := [], false, TokenOk;
      if |identifier| != IDENTIFIER_SIZE {
        status := InvalidIdentifierLength;
      } else {
        sentence := [DOLLAR] + identifier;
      }
    }

    method SetError(e: TokenStatus)
      modifies this`status
      ensures View() == old(View()).Fail(e)
    {
      if status == TokenOk {
        status := e;
      }
    }

    method WriteString(v: Text)
      modifies this
      ensures View() == old(View()).Write(v)
    {
      if status != TokenOk {
        return;
      }
      if finalized {
        SetError(AlreadyFinalized);
        return;
      }
      sentence := sentence + [COMMA];
      sentence := sentence + v;
    }

    method WriteChar(v: byte)
      modifies this
      ensures View() == old(View()).Write([v])
    {
      WriteString([v]);
    }

    method WriteEmpty()
      modifies this
      ensures View() == old(View()).Write([])
    {
      if status != TokenOk {
        return;
      }
      if finalized {
        SetError(AlreadyFinalized);
        return;
      }
      sentence := sentence + [COMMA];
      assert sentence + [] == sentence;
    }

    method WriteOptionalString(v: Option<Text>)
      modifies this
      ensures View() == old(View()).Write(if v.Some? then v.value else [])
    {
      if v == None {
        WriteEmpty();
      } else {
        WriteString(v.value);
      }
    }

    method Finalize(appendCrlf: bool)
      modifies this
      ensures View() == old(View()).Finalize(appendCrlf)
    {
      if status != TokenOk {
        return;
      }
      if finalized {
        return;
      }
      if sentence == [] || sentence[0] != DOLLAR {
        SetError(MissingStartDelimiter);
        return;
      }
      var checksum := NmeaChecksum(sentence[1..]);
      sentence := sentence + [STAR, HexDigit(checksum / 16), HexDigit(checksum % 16)];
      if appendCrlf {
        sentence := sentence + [CR, LF];
      } else {
        assert sentence + [] == sentence;
      }
      finalized := true;
    }
  }
}
