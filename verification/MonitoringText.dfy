// The texts of the monitoring protocol: numbers, report types, and what a device makes of a sentence.

module MonitoringText {
  import opened Bytes
  import opened Nmea
  import opened NmeaTheorems

  datatype ReportType = StatusReport | HealthReport | TemperatureReport | PressureReport | WindReport | DiagnosticReport

  // STS, HLT, TMP, PRS, WND and DIA.
  function Code(report: ReportType): (s: Text)
    ensures |s| == 3
  {
    match report
    case StatusReport => [0x53, 0x54, 0x53]
    case HealthReport => [0x48, 0x4C, 0x54]
    case TemperatureReport => [0x54, 0x4D, 0x50]
    case PressureReport => [0x50, 0x52, 0x53]
    case WindReport => [0x57, 0x4E, 0x44]
    case DiagnosticReport => [0x44, 0x49, 0x41]
  }

  // Characters as their codes.
  function TextOf(s: string): Text
    requires forall k :: 0 <= k < |s| ==> s[k] < 128 as char
  {
    seq(|s|, k requires 0 <= k < |s| => s[k] as int)
  }

  lemma CodesExactly()
    ensures Code(StatusReport) == TextOf("STS") && Code(HealthReport) == TextOf("HLT")
    ensures Code(TemperatureReport) == TextOf("TMP") && Code(PressureReport) == TextOf("PRS")
    ensures Code(WindReport) == TextOf("WND") && Code(DiagnosticReport) == TextOf("DIA")
    ensures SUB == TextOf("WXSUB") && UNSUB == TextOf("WXUSB")
  {
  }

  function ParseReportType(text: Text): Option<ReportType> {
    if text == Code(StatusReport) then Some(StatusReport)
    else if text == Code(HealthReport) then Some(HealthReport)
    else if text == Code(TemperatureReport) then Some(TemperatureReport)
    else if text == Code(PressureReport) then Some(PressureReport)
    else if text == Code(WindReport) then Some(WindReport)
    else if text == Code(DiagnosticReport) then Some(DiagnosticReport)
    else None
  }

  lemma CodesDiffer(a: ReportType, b: ReportType)
    requires a != b
    ensures Code(a) != Code(b)
  {
    assert Code(a)[0] != Code(b)[0];
  }

  // A text is a report type's if and only if it is that type's code.
  lemma ReportTypeExactly(text: Text, report: ReportType)
    ensures ParseReportType(text) == Some(report) <==> text == Code(report)
  {
    var p := ParseReportType(text);
    assert p.Some? ==> text == Code(p.value);
    if text == Code(report) && p.Some? && p.value != report {
      CodesDiffer(p.value, report);
    }
    hide Code;
  }

  // ---- decimal numbers ----

  const DIGIT_ZERO: byte := 0x30

  predicate AllDigits(text: Text) {
    forall k :: 0 <= k < |text| ==> DIGIT_ZERO <= text[k] < DIGIT_ZERO + 10
  }

  function DecimalValue(text: Text): nat
    requires AllDigits(text)
  {
    if text == [] then 0 else 10 * DecimalValue(text[..|text| - 1]) + (text[|text| - 1] - DIGIT_ZERO)
  }

  // What the library's conversion takes when it has to take the whole text: digits, leading zeros
  // included, of a value that fits 32 bits.
  function ParseUnsigned(text: Text): Option<u32> {
    if text == [] || !AllDigits(text) || DecimalValue(text) >= 0x1_0000_0000 then None else Some(DecimalValue(text))
  }

  // A number as printed.
  function Decimal(v: nat): (text: Text)
    ensures text != [] && AllDigits(text)
  {
    if v < 10 then [DIGIT_ZERO + v] else Decimal(v / 10) + [DIGIT_ZERO + v % 10]
  }

  lemma {:induction false} DecimalIsValue(v: nat)
    ensures DecimalValue(Decimal(v)) == v
  {
    if v >= 10 {
      DecimalIsValue(v / 10);
      assert Decimal(v)[..|Decimal(v)| - 1] == Decimal(v / 10);
    }
  }

  // Printed numbers are read back, but for those that do not fit.
  lemma PrintedIsRead(v: nat)
    ensures ParseUnsigned(Decimal(v)) == if v < 0x1_0000_0000 then Some(v) else None
  {
    DecimalIsValue(v);
    hide Decimal, DecimalValue;
  }

  function Zeros(n: nat): (text: Text)
    ensures |text| == n && AllDigits(text)
  {
    seq(n, _ => DIGIT_ZERO)
  }

  lemma {:induction false} ZerosCountNothing(n: nat, text: Text)
    requires AllDigits(text)
    ensures AllDigits(Zeros(n) + text) && DecimalValue(Zeros(n) + text) == DecimalValue(text)
    decreases |text|
  {
    var whole := Zeros(n) + text;
    if text == [] {
      assert whole == Zeros(n);
      OnlyZeros(n);
    } else {
      assert whole[..|whole| - 1] == Zeros(n) + text[..|text| - 1];
      ZerosCountNothing(n, text[..|text| - 1]);
    }
  }

  lemma {:induction false} OnlyZeros(n: nat)
    ensures DecimalValue(Zeros(n)) == 0
  {
    if n > 0 {
      assert Zeros(n)[..n - 1] == Zeros(n - 1);
      OnlyZeros(n - 1);
    }
  }

  // Digits are the print of their value behind some zeros.
  lemma {:induction false} DigitsArePrint(text: Text) returns (n: nat)
    requires text != [] && AllDigits(text)
    ensures text == Zeros(n) + Decimal(DecimalValue(text))
    decreases |text|
  {
    var front, last := text[..|text| - 1], text[|text| - 1];
    assert text == front + [last];
    if front == [] {
      n := 0;
      assert DecimalValue(text) == last - DIGIT_ZERO;
    } else {
      var m := DigitsArePrint(front);
      var v := DecimalValue(front);
      assert DecimalValue(text) == 10 * v + (last - DIGIT_ZERO);
      PrintGrows(v, last);
      hide Decimal, DecimalValue;
      if v == 0 {
        n := m + 1;
        assert Zeros(m) + [DIGIT_ZERO] == Zeros(m + 1);
      } else {
        n := m;
        assert Zeros(m) + Decimal(v) + [last] == Zeros(m) + (Decimal(v) + [last]);
      }
    }
  }

  lemma PrintGrows(v: nat, last: byte)
    requires DIGIT_ZERO <= last < DIGIT_ZERO + 10
    ensures Decimal(10 * v + (last - DIGIT_ZERO)) == if v == 0 then [last] else Decimal(v) + [last]
    ensures Decimal(0) == [DIGIT_ZERO]
  {
  }

  // A text is read as a number if and only if it is that number's print, perhaps behind zeros, and the
  // number fits 32 bits.
  lemma ReadUnsignedExactly(text: Text, v: nat)
    ensures ParseUnsigned(text) == Some(v) <==> v < 0x1_0000_0000 && exists n: nat :: text == Zeros(n) + Decimal(v)
  {
    hide Decimal, DecimalValue, AllDigits;
    if ParseUnsigned(text) == Some(v) {
      var n := DigitsArePrint(text);
    }
    if v < 0x1_0000_0000 && exists n: nat :: text == Zeros(n) + Decimal(v) {
      var n: nat :| text == Zeros(n) + Decimal(v);
      ZerosCountNothing(n, Decimal(v));
      DecimalIsValue(v);
    }
  }

  // The digits printed: the last is the remainder by ten, and what is before it is the print of the
  // rest, if there is any.
  lemma PrintExactly(v: nat)
    ensures var d, n := Decimal(v), |Decimal(v)|;
            && d[n - 1] == 0x30 + v % 10
            && (n == 1 <==> v < 10) && (v >= 10 ==> d[..n - 1] == Decimal(v / 10))
  {
  }

  function Pow10(n: nat): nat {
    if n == 0 then 1 else 10 * Pow10(n - 1)
  }

  lemma {:induction false} DecimalLength(v: nat, n: nat)
    requires n > 0 && v < Pow10(n)
    ensures |Decimal(v)| <= n
  {
    if v >= 10 {
      assert n > 1 by { assert Pow10(1) == 10; }
      DecimalLength(v / 10, n - 1);
    }
  }

  lemma TenDigits(v: u32)
    ensures |Decimal(v)| <= 10
  {
    assert Pow10(5) == 100000;
    assert Pow10(10) == 100000 * Pow10(5);
    DecimalLength(v, 10);
  }

  // ---- requests ----

  const SUB: Text := [0x57, 0x58, 0x53, 0x55, 0x42]    // WXSUB
  const UNSUB: Text := [0x57, 0x58, 0x55, 0x53, 0x42]  // WXUSB

  // What a device takes a sentence for. Invalid ones it counts, unreadable ones it passes over.
  datatype Request =
    | Subscribe(transaction: u32, report: Option<ReportType>, interval: u32)
    | Unsubscribe(transaction: u32, report: Option<ReportType>)
    | Unreadable
    | Invalid

  function ReadSubscribe(fields: seq<Text>): Request {
    if |fields| != 3 then Unreadable
    else
      var transaction, interval := ParseUnsigned(fields[0]), ParseUnsigned(fields[2]);
      if transaction == None || interval == None then Unreadable
      else Subscribe(transaction.value, ParseReportType(fields[1]), interval.value)
  }

  function ReadUnsubscribe(fields: seq<Text>): Request {
    if |fields| != 2 then Unreadable
    else
      var transaction := ParseUnsigned(fields[0]);
      if transaction == None then Unreadable else Unsubscribe(transaction.value, ParseReportType(fields[1]))
  }

  function ReadRequest(sentence: Text): Request {
    var parsed := Parse(sentence);
    if parsed.status != ParseOk then Invalid
    else if parsed.identifier == SUB then ReadSubscribe(parsed.fields)
    else if parsed.identifier == UNSUB then ReadUnsubscribe(parsed.fields)
    else Invalid
  }

  ghost predicate HasValue(text: Text, v: u32) {
    exists n: nat :: text == Zeros(n) + Decimal(v)
  }

  // A sentence is a request to subscribe if and only if it parses as WXSUB with three fields, the
  // first and the last numbers, and one to unsubscribe if it parses as WXUSB with two, the first a
  // number; the report is known by its code. What does not parse, or as something else, is invalid.
  lemma RequestExactly(sentence: Text, transaction: u32, report: Option<ReportType>, interval: u32)
    ensures var (p, r) := (Parse(sentence), ReadRequest(sentence));
            && (r == Subscribe(transaction, report, interval)
                <==> && p.status == ParseOk && p.identifier == SUB && |p.fields| == 3
                     && HasValue(p.fields[0], transaction) && HasValue(p.fields[2], interval)
                     && ParseReportType(p.fields[1]) == report)
            && (r == Unsubscribe(transaction, report)
                <==> && p.status == ParseOk && p.identifier == UNSUB && |p.fields| == 2
                     && HasValue(p.fields[0], transaction) && ParseReportType(p.fields[1]) == report)
            && (r == Invalid
                <==> p.status != ParseOk || (p.identifier != SUB && p.identifier != UNSUB))
  {
    SubIsNotUnsub();
    hide Parse, ParseReportType, ParseUnsigned, Decimal;
    var p := Parse(sentence);
    if |p.fields| == 3 {
      ReadUnsignedExactly(p.fields[0], transaction);
      ReadUnsignedExactly(p.fields[2], interval);
    }
    if |p.fields| == 2 {
      ReadUnsignedExactly(p.fields[0], transaction);
    }
  }

  lemma SubIsNotUnsub()
    ensures SUB != UNSUB
  {
    assert UNSUB[2] != SUB[2];
  }

  // ---- what a monitor sends is what the device reads ----

  function SubscribeBody(transaction: u32, report: ReportType, interval: u32): Text {
    SUB + [COMMA] + Decimal(transaction) + [COMMA] + Code(report) + [COMMA] + Decimal(interval)
  }

  function UnsubscribeBody(transaction: u32, report: ReportType): Text {
    UNSUB + [COMMA] + Decimal(transaction) + [COMMA] + Code(report)
  }

  lemma PlainDigits(v: nat)
    ensures COMMA !in Decimal(v) && NUL !in Decimal(v)
  {
    assert AllDigits(Decimal(v));
    hide Decimal;
  }

  lemma PlainCode(report: ReportType)
    ensures COMMA !in Code(report) && NUL !in Code(report)
  {
  }

  lemma JoinLast(a: Text)
    ensures JoinFields([a]) == a
  {
  }

  lemma JoinMore(a: Text, parts: seq<Text>)
    requires parts != []
    ensures JoinFields([a] + parts) == a + [COMMA] + JoinFields(parts)
  {
    assert ([a] + parts)[1..] == parts;
  }

  // A built sentence of a body that splits as given is read with just those parts.
  lemma BuiltIsParsed(parts: seq<Text>, body: Text)
    requires parts != [] && |parts| <= MAX_FIELDS + 1 && |parts[0]| == IDENTIFIER_SIZE
    requires forall k :: 0 <= k < |parts| ==> COMMA !in parts[k]
    requires body == JoinFields(parts) && NUL !in body && |body| <= 249
    ensures Build(body).Some? && Parse(Build(body).value) == Parsed(ParseOk, parts[0], parts[1..])
  {
    hide Parse, Build, JoinFields, Split, Formatted, Checksum, SealedWith;
    BuildFits(body);
    BuiltText(body);
    ParseSealed(body, Checksum(body), [CR, LF]);
    SplitJoin(parts);
  }

  lemma BuiltText(body: Text)
    requires NUL !in body && Build(body).Some?
    ensures Build(body).value == SealedWith(body, Checksum(body)) + [CR, LF]
  {
    BuildSealed(body);
    hide Formatted, Checksum, SealedWith;
  }

  lemma SubscribeParts(t: Text, c: Text, i: Text)
    ensures JoinFields([SUB, t, c, i]) == SUB + [COMMA] + t + [COMMA] + c + [COMMA] + i
  {
    JoinLast(i);
    JoinMore(c, [i]);
    JoinMore(t, [c, i]);
    JoinMore(SUB, [t, c, i]);
    hide JoinFields;
    assert [c] + [i] == [c, i] && [t] + [c, i] == [t, c, i] && [SUB] + [t, c, i] == [SUB, t, c, i];
    var comma := [COMMA];
    assert SUB + comma + (t + comma + (c + comma + i)) == SUB + comma + t + comma + c + comma + i;
  }

  lemma UnsubscribeParts(t: Text, c: Text)
    ensures JoinFields([UNSUB, t, c]) == UNSUB + [COMMA] + t + [COMMA] + c
  {
    JoinLast(c);
    JoinMore(t, [c]);
    JoinMore(UNSUB, [t, c]);
    hide JoinFields;
    assert [t] + [c] == [t, c] && [UNSUB] + [t, c] == [UNSUB, t, c];
    var comma := [COMMA];
    assert UNSUB + comma + (t + comma + c) == UNSUB + comma + t + comma + c;
  }

  // Every request a monitor can send arrives as it was meant.
  lemma SubscribeArrives(transaction: u32, report: ReportType, interval: u32)
    ensures var built := Build(SubscribeBody(transaction, report, interval));
            built.Some? && ReadRequest(built.value) == Subscribe(transaction, Some(report), interval)
  {
    hide Parse, Build, Decimal, Code, JoinFields, ParseReportType, ParseUnsigned;
    var t, c, i := Decimal(transaction), Code(report), Decimal(interval);
    var body := SubscribeBody(transaction, report, interval);
    TenDigits(transaction);
    TenDigits(interval);
    PlainDigits(transaction);
    PlainDigits(interval);
    PlainCode(report);
    SubscribeParts(t, c, i);
    BuiltIsParsed([SUB, t, c, i], body);
    PrintedIsRead(transaction);
    PrintedIsRead(interval);
    ReportTypeExactly(c, report);
    assert [SUB, t, c, i][1..] == [t, c, i];
  }

  lemma UnsubscribeArrives(transaction: u32, report: ReportType)
    ensures var built := Build(UnsubscribeBody(transaction, report));
            built.Some? && ReadRequest(built.value) == Unsubscribe(transaction, Some(report))
  {
    hide Parse, Build, Decimal, Code, JoinFields, ParseReportType, ParseUnsigned;
    var t, c := Decimal(transaction), Code(report);
    var body := UnsubscribeBody(transaction, report);
    TenDigits(transaction);
    PlainDigits(transaction);
    PlainCode(report);
    UnsubscribeParts(t, c);
    BuiltIsParsed([UNSUB, t, c], body);
    PrintedIsRead(transaction);
    ReportTypeExactly(c, report);
    assert [UNSUB, t, c][1..] == [t, c];
    assert UNSUB[2] != SUB[2];
  }

  // With one character of its body exchanged it is counted as invalid, whatever it asked for.
  lemma DamagedRequestInvalid(body: Text, damaged: Text, k: nat, tail: Text)
    requires |damaged| == |body| && k < |body| && damaged[k] != body[k]
    requires forall j :: 0 <= j < |body| && j != k ==> damaged[j] == body[j]
    requires LineEnds(tail)
    ensures ReadRequest(SealedWith(damaged, Checksum(body)) + tail) == Invalid
  {
    DamagedSentenceRejected(body, damaged, k, tail);
    hide Parse, SealedWith, Checksum;
  }
}
