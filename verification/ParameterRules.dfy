// The parameter store's rules, parameter by parameter and source by source, and its bytes.

module ParameterRules {
  import opened Arithmetic
  import opened Bytes
  import opened ParameterStore

  // Which source displaces which.
  predicate Displaces(source: ParameterSource, holder: ParameterSource) {
    match holder
    case CompiledDefault => true
    case PersistentStorage => source != CompiledDefault
    case ConfigurationFile => source.ConfigurationFile? || source.CommandLine? || source.Runtime?
    case CommandLine => source.CommandLine? || source.Runtime?
    case Runtime => source.Runtime?
  }

  // 100 ms to one minute; 32-bit patterns from -40 to 125 degrees; three modes.
  predicate InRange(id: ParameterId, value: nat) {
    match id
    case ReportingInterval => 100 <= value <= 60000
    case TemperatureLimit => value <= 0x42FA_0000 || 0x8000_0000 <= value <= 0xC220_0000
    case OperatingMode => value <= 2
  }

  // The parameters' places among the nine bytes.
  function FirstByte(id: ParameterId): nat {
    match id case ReportingInterval => 0 case TemperatureLimit => 4 case OperatingMode => 8
  }

  function LastByte(id: ParameterId): nat {
    match id case ReportingInterval => 3 case TemperatureLimit => 7 case OperatingMode => 8
  }

  lemma SlotBytes(s: StoreState, id: ParameterId)
    requires s.Shaped()
    ensures s.Slot(id) == s.values[FirstByte(id)..LastByte(id) + 1]
  {
  }

  // Every update, for every parameter, value and pair of sources: the first rule that refuses it, or
  // the new bytes, least significant first, in the parameter's place and nowhere else.
  lemma SetExactly(s: StoreState, id: ParameterId, value: nat, source: ParameterSource)
    requires s.Shaped()
    ensures var (result, t) := s.Set(id, value, source);
            if source.Runtime? && id.TemperatureLimit? then result == NotRuntimeWritable && t == s
            else if !InRange(id, value) then result == InvalidValue && t == s
            else if !Displaces(source, s.sources[Index(id)]) then result == LowerPrecedence && t == s
            else
              && result == Updated
              && t.sources == s.sources[Index(id) := source]
              && t.generation == (s.generation + 1) % 0x1_0000_0000
              && |t.values| == 9
              && (forall k :: 0 <= k < 9 ==>
                    t.values[k] == if FirstByte(id) <= k <= LastByte(id)
                                   then value / Pow256(k - FirstByte(id)) % 256 else s.values[k])
  {
    DisplacesExactly(source, s.sources[Index(id)]);
    InRangeExactly(id, value);
    hide Validate, Precedence, Displaces, InRange, LittleBytes, StoreState.Put;
    if s.Set(id, value, source).0 == Updated {
      PutBytes(s, id, value, source);
    }
  }

  lemma DisplacesExactly(source: ParameterSource, holder: ParameterSource)
    ensures Displaces(source, holder) <==> Precedence(holder) <= Precedence(source)
  {
  }

  lemma InRangeExactly(id: ParameterId, value: nat)
    ensures Validate(id, value) <==> InRange(id, value)
  {
  }

  lemma PutBytes(s: StoreState, id: ParameterId, value: nat, source: ParameterSource)
    requires s.Shaped()
    ensures var t := s.Put(id, LittleBytes(value, EncodedSize(id)), source);
            && t.sources == s.sources[Index(id) := source]
            && t.generation == (s.generation + 1) % 0x1_0000_0000
            && |t.values| == 9
            && forall k :: 0 <= k < 9 ==>
                 t.values[k] == if FirstByte(id) <= k <= LastByte(id)
                                then value / Pow256(k - FirstByte(id)) % 256 else s.values[k]
  {
    var bytes := LittleBytes(value, EncodedSize(id));
    forall k | 0 <= k < 9
      ensures Spliced(s.values, Offset(id), bytes)[k]
           == if FirstByte(id) <= k <= LastByte(id) then value / Pow256(k - FirstByte(id)) % 256 else s.values[k]
    {
      SplicedAt(s.values, Offset(id), bytes, k);
      if FirstByte(id) <= k <= LastByte(id) {
        LittleByteAt(value, EncodedSize(id), k - FirstByte(id));
      }
    }
    hide Spliced, LittleBytes;
  }

  // What is read: the parameter's bytes as a number, least significant first.
  lemma GetExactly(s: StoreState, id: ParameterId)
    requires s.Shaped()
    ensures var v := s.values;
            s.Get(id) == match id
                         case ReportingInterval => v[0] + 0x100 * v[1] as int + 0x1_0000 * v[2] as int
                                                   + 0x100_0000 * v[3] as int
                         case TemperatureLimit => v[4] + 0x100 * v[5] as int + 0x1_0000 * v[6] as int
                                                  + 0x100_0000 * v[7] as int
                         case OperatingMode => v[8] as int
  {
    SlotBytes(s, id);
    if id == OperatingMode {
      ValueOfOne(s.Slot(id));
    } else {
      ValueOfFour(s.Slot(id));
    }
    hide LittleValue;
  }

  lemma ValueOfOne(b: seq<byte>)
    requires |b| == 1
    ensures LittleValue(b) == b[0]
  {
    assert LittleValue(b[1..]) == 0;
  }

  lemma ValueOfFour(b: seq<byte>)
    requires |b| == 4
    ensures LittleValue(b) == b[0] + 0x100 * b[1] as int + 0x1_0000 * b[2] as int + 0x100_0000 * b[3] as int
  {
    ValueOfOne(b[3..]);
    assert b[2..][1..] == b[3..] && b[1..][1..] == b[2..];
    assert LittleValue(b[2..]) == b[2] + 256 * LittleValue(b[3..]);
    assert LittleValue(b[1..]) == b[1] + 256 * LittleValue(b[2..]);
  }

  // A new store: 1000 ms, 45 degrees, normal mode, every one from the compiled source.
  lemma DefaultBytes()
    ensures DEFAULT_STORE == StoreState([0xE8, 0x03, 0, 0, 0, 0, 0x34, 0x42, 0],
                                        [CompiledDefault, CompiledDefault, CompiledDefault], 0)
  {
    FourOf(1000, 0xE8, 0x03, 0, 0);
    FourOf(0x4234_0000, 0, 0, 0x34, 0x42);
    assert LittleBytes(0, 1) == [0];
    hide LittleBytes;
  }

  lemma FourOf(v: u32, a: byte, b: byte, c: byte, d: byte)
    requires v == a + 0x100 * b as int + 0x1_0000 * c as int + 0x100_0000 * d as int
    ensures LittleBytes(v, 4) == [a, b, c, d]
  {
    ValueOfFour([a, b, c, d]);
    LittleSurjective([a, b, c, d]);
    hide LittleBytes, LittleValue;
  }

  // ---- the temperature limit as a number ----

  // A 32-bit IEEE 754 pattern without its sign stands for this many times 2^-149.
  function Magnitude(pattern: nat): nat {
    var exponent, fraction := pattern / 0x80_0000, pattern % 0x80_0000;
    if exponent == 0 then fraction else (0x80_0000 + fraction) * Pow2(exponent - 1)
  }

  predicate IsNumber(pattern: nat) {
    pattern / 0x80_0000 < 255
  }

  lemma {:induction false} Pow2Add(m: nat, n: nat)
    ensures Pow2(m + n) == Pow2(m) * Pow2(n)
  {
    if m > 0 {
      Pow2Add(m - 1, n);
      Associative(2, Pow2(m - 1), Pow2(n));
    }
  }

  lemma {:induction false} Pow2Grows(m: nat, n: nat)
    requires m <= n
    ensures Pow2(m) <= Pow2(n)
  {
    if m < n {
      Pow2Grows(m, n - 1);
    }
  }

  lemma FractionBelow(fraction: nat, p: nat)
    requires fraction < 0x80_0000 && p > 0
    ensures (0x80_0000 + fraction) * p < 0x100_0000 * p
  {
    Multiples(p, 0x80_0000 - fraction);
    Distribute(p, 0x80_0000 + fraction, 0x80_0000 - fraction);
  }

  lemma FractionGrows(fraction: nat, other: nat, p: nat)
    requires fraction < other && p > 0
    ensures (0x80_0000 + fraction) * p < (0x80_0000 + other) * p
  {
    Multiples(p, other - fraction);
    Distribute(p, 0x80_0000 + fraction, other - fraction);
  }

  // Patterns are ordered like what they stand for.
  lemma MagnitudeGrows(a: nat, b: nat)
    requires a < b
    ensures Magnitude(a) < Magnitude(b)
  {
    var e, m := a / 0x80_0000, a % 0x80_0000;
    var f, n := b / 0x80_0000, b % 0x80_0000;
    hide Pow2;
    if e == f {
      if e > 0 { FractionGrows(m, n, Pow2(e - 1)); }
    } else {
      AtLeastPower(n, f);
      if e > 0 {
        FractionBelow(m, Pow2(e - 1));
        TwicePower(e);
        Pow2Grows(e, f - 1);
      } else {
        OneAtLeast(f - 1);
      }
    }
  }

  lemma AtLeastPower(fraction: nat, exponent: nat)
    requires exponent > 0
    ensures (0x80_0000 + fraction) * Pow2(exponent - 1) >= 0x80_0000 * Pow2(exponent - 1)
  {
    if fraction > 0 { FractionGrows(0, fraction, Pow2(exponent - 1)); }
  }

  lemma TwicePower(exponent: nat)
    requires exponent > 0
    ensures 2 * Pow2(exponent - 1) == Pow2(exponent)
  {
  }

  lemma OneAtLeast(n: nat)
    ensures Pow2(n) >= 1
  {
  }

  lemma Limits()
    ensures Magnitude(0x42FA_0000) == 125 * Pow2(149)
    ensures Magnitude(0x4220_0000) == 40 * Pow2(149)
  {
    hide Pow2, Magnitude;
    LimitPatterns();
    Pow2Add(17, 132);
    Pow2Add(18, 131);
    SmallPowers();
  }

  lemma LimitPatterns()
    ensures Magnitude(0x42FA_0000) == 16384000 * Pow2(132)
    ensures Magnitude(0x4220_0000) == 10485760 * Pow2(131)
  {
    hide Pow2;
  }

  lemma SmallPowers()
    ensures Pow2(17) == 131072 && Pow2(18) == 262144
  {
    assert Pow2(8) == 256;
    assert Pow2(12) == 16 * Pow2(8);
    assert Pow2(16) == 16 * Pow2(12);
  }

  // The admissible patterns are the numbers from -40 to 125.
  lemma TemperatureExactly(bits: u32)
    ensures var pattern := bits % 0x8000_0000;
            InRange(TemperatureLimit, bits)
            <==> IsNumber(pattern) && Magnitude(pattern) <= (if bits < 0x8000_0000 then 125 else 40) * Pow2(149)
  {
    hide Magnitude, Pow2, IsNumber;
    var pattern := bits % 0x8000_0000;
    Limits();
    if bits < 0x8000_0000 {
      UpTo(pattern, 0x42FA_0000);
    } else {
      assert pattern == bits - 0x8000_0000;
      UpTo(pattern, 0x4220_0000);
    }
  }

  lemma UpTo(pattern: nat, limit: nat)
    requires limit < 0x7F80_0000
    ensures IsNumber(pattern) && Magnitude(pattern) <= Magnitude(limit) <==> pattern <= limit
  {
    hide Magnitude;
    if pattern < limit {
      MagnitudeGrows(pattern, limit);
    } else if pattern > limit {
      MagnitudeGrows(limit, pattern);
    }
  }
}
