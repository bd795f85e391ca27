/** Text forms of uptimes, decimal durations and MAC addresses. */
module NetworkText {
  import opened Bytes
  import opened Decimal

  // ---------- uptime ----------

  const DAYS: seq<byte> := [0x20, 0x64, 0x61, 0x79, 0x73, 0x2C, 0x20]
  const DAY: seq<byte> := [0x20, 0x64, 0x61, 0x79, 0x2C, 0x20]
  const COLON: byte := 0x3A
  const SPACE: byte := 0x20

  /** The marks that the proofs write as bytes, in the letters of the source. */
  lemma MarksInLetters()
    ensures DAYS == Ascii(" days, ") && DAY == Ascii(" day, ")
    ensures [COLON] == Ascii(":") && [POINT] == Ascii(".")
  {}

  function CheckedMul(a: U64, b: U64): Option<U64> {
    if a * b < TWO_POW_64 then Some(a * b) else None
  }

  function CheckedAdd(a: U64, b: U64): Option<U64> {
    if a + b < TWO_POW_64 then Some(a + b) else None
  }

  function MulAdd(a: U64, factor: U64, b: U64): Option<U64> {
    var product := CheckedMul(a, factor);
    if product.None? then None else CheckedAdd(product.value, b)
  }

  /** The chain of checked operations, from days to seconds. */
  function CheckedSeconds(days: U64, hours: U64, minutes: U64, seconds: U64): Option<U64> {
    var inHours := MulAdd(days, 24, hours);
    if inHours.None? then None
    else
      var inMinutes := MulAdd(inHours.value, 60, minutes);
      if inMinutes.None? then None else MulAdd(inMinutes.value, 60, seconds)
  }

  function TotalSeconds(days: nat, hours: nat, minutes: nat, seconds: nat): nat {
    86400 * days + 3600 * hours + 60 * minutes + seconds
  }

  /** No intermediate step overflows unless the total does. */
  lemma CheckedSecondsIsExact(days: U64, hours: U64, minutes: U64, seconds: U64)
    ensures CheckedSeconds(days, hours, minutes, seconds)
         == if TotalSeconds(days, hours, minutes, seconds) < TWO_POW_64
            then Some(TotalSeconds(days, hours, minutes, seconds)) else None
  {}

  function SplitDays(value: seq<byte>): Option<(seq<byte>, seq<byte>)> {
    var plural := SplitOnce(value, DAYS);
    if plural.Some? then plural else SplitOnce(value, DAY)
  }

  function ParseHumanUptime(value: seq<byte>): Option<U64> {
    var split := SplitDays(value);
    if split.None? then None
    else
      var parts := Split(split.value.1, COLON);
      if |parts| != 3 then None
      else
        var hours, minutes := ParseUnsigned(parts[0], TWO_POW_64), ParseUnsigned(parts[1], TWO_POW_64);
        var seconds, days := ParseUnsigned(parts[2], TWO_POW_64), ParseUnsigned(split.value.0, TWO_POW_64);
        if hours.None? || minutes.None? || seconds.None? || days.None? then None
        else if hours.value >= 24 || minutes.value >= 60 || seconds.value >= 60 then None
        else CheckedSeconds(days.value, hours.value, minutes.value, seconds.value)
  }

  function UptimeText(days: seq<byte>, separator: seq<byte>, hours: seq<byte>, minutes: seq<byte>, seconds: seq<byte>):
    seq<byte>
  {
    days + separator + (hours + [COLON] + (minutes + [COLON] + seconds))
  }

  /** The texts that mean `total` seconds: in range, and with a total that fits 64 bits. */
  ghost predicate MeansUptime(value: seq<byte>, total: nat) {
    exists d, sep, h, m, s :: MeansUptimeAs(value, total, d, sep, h, m, s)
  }

  predicate MeansUptimeAs(value: seq<byte>, total: nat, d: seq<byte>, sep: seq<byte>,
                          h: seq<byte>, m: seq<byte>, s: seq<byte>)
  {
    value == UptimeText(d, sep, h, m, s) && (sep == DAYS || sep == DAY)
    && var days, hours := ParseUnsigned(d, TWO_POW_64), ParseUnsigned(h, 24);
       var minutes, seconds := ParseUnsigned(m, 60), ParseUnsigned(s, 60);
       days.Some? && hours.Some? && minutes.Some? && seconds.Some? && total < TWO_POW_64
       && total == TotalSeconds(days.value, hours.value, minutes.value, seconds.value)
  }

  lemma SplitThree(a: seq<byte>, b: seq<byte>, c: seq<byte>, sep: byte)
    requires sep !in a && sep !in b && sep !in c
    ensures Split(a + [sep] + (b + [sep] + c), sep) == [a, b, c]
  {
    SplitPrefix(a, b + [sep] + c, sep);
    SplitPrefix(b, c, sep);
    SplitWhole(c, sep);
  }

  /** With the singular separator between numbers, the plural one occurs nowhere. */
  lemma NoPluralInSingular(d: seq<byte>, h: seq<byte>, tail: seq<byte>)
    requires SPACE !in d && h != [] && h[0] != 0x64 && SPACE !in h && SPACE !in tail
    ensures SplitOnce(d + DAY + (h + tail), DAYS) == None
  {
    var s := d + DAY + (h + tail);
    forall i | 0 <= i && i + |DAYS| <= |s| ensures !OccursAt(s, DAYS, i) {
      var window := s[i..i + |DAYS|];
      assert window[0] == s[i] && window[1] == s[i + 1] && window[4] == s[i + 4];
      if i < |d| {
        assert s[i] == d[i];
      } else if i < |d| + |DAY| {
        assert s[i] == DAY[i - |d|];
        if i == |d| {
          assert s[i + 4] == DAY[4];
        } else if i == |d| + 5 {
          assert s[i + 1] == h[0];
        }
      } else {
        assert s[i] == (h + tail)[i - |d| - |DAY|];
      }
    }
  }

  lemma NumbersHaveNoMarks(s: seq<byte>, bound: nat)
    requires ParseUnsigned(s, bound).Some?
    ensures SPACE !in s && COLON !in s && s[0] != 0x64
  {}

  lemma ParseSmaller(s: seq<byte>, small: nat, large: nat)
    requires small <= large
    ensures ParseUnsigned(s, small).Some? <==> ParseUnsigned(s, large).Some? && ParseUnsigned(s, large).value < small
    ensures ParseUnsigned(s, small).Some? ==> ParseUnsigned(s, small) == ParseUnsigned(s, large)
  {}

  lemma MeantUptimeSplits(d: seq<byte>, sep: seq<byte>, h: seq<byte>, m: seq<byte>, s: seq<byte>)
    requires (sep == DAYS || sep == DAY) && ParseUnsigned(d, TWO_POW_64).Some? && ParseUnsigned(h, 24).Some?
    requires ParseUnsigned(m, 60).Some? && ParseUnsigned(s, 60).Some?
    ensures SplitDays(UptimeText(d, sep, h, m, s)) == Some((d, h + [COLON] + (m + [COLON] + s)))
  {
    var tail := [COLON] + (m + [COLON] + s);
    NumbersHaveNoMarks(d, TWO_POW_64);
    NumbersHaveNoMarks(h, 24);
    NumbersHaveNoMarks(m, 60);
    NumbersHaveNoMarks(s, 60);
    assert h + [COLON] + (m + [COLON] + s) == h + tail;
    SplitOnceBehind(d, sep, h + tail);
    if sep == DAY { NoPluralInSingular(d, h, tail); }
  }

  lemma MeantUptimeParses(value: seq<byte>, total: nat, d: seq<byte>, sep: seq<byte>,
                          h: seq<byte>, m: seq<byte>, s: seq<byte>)
    requires MeansUptimeAs(value, total, d, sep, h, m, s)
    ensures ParseHumanUptime(value) == Some(total)
  {
    var time := h + [COLON] + (m + [COLON] + s);
    MeantUptimeSplits(d, sep, h, m, s);
    NumbersHaveNoMarks(h, 24);
    NumbersHaveNoMarks(m, 60);
    NumbersHaveNoMarks(s, 60);
    SplitThree(h, m, s, COLON);
    ParseSmaller(h, 24, TWO_POW_64);
    ParseSmaller(m, 60, TWO_POW_64);
    ParseSmaller(s, 60, TWO_POW_64);
    CheckedSecondsIsExact(ParseUnsigned(d, TWO_POW_64).value, ParseUnsigned(h, 24).value,
                          ParseUnsigned(m, 60).value, ParseUnsigned(s, 60).value);
  }

  lemma ParsedUptimeMeans(value: seq<byte>)
    requires ParseHumanUptime(value).Some?
    ensures MeansUptime(value, ParseHumanUptime(value).value)
  {
    var sep := if SplitOnce(value, DAYS).Some? then DAYS else DAY;
    SplitOncePieces(value, sep);
    var (d, time) := SplitOnce(value, sep).value;
    var parts := Split(time, COLON);
    JoinOfSplit(time, COLON);
    var h, m, s := parts[0], parts[1], parts[2];
    assert parts[1..][0] == m && parts[1..][1..] == [s];
    assert Join(parts[1..], COLON) == m + [COLON] + Join([s], COLON);
    ParseSmaller(h, 24, TWO_POW_64);
    ParseSmaller(m, 60, TWO_POW_64);
    ParseSmaller(s, 60, TWO_POW_64);
    CheckedSecondsIsExact(ParseUnsigned(d, TWO_POW_64).value, ParseUnsigned(h, 24).value,
                          ParseUnsigned(m, 60).value, ParseUnsigned(s, 60).value);
    assert MeansUptimeAs(value, ParseHumanUptime(value).value, d, sep, h, m, s);
  }

  /** Parsing accepts exactly the texts with a meaning, and returns it. */
  lemma UptimeIsExact(value: seq<byte>, total: U64)
    ensures ParseHumanUptime(value) == Some(total) <==> MeansUptime(value, total)
  {
    if ParseHumanUptime(value) == Some(total) { ParsedUptimeMeans(value); }
    if MeansUptime(value, total) {
      var d, sep, h, m, s :| MeansUptimeAs(value, total, d, sep, h, m, s);
      MeantUptimeParses(value, total, d, sep, h, m, s);
    }
  }

  function TwoDigits(n: nat): seq<byte>
    requires n < 100
  {
    [0x30 + n / 10, 0x30 + n % 10]
  }

  function WriteUptime(seconds: nat, separator: seq<byte>): seq<byte> {
    UptimeText(Print(seconds / 86400), separator, TwoDigits(seconds / 3600 % 24),
               TwoDigits(seconds / 60 % 60), TwoDigits(seconds % 60))
  }

  lemma ParseTwoDigits(n: nat, bound: nat)
    requires n < 100 && n < bound
    ensures ParseUnsigned(TwoDigits(n), bound) == Some(n)
  {
    var t := TwoDigits(n);
    assert t[..1] == [0x30 + n / 10] && t[..1][..0] == [];
    assert Value(t[..1]) == n / 10;
    assert IsDigit(t[0]) && IsDigit(t[1]);
  }

  lemma SecondsDecompose(n: nat)
    ensures TotalSeconds(n / 86400, n / 3600 % 24, n / 60 % 60, n % 60) == n
  {
    assert n == 60 * (n / 60) + n % 60;
    assert n / 60 == 60 * (n / 60 / 60) + n / 60 % 60 && n / 60 / 60 == n / 3600;
    assert n / 3600 == 24 * (n / 3600 / 24) + n / 3600 % 24 && n / 3600 / 24 == n / 86400;
  }

  /** Every 64-bit number of seconds survives the trip through either spelling. */
  lemma UptimeRoundTrip(seconds: U64, separator: seq<byte>)
    requires separator == DAYS || separator == DAY
    ensures ParseHumanUptime(WriteUptime(seconds, separator)) == Some(seconds)
  {
    var h, m, s := seconds / 3600 % 24, seconds / 60 % 60, seconds % 60;
    ParsePrinted(seconds / 86400, TWO_POW_64);
    ParseTwoDigits(h, 24);
    ParseTwoDigits(m, 60);
    ParseTwoDigits(s, 60);
    SecondsDecompose(seconds);
    MeantUptimeParses(WriteUptime(seconds, separator), seconds, Print(seconds / 86400), separator,
                      TwoDigits(h), TwoDigits(m), TwoDigits(s));
  }

  // ---------- decimal durations ----------

  const POINT: byte := 0x2E
  const NANOS_PER_SECOND: nat := 1_000_000_000

  datatype Duration = Duration(seconds: U64, nanos: nat)

  datatype DurationError = InvalidWhole | InvalidFraction

  function SplitPoint(value: seq<byte>): (seq<byte>, seq<byte>) {
    var split := SplitOnce(value, [POINT]);
    if split.Some? then split.value else (value, [])
  }

  function ParseDecimalDuration(value: seq<byte>): Result<Duration, DurationError> {
    var (whole, fraction) := SplitPoint(value);
    var seconds := ParseUnsigned(whole, TWO_POW_64);
    if seconds.None? then Err(InvalidWhole)
    else if |fraction| > 9 || !AllDigits(fraction) then Err(InvalidFraction)
    else if fraction == [] then Ok(Duration(seconds.value, 0))
    else
      var parsed := ParseUnsigned(fraction, TWO_POW_32);
      if parsed.None? then Err(InvalidFraction)
      else Ok(Duration(seconds.value, parsed.value * Pow10(9 - |fraction|)))
  }

  lemma FractionFits(fraction: seq<byte>)
    requires AllDigits(fraction) && |fraction| <= 9
    ensures Pow10(9) == NANOS_PER_SECOND
    ensures Value(fraction) * Pow10(9 - |fraction|) < NANOS_PER_SECOND < TWO_POW_32
    ensures fraction != [] ==> ParseUnsigned(fraction, TWO_POW_32) == Some(Value(fraction))
  {
    var scale := Pow10(9 - |fraction|);
    ValueBound(fraction);
    Pow10Sum(|fraction|, 9 - |fraction|);
    assert Pow10(9) == 10 * Pow10(8) && Pow10(8) == 10 * Pow10(7) && Pow10(7) == 10 * Pow10(6);
    assert Pow10(6) == 10 * Pow10(5) && Pow10(5) == 10 * Pow10(4) && Pow10(4) == 10 * Pow10(3) == 10000;
    MulLess(Value(fraction), Pow10(|fraction|), scale);
    MulAtLeast(Value(fraction), scale);
    if fraction != [] { assert IsDigit(fraction[0]); }
  }

  lemma MulLess(a: nat, b: nat, c: nat)
    requires a < b && c > 0
    ensures a * c < b * c
  {}

  lemma MulAtLeast(a: nat, c: nat)
    requires c > 0
    ensures a <= a * c
  {}

  function Nanos(fraction: seq<byte>): nat
    requires AllDigits(fraction) && |fraction| <= 9
  {
    Value(fraction) * Pow10(9 - |fraction|)
  }

  lemma NanosAreExact(fraction: seq<byte>)
    requires AllDigits(fraction) && |fraction| <= 9
    ensures Nanos(fraction) < NANOS_PER_SECOND < TWO_POW_32
    ensures Nanos(fraction) * Pow10(|fraction|) == Value(fraction) * NANOS_PER_SECOND
  {
    FractionFits(fraction);
    Pow10Sum(|fraction|, 9 - |fraction|);
    MulSwap(Value(fraction), Pow10(9 - |fraction|), Pow10(|fraction|));
  }

  lemma DurationOfParts(whole: seq<byte>, fraction: seq<byte>)
    requires POINT !in whole
    ensures ParseDecimalDuration(whole + [POINT] + fraction)
         == if ParseUnsigned(whole, TWO_POW_64).None? then Err(InvalidWhole)
            else if |fraction| > 9 || !AllDigits(fraction) then Err(InvalidFraction)
            else Ok(Duration(ParseUnsigned(whole, TWO_POW_64).value, Nanos(fraction)))
  {
    SplitOnceBehind(whole, [POINT], fraction);
    if AllDigits(fraction) && |fraction| <= 9 { FractionFits(fraction); }
  }

  /**
   A decimal duration is accepted exactly when its whole part is a 64-bit number and its
   fraction has at most nine digits; its value is then exact to the nanosecond, the 32-bit
   product does not overflow and nothing is carried into the seconds.
   */
  lemma DurationIsExact(whole: seq<byte>, fraction: seq<byte>)
    requires POINT !in whole
    ensures var seconds, r := ParseUnsigned(whole, TWO_POW_64), ParseDecimalDuration(whole + [POINT] + fraction);
            && (r == Err(InvalidWhole) <==> seconds.None?)
            && (r.Ok? <==> seconds.Some? && |fraction| <= 9 && AllDigits(fraction))
            && (r.Ok? ==> r.value.seconds == seconds.value && r.value.nanos < NANOS_PER_SECOND < TWO_POW_32
                          && r.value.nanos * Pow10(|fraction|) == Value(fraction) * NANOS_PER_SECOND)
  {
    DurationOfParts(whole, fraction);
    if |fraction| <= 9 && AllDigits(fraction) { NanosAreExact(fraction); }
  }

  /** A text without a point is a whole number of seconds. */
  lemma DurationWithoutPoint(value: seq<byte>)
    requires POINT !in value
    ensures ParseDecimalDuration(value)
         == match ParseUnsigned(value, TWO_POW_64)
            case None => Err(InvalidWhole)
            case Some(n) => Ok(Duration(n, 0))
  {
    forall i | 0 <= i ensures !OccursAt(value, [POINT], i) {
      if i < |value| { assert value[i..i + 1][0] == value[i]; }
    }
  }

  lemma MulSwap(a: nat, b: nat, c: nat)
    ensures a * b * c == a * (c * b)
  {}

  /** Zeros at the end of the fraction do not matter. */
  lemma TrailingZeros(whole: seq<byte>, fraction: seq<byte>, zeros: seq<byte>)
    requires POINT !in whole && |fraction| + |zeros| <= 9
    requires forall i :: 0 <= i < |zeros| ==> zeros[i] == 0x30
    ensures ParseDecimalDuration(whole + [POINT] + (fraction + zeros))
         == ParseDecimalDuration(whole + [POINT] + fraction)
    decreases |zeros|
  {
    if zeros == [] {
      assert fraction + zeros == fraction;
    } else {
      var front := zeros[..|zeros| - 1];
      TrailingZeros(whole, fraction, front);
      assert fraction + zeros == (fraction + front) + [0x30];
      OneTrailingZero(whole, fraction + front);
    }
  }

  lemma ValueOfZeroBehind(fraction: seq<byte>)
    ensures AllDigits(fraction + [0x30]) <==> AllDigits(fraction)
    ensures AllDigits(fraction) ==> Value(fraction + [0x30]) == 10 * Value(fraction)
  {
    var longer := fraction + [0x30];
    assert longer[..|fraction|] == fraction;
    if AllDigits(longer) {
      forall i | 0 <= i < |fraction| ensures IsDigit(fraction[i]) { assert IsDigit(longer[i]); }
    }
  }

  lemma MoveTen(a: nat, b: nat)
    ensures (10 * a) * b == a * (10 * b)
  {}

  lemma ZeroKeepsNanos(fraction: seq<byte>)
    requires AllDigits(fraction) && |fraction| < 9
    ensures AllDigits(fraction + [0x30]) && Nanos(fraction + [0x30]) == Nanos(fraction)
  {
    ValueOfZeroBehind(fraction);
    MoveTen(Value(fraction), Pow10(8 - |fraction|));
  }

  lemma OneTrailingZero(whole: seq<byte>, fraction: seq<byte>)
    requires POINT !in whole && |fraction| < 9
    ensures ParseDecimalDuration(whole + [POINT] + (fraction + [0x30]))
         == ParseDecimalDuration(whole + [POINT] + fraction)
  {
    DurationOfParts(whole, fraction);
    DurationOfParts(whole, fraction + [0x30]);
    ValueOfZeroBehind(fraction);
    if AllDigits(fraction) { ZeroKeepsNanos(fraction); }
  }

  // ---------- MAC addresses ----------

  datatype MacError = InvalidLength(length: nat) | InvalidSeparator(at: nat) | InvalidHexDigit(at: nat)

  const MAC_LENGTH: nat := 17

  /** One octet and its separator, or the first thing wrong with them. */
  function ParseOctet(bytes: seq<byte>, index: nat): Result<byte, MacError>
    requires |bytes| == MAC_LENGTH && index < 6
  {
    var offset := 3 * index;
    if index != 5 && bytes[offset + 2] != COLON then Err(InvalidSeparator(offset + 2))
    else if !IsHex(bytes[offset]) then Err(InvalidHexDigit(offset))
    else if !IsHex(bytes[offset + 1]) then Err(InvalidHexDigit(offset + 1))
    else Ok(16 * HexValue(bytes[offset]).value + HexValue(bytes[offset + 1]).value)
  }

  /** Colons at every third place, hexadecimal digits elsewhere. */
  predicate RightAt(value: seq<byte>, k: nat)
    requires k < |value|
  {
    if k % 3 == 2 then value[k] == COLON else IsHex(value[k])
  }

  /** The first fault, octet by octet: its separator before its digits. */
  ghost predicate IsFault(value: seq<byte>, e: MacError) {
    match e
    case InvalidLength(length) => length == |value| != 17
    case InvalidSeparator(at) =>
      |value| == 17 && at < 17 && at % 3 == 2 && !RightAt(value, at)
      && forall k :: 0 <= k < at - 2 ==> RightAt(value, k)
    case InvalidHexDigit(at) =>
      |value| == 17 && at < 17 && at % 3 != 2 && !RightAt(value, at) && (forall k :: 0 <= k < at ==> RightAt(value, k))
      && (at < 15 ==> RightAt(value, at / 3 * 3 + 2))
  }

  lemma OctetIsRight(value: seq<byte>, i: nat)
    requires |value| == MAC_LENGTH && i < 6
    ensures ParseOctet(value, i).Ok? <==>
            RightAt(value, 3 * i) && RightAt(value, 3 * i + 1) && (i < 5 ==> RightAt(value, 3 * i + 2))
  {}

  lemma OctetsAreRight(value: seq<byte>, n: nat)
    requires |value| == MAC_LENGTH && n <= 6 && forall i :: 0 <= i < n ==> ParseOctet(value, i).Ok?
    ensures forall k :: 0 <= k < 3 * n && k < 17 ==> RightAt(value, k)
  {
    forall k | 0 <= k < 3 * n && k < 17 ensures RightAt(value, k) {
      assert ParseOctet(value, k / 3).Ok?;
      OctetIsRight(value, k / 3);
      assert k == 3 * (k / 3) || k == 3 * (k / 3) + 1 || k == 3 * (k / 3) + 2;
    }
  }

  lemma OctetFault(value: seq<byte>, i: nat)
    requires |value| == MAC_LENGTH && i < 6 && ParseOctet(value, i).Err?
    requires forall k :: 0 <= k < i ==> ParseOctet(value, k).Ok?
    ensures IsFault(value, ParseOctet(value, i).error)
  {
    OctetsAreRight(value, i);
  }

  method ParseMacAddress(value: seq<byte>) returns (r: Result<seq<byte>, MacError>)
    ensures r.Ok? <==> |value| == 17 && forall k :: 0 <= k < 17 ==> RightAt(value, k)
    ensures r.Err? ==> IsFault(value, r.error)
    ensures |value| != MAC_LENGTH ==> r == Err(InvalidLength(|value|))
    ensures r.Ok? ==> ParsesTo(value, r.value)
    ensures r.Err? ==> forall octets :: !ParsesTo(value, octets)
    ensures |value| == MAC_LENGTH && r.Err? ==>
            exists i :: 0 <= i < 6 && ParseOctet(value, i) == Err(r.error)
                        && forall k :: 0 <= k < i ==> ParseOctet(value, k).Ok?
  {
    if |value| != MAC_LENGTH {
      return Err(InvalidLength(|value|));
    }
    var octets := new byte[6](_ => 0);
    for index := 0 to 6
      invariant forall k :: 0 <= k < index ==> ParseOctet(value, k) == Ok(octets[k])
    {
      var offset := 3 * index;
      ghost var octet := ParseOctet(value, index);
      if index != 5 && value[offset + 2] != COLON {
        assert octet == Err(InvalidSeparator(offset + 2));
        OctetFault(value, index);
        return Err(InvalidSeparator(offset + 2));
      }
      var high := HexValue(value[offset]);
      if high.None? {
        assert octet == Err(InvalidHexDigit(offset));
        OctetFault(value, index);
        return Err(InvalidHexDigit(offset));
      }
      var low := HexValue(value[offset + 1]);
      if low.None? {
        assert octet == Err(InvalidHexDigit(offset + 1));
        OctetFault(value, index);
        return Err(InvalidHexDigit(offset + 1));
      }
      octets[index] := 16 * high.value + low.value;
    }
    OctetsAreRight(value, 6);
    r := Ok(octets[..]);
  }

  function LowerHex(n: byte): (b: byte)
    requires n < 16
    ensures HexValue(b) == Some(n)
  {
    if n < 10 then 0x30 + n else 0x61 + n - 10
  }

  function PrintedByte(octets: seq<byte>, k: nat): byte
    requires |octets| == 6 && k < MAC_LENGTH
  {
    if k % 3 == 2 then COLON
    else if k % 3 == 0 then LowerHex(octets[k / 3] / 16)
    else LowerHex(octets[k / 3] % 16)
  }

  function PrintMac(octets: seq<byte>): seq<byte>
    requires |octets| == 6
  {
    seq(MAC_LENGTH, k requires 0 <= k < MAC_LENGTH => PrintedByte(octets, k))
  }

  method DisplayMac(octets: seq<byte>) returns (text: seq<byte>)
    requires |octets| == 6
    ensures text == PrintMac(octets)
  {
    text := [LowerHex(octets[0] / 16), LowerHex(octets[0] % 16)];
    for i := 1 to 6
      invariant |text| == 3 * i - 1
      invariant forall k :: 0 <= k < |text| ==> text[k] == PrintedByte(octets, k)
    {
      text := text + [COLON, LowerHex(octets[i] / 16), LowerHex(octets[i] % 16)];
    }
  }

  ghost predicate ParsesTo(value: seq<byte>, octets: seq<byte>) {
    |value| == MAC_LENGTH && |octets| == 6 && forall i :: 0 <= i < 6 ==> ParseOctet(value, i) == Ok(octets[i])
  }

  function Lower(b: byte): byte {
    if 0x41 <= b <= 0x5A then b + 0x20 else b
  }

  function Lowercase(s: seq<byte>): seq<byte> {
    seq(|s|, i requires 0 <= i < |s| => Lower(s[i]))
  }

  lemma PrintedOctet(octets: seq<byte>, i: nat)
    requires |octets| == 6 && i < 6
    ensures PrintedByte(octets, 3 * i) == LowerHex(octets[i] / 16)
    ensures PrintedByte(octets, 3 * i + 1) == LowerHex(octets[i] % 16)
    ensures i < 5 ==> PrintedByte(octets, 3 * i + 2) == COLON
  {}

  /** Printing then parsing gives the address back. */
  lemma MacRoundTrip(octets: seq<byte>)
    requires |octets| == 6
    ensures ParsesTo(PrintMac(octets), octets)
  {
    forall i | 0 <= i < 6 ensures ParseOctet(PrintMac(octets), i) == Ok(octets[i]) {
      PrintedOctet(octets, i);
    }
  }

  lemma LowerHexOfDigit(b: byte)
    requires IsHex(b)
    ensures LowerHex(HexValue(b).value) == Lower(b)
  {}

  lemma PrintedOctetIsLower(value: seq<byte>, octets: seq<byte>, i: nat)
    requires |value| == MAC_LENGTH && |octets| == 6 && i < 6 && ParseOctet(value, i) == Ok(octets[i])
    ensures PrintedByte(octets, 3 * i) == Lower(value[3 * i])
    ensures PrintedByte(octets, 3 * i + 1) == Lower(value[3 * i + 1])
    ensures i < 5 ==> PrintedByte(octets, 3 * i + 2) == Lower(value[3 * i + 2])
  {
    PrintedOctet(octets, i);
    LowerHexOfDigit(value[3 * i]);
    LowerHexOfDigit(value[3 * i + 1]);
  }

  lemma PrintedByteIsLower(value: seq<byte>, octets: seq<byte>, k: nat)
    requires ParsesTo(value, octets) && k < MAC_LENGTH
    ensures PrintedByte(octets, k) == Lower(value[k])
  {
    var i := k / 3;
    PrintedOctetIsLower(value, octets, i);
    assert k == 3 * i || k == 3 * i + 1 || (k == 3 * i + 2 && i < 5);
  }

  /** Parsing then printing lower-cases the text. */
  lemma PrintedMacIsLowercase(value: seq<byte>, octets: seq<byte>)
    requires ParsesTo(value, octets)
    ensures PrintMac(octets) == Lowercase(value)
  {
    forall k | 0 <= k < MAC_LENGTH ensures PrintedByte(octets, k) == Lower(value[k]) {
      PrintedByteIsLower(value, octets, k);
    }
  }

  /** Two texts parse to the same address exactly when they differ in letter case only. */
  lemma SameMacIffSameLowercase(a: seq<byte>, b: seq<byte>, octetsA: seq<byte>, octetsB: seq<byte>)
    requires ParsesTo(a, octetsA) && ParsesTo(b, octetsB)
    ensures octetsA == octetsB <==> Lowercase(a) == Lowercase(b)
  {
    PrintedMacIsLowercase(a, octetsA);
    PrintedMacIsLowercase(b, octetsB);
    MacRoundTrip(octetsA);
    MacRoundTrip(octetsB);
    if Lowercase(a) == Lowercase(b) {
      forall i | 0 <= i < 6 ensures octetsA[i] == octetsB[i] {
        assert ParseOctet(PrintMac(octetsA), i) == Ok(octetsA[i]);
        assert ParseOctet(PrintMac(octetsB), i) == Ok(octetsB[i]);
      }
    }
  }
}
