/** IMEIs: fifteen digits whose Luhn sum is a multiple of ten (Annex B of 3GPP TS 23.003). */
module Imei {
  import opened Bytes
  import opened InlineText

  const IMEI_LENGTH: nat := 15

  datatype ParseImeiError = InvalidLength(actual: nat) | InvalidDigit(index: nat) | InvalidChecksum

  /** Contribution of one digit; digits at odd indices are doubled. */
  function Weight(index: nat, digit: nat): (w: nat)
    requires digit < 10
    ensures w < 10
  {
    if index % 2 == 0 then digit else if 2 * digit > 9 then 2 * digit - 9 else 2 * digit
  }

  function LuhnSum(s: seq<byte>): (sum: nat)
    requires AllDigits(s)
    ensures sum <= 9 * |s|
  {
    if s == [] then 0
    else
      var last := |s| - 1;
      assert IsDigit(s[last]);
      LuhnSum(s[..last]) + Weight(last, s[last] - 0x30)
  }

  predicate IsImei(s: seq<byte>) {
    |s| == IMEI_LENGTH && AllDigits(s) && LuhnSum(s) % 10 == 0
  }

  method FromStr(value: seq<byte>) returns (r: Result<InlineAscii, ParseImeiError>)
    ensures r.Ok? <==> IsImei(value)
    ensures r.Ok? ==> r.value == InlineAscii(value, IMEI_LENGTH)
    ensures |value| != IMEI_LENGTH ==> r == Err(InvalidLength(|value|))
    ensures |value| == IMEI_LENGTH && !AllDigits(value) ==>
            r.Err? && r.error.InvalidDigit? && r.error.index < |value| && !IsDigit(value[r.error.index])
            && AllDigits(value[..r.error.index])
    ensures |value| == IMEI_LENGTH && AllDigits(value) && !IsImei(value) ==> r == Err(InvalidChecksum)
  {
    var accept := (b: byte) => IsDigit(b);
    var parsed := InlineText.Parse(value, IMEI_LENGTH, IMEI_LENGTH, accept);
    match parsed {
      case Err(BadLength(actual)) => return Err(InvalidLength(actual));
      case Err(BadCharacter(index)) =>
        assert !accept(value[index]);
        return Err(InvalidDigit(index));
      case Ok(encoded) =>
        assert forall i :: 0 <= i < |value| ==> accept(value[i]);
        assert Padded(value, IMEI_LENGTH) == value;
        var bytes := AsBytes(encoded);
        var checksum := 0;
        for index := 0 to |bytes|
          invariant checksum == LuhnSum(bytes[..index]) <= 9 * index
        {
          assert bytes[..index + 1][..index] == bytes[..index] && IsDigit(bytes[index]);
          var digit := bytes[index] - 0x30;
          var doubled := digit * 2;
          var weight := if index % 2 == 0 then digit else if doubled > 9 then doubled - 9 else doubled;
          assert checksum + weight < 256;  // the byte-sized sum never overflows
          checksum := checksum + weight;
        }
        assert bytes[..|bytes|] == bytes == value;
        if checksum % 10 != 0 {
          return Err(InvalidChecksum);
        }
        r := Ok(encoded);
    }
  }

  /** Changing one digit shifts the sum by the difference of its weights. */
  lemma {:induction false} SumAfterChange(s: seq<byte>, i: nat, b: byte)
    requires AllDigits(s) && i < |s| && IsDigit(b)
    ensures AllDigits(s[i := b])
    ensures LuhnSum(s[i := b]) == LuhnSum(s) - Weight(i, s[i] - 0x30) + Weight(i, b - 0x30)
    decreases |s|
  {
    var last, t := |s| - 1, s[i := b];
    assert IsDigit(s[i]) && AllDigits(t);
    if i == last {
      assert t[..last] == s[..last];
    } else {
      assert t[..last] == s[..last][i := b];
      SumAfterChange(s[..last], i, b);
    }
  }

  lemma WeightsDistinct(index: nat, a: nat, b: nat)
    requires a < 10 && b < 10
    ensures Weight(index, a) == Weight(index, b) <==> a == b
  {}

  /** Every change of a single digit is detected. */
  lemma SingleChangeDetected(s: seq<byte>, i: nat, b: byte)
    requires IsImei(s) && i < |s| && IsDigit(b) && b != s[i]
    ensures !IsImei(s[i := b])
  {
    SumAfterChange(s, i, b);
    assert IsDigit(s[i]);
    WeightsDistinct(i, s[i] - 0x30, b - 0x30);
    NotBothMultiples(LuhnSum(s), LuhnSum(s[i := b]));
  }

  lemma NotBothMultiples(x: nat, y: nat)
    requires x != y && -10 < x - y < 10
    ensures !(x % 10 == 0 && y % 10 == 0)
  {}

  function Swapped(s: seq<byte>, i: nat): seq<byte>
    requires i + 1 < |s|
  {
    s[i := s[i + 1]][i + 1 := s[i]]
  }

  lemma SwapShift(i: nat, a: nat, b: nat)
    requires a < 10 && b < 10
    ensures (Weight(i, b) + Weight(i + 1, a) - Weight(i, a) - Weight(i + 1, b)) % 10 == 0
            <==> a == b || (a == 0 && b == 9) || (a == 9 && b == 0)
  {
    assert (i + 1) % 2 == 1 - i % 2;
  }

  lemma MultipleShift(x: int, shift: int)
    requires x % 10 == 0
    ensures (x + shift) % 10 == 0 <==> shift % 10 == 0
  {}

  lemma SumAfterSwap(s: seq<byte>, i: nat, a: nat, b: nat)
    requires AllDigits(s) && i + 1 < |s| && a < 10 && b < 10 && s[i] == 0x30 + a && s[i + 1] == 0x30 + b
    ensures AllDigits(Swapped(s, i))
    ensures LuhnSum(Swapped(s, i)) == LuhnSum(s) + (Weight(i, b) + Weight(i + 1, a) - Weight(i, a) - Weight(i + 1, b))
  {
    var once := s[i := s[i + 1]];
    SumAfterChange(s, i, s[i + 1]);
    assert once[i + 1] == s[i + 1];
    SumAfterChange(once, i + 1, s[i]);
  }

  /** An adjacent swap passes exactly when it swaps equal digits or 0 and 9. */
  lemma SwapDetected(s: seq<byte>, i: nat)
    requires IsImei(s) && i + 1 < |s|
    ensures IsImei(Swapped(s, i)) <==>
            s[i] == s[i + 1] || (s[i] == 0x30 && s[i + 1] == 0x39) || (s[i] == 0x39 && s[i + 1] == 0x30)
  {
    assert IsDigit(s[i]) && IsDigit(s[i + 1]);
    var a, b := s[i] - 0x30, s[i + 1] - 0x30;
    SumAfterSwap(s, i, a, b);
    SwapShift(i, a, b);
    MultipleShift(LuhnSum(s), Weight(i, b) + Weight(i + 1, a) - Weight(i, a) - Weight(i + 1, b));
  }

  function CheckDigitOf(prefix: seq<byte>): byte
    requires AllDigits(prefix)
  {
    0x30 + (10 - LuhnSum(prefix) % 10) % 10
  }

  lemma CompletesToTen(sum: nat, b: byte)
    ensures IsDigit(b) && (sum + (b - 0x30)) % 10 == 0 <==> b == 0x30 + (10 - sum % 10) % 10
  {}

  /** Every fourteen digits have exactly one check digit. */
  lemma OneCheckDigit(prefix: seq<byte>)
    requires |prefix| == IMEI_LENGTH - 1 && AllDigits(prefix)
    ensures forall b: byte :: IsImei(prefix + [b]) <==> b == CheckDigitOf(prefix)
  {
    forall b: byte ensures IsImei(prefix + [b]) <==> b == CheckDigitOf(prefix) {
      CheckDigit(prefix, b);
      CompletesToTen(LuhnSum(prefix), b);
    }
  }

  lemma CheckDigit(prefix: seq<byte>, b: byte)
    requires |prefix| == IMEI_LENGTH - 1 && AllDigits(prefix)
    ensures IsImei(prefix + [b]) <==> IsDigit(b) && (LuhnSum(prefix) + (b - 0x30)) % 10 == 0
  {
    var whole := prefix + [b];
    assert whole[..14] == prefix && whole[14] == b;
  }

  // ---------- the checksum of Annex B, digit by digit ----------

  function Sum(numbers: seq<nat>): nat {
    if numbers == [] then 0 else Sum(numbers[..|numbers| - 1]) + numbers[|numbers| - 1]
  }

  /** `plain` are the digits at even indices; `tens` and `units` write the doubles of those at odd ones. */
  predicate Doubles(s: seq<byte>, plain: seq<nat>, tens: seq<nat>, units: seq<nat>)
    requires AllDigits(s)
  {
    |tens| == |units| == |s| / 2 && |plain| == |s| - |s| / 2
    && (forall k :: 0 <= k < |plain| ==> s[2 * k] == 0x30 + plain[k])
    && (forall k :: 0 <= k < |tens| ==>
          units[k] < 10 && 2 * (s[2 * k + 1] as int - 0x30) == 10 * tens[k] + units[k])
  }

  lemma DoublesOfFront(s: seq<byte>, plain: seq<nat>, tens: seq<nat>, units: seq<nat>)
    requires s != [] && AllDigits(s) && Doubles(s, plain, tens, units)
    ensures var last := |s| - 1; var k := last / 2;
            if last % 2 == 0 then Doubles(s[..last], plain[..k], tens, units)
            else Doubles(s[..last], plain, tens[..k], units[..k])
  {
    var front := s[..|s| - 1];
    assert forall i :: 0 <= i < |front| ==> front[i] == s[i];
  }

  lemma WeightOfDouble(digit: nat, tens: nat, units: nat, index: nat)
    requires digit < 10 && units < 10 && 2 * digit == 10 * tens + units && index % 2 == 1
    ensures Weight(index, digit) == tens + units
  {}

  lemma LuhnSumNext(s: seq<byte>)
    requires s != [] && AllDigits(s)
    ensures IsDigit(s[|s| - 1])
    ensures LuhnSum(s) == LuhnSum(s[..|s| - 1]) + Weight(|s| - 1, s[|s| - 1] - 0x30)
  {
    assert IsDigit(s[|s| - 1]);
  }

  /** The weight of the last digit is what it adds to the three sums. */
  lemma LastWeight(s: seq<byte>, plain: seq<nat>, tens: seq<nat>, units: seq<nat>)
    requires s != [] && AllDigits(s) && Doubles(s, plain, tens, units) && IsDigit(s[|s| - 1])
    ensures var k := (|s| - 1) / 2;
            Weight(|s| - 1, s[|s| - 1] - 0x30) == if |s| % 2 == 1 then plain[k] else tens[k] + units[k]
  {
    var last := |s| - 1;
    var k := last / 2;
    if last % 2 == 0 {
      assert s[2 * k] == 0x30 + plain[k];
    } else {
      assert 2 * (s[2 * k + 1] as int - 0x30) == 10 * tens[k] + units[k];
      WeightOfDouble(s[last] - 0x30, tens[k], units[k], last);
    }
  }

  lemma {:induction false} LuhnSumIsDigitSum(s: seq<byte>, plain: seq<nat>, tens: seq<nat>, units: seq<nat>)
    requires AllDigits(s) && Doubles(s, plain, tens, units)
    ensures LuhnSum(s) == Sum(plain) + Sum(tens) + Sum(units)
    decreases |s|
  {
    if s != [] {
      var k := (|s| - 1) / 2;
      LuhnSumNext(s);
      LastWeight(s, plain, tens, units);
      DoublesOfFront(s, plain, tens, units);
      if |s| % 2 == 1 {
        LuhnSumIsDigitSum(s[..|s| - 1], plain[..k], tens, units);
      } else {
        LuhnSumIsDigitSum(s[..|s| - 1], plain, tens[..k], units[..k]);
      }
    }
  }

  /**
   Fifteen digits are accepted exactly when the digits at even indices, and the tens and
   units of the doubled digits at odd indices, add up to a multiple of ten.
   */
  lemma AcceptedIffDigitSum(s: seq<byte>, plain: seq<nat>, tens: seq<nat>, units: seq<nat>)
    requires |s| == 15 && AllDigits(s) && Doubles(s, plain, tens, units)
    ensures IsImei(s) <==> (Sum(plain) + Sum(tens) + Sum(units)) % 10 == 0
  {
    LuhnSumIsDigitSum(s, plain, tens, units);
  }
}
