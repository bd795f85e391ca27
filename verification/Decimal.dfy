/** Unsigned decimal text as Rust's `str::parse` reads it and `Display` writes it. */
module Decimal {
  import opened Bytes

  const TWO_POW_32: nat := 0x1_0000_0000
  const PLUS: byte := 0x2B

  function Value(digits: seq<byte>): nat
    requires AllDigits(digits)
  {
    if digits == [] then 0
    else
      assert IsDigit(digits[|digits| - 1]);
      10 * Value(digits[..|digits| - 1]) + (digits[|digits| - 1] - 0x30)
  }

  /** One leading plus sign is accepted; the value must stay below `bound`. */
  function ParseUnsigned(s: seq<byte>, bound: nat): (r: Option<nat>)
    ensures r.Some? ==> r.value < bound && s != [] && (forall b :: b in s ==> IsDigit(b) || b == PLUS)
  {
    var digits := if s != [] && s[0] == PLUS then s[1..] else s;
    if digits == [] || !AllDigits(digits) || Value(digits) >= bound then None else Some(Value(digits))
  }

  function Print(n: nat): (r: seq<byte>)
    ensures r != [] && AllDigits(r)
  {
    if n < 10 then [0x30 + n] else Print(n / 10) + [0x30 + n % 10]
  }

  lemma {:induction false} ValueOfPrint(n: nat)
    ensures Value(Print(n)) == n
  {
    if n >= 10 {
      ValueOfPrint(n / 10);
      assert Print(n)[..|Print(n)| - 1] == Print(n / 10);
    } else {
      assert Print(n)[..0] == [];
    }
  }

  lemma ParsePrinted(n: nat, bound: nat)
    requires n < bound
    ensures ParseUnsigned(Print(n), bound) == Some(n)
  {
    ValueOfPrint(n);
    assert IsDigit(Print(n)[0]);
  }

  lemma {:induction false} PrintHasNoLeadingZero(n: nat)
    requires n > 0
    ensures Print(n)[0] != 0x30
  {
    if n >= 10 { PrintHasNoLeadingZero(n / 10); }
  }

  // ---------- the accepted texts ----------

  function LeadingZeros(k: nat): (r: seq<byte>)
    ensures |r| == k && forall i :: 0 <= i < k ==> r[i] == 0x30
  {
    seq(k, _ => 0x30)
  }

  /** An optional plus sign, any number of zeros, and the digits of `n`. */
  function Spelling(plus: bool, zeros: nat, n: nat): seq<byte> {
    (if plus then [PLUS] else []) + (LeadingZeros(zeros) + Print(n))
  }

  lemma {:induction false} ValueBehindZeros(zeros: nat, digits: seq<byte>)
    requires AllDigits(digits)
    ensures AllDigits(LeadingZeros(zeros) + digits)
    ensures Value(LeadingZeros(zeros) + digits) == Value(digits)
    decreases zeros, |digits|
  {
    var whole := LeadingZeros(zeros) + digits;
    if digits != [] {
      var front := digits[..|digits| - 1];
      ValueBehindZeros(zeros, front);
      assert whole[..|whole| - 1] == LeadingZeros(zeros) + front;
      assert IsDigit(digits[|digits| - 1]);
    } else if zeros > 0 {
      ValueBehindZeros(zeros - 1, []);
      assert whole[..|whole| - 1] == LeadingZeros(zeros - 1) + [];
    }
  }

  lemma SignsInLetters()
    ensures [PLUS] == Ascii("+") && LeadingZeros(1) == Ascii("0")
  {}

  /** One more digit behind a spelling; a digit behind zeros alone makes the last of them a leading one. */
  lemma SpellNext(zeros: nat, m: nat, digit: nat)
    requires digit < 10
    ensures LeadingZeros(zeros) + Print(m) + [0x30 + digit]
         == LeadingZeros(if m == 0 then zeros + 1 else zeros) + Print(10 * m + digit)
  {
    if m == 0 {
      assert LeadingZeros(zeros) + Print(m) == LeadingZeros(zeros + 1);
    } else {
      assert Print(10 * m + digit) == Print(m) + [0x30 + digit];
    }
  }

  lemma ValueNext(front: seq<byte>, last: byte)
    requires AllDigits(front) && IsDigit(last)
    ensures AllDigits(front + [last]) && Value(front + [last]) == 10 * Value(front) + (last - 0x30)
  {
    assert (front + [last])[..|front|] == front;
  }

  lemma {:induction false} DigitsAreSpelling(digits: seq<byte>) returns (zeros: nat)
    requires digits != [] && AllDigits(digits)
    ensures digits == LeadingZeros(zeros) + Print(Value(digits))
  {
    var front, last := digits[..|digits| - 1], digits[|digits| - 1];
    assert IsDigit(last);
    ValueNext(front, last);
    assert digits == front + [last];
    if front == [] {
      zeros := 0;
      assert digits == [last] == Print(last - 0x30);
    } else {
      zeros := DigitsAreSpelling(front);
      SpellNext(zeros, Value(front), last - 0x30);
      zeros := if Value(front) == 0 then zeros + 1 else zeros;
    }
  }

  lemma ParsedIsSpelled(s: seq<byte>, bound: nat) returns (plus: bool, zeros: nat)
    requires ParseUnsigned(s, bound).Some?
    ensures s == Spelling(plus, zeros, ParseUnsigned(s, bound).value)
  {
    plus := s[0] == PLUS;
    zeros := DigitsAreSpelling(if plus then s[1..] else s);
  }

  lemma DigitsParse(plus: bool, digits: seq<byte>, bound: nat)
    requires digits != [] && AllDigits(digits) && Value(digits) < bound
    ensures ParseUnsigned((if plus then [PLUS] else []) + digits, bound) == Some(Value(digits))
  {
    assert IsDigit(digits[0]);
    if plus {
      assert ([PLUS] + digits)[1..] == digits;
    } else {
      assert [] + digits == digits;
    }
  }

  lemma SpelledParses(plus: bool, zeros: nat, n: nat, bound: nat)
    requires n < bound
    ensures ParseUnsigned(Spelling(plus, zeros, n), bound) == Some(n)
  {
    ValueOfPrint(n);
    ValueBehindZeros(zeros, Print(n));
    DigitsParse(plus, LeadingZeros(zeros) + Print(n), bound);
  }

  /** Parsing accepts exactly the spellings of numbers below the bound. */
  lemma ParseUnsignedIsExact(s: seq<byte>, bound: nat, n: nat)
    ensures ParseUnsigned(s, bound) == Some(n) <==> n < bound && exists plus, zeros :: s == Spelling(plus, zeros, n)
  {
    if ParseUnsigned(s, bound) == Some(n) {
      var plus, zeros := ParsedIsSpelled(s, bound);
    }
    if n < bound {
      if plus, zeros :| s == Spelling(plus, zeros, n) { SpelledParses(plus, zeros, n, bound); }
    }
  }

  /** Of all texts that parse to a number, its print is the shortest, and the only one of its length. */
  lemma PrintIsShortest(s: seq<byte>, bound: nat, n: nat)
    requires ParseUnsigned(s, bound) == Some(n)
    ensures |Print(n)| <= |s|
    ensures |Print(n)| == |s| ==> s == Print(n)
  {
    ParseUnsignedIsExact(s, bound, n);
    var plus, zeros :| s == Spelling(plus, zeros, n);
    assert !plus && zeros == 0 ==> s == Print(n);
  }

  function Pow10(e: nat): (r: nat)
    ensures r >= 1
  {
    if e == 0 then 1 else 10 * Pow10(e - 1)
  }

  lemma {:induction false} ValueBound(digits: seq<byte>)
    requires AllDigits(digits)
    ensures Value(digits) < Pow10(|digits|)
  {
    if digits != [] {
      assert IsDigit(digits[|digits| - 1]);
      ValueBound(digits[..|digits| - 1]);
    }
  }

  lemma {:induction false} Pow10Sum(a: nat, b: nat)
    ensures Pow10(a + b) == Pow10(a) * Pow10(b)
  {
    if a > 0 {
      Pow10Sum(a - 1, b);
      assert a + b - 1 == (a - 1) + b;
    }
  }
}
