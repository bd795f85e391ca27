/** UTF-8 (RFC 3629), by its bytes and by the Unicode scalar values that they encode. */
module Utf8Text {
  import opened Bytes

  /** Code points outside the surrogate range. */
  predicate IsScalar(c: nat) {
    c < 0xD800 || 0xE000 <= c < 0x11_0000
  }

  /** Control characters: U+0000 to U+001F and U+007F to U+009F. */
  predicate IsControl(c: nat) {
    c < 0x20 || 0x7F <= c < 0xA0
  }

  /** UTF-8 encoding of a code point (RFC 3629, section 3). */
  function Utf8(c: nat): (r: seq<byte>)
    requires c < 0x11_0000
    ensures c < 0x80 ==> r == [c]
    ensures c >= 0x80 ==> |r| >= 2 && forall i :: 0 <= i < |r| ==> r[i] >= 0x80
  {
    if c < 0x80 then [c]
    else if c < 0x800 then [0xC0 + c / 0x40, 0x80 + c % 0x40]
    else if c < 0x1_0000 then [0xE0 + c / 0x1000, 0x80 + c / 0x40 % 0x40, 0x80 + c % 0x40]
    else [0xF0 + c / 0x4_0000, 0x80 + c / 0x1000 % 0x40, 0x80 + c / 0x40 % 0x40, 0x80 + c % 0x40]
  }

  predicate Continuation(b: byte) {
    0x80 <= b < 0xC0
  }

  function Bits(b: byte, mark: int): int {
    b as int - mark
  }

  /** The payload bits of a sequence whose length its first byte announces. */
  function Payload(s: seq<byte>): int
    requires 1 <= |s| <= 4
  {
    if |s| == 1 then s[0] as int
    else if |s| == 2 then 0x40 * Bits(s[0], 0xC0) + Bits(s[1], 0x80)
    else if |s| == 3 then 0x1000 * Bits(s[0], 0xE0) + 0x40 * Bits(s[1], 0x80) + Bits(s[2], 0x80)
    else 0x4_0000 * Bits(s[0], 0xF0) + 0x1000 * Bits(s[1], 0x80) + 0x40 * Bits(s[2], 0x80) + Bits(s[3], 0x80)
  }

  /** The encoding carries the code point, in as few bytes as its size allows. */
  lemma Utf8Carries(c: nat)
    requires c < 0x11_0000
    ensures 1 <= |Utf8(c)| <= 4 && Payload(Utf8(c)) == c
    ensures |Utf8(c)| == if c < 0x80 then 1 else if c < 0x800 then 2 else if c < 0x1_0000 then 3 else 4
    ensures forall i :: 1 <= i < |Utf8(c)| ==> Continuation(Utf8(c)[i])
  {
    assert c == 0x40 * (c / 0x40) + c % 0x40;
    assert c / 0x40 == 0x40 * (c / 0x40 / 0x40) + c / 0x40 % 0x40 && c / 0x40 / 0x40 == c / 0x1000;
    assert c / 0x1000 == 0x40 * (c / 0x1000 / 0x40) + c / 0x1000 % 0x40 && c / 0x1000 / 0x40 == c / 0x4_0000;
  }

  /** Length of the well-formed sequence at the front (RFC 3629, section 4), or nothing. */
  function FrontLength(s: seq<byte>): (n: Option<nat>)
    requires s != []
    ensures n.Some? ==> 1 <= n.value <= |s| && n.value <= 4
  {
    if s[0] < 0x80 then Some(1)
    else if 0xC2 <= s[0] < 0xE0 && |s| >= 2 && Continuation(s[1]) then Some(2)
    else if 0xE0 <= s[0] < 0xF0 && |s| >= 3 && Continuation(s[1]) && Continuation(s[2])
            && (s[0] == 0xE0 ==> s[1] >= 0xA0) && (s[0] == 0xED ==> s[1] < 0xA0) then Some(3)
    else if 0xF0 <= s[0] <= 0xF4 && |s| >= 4 && Continuation(s[1]) && Continuation(s[2]) && Continuation(s[3])
            && (s[0] == 0xF0 ==> s[1] >= 0x90) && (s[0] == 0xF4 ==> s[1] < 0x90) then Some(4)
    else None
  }

  predicate Utf8Valid(s: seq<byte>) {
    s == [] || (FrontLength(s).Some? && Utf8Valid(s[FrontLength(s).value..]))
  }

  function EncodeScalars(cs: seq<nat>): seq<byte>
    requires forall i :: 0 <= i < |cs| ==> IsScalar(cs[i])
  {
    if cs == [] then []
    else
      assert IsScalar(cs[0]);
      Utf8(cs[0]) + EncodeScalars(cs[1..])
  }

  ghost predicate Encodes(s: seq<byte>, cs: seq<nat>) {
    (forall i :: 0 <= i < |cs| ==> IsScalar(cs[i])) && s == EncodeScalars(cs)
  }

  lemma DigitsOfThree(a: nat, b: nat, c: nat)
    requires b < 0x40 && c < 0x40
    ensures var n := 0x1000 * a + 0x40 * b + c; n / 0x1000 == a && n / 0x40 % 0x40 == b && n % 0x40 == c
  {
    assert (0x1000 * a + 0x40 * b + c) / 0x40 == 0x40 * a + b;
  }

  lemma DigitsOfFour(a: nat, b: nat, c: nat, d: nat)
    requires b < 0x40 && c < 0x40 && d < 0x40
    ensures var n := 0x4_0000 * a + 0x1000 * b + 0x40 * c + d;
            n / 0x4_0000 == a && n / 0x1000 % 0x40 == b && n / 0x40 % 0x40 == c && n % 0x40 == d
  {
    DigitsOfThree(0x40 * a + b, c, d);
  }

  lemma FrontOfThree(s: seq<byte>)
    requires |s| == 3 && FrontLength(s) == Some(3)
    ensures var c := Payload(s); 0 <= c && IsScalar(c) && Utf8(c) == s
  {
    DigitsOfThree(Bits(s[0], 0xE0), Bits(s[1], 0x80), Bits(s[2], 0x80));
  }

  lemma FrontOfFour(s: seq<byte>)
    requires |s| == 4 && FrontLength(s) == Some(4)
    ensures var c := Payload(s); 0 <= c && IsScalar(c) && Utf8(c) == s
  {
    DigitsOfFour(Bits(s[0], 0xF0), Bits(s[1], 0x80), Bits(s[2], 0x80), Bits(s[3], 0x80));
  }

  /** A well-formed sequence encodes the scalar value that it carries. */
  lemma FrontEncodes(s: seq<byte>)
    requires s != [] && FrontLength(s).Some?
    ensures var n := FrontLength(s).value; var c := Payload(s[..n]);
            0 <= c && IsScalar(c) && Utf8(c) == s[..n]
  {
    var n := FrontLength(s).value;
    if n == 2 {
      DigitsOfThree(0, Bits(s[0], 0xC0), Bits(s[1], 0x80));
    } else if n == 3 {
      FrontOfThree(s[..3]);
    } else if n == 4 {
      FrontOfFour(s[..4]);
    }
  }

  lemma FrontOfUtf8(c: nat, rest: seq<byte>)
    requires IsScalar(c)
    ensures FrontLength(Utf8(c) + rest) == Some(|Utf8(c)|)
  {
    Utf8Carries(c);
    var r, s := Utf8(c), Utf8(c) + rest;
    assert forall i :: 0 <= i < |r| ==> s[i] == r[i];
  }

  ghost predicate EncodesScalars(s: seq<byte>) {
    exists cs :: Encodes(s, cs)
  }

  lemma {:induction false} ValidEncodes(s: seq<byte>) returns (cs: seq<nat>)
    requires Utf8Valid(s)
    ensures Encodes(s, cs)
  {
    if s == [] {
      cs := [];
    } else {
      var n := FrontLength(s).value;
      FrontEncodes(s);
      var c := Payload(s[..n]);
      var rest := ValidEncodes(s[n..]);
      cs := [c] + rest;
      assert cs[1..] == rest && s == s[..n] + s[n..];
    }
  }

  lemma {:induction false} EncodedIsValid(cs: seq<nat>)
    requires forall i :: 0 <= i < |cs| ==> IsScalar(cs[i])
    ensures Utf8Valid(EncodeScalars(cs))
  {
    if cs != [] {
      var head, rest := Utf8(cs[0]), EncodeScalars(cs[1..]);
      EncodedIsValid(cs[1..]);
      FrontOfUtf8(cs[0], rest);
      assert (head + rest)[|head|..] == rest;
    }
  }

  /** Well-formed byte strings are exactly the encodings of sequences of scalar values. */
  lemma ValidIffEncoded(s: seq<byte>)
    ensures Utf8Valid(s) <==> EncodesScalars(s)
  {
    if Utf8Valid(s) {
      var cs := ValidEncodes(s);
    }
    if cs :| Encodes(s, cs) {
      EncodedIsValid(cs);
    }
  }

  // ---------- control characters ----------

  /** A control character in well-formed text: one ASCII byte, or 0xC2 and a byte below 0xA0. */
  predicate HasControl(s: seq<byte>) {
    exists i :: 0 <= i < |s| && ControlAt(s, i)
  }

  predicate ControlAt(s: seq<byte>, i: nat)
    requires i < |s|
  {
    s[i] < 0x20 || s[i] == 0x7F || (s[i] == 0xC2 && i + 1 < |s| && s[i + 1] < 0xA0)
  }

  /** In front of other text, an encoded character shows a control exactly at its own start. */
  lemma ControlInHead(c: nat, rest: seq<byte>, i: nat)
    requires IsScalar(c) && i < |Utf8(c)|
    ensures ControlAt(Utf8(c) + rest, i) <==> i == 0 && IsControl(c)
  {
    Utf8Carries(c);
    var r, s := Utf8(c), Utf8(c) + rest;
    assert s[i] == r[i] && (i + 1 < |r| ==> s[i + 1] == r[i + 1]);
  }

  lemma ControlInFront(c: nat, rest: seq<byte>)
    requires IsScalar(c)
    ensures HasControl(Utf8(c) + rest) <==> IsControl(c) || HasControl(rest)
  {
    Utf8Carries(c);
    var n, s := |Utf8(c)|, Utf8(c) + rest;
    ControlInHead(c, rest, 0);
    if IsControl(c) {
      assert ControlAt(s, 0);
    }
    if i :| 0 <= i < |rest| && ControlAt(rest, i) {
      assert s[n + i] == rest[i] && ControlAt(s, n + i);
    }
    if i :| 0 <= i < |s| && ControlAt(s, i) {
      if i < n {
        ControlInHead(c, rest, i);
      } else {
        assert s[i] == rest[i - n] && ControlAt(rest, i - n);
      }
    }
  }

  lemma {:induction false} ControlOfScalars(cs: seq<nat>)
    requires forall i :: 0 <= i < |cs| ==> IsScalar(cs[i])
    ensures HasControl(EncodeScalars(cs)) <==> HasControlScalar(cs)
  {
    if cs != [] {
      ControlInFront(cs[0], EncodeScalars(cs[1..]));
      ControlOfScalars(cs[1..]);
      if i :| 0 <= i < |cs| && IsControl(cs[i]) {
        if i > 0 { assert cs[1..][i - 1] == cs[i]; }
      }
    }
  }

  ghost predicate EncodesControl(s: seq<byte>) {
    exists cs :: Encodes(s, cs) && HasControlScalar(cs)
  }

  predicate HasControlScalar(cs: seq<nat>) {
    exists i :: 0 <= i < |cs| && IsControl(cs[i])
  }

  /** The byte test finds exactly the control characters of the encoded text. */
  lemma ControlIffEncoded(s: seq<byte>)
    requires Utf8Valid(s)
    ensures HasControl(s) <==> EncodesControl(s)
  {
    var cs := ValidEncodes(s);
    ControlOfScalars(cs);
    if other :| Encodes(s, other) && HasControlScalar(other) { ControlOfScalars(other); }
  }
}
