/** Byte strings and the few library operations on them that the client relies on. */
module Bytes {
  type byte = x: int | 0 <= x < 256 witness 0

  datatype Option<+T> = None | Some(value: T)

  datatype Result<+T, +E> = Ok(value: T) | Err(error: E)

  const SLASH: byte := 0x2F
  const BACKSLASH: byte := 0x5C
  const QUOTE: byte := 0x22

  const TWO_POW_64: nat := 0x1_0000_0000_0000_0000

  type U64 = x: nat | x < TWO_POW_64 witness 0

  predicate IsAscii(text: string) {
    forall i :: 0 <= i < |text| ==> text[i] as int < 0x80
  }

  /** The bytes of ASCII text, to state constants in the letters of the source. */
  function Ascii(text: string): (r: seq<byte>)
    requires IsAscii(text)
    ensures |r| == |text| && forall i :: 0 <= i < |r| ==> r[i] as int == text[i] as int
  {
    seq(|text|, i requires 0 <= i < |text| => text[i] as byte)
  }

  // ---------- digits ----------

  /** Value of a hexadecimal digit of either case. */
  function HexValue(b: byte): (r: Option<byte>)
    ensures r.Some? ==> r.value < 16
  {
    if 0x30 <= b <= 0x39 then Some(b - 0x30)
    else if 0x61 <= b <= 0x66 then Some(b - 0x61 + 10)
    else if 0x41 <= b <= 0x46 then Some(b - 0x41 + 10)
    else None
  }

  predicate IsHex(b: byte) {
    HexValue(b).Some?
  }

  predicate IsDigit(b: byte) {
    0x30 <= b <= 0x39
  }

  predicate AllDigits(s: seq<byte>) {
    forall i :: 0 <= i < |s| ==> IsDigit(s[i])
  }

  // ---------- sequences ----------

  lemma Associative<T>(a: seq<T>, b: seq<T>, c: seq<T>)
    ensures a + b + c == a + (b + c)
  {}

  lemma NextPrefix<T>(s: seq<T>, i: nat)
    requires i < |s|
    ensures s[..i + 1] == s[..i] + [s[i]]
  {}

  // ---------- searching ----------

  predicate OccursAt(hay: seq<byte>, needle: seq<byte>, at: nat) {
    at + |needle| <= |hay| && hay[at..at + |needle|] == needle
  }

  lemma DropFront(front: seq<byte>, rest: seq<byte>, s: seq<byte>)
    requires front + rest <= s
    ensures rest <= s[|front|..]
  {
    var n := |front| + |rest|;
    assert s[|front|..][..|rest|] == s[..n][|front|..] == rest;
  }

  lemma OccursInside(before: seq<byte>, hay: seq<byte>, after: seq<byte>, needle: seq<byte>, at: nat)
    requires OccursAt(hay, needle, at)
    ensures OccursAt(before + hay + after, needle, |before| + at)
  {
    var whole, n := before + hay + after, |needle|;
    assert whole[|before| + at..|before| + at + n] == hay[at..at + n];
  }

  /** First occurrence of `needle` at or after `from`. */
  function FindFrom(hay: seq<byte>, needle: seq<byte>, from: nat): (r: Option<nat>)
    ensures r.Some? ==> from <= r.value && OccursAt(hay, needle, r.value)
    ensures r.Some? ==> forall i :: from <= i < r.value ==> !OccursAt(hay, needle, i)
    ensures r.None? ==> forall i :: from <= i ==> !OccursAt(hay, needle, i)
    decreases |hay| - from
  {
    if from + |needle| > |hay| then None
    else if OccursAt(hay, needle, from) then Some(from)
    else FindFrom(hay, needle, from + 1)
  }

  /** First position of one byte at or after `from`. */
  function IndexFrom(s: seq<byte>, b: byte, from: nat): (r: Option<nat>)
    requires from <= |s|
    ensures r.Some? ==> from <= r.value < |s| && s[r.value] == b
    ensures forall i :: from <= i < (if r.Some? then r.value else |s|) ==> s[i] != b
    decreases |s| - from
  {
    if from == |s| then None
    else if s[from] == b then Some(from)
    else IndexFrom(s, b, from + 1)
  }

  /** Splits around the first occurrence of a non-empty separator. */
  function SplitOnce(s: seq<byte>, separator: seq<byte>): Option<(seq<byte>, seq<byte>)> {
    match FindFrom(s, separator, 0)
    case None => None
    case Some(i) => Some((s[..i], s[i + |separator|..]))
  }

  /** A separator that starts with a byte foreign to `left` is found right behind `left`. */
  lemma SplitOnceBehind(left: seq<byte>, separator: seq<byte>, right: seq<byte>)
    requires separator != [] && separator[0] !in left
    ensures SplitOnce(left + separator + right, separator) == Some((left, right))
  {
    var s := left + separator + right;
    assert OccursAt(s, separator, |left|);
    forall i | 0 <= i < |left| ensures !OccursAt(s, separator, i) {
      assert s[i] == left[i];
      if i + |separator| <= |s| {
        assert s[i..i + |separator|][0] == s[i];
      }
    }
    var at := FindFrom(s, separator, 0);
    assert at == Some(|left|);
    assert s[..|left|] == left && s[|left| + |separator|..] == right;
  }

  lemma SplitOncePieces(value: seq<byte>, separator: seq<byte>)
    requires SplitOnce(value, separator).Some?
    ensures value == SplitOnce(value, separator).value.0 + separator + SplitOnce(value, separator).value.1
  {
    var i := FindFrom(value, separator, 0).value;
    assert value[i..] == value[i..i + |separator|] + value[i + |separator|..];
  }

  // ---------- splitting at one byte ----------

  /** All pieces between occurrences of `sep`; the empty string has one empty piece. */
  function Split(s: seq<byte>, sep: byte): (pieces: seq<seq<byte>>)
    ensures |pieces| >= 1
    ensures forall piece :: piece in pieces ==> sep !in piece
  {
    if s == [] then [[]]
    else if s[0] == sep then [[]] + Split(s[1..], sep)
    else
      var rest := Split(s[1..], sep);
      [[s[0]] + rest[0]] + rest[1..]
  }

  function Join(pieces: seq<seq<byte>>, sep: byte): seq<byte>
    requires |pieces| >= 1
  {
    if |pieces| == 1 then pieces[0]
    else pieces[0] + [sep] + Join(pieces[1..], sep)
  }

  lemma {:induction false} SplitPrefix(piece: seq<byte>, s: seq<byte>, sep: byte)
    requires sep !in piece
    ensures Split(piece + [sep] + s, sep) == [piece] + Split(s, sep)
  {
    var whole := piece + [sep] + s;
    if piece == [] {
      assert whole[1..] == s;
    } else {
      SplitPrefix(piece[1..], s, sep);
      assert whole[1..] == piece[1..] + [sep] + s;
      assert [piece[0]] + piece[1..] == piece;
    }
  }

  lemma {:induction false} SplitWhole(piece: seq<byte>, sep: byte)
    requires sep !in piece
    ensures Split(piece, sep) == [piece]
  {
    if piece != [] {
      SplitWhole(piece[1..], sep);
      assert [piece[0]] + piece[1..] == piece;
    }
  }

  lemma {:induction false} SplitOfJoin(pieces: seq<seq<byte>>, sep: byte)
    requires |pieces| >= 1
    requires forall piece :: piece in pieces ==> sep !in piece
    ensures Split(Join(pieces, sep), sep) == pieces
  {
    if |pieces| == 1 {
      SplitWhole(pieces[0], sep);
    } else {
      SplitOfJoin(pieces[1..], sep);
      SplitPrefix(pieces[0], Join(pieces[1..], sep), sep);
    }
  }

  lemma {:induction false} JoinOfSplit(s: seq<byte>, sep: byte)
    ensures Join(Split(s, sep), sep) == s
  {
    if s != [] {
      var rest := Split(s[1..], sep);
      JoinOfSplit(s[1..], sep);
      if s[0] == sep {
        assert ([[]] + rest)[1..] == rest;
      } else if |rest| > 1 {
        assert ([[s[0]] + rest[0]] + rest[1..])[1..] == rest[1..];
        assert [s[0]] + (rest[0] + [sep] + Join(rest[1..], sep)) == s;
      }
    }
  }

  /** Appending one more piece puts one separator in front of it. */
  lemma {:induction false} JoinSnoc(pieces: seq<seq<byte>>, last: seq<byte>, sep: byte)
    requires |pieces| >= 1
    ensures Join(pieces + [last], sep) == Join(pieces, sep) + [sep] + last
  {
    if |pieces| == 1 {
      assert (pieces + [last])[1..] == [last];
    } else {
      assert (pieces + [last])[1..] == pieces[1..] + [last];
      JoinSnoc(pieces[1..], last, sep);
    }
  }

  // ---------- lexicographic order ----------

  /** The byte-wise order of Rust strings, slices and arrays. */
  predicate Less(a: seq<byte>, b: seq<byte>) {
    b != [] && (a == [] || a[0] < b[0] || (a[0] == b[0] && Less(a[1..], b[1..])))
  }

  lemma {:induction false} LessIrreflexive(a: seq<byte>)
    ensures !Less(a, a)
  {
    if a != [] { LessIrreflexive(a[1..]); }
  }

  lemma {:induction false} LessTransitive(a: seq<byte>, b: seq<byte>, c: seq<byte>)
    requires Less(a, b) && Less(b, c)
    ensures Less(a, c)
  {
    if a != [] && a[0] == b[0] == c[0] { LessTransitive(a[1..], b[1..], c[1..]); }
  }

  lemma {:induction false} LessTotal(a: seq<byte>, b: seq<byte>)
    ensures a == b || Less(a, b) || Less(b, a)
  {
    if a != [] && b != [] && a[0] == b[0] {
      LessTotal(a[1..], b[1..]);
      assert a == [a[0]] + a[1..] && b == [b[0]] + b[1..];
    }
  }
}
