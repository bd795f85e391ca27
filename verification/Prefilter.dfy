/**
 The byte-level test that decides whether a response body may skip generic inspection,
 and the proof that it never misses a string token, however the token is spelled.
 */
module Prefilter {
  import opened Bytes
  import opened JsonText
  import opened SortedMap

  const STATUS: seq<byte> := [0x73, 0x74, 0x61, 0x74, 0x75, 0x73]
  const ERROR: seq<byte> := [0x65, 0x72, 0x72, 0x6F, 0x72]

  function Quoted(s: seq<byte>): seq<byte> {
    [QUOTE] + s + [QUOTE]
  }

  // ---------- one string token ----------

  /** What four hexadecimal digits decode to, or nothing when one of them is not a digit. */
  function DecodeDigits(digits: seq<byte>): Option<nat>
    requires |digits| == 4
  {
    if IsHex4(digits) then Some(HexNumber(digits)) else None
  }

  /** The test for one expected byte: how many bytes spell it, if any do. */
  function StepOver(bytes: seq<byte>, expected: byte): Option<nat> {
    if bytes != [] && bytes[0] == expected then Some(1)
    else if |bytes| >= 6 && bytes[0] == BACKSLASH && bytes[1] == 0x75
         && DecodeDigits(bytes[2..6]) == Some(expected as nat) then Some(6)
    else None
  }

  predicate Matches(bytes: seq<byte>, expected: seq<byte>)
    decreases |expected|
  {
    if expected == [] then bytes != [] && bytes[0] == QUOTE
    else
      var step := StepOver(bytes, expected[0]);
      step.Some? && step.value <= |bytes| && Matches(bytes[step.value..], expected[1..])
  }

  method DecodeFourDigits(digits: seq<byte>) returns (decoded: Option<nat>)
    requires |digits| == 4
    ensures decoded == DecodeDigits(digits)
  {
    var value := 0;
    for i := 0 to 4
      invariant forall k :: 0 <= k < i ==> IsHex(digits[k])
      invariant value == HexNumber(digits[..i])
      invariant i <= 3 ==> value < 0x1000
    {
      match HexValue(digits[i])
      case None =>
        return None;
      case Some(digit) =>
        assert digits[..i + 1][..i] == digits[..i];
        assert value * 16 + digit < 0x1_0000;  // the 16-bit shift loses nothing
        value := value * 16 + digit;
        if i < 3 { HexPrefixBound(digits[..i + 1]); }
    }
    assert digits[..4] == digits;
    decoded := Some(value);
  }

  lemma HexPrefixBound(digits: seq<byte>)
    requires |digits| <= 3 && forall k :: 0 <= k < |digits| ==> IsHex(digits[k])
    ensures HexNumber(digits) < 0x1000
  {
    if |digits| == 3 {
      var two := digits[..2];
      var one := two[..1];
      assert IsHex(digits[2]) && IsHex(two[1]) && IsHex(one[0]);
      assert HexNumber(one) == HexValue(one[0]).value + 16 * HexNumber(one[..0]);
      assert HexNumber(two) == 16 * HexNumber(one) + HexValue(two[1]).value;
    } else if |digits| == 2 {
      var one := digits[..1];
      assert HexNumber(one) == HexValue(one[0]).value + 16 * HexNumber(one[..0]);
    }
  }

  /** Tests whether a JSON string body spelling `expected` and its closing quote start here. */
  method JsonStringMatches(start: seq<byte>, expected: seq<byte>) returns (r: bool)
    ensures r == Matches(start, expected)
  {
    var bytes := start;
    for k := 0 to |expected|
      invariant Matches(start, expected) == Matches(bytes, expected[k..])
    {
      var wanted := expected[k];
      assert expected[k..][1..] == expected[k + 1..];
      if bytes != [] && bytes[0] == wanted {
        bytes := bytes[1..];
      } else {
        if |bytes| < 6 || bytes[0] != BACKSLASH || bytes[1] != 0x75 {
          return false;
        }
        var decoded := DecodeFourDigits(bytes[2..6]);
        if decoded != Some(wanted as nat) {
          return false;
        }
        bytes := bytes[6..];
      }
    }
    r := bytes != [] && bytes[0] == QUOTE;
  }

  /** Strings whose bytes have no two-character escape: printable ASCII without `"`, `\` and `/`. */
  predicate Plain(s: seq<byte>) {
    forall i :: 0 <= i < |s| ==> 0x20 <= s[i] < 0x80 && s[i] != QUOTE && s[i] != BACKSLASH && s[i] != SLASH
  }

  lemma ExpectedArePlain()
    ensures Plain(STATUS) && Plain(ERROR)
  {}

  ghost predicate StartsWithString(bytes: seq<byte>, decoded: seq<byte>) {
    exists ps :: SpellsPrefix(ps, bytes, decoded)
  }

  ghost predicate SpellsPrefix(ps: seq<Piece>, bytes: seq<byte>, decoded: seq<byte>) {
    ValidPieces(ps) && PiecesValue(ps) == decoded && PiecesText(ps) + [QUOTE] <= bytes
  }

  /** A piece that decodes to one plain byte is either that byte or its \u escape. */
  lemma PlainPiece(p: Piece, tail: seq<byte>, bytes: seq<byte>, expected: byte)
    requires ValidPiece(p) && PieceValue(p)[0] == expected && Plain([expected])
    requires PieceText(p) + tail <= bytes
    ensures PieceValue(p) == [expected]
    ensures StepOver(bytes, expected) == Some(|PieceText(p)|)
  {
    assert [expected][0] == expected;
    match p
    case Raw(b) =>
      assert bytes[0] == (PieceText(p) + tail)[0] == b;
    case Short(e) =>
    case Unicode(d) =>
      var text := PieceText(p) + tail;
      assert bytes[..|text|] == text;
      assert bytes[0] == text[0] && bytes[1] == text[1];
      assert bytes[2..6] == text[2..6] == d;
    case Surrogates(_, _) =>
  }

  lemma {:induction false} SpelledMatches(ps: seq<Piece>, bytes: seq<byte>, expected: seq<byte>)
    requires Plain(expected) && SpellsPrefix(ps, bytes, expected)
    ensures Matches(bytes, expected)
    decreases |expected|
  {
    if ps == [] {
      assert bytes[0] == (PiecesText(ps) + [QUOTE])[0];
    } else {
      var rest := PiecesText(ps[1..]) + [QUOTE];
      assert PiecesText(ps) + [QUOTE] == PieceText(ps[0]) + rest;
      assert expected == PieceValue(ps[0]) + PiecesValue(ps[1..]);
      assert expected[0] == PieceValue(ps[0])[0] && Plain([expected[0]]);
      PlainPiece(ps[0], rest, bytes, expected[0]);
      var n := |PieceText(ps[0])|;
      assert expected[1..] == PiecesValue(ps[1..]);
      DropFront(PieceText(ps[0]), rest, bytes);
      SpelledMatches(ps[1..], bytes[n..], expected[1..]);
    }
  }

  lemma SpellsOneMore(p: Piece, rest: seq<Piece>, bytes: seq<byte>, expected: seq<byte>)
    requires ValidPiece(p) && PieceText(p) <= bytes && expected != [] && PieceValue(p) == [expected[0]]
    requires SpellsPrefix(rest, bytes[|PieceText(p)|..], expected[1..])
    ensures SpellsPrefix([p] + rest, bytes, expected)
  {
    var ps, n := [p] + rest, |PieceText(p)|;
    assert ps[1..] == rest;
    assert [expected[0]] + expected[1..] == expected;
    assert PiecesText(ps) + [QUOTE] == bytes[..n] + (PiecesText(rest) + [QUOTE]);
    assert bytes == bytes[..n] + bytes[n..];
  }

  lemma {:induction false} MatchedSpells(bytes: seq<byte>, expected: seq<byte>) returns (ps: seq<Piece>)
    requires Plain(expected) && Matches(bytes, expected)
    ensures SpellsPrefix(ps, bytes, expected)
    decreases |expected|
  {
    if expected == [] {
      ps := [];
      assert PiecesText(ps) + [QUOTE] == [QUOTE] == bytes[..1];
    } else {
      var n := StepOver(bytes, expected[0]).value;
      var rest := MatchedSpells(bytes[n..], expected[1..]);
      var p := if n == 1 then Raw(expected[0]) else Unicode(bytes[2..6]);
      ps := [p] + rest;
      assert PieceText(p) == bytes[..n];
      SpellsOneMore(p, rest, bytes, expected);
    }
  }

  /**
   The scanner accepts a suffix exactly when a JSON string body that decodes to
   `expected`, in any spelling of RFC 8259, section 7, starts there and is closed.
   */
  lemma MatchesIffSpelled(bytes: seq<byte>, expected: seq<byte>)
    requires Plain(expected)
    ensures Matches(bytes, expected) <==> StartsWithString(bytes, expected)
  {
    if Matches(bytes, expected) {
      var ps := MatchedSpells(bytes, expected);
    }
    if StartsWithString(bytes, expected) {
      var ps :| SpellsPrefix(ps, bytes, expected);
      SpelledMatches(ps, bytes, expected);
    }
  }

  // ---------- a whole body ----------

  predicate MatchesAfterQuote(bytes: seq<byte>, expected: seq<byte>, at: nat) {
    at < |bytes| && bytes[at] == QUOTE && Matches(bytes[at + 1..], expected)
  }

  /** The plain statement: some quote is followed by the expected string. */
  predicate HasQuoted(bytes: seq<byte>, expected: seq<byte>) {
    exists at :: 0 <= at < |bytes| && MatchesAfterQuote(bytes, expected, at)
  }

  lemma {:induction false} LiteralMatches(bytes: seq<byte>, expected: seq<byte>)
    requires expected + [QUOTE] <= bytes
    ensures Matches(bytes, expected)
  {
    assert bytes[..|expected| + 1] == expected + [QUOTE];
    assert bytes[|expected|] == QUOTE;
    if expected != [] {
      assert bytes[0] == expected[0];
      assert bytes[1..][..|expected|] == bytes[..|expected| + 1][1..] == expected[1..] + [QUOTE];
      LiteralMatches(bytes[1..], expected[1..]);
    }
  }

  lemma {:induction false} UnescapedIsLiteral(bytes: seq<byte>, expected: seq<byte>)
    requires Matches(bytes, expected) && BACKSLASH !in bytes
    ensures expected + [QUOTE] <= bytes
    decreases |expected|
  {
    if expected == [] {
      assert bytes[..1] == [QUOTE];
    } else {
      UnescapedIsLiteral(bytes[1..], expected[1..]);
      assert bytes == [bytes[0]] + bytes[1..];
      assert expected == [expected[0]] + expected[1..];
    }
  }

  lemma QuotedOccurs(bytes: seq<byte>, body: seq<byte>, at: nat)
    requires OccursAt(bytes, Quoted(body), at)
    ensures at < |bytes| && bytes[at] == QUOTE && body + [QUOTE] <= bytes[at + 1..]
  {
    var n := |body| + 2;
    assert bytes[at] == bytes[at..at + n][0];
    assert Quoted(body)[1..] == body + [QUOTE];
    assert bytes[at..at + n][1..] == body + [QUOTE];
    assert bytes[at + 1..][..n - 1] == bytes[at..at + n][1..];
  }

  lemma LiteralIsQuoted(bytes: seq<byte>, expected: seq<byte>, at: nat)
    requires OccursAt(bytes, Quoted(expected), at)
    ensures MatchesAfterQuote(bytes, expected, at)
  {
    QuotedOccurs(bytes, expected, at);
    LiteralMatches(bytes[at + 1..], expected);
  }

  lemma QuotedIsLiteral(bytes: seq<byte>, expected: seq<byte>, at: nat)
    requires MatchesAfterQuote(bytes, expected, at) && BACKSLASH !in bytes
    ensures OccursAt(bytes, Quoted(expected), at)
  {
    UnescapedIsLiteral(bytes[at + 1..], expected);
    var n := |expected| + 2;
    assert bytes[at..at + n] == [bytes[at]] + bytes[at + 1..][..n - 1];
  }

  /** Without escapes the literal search alone decides. */
  lemma UnescapedIsDecided(bytes: seq<byte>, expected: seq<byte>)
    requires BACKSLASH !in bytes && forall at: nat :: !OccursAt(bytes, Quoted(expected), at)
    ensures !HasQuoted(bytes, expected)
  {
    forall at | 0 <= at < |bytes| ensures !MatchesAfterQuote(bytes, expected, at) {
      if MatchesAfterQuote(bytes, expected, at) {
        QuotedIsLiteral(bytes, expected, at);
      }
    }
  }

  /** Bytes of a suffix that are no quotes start no match in the whole. */
  lemma NoMatchBefore(bytes: seq<byte>, expected: seq<byte>, offset: nat, n: nat)
    requires offset + n <= |bytes| && forall k :: 0 <= k < n ==> bytes[offset..][k] != QUOTE
    ensures forall at :: offset <= at < offset + n ==> !MatchesAfterQuote(bytes, expected, at)
  {
    forall at | offset <= at < offset + n ensures !MatchesAfterQuote(bytes, expected, at) {
      assert bytes[at] == bytes[offset..][at - offset];
    }
  }

  /** Literal search first, then the escape-aware scan over every quote. */
  method ContainsJsonString(bytes: seq<byte>, expected: seq<byte>, literal: seq<byte>) returns (r: bool)
    requires literal == Quoted(expected)
    ensures r == HasQuoted(bytes, expected)
  {
    var found := FindFrom(bytes, literal, 0);
    if found.Some? {
      LiteralIsQuoted(bytes, expected, found.value);
      return true;
    }
    if IndexFrom(bytes, BACKSLASH, 0).None? {
      UnescapedIsDecided(bytes, expected);
      return false;
    }

    var remaining := bytes;
    ghost var offset: nat := 0;
    var quote := IndexFrom(remaining, QUOTE, 0);
    while quote.Some?
      invariant offset <= |bytes| && remaining == bytes[offset..]
      invariant quote == IndexFrom(remaining, QUOTE, 0)
      invariant forall at :: 0 <= at < offset ==> !MatchesAfterQuote(bytes, expected, at)
      decreases |remaining|
    {
      ghost var at := offset + quote.value;
      NoMatchBefore(bytes, expected, offset, quote.value);
      remaining := remaining[quote.value + 1..];
      assert remaining == bytes[at + 1..];
      var matched := JsonStringMatches(remaining, expected);
      if matched {
        assert MatchesAfterQuote(bytes, expected, at);
        return true;
      }
      offset := at + 1;
      quote := IndexFrom(remaining, QUOTE, 0);
    }
    NoMatchBefore(bytes, expected, offset, |remaining|);
    r := false;
  }

  predicate NeedsInspection(bytes: seq<byte>) {
    HasQuoted(bytes, STATUS) && HasQuoted(bytes, ERROR)
  }

  /** Some quote of the text is followed by a JSON string body, in any spelling, that decodes to `s`. */
  ghost predicate HasSpelled(bytes: seq<byte>, s: seq<byte>) {
    exists at :: 0 <= at < |bytes| && bytes[at] == QUOTE && StartsWithString(bytes[at + 1..], s)
  }

  lemma QuotedIffSpelled(bytes: seq<byte>, s: seq<byte>)
    requires Plain(s)
    ensures HasQuoted(bytes, s) <==> HasSpelled(bytes, s)
  {
    forall at | 0 <= at < |bytes|
      ensures MatchesAfterQuote(bytes, s, at) <==> bytes[at] == QUOTE && StartsWithString(bytes[at + 1..], s)
    {
      MatchesIffSpelled(bytes[at + 1..], s);
    }
  }

  /** A body is inspected exactly when spellings of both `status` and `error` follow quotes in it. */
  lemma InspectionIsExact(bytes: seq<byte>)
    ensures NeedsInspection(bytes) <==> HasSpelled(bytes, Ascii("status")) && HasSpelled(bytes, Ascii("error"))
  {
    assert STATUS == Ascii("status") && ERROR == Ascii("error");
    ExpectedArePlain();
    QuotedIffSpelled(bytes, STATUS);
    QuotedIffSpelled(bytes, ERROR);
  }

  method NeedsRciInspection(bytes: seq<byte>) returns (r: bool)
    ensures r == NeedsInspection(bytes)
  {
    r := ContainsJsonString(bytes, STATUS, Quoted(STATUS));
    if r {
      r := ContainsJsonString(bytes, ERROR, Quoted(ERROR));
    }
  }

  // ---------- every string of the parsed tree is a token of the text ----------

  ghost predicate TokenAt(bytes: seq<byte>, s: seq<byte>, ps: seq<Piece>, at: nat) {
    ValidPieces(ps) && PiecesValue(ps) == s && OccursAt(bytes, Token(ps), at)
  }

  ghost predicate HasToken(bytes: seq<byte>, s: seq<byte>) {
    exists ps, at: nat :: TokenAt(bytes, s, ps, at)
  }

  lemma TokenInside(before: seq<byte>, bytes: seq<byte>, after: seq<byte>, s: seq<byte>)
    requires HasToken(bytes, s)
    ensures HasToken(before + bytes + after, s)
  {
    var ps, at: nat :| TokenAt(bytes, s, ps, at);
    OccursInside(before, bytes, after, Token(ps), at);
    assert TokenAt(before + bytes + after, s, ps, |before| + at);
  }

  /** `s` is a key or a string value somewhere in `v`. */
  ghost predicate Mentions(v: Value, s: seq<byte>) {
    match v
    case String(own) => own == s
    case Array(elements) => exists i :: 0 <= i < |elements| && Mentions(elements[i], s)
    case Object(entries) =>
      exists i :: 0 <= i < |entries| && (entries[i].key == s || Mentions(entries[i].value, s))
    case _ => false
  }

  lemma {:induction false} MentionedIsToken(t: Text, s: seq<byte>)
    requires ValidText(t) && Mentions(Tree(t), s)
    ensures HasToken(Write(t), s)
  {
    match t
    case StringText(body) =>
      TokenItself(body);
    case ArrayText(_, items) =>
      var i :| 0 <= i < |items| && Mentions(Tree(items[i].value), s);
      MentionedInItem(items[i], s);
      ItemIsInside(items, i, s);
      TokenInside([0x5B], WriteItems(items), [0x5D], s);
    case ObjectText(_, members) =>
      var entries := TreeMembers(members);
      var k :| 0 <= k < |entries| && (entries[k].key == s || Mentions(entries[k].value, s));
      var i := EntryIsWritten(members, entries[k]);
      assert members[i] in members;
      MentionedInMember(members[i], s);
      MemberIsInside(members, i, s);
      TokenInside([0x7B], WriteMembers(members), [0x7D], s);
    case _ =>
  }

  lemma {:induction false} MentionedInItem(item: Item, s: seq<byte>)
    requires ValidItem(item) && Mentions(Tree(item.value), s)
    ensures HasToken(WriteItem(item), s)
  {
    MentionedIsToken(item.value, s);
    TokenInside(item.before, Write(item.value), item.after, s);
  }

  lemma TokenItself(ps: seq<Piece>)
    requires ValidPieces(ps)
    ensures HasToken(Token(ps), PiecesValue(ps))
  {
    assert Token(ps)[0..|Token(ps)|] == Token(ps);
    assert TokenAt(Token(ps), PiecesValue(ps), ps, 0);
  }

  lemma TokenInMember(before: seq<byte>, key: seq<byte>, colon: seq<byte>, item: seq<byte>, s: seq<byte>)
    requires HasToken(key, s) || HasToken(item, s)
    ensures HasToken(before + key + colon + [0x3A] + item, s)
  {
    var whole := before + key + colon + [0x3A] + item;
    if HasToken(key, s) {
      assert whole == before + key + (colon + [0x3A] + item);
      TokenInside(before, key, colon + [0x3A] + item, s);
    } else {
      assert whole == before + key + colon + [0x3A] + item + [];
      TokenInside(before + key + colon + [0x3A], item, [], s);
    }
  }

  lemma {:induction false} MentionedInMember(m: Member, s: seq<byte>)
    requires ValidMember(m) && ValidItem(m.item) && (PiecesValue(m.key) == s || Mentions(Tree(m.item.value), s))
    ensures HasToken(WriteMember(m), s)
  {
    if PiecesValue(m.key) == s {
      TokenItself(m.key);
    } else {
      MentionedInItem(m.item, s);
    }
    TokenInMember(m.before, Token(m.key), m.colon, WriteItem(m.item), s);
  }

  /** An entry of a parsed object was written by one of its members. */
  lemma {:induction false} EntryIsWritten(members: seq<Member>, e: Entry<Value>) returns (i: nat)
    requires forall k :: 0 <= k < |members| ==> ValidMember(members[k])
    requires e in TreeMembers(members)
    ensures i < |members| && ValidMember(members[i]) && ValidItem(members[i].item)
    ensures e == Entry(PiecesValue(members[i].key), Tree(members[i].item.value))
    decreases |members|
  {
    i := |members| - 1;
    assert ValidMember(members[i]) && ValidItem(members[i].item);
    if e in TreeMembers(members[..i]) {
      i := EntryIsWritten(members[..i], e);
    }
  }

  lemma NothingInFront(front: seq<byte>, rest: seq<byte>)
    ensures [] + front + rest == front + rest
  {}

  lemma TokenInFront(front: seq<byte>, rest: seq<byte>, s: seq<byte>)
    requires HasToken(front, s)
    ensures HasToken(front + rest, s)
  {
    NothingInFront(front, rest);
    TokenInside([], front, rest, s);
  }

  lemma TokenBehind(front: seq<byte>, rest: seq<byte>, s: seq<byte>)
    requires HasToken(rest, s)
    ensures HasToken(front + rest, s)
  {
    TokenInside(front, rest, [], s);
    assert front + rest + [] == front + rest;
  }

  lemma {:induction false} ItemIsInside(items: seq<Item>, i: nat, s: seq<byte>)
    requires i < |items| && HasToken(WriteItem(items[i]), s)
    ensures HasToken(WriteItems(items), s)
  {
    if |items| > 1 {
      var head, rest := WriteItem(items[0]) + [0x2C], WriteItems(items[1..]);
      if i > 0 {
        ItemIsInside(items[1..], i - 1, s);
        TokenBehind(head, rest, s);
      } else {
        TokenInFront(WriteItem(items[0]), [0x2C], s);
        TokenInFront(head, rest, s);
      }
    }
  }

  lemma {:induction false} MemberIsInside(members: seq<Member>, i: nat, s: seq<byte>)
    requires i < |members| && HasToken(WriteMember(members[i]), s)
    ensures HasToken(WriteMembers(members), s)
  {
    if |members| > 1 {
      var head, rest := WriteMember(members[0]) + [0x2C], WriteMembers(members[1..]);
      if i > 0 {
        MemberIsInside(members[1..], i - 1, s);
        TokenBehind(head, rest, s);
      } else {
        TokenInFront(WriteMember(members[0]), [0x2C], s);
        TokenInFront(head, rest, s);
      }
    }
  }

  lemma TokenIsQuoted(bytes: seq<byte>, s: seq<byte>)
    requires Plain(s) && HasToken(bytes, s)
    ensures HasQuoted(bytes, s)
  {
    var ps, at: nat :| TokenAt(bytes, s, ps, at);
    QuotedOccurs(bytes, PiecesText(ps), at);
    SpelledMatches(ps, bytes[at + 1..], s);
    assert MatchesAfterQuote(bytes, s, at);
  }

  /** The scan finds every plain string mentioned by the tree of any text, in any spelling. */
  lemma MentionedIsFound(document: Item, bytes: seq<byte>, s: seq<byte>)
    requires Writes(document, bytes) && Plain(s) && Mentions(Tree(document.value), s)
    ensures HasQuoted(bytes, s)
  {
    MentionedInItem(document, s);
    TokenIsQuoted(bytes, s);
  }
}
