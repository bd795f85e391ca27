/** Canonicalisation of relative RCI and CI paths, on the UTF-8 bytes of the string. */
module Path {
  import opened Bytes
  import opened Utf8Text

  datatype PathKind = Rci | Ci

  datatype InvalidPath =
    | EmptyPath
    | NotRelative
    | QueryOrFragment
    | Backslash
    | Scheme
    | NamespacePrefix
    | EmptySegment
    | BadEscape
    | NotUtf8
    | DotSegment
    | EncodedSeparator
    | ControlCharacter

  const PERCENT: byte := 0x25
  const SCHEME_MARK: seq<byte> := [0x3A, 0x2F, 0x2F]

  function Namespace(kind: PathKind): seq<byte> {
    match kind
    case Rci => [0x72, 0x63, 0x69]
    case Ci => [0x63, 0x69]
  }

  // ---------- percent encoding (RFC 3986, section 2.1) ----------

  /** The set of ASCII bytes that are escaped: controls plus the bytes listed one by one. */
  predicate InEncodeSet(b: byte) {
    b < 0x20 || b == 0x7F
    || b in {0x20, 0x21, 0x22, 0x23, 0x24, 0x25, 0x26, 0x27, 0x28, 0x29, 0x2A, 0x2B, 0x2C, 0x2F, 0x3A, 0x3B,
             0x3C, 0x3D, 0x3E, 0x3F, 0x40, 0x5B, 0x5C, 0x5D, 0x5E, 0x60, 0x7B, 0x7C, 0x7D}
  }

  /** Unreserved characters (RFC 3986, section 2.3): letters, digits, `-`, `.`, `_`, `~`. */
  predicate Unreserved(b: byte) {
    0x41 <= b <= 0x5A || 0x61 <= b <= 0x7A || IsDigit(b) || b == 0x2D || b == 0x2E || b == 0x5F || b == 0x7E
  }

  lemma OnlyUnreservedStay(b: byte)
    ensures b < 0x80 && !InEncodeSet(b) <==> Unreserved(b)
  {}

  function UpperHex(n: byte): (b: byte)
    requires n < 16
    ensures HexValue(b) == Some(n)
  {
    if n < 10 then 0x30 + n else 0x41 + n - 10
  }

  function EncodeByte(b: byte): seq<byte> {
    if b >= 0x80 || InEncodeSet(b) then [PERCENT, UpperHex(b / 16), UpperHex(b % 16)] else [b]
  }

  function Encode(s: seq<byte>): seq<byte> {
    if s == [] then [] else EncodeByte(s[0]) + Encode(s[1..])
  }

  predicate StartsEscape(s: seq<byte>) {
    |s| >= 3 && s[0] == PERCENT && IsHex(s[1]) && IsHex(s[2])
  }

  /** The decoder leaves a percent sign that starts no escape as it is. */
  function Decode(s: seq<byte>): seq<byte> {
    if s == [] then []
    else if StartsEscape(s) then [HexValue(s[1]).value * 16 + HexValue(s[2]).value] + Decode(s[3..])
    else [s[0]] + Decode(s[1..])
  }

  predicate EscapesValid(s: seq<byte>) {
    s == [] || if s[0] == PERCENT then StartsEscape(s) && EscapesValid(s[3..]) else EscapesValid(s[1..])
  }

  /** Every percent sign is followed by two hexadecimal digits. */
  predicate PercentsEscape(s: seq<byte>) {
    forall i :: 0 <= i < |s| && s[i] == PERCENT ==> i + 2 < |s| && IsHex(s[i + 1]) && IsHex(s[i + 2])
  }

  lemma {:induction false} ValidIffPercentsEscape(s: seq<byte>)
    ensures EscapesValid(s) <==> PercentsEscape(s)
  {
    if s != [] {
      var n := if StartsEscape(s) then 3 else 1;
      ValidIffPercentsEscape(s[n..]);
      assert forall i :: n <= i < |s| ==> s[i] == s[n..][i - n];
      if PercentsEscape(s[n..]) && (s[0] == PERCENT ==> n == 3) {
        forall i | 0 <= i < |s| && s[i] == PERCENT
          ensures i + 2 < |s| && IsHex(s[i + 1]) && IsHex(s[i + 2])
        {
          if i >= n { assert s[n..][i - n] == PERCENT; }
        }
      }
      if PercentsEscape(s) {
        forall i | 0 <= i < |s[n..]| && s[n..][i] == PERCENT
          ensures i + 2 < |s[n..]| && IsHex(s[n..][i + 1]) && IsHex(s[n..][i + 2])
        {
          assert s[n + i] == PERCENT;
        }
      }
    }
  }

  method ValidatePercentEncoding(value: seq<byte>) returns (ok: bool)
    ensures ok == EscapesValid(value)
    ensures ok == PercentsEscape(value)
  {
    ValidIffPercentsEscape(value);
    var remaining := value;
    while remaining != []
      invariant EscapesValid(value) == EscapesValid(remaining)
    {
      if StartsEscape(remaining) {
        remaining := remaining[3..];
      } else if remaining[0] == PERCENT {
        return false;
      } else {
        remaining := remaining[1..];
      }
    }
    ok := true;
  }

  lemma {:induction false} DecodeEncode(s: seq<byte>)
    ensures Decode(Encode(s)) == s
    ensures EscapesValid(Encode(s))
    ensures SLASH !in Encode(s) && BACKSLASH !in Encode(s)
  {
    if s != [] {
      var head, rest := EncodeByte(s[0]), Encode(s[1..]);
      DecodeEncode(s[1..]);
      OnlyUnreservedStay(s[0]);
      assert (head + rest)[|head|..] == rest;
      if |head| == 3 {
        assert StartsEscape(head + rest);
        assert s[0] / 16 * 16 + s[0] % 16 == s[0];
      }
      assert [s[0]] + s[1..] == s;
    }
  }

  // What decoding means: raw text is itself, an escape is its byte, and texts decode piece by piece.

  lemma {:induction false} RawDecodes(s: seq<byte>)
    requires PERCENT !in s
    ensures Decode(s) == s
  {
    if s != [] {
      RawDecodes(s[1..]);
      assert [s[0]] + s[1..] == s;
    }
  }

  lemma EscapeDecodes(value: byte, escape: seq<byte>)
    requires StartsEscape(escape) && |escape| == 3
    requires HexValue(escape[1]) == Some(value / 16) && HexValue(escape[2]) == Some(value % 16)
    ensures Decode(escape) == [value]
  {
    assert escape[3..] == [];
    assert value / 16 * 16 + value % 16 == value;
  }

  lemma DecodeFront(head: seq<byte>, rest: seq<byte>)
    requires (StartsEscape(head) && |head| == 3) || (|head| == 1 && head[0] != PERCENT)
    ensures Decode(head + rest) == Decode(head) + Decode(rest)
  {
    assert head[|head|..] == [] && (head + rest)[|head|..] == rest;
  }

  lemma {:induction false} DecodeConcat(a: seq<byte>, b: seq<byte>)
    requires EscapesValid(a)
    ensures Decode(a + b) == Decode(a) + Decode(b)
  {
    if a == [] {
      assert a + b == b;
    } else {
      var n := if a[0] == PERCENT then 3 else 1;
      var head, rest := a[..n], a[n..];
      DecodeConcat(rest, b);
      DecodeFront(head, rest);
      DecodeFront(head, rest + b);
      assert a == head + rest;
      Associative(head, rest, b);
      Associative(Decode(head), Decode(rest), Decode(b));
    }
  }

  /** Encoded text consists of unreserved bytes and of upper-case escapes for other bytes. */
  predicate Canonical(s: seq<byte>) {
    s == []
    || (Unreserved(s[0]) && Canonical(s[1..]))
    || (|s| >= 3 && s[0] == PERCENT && UpperHexDigit(s[1]) && UpperHexDigit(s[2])
        && (forall b: byte :: Unreserved(b) ==> HexValue(s[1]) != Some(b / 16) || HexValue(s[2]) != Some(b % 16))
        && Canonical(s[3..]))
  }

  predicate UpperHexDigit(b: byte) {
    IsDigit(b) || 0x41 <= b <= 0x46
  }

  lemma UpperHexIsOnly(b: byte, n: byte)
    requires UpperHexDigit(b) && HexValue(b) == Some(n)
    ensures UpperHex(n) == b
  {}

  /** Canonical text is the spelling of what it decodes to. */
  lemma {:induction false} CanonicalIsSpelling(s: seq<byte>)
    requires Canonical(s)
    ensures Encode(Decode(s)) == s
  {
    if s != [] {
      if s[0] == PERCENT {
        var high, low := HexValue(s[1]).value, HexValue(s[2]).value;
        var b: byte := high * 16 + low;
        assert b / 16 == high && b % 16 == low;
        OnlyUnreservedStay(b);
        UpperHexIsOnly(s[1], high);
        UpperHexIsOnly(s[2], low);
        CanonicalIsSpelling(s[3..]);
        assert s == [PERCENT, s[1], s[2]] + s[3..];
        assert Decode(s)[1..] == Decode(s[3..]);
      } else {
        OnlyUnreservedStay(s[0]);
        CanonicalIsSpelling(s[1..]);
        assert s == [s[0]] + s[1..];
        assert Decode(s)[1..] == Decode(s[1..]);
      }
    }
  }

  lemma {:induction false} EncodeIsCanonical(s: seq<byte>)
    ensures Canonical(Encode(s))
    ensures forall b :: b in Encode(s) ==> Unreserved(b) || b == PERCENT
  {
    if s != [] {
      var head, rest := EncodeByte(s[0]), Encode(s[1..]);
      EncodeIsCanonical(s[1..]);
      OnlyUnreservedStay(s[0]);
      assert (head + rest)[|head|..] == rest;
    }
  }

  lemma EncodeNonEmpty(s: seq<byte>)
    requires s != []
    ensures Encode(s) != []
  {}

  // ---------- decoded segments ----------

  const DOT: seq<byte> := [0x2E]
  const DOT_DOT: seq<byte> := [0x2E, 0x2E]

  predicate IsDots(s: seq<byte>) {
    s == [] || s == DOT || s == DOT_DOT
  }

  /** What one segment decodes to, or why it is refused. */
  function CheckSegment(segment: seq<byte>): Result<seq<byte>, InvalidPath> {
    var decoded := Decode(segment);
    if segment == [] then Err(EmptySegment)
    else if !EscapesValid(segment) then Err(BadEscape)
    else if !Utf8Valid(decoded) then Err(NotUtf8)
    else if IsDots(decoded) then Err(DotSegment)
    else if SLASH in decoded || BACKSLASH in decoded then Err(EncodedSeparator)
    else if HasControl(decoded) then Err(ControlCharacter)
    else Ok(decoded)
  }

  /** All segments, or the first refusal. */
  function CheckSegments(segments: seq<seq<byte>>): (r: Result<seq<seq<byte>>, InvalidPath>)
    ensures r.Ok? ==> |r.value| == |segments|
  {
    if segments == [] then Ok([])
    else
      match CheckSegment(segments[0])
      case Err(e) => Err(e)
      case Ok(decoded) =>
        match CheckSegments(segments[1..])
        case Err(e) => Err(e)
        case Ok(rest) => Ok([decoded] + rest)
  }

  function EncodeAll(segments: seq<seq<byte>>): (r: seq<seq<byte>>)
    ensures |r| == |segments|
    ensures forall i :: 0 <= i < |r| ==> r[i] == Encode(segments[i])
  {
    seq(|segments|, i requires 0 <= i < |segments| => Encode(segments[i]))
  }

  function DecodeAll(segments: seq<seq<byte>>): (r: seq<seq<byte>>)
    ensures |r| == |segments|
    ensures forall i :: 0 <= i < |r| ==> r[i] == Decode(segments[i])
  {
    seq(|segments|, i requires 0 <= i < |segments| => Decode(segments[i]))
  }

  /** The meaning of a path: its segments, decoded. */
  function Meaning(path: seq<byte>): seq<seq<byte>> {
    DecodeAll(Split(path, SLASH))
  }

  function Spell(segments: seq<seq<byte>>): seq<byte>
    requires segments != []
  {
    Join(EncodeAll(segments), SLASH)
  }

  // ---------- parsing ----------

  predicate HasNamespace(path: seq<byte>, kind: PathKind) {
    Namespace(kind) + [SLASH] <= path
  }

  /** The checks on the whole text, in their order. */
  function CheckText(value: seq<byte>, kind: PathKind): Option<InvalidPath> {
    if value == [] then Some(EmptyPath)
    else if value[0] == SLASH then Some(NotRelative)
    else if 0x3F in value || 0x23 in value then Some(QueryOrFragment)
    else if BACKSLASH in value then Some(Backslash)
    else if FindFrom(value, SCHEME_MARK, 0).Some? then Some(Scheme)
    else if HasNamespace(value, kind) then Some(NamespacePrefix)
    else None
  }

  function ParseResult(value: seq<byte>, kind: PathKind): Result<seq<byte>, InvalidPath> {
    match CheckText(value, kind)
    case Some(e) => Err(e)
    case None =>
      match CheckSegments(Split(value, SLASH))
      case Err(e) => Err(e)
      case Ok(decoded) =>
        if HasNamespace(Spell(decoded), kind) then Err(NamespacePrefix) else Ok(Spell(decoded))
  }

  function Behind(decoded: seq<seq<byte>>, rest: Result<seq<seq<byte>>, InvalidPath>):
    Result<seq<seq<byte>>, InvalidPath>
  {
    match rest
    case Err(e) => Err(e)
    case Ok(more) => Ok(decoded + more)
  }

  lemma CheckNext(decoded: seq<seq<byte>>, rest: seq<seq<byte>>)
    requires rest != []
    ensures Behind(decoded, CheckSegments(rest)) ==
            match CheckSegment(rest[0])
            case Err(e) => Err(e)
            case Ok(d) => Behind(decoded + [d], CheckSegments(rest[1..]))
  {
    var head, tail := CheckSegment(rest[0]), CheckSegments(rest[1..]);
    if head.Ok? && tail.Ok? {
      assert decoded + ([head.value] + tail.value) == decoded + [head.value] + tail.value;
    }
  }

  method Parse(value: seq<byte>, kind: PathKind) returns (r: Result<seq<byte>, InvalidPath>)
    ensures r == ParseResult(value, kind)
  {
    var refused := CheckText(value, kind);
    if refused.Some? {
      return Err(refused.value);
    }
    var segments := Split(value, SLASH);
    var canonical: seq<byte> := [];
    ghost var decodedSoFar: seq<seq<byte>> := [];
    ghost var all := CheckSegments(segments);
    assert segments[0..] == segments && (all.Ok? ==> [] + all.value == all.value);
    for index := 0 to |segments|
      invariant CheckSegments(segments) == Behind(decodedSoFar, CheckSegments(segments[index..]))
      invariant |decodedSoFar| == index
      invariant canonical == if index == 0 then [] else Spell(decodedSoFar)
    {
      var segment := segments[index];
      CheckNext(decodedSoFar, segments[index..]);
      assert segments[index..][1..] == segments[index + 1..];
      if segment == [] {
        return Err(EmptySegment);
      }
      var valid := ValidatePercentEncoding(segment);
      if !valid {
        return Err(BadEscape);
      }
      var decoded := Decode(segment);
      if !Utf8Valid(decoded) {
        return Err(NotUtf8);
      }
      if IsDots(decoded) {
        return Err(DotSegment);
      }
      if SLASH in decoded || BACKSLASH in decoded {
        return Err(EncodedSeparator);
      }
      if HasControl(decoded) {
        return Err(ControlCharacter);
      }
      ghost var before := EncodeAll(decodedSoFar);
      decodedSoFar := decodedSoFar + [decoded];
      assert EncodeAll(decodedSoFar) == before + [Encode(decoded)];
      if index != 0 {
        JoinSnoc(before, Encode(decoded), SLASH);
        canonical := canonical + [SLASH];
      }
      canonical := canonical + Encode(decoded);
    }
    assert decodedSoFar + [] == decodedSoFar;
    if HasNamespace(canonical, kind) {
      return Err(NamespacePrefix);
    }
    r := Ok(canonical);
  }

  // ---------- canonical forms are exactly the spellings of clean segment lists ----------

  predicate CleanSegment(s: seq<byte>) {
    Utf8Valid(s) && !IsDots(s) && SLASH !in s && BACKSLASH !in s && !HasControl(s)
  }

  /** Segment lists a path of this kind may denote; the namespace itself may only stand alone. */
  predicate Clean(segments: seq<seq<byte>>, kind: PathKind) {
    segments != [] && (forall i :: 0 <= i < |segments| ==> CleanSegment(segments[i]))
    && (|segments| > 1 ==> segments[0] != Namespace(kind))
  }

  ghost predicate AllChecked(segments: seq<seq<byte>>) {
    forall i :: 0 <= i < |segments| ==> CheckSegment(segments[i]).Ok?
  }

  lemma AllCheckedTail(segments: seq<seq<byte>>)
    requires segments != []
    ensures AllChecked(segments) <==> CheckSegment(segments[0]).Ok? && AllChecked(segments[1..])
  {
    if CheckSegment(segments[0]).Ok? && AllChecked(segments[1..]) {
      forall i | 0 <= i < |segments| ensures CheckSegment(segments[i]).Ok? {
        if i > 0 { assert segments[i] == segments[1..][i - 1]; }
      }
    }
    if AllChecked(segments) {
      assert forall i :: 0 <= i < |segments[1..]| ==> segments[1..][i] == segments[i + 1];
    }
  }

  lemma CheckedSegment(segment: seq<byte>)
    ensures CheckSegment(segment).Ok? ==> CheckSegment(segment).value == Decode(segment)
  {}

  lemma {:induction false} CheckedSegments(segments: seq<seq<byte>>)
    ensures CheckSegments(segments).Ok? <==> AllChecked(segments)
    ensures CheckSegments(segments).Ok? ==> CheckSegments(segments).value == DecodeAll(segments)
  {
    if segments != [] {
      CheckedSegments(segments[1..]);
      CheckedSegment(segments[0]);
      AllCheckedTail(segments);
      assert DecodeAll(segments) == [Decode(segments[0])] + DecodeAll(segments[1..]);
    }
  }

  lemma EncodedSegmentAccepted(s: seq<byte>)
    requires CleanSegment(s)
    ensures CheckSegment(Encode(s)) == Ok(s)
  {
    DecodeEncode(s);
    EncodeNonEmpty(s);
  }

  /** Different segments have different spellings. */
  lemma EncodeInjective(a: seq<byte>, b: seq<byte>)
    requires Encode(a) == Encode(b)
    ensures a == b
  {
    DecodeEncode(a);
    DecodeEncode(b);
  }

  /** A namespace spells itself, so the namespace check on the text is one on the first segment. */
  lemma NamespaceSpelledPlainly(kind: PathKind)
    ensures Encode(Namespace(kind)) == Namespace(kind) && SLASH !in Namespace(kind)
  {
    assert Encode([0x69]) == [0x69] + Encode([]);
    assert [0x63, 0x69][1..] == [0x69];
    assert Encode([0x63, 0x69]) == [0x63] + Encode([0x69]);
    assert [0x72, 0x63, 0x69][1..] == [0x63, 0x69];
    assert Encode([0x72, 0x63, 0x69]) == [0x72] + Encode([0x63, 0x69]);
  }

  lemma SplitOfSpell(segments: seq<seq<byte>>)
    requires segments != []
    ensures Split(Spell(segments), SLASH) == EncodeAll(segments)
  {
    var encoded := EncodeAll(segments);
    forall piece | piece in encoded ensures SLASH !in piece {
      var i :| 0 <= i < |segments| && piece == Encode(segments[i]);
      DecodeEncode(segments[i]);
    }
    SplitOfJoin(encoded, SLASH);
  }

  lemma MeaningOfSpell(segments: seq<seq<byte>>)
    requires segments != []
    ensures Meaning(Spell(segments)) == segments
  {
    SplitOfSpell(segments);
    forall i | 0 <= i < |segments| ensures Decode(Encode(segments[i])) == segments[i] {
      DecodeEncode(segments[i]);
    }
  }

  lemma SpellHasNamespace(segments: seq<seq<byte>>, kind: PathKind)
    requires segments != []
    ensures HasNamespace(Spell(segments), kind) <==> |segments| > 1 && segments[0] == Namespace(kind)
  {
    var path, prefix := Spell(segments), Namespace(kind);
    NamespaceSpelledPlainly(kind);
    SplitOfSpell(segments);
    if HasNamespace(path, kind) {
      var rest := path[|prefix| + 1..];
      assert path == prefix + [SLASH] + rest;
      SplitPrefix(prefix, rest, SLASH);
      assert EncodeAll(segments)[0] == prefix;
      EncodeInjective(segments[0], prefix);
    }
    if |segments| > 1 && segments[0] == prefix {
      assert path == prefix + [SLASH] + Join(EncodeAll(segments)[1..], SLASH);
    }
  }

  lemma {:induction false} JoinBytes(pieces: seq<seq<byte>>, sep: byte, b: byte)
    requires |pieces| >= 1 && b in Join(pieces, sep)
    ensures b == sep || exists i :: 0 <= i < |pieces| && b in pieces[i]
  {
    if |pieces| > 1 && b != sep && b !in pieces[0] {
      JoinBytes(pieces[1..], sep, b);
      var i :| 0 <= i < |pieces[1..]| && b in pieces[1..][i];
      assert b in pieces[i + 1];
    }
  }

  lemma SpellBytes(segments: seq<seq<byte>>, b: byte)
    requires segments != [] && b in Spell(segments)
    ensures Unreserved(b) || b == PERCENT || b == SLASH
  {
    JoinBytes(EncodeAll(segments), SLASH, b);
    if b != SLASH {
      var i :| 0 <= i < |segments| && b in EncodeAll(segments)[i];
      EncodeIsCanonical(segments[i]);
    }
  }

  /** The spelling of a clean segment list passes every check on the text. */
  lemma SpellPassesText(segments: seq<seq<byte>>, kind: PathKind)
    requires Clean(segments, kind)
    ensures CheckText(Spell(segments), kind) == None
  {
    var path, first := Spell(segments), Encode(segments[0]);
    EncodeNonEmpty(segments[0]);
    DecodeEncode(segments[0]);
    assert path[0] == first[0] && path[0] in first;
    forall b | b in path ensures b != 0x3F && b != 0x23 && b != BACKSLASH && b != 0x3A {
      SpellBytes(segments, b);
    }
    forall at | 0 <= at && at + |SCHEME_MARK| <= |path| ensures !OccursAt(path, SCHEME_MARK, at) {
      assert path[at..at + |SCHEME_MARK|][0] == path[at] && path[at] in path;
    }
    SpellHasNamespace(segments, kind);
  }

  /** Two adjacent slashes leave an empty segment behind the first one. */
  lemma {:induction false} DoubleSlashSplits(a: seq<byte>, b: seq<byte>) returns (i: nat)
    ensures 1 <= i < |Split(a + [SLASH, SLASH] + b, SLASH)| && Split(a + [SLASH, SLASH] + b, SLASH)[i] == []
  {
    var s := a + [SLASH, SLASH] + b;
    if a == [] {
      assert s[1..] == [SLASH] + b && ([SLASH] + b)[1..] == b;
      i := 1;
    } else {
      i := DoubleSlashSplits(a[1..], b);
      assert s[1..] == a[1..] + [SLASH, SLASH] + b;
      if s[0] == SLASH { i := i + 1; }
    }
  }

  /** No raw `?`, `#` or `\`, no empty segment, and every percent sign starts an escape. */
  predicate WellWritten(value: seq<byte>) {
    0x3F !in value && 0x23 !in value && BACKSLASH !in value
    && forall piece :: piece in Split(value, SLASH) ==> piece != [] && EscapesValid(piece)
  }

  lemma WellWrittenPassesText(value: seq<byte>, kind: PathKind)
    requires WellWritten(value) && Clean(Meaning(value), kind)
    ensures CheckText(value, kind) == None
  {
    var pieces := Split(value, SLASH);
    assert pieces[0] in pieces;
    forall at | 0 <= at && at + |SCHEME_MARK| <= |value| ensures !OccursAt(value, SCHEME_MARK, at) {
      if OccursAt(value, SCHEME_MARK, at) {
        var before, after := value[..at + 1], value[at + 3..];
        assert value[at..at + 3] == SCHEME_MARK && value[at + 1] == SCHEME_MARK[1] && value[at + 2] == SCHEME_MARK[2];
        assert value == before + [SLASH, SLASH] + after;
        var i := DoubleSlashSplits(before, after);
      }
    }
    if HasNamespace(value, kind) {
      var prefix := Namespace(kind);
      NamespaceSpelledPlainly(kind);
      DecodeEncode(prefix);
      assert value == prefix + [SLASH] + value[|prefix| + 1..];
      SplitPrefix(prefix, value[|prefix| + 1..], SLASH);
    }
  }

  /**
   Acceptance, exactly: a well-written text with a clean meaning. The checks for an empty or
   absolute path, a scheme and a raw namespace prefix only choose the reason of a refusal.
   */
  lemma AcceptedExactly(value: seq<byte>, kind: PathKind)
    ensures ParseResult(value, kind).Ok? <==> WellWritten(value) && Clean(Meaning(value), kind)
  {
    var pieces := Split(value, SLASH);
    CheckedSegments(pieces);
    if ParseResult(value, kind).Ok? {
      ParseSpellsMeaning(value, kind);
      forall piece | piece in pieces ensures piece != [] && EscapesValid(piece) {
        var i :| 0 <= i < |pieces| && pieces[i] == piece;
        assert CheckSegment(pieces[i]).Ok?;
      }
    }
    if WellWritten(value) && Clean(Meaning(value), kind) {
      WellWrittenPassesText(value, kind);
      forall i | 0 <= i < |pieces| ensures CheckSegment(pieces[i]).Ok? {
        assert pieces[i] in pieces && CleanSegment(Meaning(value)[i]);
      }
      SpellHasNamespace(Meaning(value), kind);
    }
  }

  /**
   Parsing accepts a text only when its decoded segments are clean, and returns their spelling.
   */
  lemma ParseSpellsMeaning(value: seq<byte>, kind: PathKind)
    requires ParseResult(value, kind).Ok?
    ensures Clean(Meaning(value), kind)
    ensures ParseResult(value, kind) == Ok(Spell(Meaning(value)))
  {
    var segments := Split(value, SLASH);
    CheckedSegments(segments);
    forall i | 0 <= i < |segments| ensures CleanSegment(Meaning(value)[i]) {
      assert CheckSegment(segments[i]).Ok?;
    }
    SpellHasNamespace(Meaning(value), kind);
  }

  /** Conversely the spelling of every clean segment list is accepted and returned unchanged. */
  lemma SpellingsParse(segments: seq<seq<byte>>, kind: PathKind)
    requires Clean(segments, kind)
    ensures ParseResult(Spell(segments), kind) == Ok(Spell(segments))
    ensures Meaning(Spell(segments)) == segments
  {
    SpellPassesText(segments, kind);
    SplitOfSpell(segments);
    MeaningOfSpell(segments);
    var encoded := EncodeAll(segments);
    forall i | 0 <= i < |encoded| ensures CheckSegment(encoded[i]).Ok? {
      EncodedSegmentAccepted(segments[i]);
    }
    CheckedSegments(encoded);
    SpellHasNamespace(segments, kind);
  }

  lemma Idempotent(value: seq<byte>, kind: PathKind)
    requires ParseResult(value, kind).Ok?
    ensures ParseResult(ParseResult(value, kind).value, kind) == ParseResult(value, kind)
  {
    ParseSpellsMeaning(value, kind);
    SpellingsParse(Meaning(value), kind);
  }

  lemma MeaningPreserved(value: seq<byte>, kind: PathKind)
    requires ParseResult(value, kind).Ok?
    ensures Meaning(ParseResult(value, kind).value) == Meaning(value)
  {
    ParseSpellsMeaning(value, kind);
    SpellingsParse(Meaning(value), kind);
  }

  /** Canonical forms identify paths with equal meaning, across both kinds. */
  lemma CanonicalIffSameMeaning(a: seq<byte>, kindA: PathKind, b: seq<byte>, kindB: PathKind)
    requires ParseResult(a, kindA).Ok? && ParseResult(b, kindB).Ok?
    ensures ParseResult(a, kindA).value == ParseResult(b, kindB).value <==> Meaning(a) == Meaning(b)
  {
    ParseSpellsMeaning(a, kindA);
    ParseSpellsMeaning(b, kindB);
    MeaningPreserved(a, kindA);
    MeaningPreserved(b, kindB);
  }

  ghost predicate AllCanonical(segments: seq<seq<byte>>) {
    forall i :: 0 <= i < |segments| ==> Canonical(segments[i])
  }

  /** Every segment of a canonical path is unreserved bytes and upper-case escapes. */
  lemma CanonicalBytes(value: seq<byte>, kind: PathKind)
    requires ParseResult(value, kind).Ok?
    ensures var segments := Split(ParseResult(value, kind).value, SLASH);
            AllCanonical(segments) && [] !in segments
  {
    ParseSpellsMeaning(value, kind);
    var meaning := Meaning(value);
    SplitOfSpell(meaning);
    forall i | 0 <= i < |meaning| ensures Encode(meaning[i]) != [] && Canonical(Encode(meaning[i])) {
      EncodeIsCanonical(meaning[i]);
      EncodeNonEmpty(meaning[i]);
    }
  }

  /** The accepted paths that stay as they are: those whose segments are canonical. */
  lemma CanonicalIffUnchanged(value: seq<byte>, kind: PathKind)
    requires ParseResult(value, kind).Ok?
    ensures ParseResult(value, kind) == Ok(value) <==> AllCanonical(Split(value, SLASH))
  {
    var segments := Split(value, SLASH);
    CanonicalBytes(value, kind);
    if AllCanonical(segments) {
      forall i | 0 <= i < |segments| ensures Encode(Meaning(value)[i]) == segments[i] {
        CanonicalIsSpelling(segments[i]);
      }
      ParseSpellsMeaning(value, kind);
      assert EncodeAll(Meaning(value)) == segments;
      JoinOfSplit(value, SLASH);
    }
  }

  // ---------- why a path is refused ----------

  datatype Fault = Fault(present: bool, reason: InvalidPath)

  /** `e` is the reason of the first fault present, or there is none. */
  ghost predicate IsFirst(e: Option<InvalidPath>, faults: seq<Fault>) {
    match e
    case None => forall i :: 0 <= i < |faults| ==> !faults[i].present
    case Some(reason) =>
      exists i :: 0 <= i < |faults| && faults[i] == Fault(true, reason)
                  && forall k :: 0 <= k < i ==> !faults[k].present
  }

  /** Faults of the text as a whole. */
  ghost function TextFaults(value: seq<byte>, kind: PathKind): seq<Fault> {
    [Fault(value == [], EmptyPath),
     Fault(Ascii("/") <= value, NotRelative),
     Fault('?' as byte in value || '#' as byte in value, QueryOrFragment),
     Fault('\\' as byte in value, Backslash),
     Fault(exists at :: OccursAt(value, Ascii("://"), at), Scheme),
     Fault(Ascii(if kind.Rci? then "rci/" else "ci/") <= value, NamespacePrefix)]
  }

  /** The first of six faults, spelled out. */
  function FirstOfSix(faults: seq<Fault>): Option<InvalidPath>
    requires |faults| == 6
  {
    if faults[0].present then Some(faults[0].reason)
    else if faults[1].present then Some(faults[1].reason)
    else if faults[2].present then Some(faults[2].reason)
    else if faults[3].present then Some(faults[3].reason)
    else if faults[4].present then Some(faults[4].reason)
    else if faults[5].present then Some(faults[5].reason)
    else None
  }

  lemma FirstOfSixIsFirst(faults: seq<Fault>)
    requires |faults| == 6
    ensures IsFirst(FirstOfSix(faults), faults)
  {
    var r := FirstOfSix(faults);
    if r.Some? {
      assert exists i :: 0 <= i < 6 && faults[i] == Fault(true, r.value)
                         && forall k :: 0 <= k < i ==> !faults[k].present;
    }
  }

  lemma MarksInLetters(kind: PathKind)
    ensures Ascii("/") == [SLASH] && Ascii("://") == SCHEME_MARK
    ensures Ascii(if kind.Rci? then "rci" else "ci") == Namespace(kind)
    ensures Ascii(if kind.Rci? then "rci/" else "ci/") == Namespace(kind) + [SLASH]
  {}

  lemma TextFaultsMean(value: seq<byte>, kind: PathKind)
    ensures FirstOfSix(TextFaults(value, kind)) == CheckText(value, kind)
  {
    MarksInLetters(kind);
    assert value != [] ==> value[..1] == [value[0]];
  }

  /** The text is refused for the first of its faults. */
  lemma TextRefusal(value: seq<byte>, kind: PathKind)
    ensures IsFirst(CheckText(value, kind), TextFaults(value, kind))
  {
    TextFaultsMean(value, kind);
    FirstOfSixIsFirst(TextFaults(value, kind));
  }

  /** Faults of one segment. */
  ghost function SegmentFaults(segment: seq<byte>): seq<Fault> {
    var decoded := Decode(segment);
    [Fault(segment == [], EmptySegment),
     Fault(!PercentsEscape(segment), BadEscape),
     Fault(!EncodesScalars(decoded), NotUtf8),
     Fault(decoded == [] || decoded == Ascii(".") || decoded == Ascii(".."), DotSegment),
     Fault('/' as byte in decoded || '\\' as byte in decoded, EncodedSeparator),
     Fault(EncodesControl(decoded), ControlCharacter)]
  }

  lemma SegmentFaultsMean(segment: seq<byte>)
    ensures var decoded, faults := Decode(segment), SegmentFaults(segment);
            && faults[0].present == (segment == []) && faults[1].present == !EscapesValid(segment)
            && faults[2].present == !Utf8Valid(decoded) && faults[3].present == IsDots(decoded)
            && faults[4].present == (SLASH in decoded || BACKSLASH in decoded)
            && (Utf8Valid(decoded) ==> faults[5].present == HasControl(decoded))
  {
    var decoded := Decode(segment);
    ValidIffPercentsEscape(segment);
    ValidIffEncoded(decoded);
    assert Ascii(".") == DOT && Ascii("..") == DOT_DOT;
    if Utf8Valid(decoded) { ControlIffEncoded(decoded); }
  }

  lemma SegmentIsFirstOfSix(segment: seq<byte>)
    ensures var r := CheckSegment(segment);
            FirstOfSix(SegmentFaults(segment)) == if r.Err? then Some(r.error) else None
  {
    SegmentFaultsMean(segment);
  }

  /** A segment is refused for the first of its faults; without any, it is what it decodes to. */
  lemma SegmentRefusal(segment: seq<byte>)
    ensures var r := CheckSegment(segment);
            && IsFirst(if r.Err? then Some(r.error) else None, SegmentFaults(segment))
            && (r.Ok? ==> r.value == Decode(segment))
  {
    SegmentIsFirstOfSix(segment);
    FirstOfSixIsFirst(SegmentFaults(segment));
  }

  /** Segment `i` is refused for `e`, and none before it is refused. */
  ghost predicate FirstBadAt(segments: seq<seq<byte>>, i: nat, e: InvalidPath) {
    i < |segments| && CheckSegment(segments[i]) == Err(e) && forall k :: 0 <= k < i ==> CheckSegment(segments[k]).Ok?
  }

  lemma FirstBadInTail(segments: seq<seq<byte>>, i: nat, e: InvalidPath)
    requires segments != [] && CheckSegment(segments[0]).Ok?
    ensures FirstBadAt(segments, i + 1, e) <==> FirstBadAt(segments[1..], i, e)
  {
    var rest := segments[1..];
    assert forall k :: 0 <= k < |rest| ==> rest[k] == segments[k + 1];
    if FirstBadAt(segments, i + 1, e) {
      forall k | 0 <= k < i ensures CheckSegment(rest[k]).Ok? { assert CheckSegment(segments[k + 1]).Ok?; }
    }
    if FirstBadAt(rest, i, e) {
      forall k | 0 <= k < i + 1 ensures CheckSegment(segments[k]).Ok? {
        if k > 0 { assert CheckSegment(rest[k - 1]).Ok?; }
      }
    }
  }

  lemma {:induction false} FirstBadSegment(segments: seq<seq<byte>>, e: InvalidPath)
    ensures CheckSegments(segments) == Err(e) <==> exists i: nat :: FirstBadAt(segments, i, e)
  {
    if segments != [] {
      FirstBadSegment(segments[1..], e);
      if CheckSegment(segments[0]).Ok? {
        if i: nat :| FirstBadAt(segments, i, e) {
          if i > 0 { FirstBadInTail(segments, i - 1, e); }
        }
        if j: nat :| FirstBadAt(segments[1..], j, e) { FirstBadInTail(segments, j, e); }
      } else {
        assert FirstBadAt(segments, 0, CheckSegment(segments[0]).error);
      }
    }
  }

  /** The last check: a namespace with something below it. */
  predicate NamesNamespace(segments: seq<seq<byte>>, kind: PathKind) {
    |segments| > 1 && Decode(segments[0]) == Ascii(if kind.Rci? then "rci" else "ci")
  }

  lemma SegmentsRefusal(value: seq<byte>, kind: PathKind, e: InvalidPath)
    requires CheckText(value, kind).None?
    ensures var segments := Split(value, SLASH);
            ParseResult(value, kind) == Err(e) <==>
            CheckSegments(segments) == Err(e)
            || (AllChecked(segments) && e == NamespacePrefix && NamesNamespace(segments, kind))
  {
    CheckedSegments(Split(value, SLASH));
    SpellHasNamespace(Meaning(value), kind);
    MarksInLetters(kind);
  }

  /**
   A path is refused for the first fault of its text, else for that of its first faulty
   segment, else because its segments are a namespace with something below.
   */
  lemma PathRefusal(value: seq<byte>, kind: PathKind, e: InvalidPath)
    ensures ParseResult(value, kind) == Err(e) <==>
            CheckText(value, kind) == Some(e)
            || (CheckText(value, kind).None?
                && var segments := Split(value, SLASH);
                   (exists i: nat :: FirstBadAt(segments, i, e))
                   || (AllChecked(segments) && e == NamespacePrefix && NamesNamespace(segments, kind)))
  {
    FirstBadSegment(Split(value, SLASH), e);
    if CheckText(value, kind).None? { SegmentsRefusal(value, kind, e); }
  }
}
