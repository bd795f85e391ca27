/**
 JSON texts as RFC 8259 writes them, with every choice of whitespace and of string
 spelling kept, next to the tree that a parser builds from each of them.
 */
module JsonText {
  import opened Bytes
  import opened Utf8Text
  import opened SortedMap

  // ---------- strings (RFC 8259, section 7) ----------

  /** One unit of a JSON string body, as spelled in the text. */
  datatype Piece =
    | Raw(b: byte)                          // an unescaped byte
    | Short(escape: byte)                   // \" \\ \/ \b \f \n \r \t
    | Unicode(digits: seq<byte>)            // \uXXXX outside the surrogate range
    | Surrogates(high: seq<byte>, low: seq<byte>)  // \uD8XX\uDCXX

  predicate IsHex4(digits: seq<byte>) {
    |digits| == 4 && forall i :: 0 <= i < 4 ==> IsHex(digits[i])
  }

  /** Value of a run of hexadecimal digits, most significant first. */
  function HexNumber(digits: seq<byte>): nat
    requires forall i :: 0 <= i < |digits| ==> IsHex(digits[i])
  {
    if digits == [] then 0
    else
      assert IsHex(digits[|digits| - 1]);
      16 * HexNumber(digits[..|digits| - 1]) + HexValue(digits[|digits| - 1]).value
  }

  lemma Hex4Number(digits: seq<byte>)
    requires IsHex4(digits)
    ensures HexNumber(digits)
         == 0x1000 * HexValue(digits[0]).value + 0x100 * HexValue(digits[1]).value
          + 0x10 * HexValue(digits[2]).value + HexValue(digits[3]).value
    ensures HexNumber(digits) < 0x1_0000
  {
    var d3, d2, d1 := digits[..3], digits[..2], digits[..1];
    assert d3[..2] == d2 && d2[..1] == d1 && d1[..0] == [];
    assert HexNumber(d1) == HexValue(digits[0]).value;
    assert HexNumber(d2) == 16 * HexNumber(d1) + HexValue(digits[1]).value;
    assert HexNumber(d3) == 16 * HexNumber(d2) + HexValue(digits[2]).value;
  }

  /** The byte a two-character escape stands for. */
  function ShortValue(escape: byte): Option<byte> {
    if escape == 0x22 || escape == 0x5C || escape == 0x2F then Some(escape)
    else if escape == 0x62 then Some(0x08)
    else if escape == 0x66 then Some(0x0C)
    else if escape == 0x6E then Some(0x0A)
    else if escape == 0x72 then Some(0x0D)
    else if escape == 0x74 then Some(0x09)
    else None
  }

  predicate ValidPiece(p: Piece) {
    match p
    case Raw(b) => b >= 0x20 && b != QUOTE && b != BACKSLASH
    case Short(e) => ShortValue(e).Some?
    case Unicode(d) => IsHex4(d) && !(0xD800 <= HexNumber(d) < 0xE000)
    case Surrogates(h, l) =>
      IsHex4(h) && IsHex4(l) && 0xD800 <= HexNumber(h) < 0xDC00 && 0xDC00 <= HexNumber(l) < 0xE000
  }

  function PieceText(p: Piece): seq<byte> {
    match p
    case Raw(b) => [b]
    case Short(e) => [BACKSLASH, e]
    case Unicode(d) => [BACKSLASH, 0x75] + d
    case Surrogates(h, l) => [BACKSLASH, 0x75] + h + [BACKSLASH, 0x75] + l
  }

  function PieceCodePoint(p: Piece): (c: nat)
    requires ValidPiece(p) && (p.Unicode? || p.Surrogates?)
    ensures c < 0x11_0000
    ensures p.Surrogates? ==> c >= 0x1_0000
  {
    if p.Unicode? then Hex4Number(p.digits); HexNumber(p.digits)
    else 0x1_0000 + 0x400 * (HexNumber(p.high) - 0xD800) + (HexNumber(p.low) - 0xDC00)
  }

  /** UTF-8 bytes that a piece contributes to the decoded string. */
  function PieceValue(p: Piece): (r: seq<byte>)
    requires ValidPiece(p)
    ensures |r| >= 1
  {
    match p
    case Raw(b) => [b]
    case Short(e) => [ShortValue(e).value]
    case _ => Utf8(PieceCodePoint(p))
  }

  /** Every two-character escape means what its escape by number does (RFC 8259, section 7). */
  lemma ShortEscapes()
    ensures forall e :: ShortValue(e).Some? <==> e in Ascii("\"\\/bfnrt")
    ensures ShortValue('b' as byte) == Some(0x08) && ShortValue('f' as byte) == Some(0x0C)
    ensures ShortValue('n' as byte) == Some(0x0A) && ShortValue('r' as byte) == Some(0x0D)
    ensures ShortValue('t' as byte) == Some(0x09)
    ensures forall e :: e in Ascii("\"\\/") ==> ShortValue(e) == Some(e)
  {
    var all := Ascii("\"\\/bfnrt");
    assert all == [0x22, 0x5C, 0x2F, 0x62, 0x66, 0x6E, 0x72, 0x74];
    assert Ascii("\"\\/") == all[..3];
  }

  /** One escape by number spells any scalar value below 0x10000, and nothing else. */
  lemma UnicodeSpells(digits: seq<byte>)
    requires IsHex4(digits)
    ensures ValidPiece(Unicode(digits)) <==> IsScalar(HexNumber(digits))
    ensures PieceText(Unicode(digits)) == Ascii("\\u") + digits
  {
    Hex4Number(digits);
    assert Ascii("\\u") == [BACKSLASH, 0x75];
  }

  /** Two of them spell the code point whose upper and lower ten bits they carry, if they do so in this order. */
  lemma SurrogatesSpell(high: seq<byte>, low: seq<byte>, c: nat)
    requires IsHex4(high) && IsHex4(low) && c < 0x10_0000
    ensures ValidPiece(Surrogates(high, low)) && PieceCodePoint(Surrogates(high, low)) == 0x1_0000 + c <==>
            HexNumber(high) == 0xD800 + c / 0x400 && HexNumber(low) == 0xDC00 + c % 0x400
    ensures PieceText(Surrogates(high, low)) == Ascii("\\u") + high + Ascii("\\u") + low
  {
    assert c == 0x400 * (c / 0x400) + c % 0x400;
    assert Ascii("\\u") == [BACKSLASH, 0x75];
  }

  predicate ValidPieces(ps: seq<Piece>) {
    forall i :: 0 <= i < |ps| ==> ValidPiece(ps[i])
  }

  function PiecesText(ps: seq<Piece>): seq<byte> {
    if ps == [] then [] else PieceText(ps[0]) + PiecesText(ps[1..])
  }

  function PiecesValue(ps: seq<Piece>): seq<byte>
    requires ValidPieces(ps)
  {
    if ps == [] then [] else PieceValue(ps[0]) + PiecesValue(ps[1..])
  }

  /** A complete JSON string token. */
  function Token(ps: seq<Piece>): seq<byte> {
    [QUOTE] + PiecesText(ps) + [QUOTE]
  }

  // ---------- values (RFC 8259, sections 2 to 6) ----------

  datatype Text =
    | NullText
    | TrueText
    | FalseText
    | NumberText(minus: bool, whole: seq<byte>, fraction: seq<byte>, exponent: Option<Exponent>)
    | StringText(body: seq<Piece>)
    | ArrayText(blank: seq<byte>, items: seq<Item>)       // `blank` is used only when empty
    | ObjectText(blank: seq<byte>, members: seq<Member>)

  datatype Exponent = Exponent(letter: byte, sign: seq<byte>, digits: seq<byte>)

  datatype Item = Item(before: seq<byte>, value: Text, after: seq<byte>)

  datatype Member = Member(before: seq<byte>, key: seq<Piece>, colon: seq<byte>, item: Item)

  predicate Blank(s: seq<byte>) {
    forall i :: 0 <= i < |s| ==> s[i] == 0x20 || s[i] == 0x09 || s[i] == 0x0A || s[i] == 0x0D
  }

  predicate ValidExponent(e: Exponent) {
    e.letter in {0x65, 0x45} && e.sign in {[], [0x2B], [0x2D]} && e.digits != [] && AllDigits(e.digits)
  }

  predicate ValidText(t: Text) {
    match t
    case NullText | TrueText | FalseText => true
    case NumberText(_, whole, fraction, exponent) =>
      whole != [] && AllDigits(whole) && (whole[0] == 0x30 ==> |whole| == 1) && AllDigits(fraction)
      && (exponent.Some? ==> ValidExponent(exponent.value))
    case StringText(body) => ValidPieces(body)
    case ArrayText(blank, items) => Blank(blank) && forall i :: 0 <= i < |items| ==> ValidItem(items[i])
    case ObjectText(blank, members) => Blank(blank) && forall i :: 0 <= i < |members| ==> ValidMember(members[i])
  }

  predicate ValidItem(i: Item) {
    Blank(i.before) && ValidText(i.value) && Blank(i.after)
  }

  predicate ValidMember(m: Member) {
    Blank(m.before) && ValidPieces(m.key) && Blank(m.colon) && ValidItem(m.item)
  }

  function Write(t: Text): seq<byte> {
    match t
    case NullText => [0x6E, 0x75, 0x6C, 0x6C]
    case TrueText => [0x74, 0x72, 0x75, 0x65]
    case FalseText => [0x66, 0x61, 0x6C, 0x73, 0x65]
    case NumberText(_, _, _, _) => WriteNumber(t)
    case StringText(body) => Token(body)
    case ArrayText(blank, items) => [0x5B] + (if items == [] then blank else WriteItems(items)) + [0x5D]
    case ObjectText(blank, members) => [0x7B] + (if members == [] then blank else WriteMembers(members)) + [0x7D]
  }

  function WriteNumber(t: Text): seq<byte>
    requires t.NumberText?
  {
    (if t.minus then [0x2D] else []) + t.whole
    + (if t.fraction == [] then [] else [0x2E] + t.fraction)
    + (if t.exponent.None? then [] else [t.exponent.value.letter] + t.exponent.value.sign + t.exponent.value.digits)
  }

  function WriteItem(i: Item): seq<byte> {
    i.before + Write(i.value) + i.after
  }

  function WriteMember(m: Member): seq<byte> {
    m.before + Token(m.key) + m.colon + [0x3A] + WriteItem(m.item)
  }

  function WriteItems(items: seq<Item>): seq<byte>
    requires items != []
  {
    if |items| == 1 then WriteItem(items[0])
    else WriteItem(items[0]) + [0x2C] + WriteItems(items[1..])
  }

  function WriteMembers(members: seq<Member>): seq<byte>
    requires members != []
  {
    if |members| == 1 then WriteMember(members[0])
    else WriteMember(members[0]) + [0x2C] + WriteMembers(members[1..])
  }

  /** The grammar in letters: literals and blanks. */
  lemma WrittenInLetters(s: seq<byte>)
    ensures Write(NullText) == Ascii("null") && Write(TrueText) == Ascii("true") && Write(FalseText) == Ascii("false")
    ensures Blank(s) <==> forall i :: 0 <= i < |s| ==> s[i] in Ascii(" \t\n\r")
  {
    assert Ascii(" \t\n\r") == [0x20, 0x09, 0x0A, 0x0D];
  }

  /** Punctuation of arrays, empty or with items on both sides of a comma. */
  lemma ArraysInLetters(blank: seq<byte>, first: Item, rest: seq<Item>)
    ensures Write(ArrayText(blank, [])) == Ascii("[") + blank + Ascii("]")
    ensures Write(ArrayText(blank, [first])) == Ascii("[") + WriteItem(first) + Ascii("]")
    ensures rest != [] ==> WriteItems([first] + rest) == WriteItem(first) + Ascii(",") + WriteItems(rest)
  {
    assert ([first] + rest)[1..] == rest;
    assert Ascii("[") == [0x5B] && Ascii("]") == [0x5D] && Ascii(",") == [0x2C];
  }

  /** Punctuation of objects. */
  lemma ObjectsInLetters(blank: seq<byte>, first: Member, rest: seq<Member>)
    ensures Write(ObjectText(blank, [])) == Ascii("{") + blank + Ascii("}")
    ensures Write(ObjectText(blank, [first])) == Ascii("{") + WriteMember(first) + Ascii("}")
    ensures rest != [] ==> WriteMembers([first] + rest) == WriteMember(first) + Ascii(",") + WriteMembers(rest)
    ensures WriteMember(first) == first.before + Token(first.key) + first.colon + Ascii(":") + WriteItem(first.item)
  {
    assert ([first] + rest)[1..] == rest;
    assert Ascii("{") == [0x7B] && Ascii("}") == [0x7D] && Ascii(",") == [0x2C] && Ascii(":") == [0x3A];
  }

  /** Numbers in letters: no leading zero, and digits in every part that is there. */
  lemma NumbersInLetters(minus: bool, whole: seq<byte>, fraction: seq<byte>, exponent: Option<Exponent>)
    ensures var t := NumberText(minus, whole, fraction, exponent);
            && (ValidText(t) <==>
                AllDigits(whole) && (whole == Ascii("0") || (whole != [] && whole[0] != '0' as byte))
                && AllDigits(fraction)
                && (exponent.None?
                    || ([exponent.value.letter] in [Ascii("e"), Ascii("E")]
                        && exponent.value.sign in [[], Ascii("+"), Ascii("-")]
                        && exponent.value.digits != [] && AllDigits(exponent.value.digits))))
            && Write(t) == (if minus then Ascii("-") else []) + whole
                           + (if fraction == [] then [] else Ascii(".") + fraction)
                           + (if exponent.None? then []
                              else [exponent.value.letter] + exponent.value.sign + exponent.value.digits)
  {
    assert Ascii("0") == [0x30] && Ascii("e") == [0x65] && Ascii("E") == [0x45];
    assert Ascii("+") == [0x2B] && Ascii("-") == [0x2D] && Ascii(".") == [0x2E];
  }

  // ---------- parsed trees ----------

  /** A generic JSON value; the members of an object are a B-tree map. */
  datatype Value =
    | Null
    | Bool(b: bool)
    | Number(text: seq<byte>)
    | String(s: seq<byte>)
    | Array(elements: seq<Value>)
    | Object(entries: seq<Entry<Value>>)

  function Tree(t: Text): Value
    requires ValidText(t)
  {
    match t
    case NullText => Null
    case TrueText => Bool(true)
    case FalseText => Bool(false)
    case NumberText(_, _, _, _) => Number(WriteNumber(t))
    case StringText(body) => String(PiecesValue(body))
    case ArrayText(_, items) => Array(TreeItems(items))
    case ObjectText(_, members) => Object(TreeMembers(members))
  }

  function TreeItems(items: seq<Item>): (r: seq<Value>)
    requires forall i :: 0 <= i < |items| ==> ValidItem(items[i])
    ensures |r| == |items|
    ensures forall i :: 0 <= i < |items| ==> ValidItem(items[i]) && r[i] == Tree(items[i].value)
  {
    if items == [] then []
    else
      assert ValidItem(items[0]);
      [Tree(items[0].value)] + TreeItems(items[1..])
  }

  lemma LiteralTrees()
    ensures Tree(NullText) == Null && Tree(TrueText) == Bool(true) && Tree(FalseText) == Bool(false)
  {}

  /** Members are inserted from left to right, so the last duplicate of a key wins. */
  function TreeMembers(members: seq<Member>): seq<Entry<Value>>
    requires forall i :: 0 <= i < |members| ==> ValidMember(members[i])
  {
    if members == [] then []
    else
      var last := members[|members| - 1];
      assert ValidMember(last) && ValidItem(last.item);
      Put(TreeMembers(members[..|members| - 1]), PiecesValue(last.key), Tree(last.item.value))
  }

  lemma {:induction false} LastDuplicateWins(members: seq<Member>, i: nat)
    requires forall k :: 0 <= k < |members| ==>
      ValidMember(members[k]) && ValidPieces(members[k].key) && ValidItem(members[k].item)
    requires i < |members|
    requires forall k :: i < k < |members| ==> PiecesValue(members[k].key) != PiecesValue(members[i].key)
    ensures Get(TreeMembers(members), PiecesValue(members[i].key)) == Some(Tree(members[i].item.value))
    decreases |members|
  {
    var front, last := members[..|members| - 1], members[|members| - 1];
    assert ValidMember(last) && ValidItem(last.item);
    GetPut(TreeMembers(front), PiecesValue(last.key), Tree(last.item.value), PiecesValue(members[i].key));
    if i < |front| {
      assert front[i] == members[i] && PiecesValue(last.key) != PiecesValue(front[i].key);
      LastDuplicateWins(front, i);
    }
  }

  /** Objects of a parsed tree are sorted, hence have distinct keys. */
  ghost predicate WellFormed(v: Value) {
    match v
    case Array(elements) => forall i :: 0 <= i < |elements| ==> WellFormed(elements[i])
    case Object(entries) =>
      Sorted(entries) && forall i :: 0 <= i < |entries| ==> WellFormed(entries[i].value)
    case _ => true
  }

  lemma {:induction false} TreeWellFormed(t: Text)
    requires ValidText(t)
    ensures WellFormed(Tree(t))
  {
    match t
    case ArrayText(_, items) =>
      forall i | 0 <= i < |items| ensures WellFormed(Tree(items[i].value)) {
        assert ValidItem(items[i]);
        TreeWellFormed(items[i].value);
      }
    case ObjectText(_, members) => TreeMembersWellFormed(members);
    case _ =>
  }

  lemma {:induction false} TreeMembersWellFormed(members: seq<Member>)
    requires forall i :: 0 <= i < |members| ==> ValidMember(members[i])
    ensures WellFormed(Object(TreeMembers(members)))
  {
    if members != [] {
      var front, last := members[..|members| - 1], members[|members| - 1];
      assert ValidMember(last) && ValidItem(last.item);
      TreeMembersWellFormed(front);
      TreeWellFormed(last.item.value);
      var key, value := PiecesValue(last.key), Tree(last.item.value);
      PutSorted(TreeMembers(front), key, value);
      var r := Put(TreeMembers(front), key, value);
      forall i | 0 <= i < |r| ensures WellFormed(r[i].value) {
        assert r[i] in r;
      }
    }
  }

  /** A JSON document: one value between blanks. */
  ghost predicate Writes(document: Item, bytes: seq<byte>) {
    ValidItem(document) && WriteItem(document) == bytes
  }
}
