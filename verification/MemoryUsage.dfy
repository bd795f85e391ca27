/** Memory usage of a mesh extender, written as free and total kibibytes. */
module MemoryUsages {
  import opened Bytes
  import opened Decimal

  datatype MemoryUsage = MemoryUsage(freeKib: nat, totalKib: nat)

  predicate Valid(u: MemoryUsage) {
    u.freeKib <= u.totalKib < TWO_POW_64
  }

  function Parse(value: seq<byte>): Option<MemoryUsage> {
    var split := SplitOnce(value, [SLASH]);
    if split.None? then None
    else
      var free, total := ParseUnsigned(split.value.0, TWO_POW_64), ParseUnsigned(split.value.1, TWO_POW_64);
      if free.None? || total.None? || free.value > total.value then None
      else Some(MemoryUsage(free.value, total.value))
  }

  function Show(u: MemoryUsage): seq<byte> {
    Print(u.freeKib) + [SLASH] + Print(u.totalKib)
  }

  predicate Spells(free: seq<byte>, total: seq<byte>, value: seq<byte>, u: MemoryUsage) {
    value == free + [SLASH] + total && Valid(u)
    && ParseUnsigned(free, TWO_POW_64) == Some(u.freeKib) && ParseUnsigned(total, TWO_POW_64) == Some(u.totalKib)
  }

  /** Parsing accepts exactly two 64-bit numbers around a slash, the first not above the second. */
  lemma ParseIsExact(value: seq<byte>, u: MemoryUsage)
    ensures Parse(value) == Some(u) <==> exists free, total :: Spells(free, total, value, u)
  {
    if free, total :| Spells(free, total, value, u) {
      SpelledParses(free, total, value, u);
    }
    if Parse(value) == Some(u) {
      SplitOncePieces(value, [SLASH]);
      var (free, total) := SplitOnce(value, [SLASH]).value;
      assert Spells(free, total, value, u);
    }
  }

  lemma SpelledParses(free: seq<byte>, total: seq<byte>, value: seq<byte>, u: MemoryUsage)
    requires Spells(free, total, value, u)
    ensures Parse(value) == Some(u)
  {
    SplitOnceBehind(free, [SLASH], total);
  }

  lemma RoundTrip(u: MemoryUsage)
    requires Valid(u)
    ensures Parse(Show(u)) == Some(u)
  {
    ParsePrinted(u.freeKib, TWO_POW_64);
    ParsePrinted(u.totalKib, TWO_POW_64);
    SpelledParses(Print(u.freeKib), Print(u.totalKib), Show(u), u);
  }

  /** What is printed is the shortest text that parses to the value: no signs and no leading zeros. */
  lemma ShowIsShortest(u: MemoryUsage, value: seq<byte>)
    requires Parse(value) == Some(u)
    ensures |Show(u)| <= |value|
    ensures |Show(u)| == |value| ==> value == Show(u)
  {
    ParseIsExact(value, u);
    var free, total :| Spells(free, total, value, u);
    PrintIsShortest(free, TWO_POW_64, u.freeKib);
    PrintIsShortest(total, TWO_POW_64, u.totalKib);
  }
}
