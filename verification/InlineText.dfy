/** Fixed-capacity ASCII text: a zero-padded array with a length, compared field by field. */
module InlineText {
  import opened Bytes

  datatype InvalidInline = BadLength(length: nat) | BadCharacter(index: nat)

  datatype InlineAscii = InlineAscii(bytes: seq<byte>, length: nat)

  function Zeros(n: nat): (r: seq<byte>)
    ensures |r| == n && forall i :: 0 <= i < n ==> r[i] == 0
  {
    seq(n, _ => 0)
  }

  function Padded(s: seq<byte>, capacity: nat): seq<byte>
    requires |s| <= capacity
  {
    s + Zeros(capacity - |s|)
  }

  predicate Accepts(s: seq<byte>, accept: byte -> bool) {
    forall i :: 0 <= i < |s| ==> accept(s[i])
  }

  /** `capacity` is a constant of the type, always below 256. */
  method Parse(value: seq<byte>, minimum: nat, capacity: nat, accept: byte -> bool)
    returns (r: Result<InlineAscii, InvalidInline>)
    requires capacity < 256
    ensures r.Ok? <==> minimum <= |value| <= capacity && Accepts(value, accept)
    ensures r.Ok? ==> r.value == InlineAscii(Padded(value, capacity), |value|)
    ensures !(minimum <= |value| <= capacity) ==> r == Err(BadLength(|value|))
    ensures r.Err? && minimum <= |value| <= capacity ==>
            r.error.BadCharacter? && r.error.index < |value| && !accept(value[r.error.index])
            && Accepts(value[..r.error.index], accept)
  {
    if !(minimum <= |value| <= capacity) {
      return Err(BadLength(|value|));
    }
    for index := 0 to |value|
      invariant Accepts(value[..index], accept)
    {
      if !accept(value[index]) {
        return Err(BadCharacter(index));
      }
    }
    assert value[..|value|] == value;
    var encoded := new byte[capacity](_ => 0);
    for index := 0 to |value|
      invariant encoded[..index] == value[..index]
      invariant forall k :: index <= k < capacity ==> encoded[k] == 0
    {
      encoded[index] := value[index];
    }
    assert encoded[..] == Padded(value, capacity);
    r := Ok(InlineAscii(encoded[..], |value|));
  }

  function AsBytes(t: InlineAscii): seq<byte>
    requires t.length <= |t.bytes|
  {
    t.bytes[..t.length]
  }

  /** The derived order: arrays first, then lengths. */
  predicate DerivedLess(a: InlineAscii, b: InlineAscii) {
    Less(a.bytes, b.bytes) || (a.bytes == b.bytes && a.length < b.length)
  }

  predicate NoZero(s: seq<byte>) {
    forall i :: 0 <= i < |s| ==> s[i] != 0
  }

  lemma {:induction false} PaddedLess(a: seq<byte>, b: seq<byte>, capacity: nat)
    requires NoZero(a) && NoZero(b) && |a| <= capacity && |b| <= capacity
    ensures Less(Padded(a, capacity), Padded(b, capacity)) <==> Less(a, b)
    ensures Padded(a, capacity) == Padded(b, capacity) <==> a == b
  {
    var pa, pb := Padded(a, capacity), Padded(b, capacity);
    if a == [] && b == [] {
      LessIrreflexive(pa);
    } else if a == [] {
      assert pa[0] == 0 && pb[0] == b[0];
    } else if b == [] {
      assert pb[0] == 0 && pa[0] == a[0];
    } else {
      assert pa[0] == a[0] && pb[0] == b[0];
      assert pa[1..] == Padded(a[1..], capacity - 1) && pb[1..] == Padded(b[1..], capacity - 1);
      PaddedLess(a[1..], b[1..], capacity - 1);
      assert a == [a[0]] + a[1..] && b == [b[0]] + b[1..] && pa == [pa[0]] + pa[1..] && pb == [pb[0]] + pb[1..];
    }
  }

  /**
   For text without zero bytes, of any lengths up to the capacity, the stored form gives the
   text back, and its derived equality and order are those of the texts.
   */
  lemma StoredLikeText(a: seq<byte>, b: seq<byte>, capacity: nat)
    requires NoZero(a) && NoZero(b) && |a| <= capacity && |b| <= capacity
    ensures var x, y := InlineAscii(Padded(a, capacity), |a|), InlineAscii(Padded(b, capacity), |b|);
            && AsBytes(x) == a
            && (x == y <==> a == b)
            && (DerivedLess(x, y) <==> Less(a, b))
  {
    PaddedLess(a, b, capacity);
  }
}
