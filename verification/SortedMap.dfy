/**
 A B-tree map keyed by byte strings, seen as the strictly sorted sequence of its entries,
 which is the order in which it is iterated.
 */
module SortedMap {
  import opened Bytes

  datatype Entry<V> = Entry(key: seq<byte>, value: V)

  ghost predicate Sorted<V>(m: seq<Entry<V>>) {
    forall i, j :: 0 <= i < j < |m| ==> Less(m[i].key, m[j].key)
  }

  function Get<V>(m: seq<Entry<V>>, key: seq<byte>): (r: Option<V>)
    ensures r.Some? ==> Entry(key, r.value) in m
    ensures r.None? ==> forall e :: e in m ==> e.key != key
  {
    if m == [] then None
    else if m[0].key == key then Some(m[0].value)
    else Get(m[1..], key)
  }

  /** Inserts or replaces: the later value wins. */
  function Put<V>(m: seq<Entry<V>>, key: seq<byte>, value: V): (r: seq<Entry<V>>)
    ensures forall e :: e in r ==> e == Entry(key, value) || e in m
  {
    if m == [] then [Entry(key, value)]
    else if m[0].key == key then [Entry(key, value)] + m[1..]
    else if Less(key, m[0].key) then [Entry(key, value)] + m
    else [m[0]] + Put(m[1..], key, value)
  }

  lemma SortedHead<V>(m: seq<Entry<V>>)
    requires m != [] && Sorted(m[1..])
    requires forall e :: e in m[1..] ==> Less(m[0].key, e.key)
    ensures Sorted(m)
  {
    forall i, j | 0 <= i < j < |m| ensures Less(m[i].key, m[j].key) {
      assert m[j] == m[1..][j - 1];
      if i > 0 { assert m[i] == m[1..][i - 1]; }
    }
  }

  lemma {:induction false} PutSorted<V>(m: seq<Entry<V>>, key: seq<byte>, value: V)
    requires Sorted(m)
    ensures Sorted(Put(m, key, value))
  {
    if m != [] {
      var r := Put(m, key, value);
      assert forall e :: e in m[1..] ==> Less(m[0].key, e.key);
      if m[0].key == key {
      } else if Less(key, m[0].key) {
        forall e | e in m ensures Less(key, e.key) {
          if e != m[0] { LessTransitive(key, m[0].key, e.key); }
        }
        assert r[1..] == m;
        SortedHead(r);
      } else {
        LessTotal(m[0].key, key);
        PutSorted(m[1..], key, value);
        assert r[1..] == Put(m[1..], key, value);
        SortedHead(r);
      }
    }
  }

  lemma {:induction false} GetPut<V>(m: seq<Entry<V>>, key: seq<byte>, value: V, other: seq<byte>)
    ensures Get(Put(m, key, value), other) == if other == key then Some(value) else Get(m, other)
  {
    if m != [] && m[0].key != key && !Less(key, m[0].key) {
      GetPut(m[1..], key, value, other);
      assert Put(m, key, value)[1..] == Put(m[1..], key, value);
    } else if m != [] {
      assert Put(m, key, value)[1..] == if m[0].key == key then m[1..] else m;
    }
  }

  /** In a sorted map every entry is the one its key looks up. */
  lemma {:induction false} GetSorted<V>(m: seq<Entry<V>>, i: nat)
    requires Sorted(m) && i < |m|
    ensures Get(m, m[i].key) == Some(m[i].value)
  {
    if i > 0 {
      LessIrreflexive(m[i].key);
      assert m[0].key != m[i].key;
      GetSorted(m[1..], i - 1);
    }
  }
}
