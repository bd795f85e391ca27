/**
 RCI errors inside a successful response: which tree positions report one, how they are
 collected, and when decoding a body yields them.
 */
module ResponseErrors {
  import opened Bytes
  import opened SortedMap
  import opened JsonText
  import opened Prefilter

  const CODE: seq<byte> := [0x63, 0x6F, 0x64, 0x65]
  const IDENT: seq<byte> := [0x69, 0x64, 0x65, 0x6E, 0x74]
  const MESSAGE: seq<byte> := [0x6D, 0x65, 0x73, 0x73, 0x61, 0x67, 0x65]

  datatype StatusEntry = StatusEntry(code: Option<seq<byte>>, ident: Option<seq<byte>>, message: Option<seq<byte>>)

  // ---------- one status object ----------

  function StringMember(entries: seq<Entry<Value>>, key: seq<byte>): Option<seq<byte>> {
    var found := Get(entries, key);
    if found.Some? && found.value.String? then Some(found.value.s) else None
  }

  predicate IsError(status: Value) {
    status.Object? && StringMember(status.entries, STATUS) == Some(ERROR)
  }

  function EntryOf(status: Value): StatusEntry
    requires status.Object?
  {
    StatusEntry(StringMember(status.entries, CODE), StringMember(status.entries, IDENT),
                StringMember(status.entries, MESSAGE))
  }

  // ---------- the traversal ----------

  function Harvest(statuses: seq<Value>): seq<StatusEntry> {
    if statuses == [] then []
    else (if IsError(statuses[0]) then [EntryOf(statuses[0])] else []) + Harvest(statuses[1..])
  }

  predicate HoldsStatuses(e: Entry<Value>) {
    e.key == STATUS && e.value.Array?
  }

  /** The functional form of the traversal. */
  function Errors(v: Value): seq<StatusEntry> {
    match v
    case Object(entries) => EntriesErrors(entries)
    case Array(elements) => ElementsErrors(elements)
    case _ => []
  }

  function EntriesErrors(entries: seq<Entry<Value>>): seq<StatusEntry> {
    if entries == [] then []
    else
      (if HoldsStatuses(entries[0]) then Harvest(entries[0].value.elements) else [])
      + Errors(entries[0].value) + EntriesErrors(entries[1..])
  }

  lemma EntriesErrorsAt(entries: seq<Entry<Value>>, i: nat)
    requires i < |entries|
    ensures EntriesErrors(entries[i..])
         == (if HoldsStatuses(entries[i]) then Harvest(entries[i].value.elements) else [])
            + Errors(entries[i].value) + EntriesErrors(entries[i + 1..])
  {
    assert entries[i..][1..] == entries[i + 1..];
  }

  function ElementsErrors(elements: seq<Value>): seq<StatusEntry> {
    if elements == [] then [] else Errors(elements[0]) + ElementsErrors(elements[1..])
  }

  /** The growing vector that the recursive collector extends in place. */
  class Collector {
    var entries: seq<StatusEntry>

    constructor ()
      ensures entries == []
    {
      entries := [];
    }

    method Extend(statuses: seq<Value>)
      modifies this
      ensures entries == old(entries) + Harvest(statuses)
    {
      for i := 0 to |statuses|
        invariant entries + Harvest(statuses[i..]) == old(entries) + Harvest(statuses)
      {
        assert statuses[i..][1..] == statuses[i + 1..];
        if IsError(statuses[i]) {
          entries := entries + [EntryOf(statuses[i])];
        }
      }
    }

    method Collect(v: Value)
      modifies this
      ensures entries == old(entries) + Errors(v)
      decreases v
    {
      match v {
        case Object(members) => CollectMembers(members);
        case Array(elements) => CollectElements(elements);
        case _ =>
      }
    }

    method CollectMembers(members: seq<Entry<Value>>)
      modifies this
      ensures entries == old(entries) + EntriesErrors(members)
      decreases members
    {
      for i := 0 to |members|
        invariant entries + EntriesErrors(members[i..]) == old(entries) + EntriesErrors(members)
      {
        EntriesErrorsAt(members, i);
        if HoldsStatuses(members[i]) {
          Extend(members[i].value.elements);
        }
        Collect(members[i].value);
      }
    }

    method CollectElements(elements: seq<Value>)
      modifies this
      ensures entries == old(entries) + ElementsErrors(elements)
      decreases elements
    {
      for i := 0 to |elements|
        invariant entries + ElementsErrors(elements[i..]) == old(entries) + ElementsErrors(elements)
      {
        assert elements[i..][1..] == elements[i + 1..];
        Collect(elements[i]);
      }
    }
  }

  // ---------- what is collected, stated by tree positions ----------

  datatype Step = Key(key: seq<byte>) | Index(index: nat)

  /** Element `index` of the array at `path`. */
  datatype Position = Position(path: seq<Step>, index: nat)

  datatype Found = Found(at: Position, entry: StatusEntry)

  function At(v: Value, path: seq<Step>): Option<Value>
    decreases |path|
  {
    if path == [] then Some(v)
    else if path[0].Key? && v.Object? && Get(v.entries, path[0].key).Some? then
      At(Get(v.entries, path[0].key).value, path[1..])
    else if path[0].Index? && v.Array? && path[0].index < |v.elements| then
      At(v.elements[path[0].index], path[1..])
    else None
  }

  /** An element of an array stored under the key `status` whose own `status` is `error`. */
  ghost predicate IsErrorPosition(v: Value, p: Position) {
    p.path != [] && p.path[|p.path| - 1] == Key(STATUS)
    && var statuses := At(v, p.path);
       statuses.Some? && statuses.value.Array? && p.index < |statuses.value.elements|
       && IsError(statuses.value.elements[p.index])
  }

  /** Outer arrays before the arrays inside them, members in key order, elements in order. */
  ghost predicate StepLess(a: Step, b: Step) {
    (a.Key? && b.Key? && Less(a.key, b.key)) || (a.Index? && b.Index? && a.index < b.index)
  }

  ghost predicate PathLess(a: seq<Step>, b: seq<Step>) {
    b != [] && (a == [] || StepLess(a[0], b[0]) || (a[0] == b[0] && PathLess(a[1..], b[1..])))
  }

  ghost predicate PositionLess(a: Position, b: Position) {
    PathLess(a.path, b.path) || (a.path == b.path && a.index < b.index)
  }

  function EntriesOf(found: seq<Found>): seq<StatusEntry> {
    seq(|found|, i requires 0 <= i < |found| => found[i].entry)
  }

  // The same traversal, with every entry labelled by its position.

  function HarvestAt(statuses: seq<Value>, first: nat, key: seq<byte>): seq<Found> {
    if statuses == [] then []
    else
      Reported(statuses[0], Position([Key(key)], first)) + HarvestAt(statuses[1..], first + 1, key)
  }

  function Reported(status: Value, at: Position): seq<Found> {
    if IsError(status) then [Found(at, EntryOf(status))] else []
  }

  function Below(step: Step, found: seq<Found>): seq<Found> {
    seq(|found|, i requires 0 <= i < |found| =>
      Found(Position([step] + found[i].at.path, found[i].at.index), found[i].entry))
  }

  function FoundIn(v: Value): seq<Found> {
    match v
    case Object(entries) => FoundInEntries(entries)
    case Array(elements) => FoundInElements(elements, 0)
    case _ => []
  }

  function FoundInEntries(entries: seq<Entry<Value>>): seq<Found> {
    if entries == [] then [] else FoundInEntry(entries[0]) + FoundInEntries(entries[1..])
  }

  function FoundInEntry(e: Entry<Value>): seq<Found> {
    (if HoldsStatuses(e) then HarvestAt(e.value.elements, 0, e.key) else [])
    + Below(Key(e.key), FoundIn(e.value))
  }

  function FoundInElements(elements: seq<Value>, first: nat): seq<Found> {
    if elements == [] then []
    else Below(Index(first), FoundIn(elements[0])) + FoundInElements(elements[1..], first + 1)
  }

  // Labels do not change what is collected.

  lemma EntriesOfConcat(a: seq<Found>, b: seq<Found>)
    ensures EntriesOf(a + b) == EntriesOf(a) + EntriesOf(b)
  {
    assert forall i :: |a| <= i < |a + b| ==> (a + b)[i] == b[i - |a|];
  }

  lemma {:induction false} LabelledHarvest(statuses: seq<Value>, first: nat, key: seq<byte>)
    ensures EntriesOf(HarvestAt(statuses, first, key)) == Harvest(statuses)
  {
    if statuses != [] { LabelledHarvest(statuses[1..], first + 1, key); }
  }

  lemma {:induction false} LabelledErrors(v: Value)
    ensures EntriesOf(FoundIn(v)) == Errors(v)
  {
    match v
    case Object(entries) => LabelledEntries(entries);
    case Array(elements) => LabelledElements(elements, 0);
    case _ =>
  }

  lemma {:induction false} LabelledEntries(entries: seq<Entry<Value>>)
    ensures EntriesOf(FoundInEntries(entries)) == EntriesErrors(entries)
  {
    if entries != [] {
      var e := entries[0];
      LabelledErrors(e.value);
      LabelledEntries(entries[1..]);
      assert EntriesOf(Below(Key(e.key), FoundIn(e.value))) == EntriesOf(FoundIn(e.value));
      if HoldsStatuses(e) { LabelledHarvest(e.value.elements, 0, e.key); }
      EntriesOfConcat(FoundInEntry(e), FoundInEntries(entries[1..]));
      EntriesOfConcat(if HoldsStatuses(e) then HarvestAt(e.value.elements, 0, e.key) else [],
                      Below(Key(e.key), FoundIn(e.value)));
    }
  }

  lemma {:induction false} LabelledElements(elements: seq<Value>, first: nat)
    ensures EntriesOf(FoundInElements(elements, first)) == ElementsErrors(elements)
  {
    if elements != [] {
      LabelledErrors(elements[0]);
      LabelledElements(elements[1..], first + 1);
      var head := Below(Index(first), FoundIn(elements[0]));
      assert EntriesOf(head) == EntriesOf(FoundIn(elements[0]));
      EntriesOfConcat(head, FoundInElements(elements[1..], first + 1));
    }
  }

  // Exactly the error positions are found, with their entries.

  ghost predicate Genuine(v: Value, f: Found) {
    IsErrorPosition(v, f.at) && f.entry == EntryOf(At(v, f.at.path).value.elements[f.at.index])
  }

  /** `f`, seen from the value one step further down. */
  function Under(f: Found): Found
    requires f.at.path != []
  {
    Found(Position(f.at.path[1..], f.at.index), f.entry)
  }

  ghost predicate GenuineInChild(step: Step, child: Value, f: Found) {
    f.at.path != [] && f.at.path[0] == step
    && if |f.at.path| == 1 then
         step == Key(STATUS) && child.Array? && f.at.index < |child.elements|
         && IsError(child.elements[f.at.index]) && f.entry == EntryOf(child.elements[f.at.index])
       else Genuine(child, Under(f))
  }

  lemma GenuineStep(v: Value, child: Value, f: Found)
    requires f.at.path != [] && At(v, f.at.path[..1]) == Some(child)
    ensures Genuine(v, f) <==> GenuineInChild(f.at.path[0], child, f)
  {
    var path := f.at.path;
    assert path[..1][1..] == [];
    assert At(v, path) == At(child, path[1..]);
    if |path| > 1 { assert path[|path| - 1] == path[1..][|path| - 2]; }
  }

  lemma BelowMembers(step: Step, found: seq<Found>, f: Found)
    ensures f in Below(step, found) <==> f.at.path != [] && f.at.path[0] == step && Under(f) in found
  {
    if f.at.path != [] && f.at.path[0] == step && Under(f) in found {
      var i :| 0 <= i < |found| && found[i] == Under(f);
      assert [step] + f.at.path[1..] == f.at.path;
      assert Below(step, found)[i] == f;
    }
    if f in Below(step, found) {
      var i :| 0 <= i < |found| && Below(step, found)[i] == f;
      assert f.at.path[1..] == found[i].at.path;
      assert Under(f) == found[i];
    }
  }

  /** `f` reports an error status of the array under `key`, whose first element has index `first`. */
  predicate Reports(statuses: seq<Value>, first: nat, key: seq<byte>, f: Found) {
    f.at.path == [Key(key)] && first <= f.at.index < first + |statuses|
    && IsError(statuses[f.at.index - first]) && f.entry == EntryOf(statuses[f.at.index - first])
  }

  lemma ReportsStep(statuses: seq<Value>, first: nat, key: seq<byte>, f: Found)
    requires statuses != []
    ensures Reports(statuses, first, key, f) <==>
            f in Reported(statuses[0], Position([Key(key)], first)) || Reports(statuses[1..], first + 1, key, f)
  {
    if first < f.at.index < first + |statuses| {
      assert statuses[1..][f.at.index - (first + 1)] == statuses[f.at.index - first];
    }
  }

  lemma {:induction false} HarvestedIff(statuses: seq<Value>, first: nat, key: seq<byte>, f: Found)
    ensures f in HarvestAt(statuses, first, key) <==> Reports(statuses, first, key, f)
  {
    if statuses != [] {
      HarvestedIff(statuses[1..], first + 1, key, f);
      ReportsStep(statuses, first, key, f);
    }
  }

  lemma GenuineInEntry(entries: seq<Entry<Value>>, f: Found)
    requires WellFormed(Object(entries))
    ensures Genuine(Object(entries), f) <==>
            exists i :: 0 <= i < |entries| && GenuineInChild(Key(entries[i].key), entries[i].value, f)
  {
    var v := Object(entries);
    if i :| 0 <= i < |entries| && GenuineInChild(Key(entries[i].key), entries[i].value, f) {
      GetSorted(entries, i);
      assert At(v, f.at.path[..1]) == Some(entries[i].value);
      GenuineStep(v, entries[i].value, f);
    }
    if Genuine(v, f) {
      var child := Get(entries, f.at.path[0].key);
      var i :| 0 <= i < |entries| && entries[i] == Entry(f.at.path[0].key, child.value);
      assert At(v, f.at.path[..1]) == Some(entries[i].value);
      GenuineStep(v, entries[i].value, f);
      assert GenuineInChild(Key(entries[i].key), entries[i].value, f);
    }
  }

  lemma GenuineInElement(elements: seq<Value>, f: Found)
    requires WellFormed(Array(elements))
    ensures Genuine(Array(elements), f) <==>
            exists i :: 0 <= i < |elements| && GenuineInChild(Index(i), elements[i], f)
  {
    var v := Array(elements);
    if i :| 0 <= i < |elements| && GenuineInChild(Index(i), elements[i], f) {
      assert At(v, f.at.path[..1]) == Some(elements[i]);
      GenuineStep(v, elements[i], f);
    }
    if Genuine(v, f) {
      var i := f.at.path[0].index;
      assert At(v, f.at.path[..1]) == Some(elements[i]);
      GenuineStep(v, elements[i], f);
      assert GenuineInChild(Index(i), elements[i], f);
    }
  }

  lemma {:induction false} FoundIffGenuine(v: Value, f: Found)
    requires WellFormed(v)
    ensures f in FoundIn(v) <==> Genuine(v, f)
  {
    match v
    case Object(entries) =>
      EntriesIff(entries, f);
      GenuineInEntry(entries, f);
    case Array(elements) =>
      ElementsIff(elements, 0, f);
      GenuineInElement(elements, f);
    case _ =>
  }

  lemma {:induction false} EntryIff(e: Entry<Value>, f: Found)
    requires WellFormed(e.value)
    ensures f in FoundInEntry(e) <==> GenuineInChild(Key(e.key), e.value, f)
  {
    BelowMembers(Key(e.key), FoundIn(e.value), f);
    if HoldsStatuses(e) { HarvestedIff(e.value.elements, 0, e.key, f); }
    if f.at.path != [] {
      FoundIffGenuine(e.value, Under(f));
      assert |f.at.path| == 1 ==> !Genuine(e.value, Under(f));
      assert |f.at.path| == 1 && f.at.path[0] == Key(e.key) <==> f.at.path == [Key(e.key)];
    }
  }

  lemma {:induction false} EntriesIff(entries: seq<Entry<Value>>, f: Found)
    requires forall i :: 0 <= i < |entries| ==> WellFormed(entries[i].value)
    ensures f in FoundInEntries(entries) <==>
            exists i :: 0 <= i < |entries| && GenuineInChild(Key(entries[i].key), entries[i].value, f)
  {
    if entries != [] {
      EntryIff(entries[0], f);
      EntriesIff(entries[1..], f);
      if i :| 0 <= i < |entries| && GenuineInChild(Key(entries[i].key), entries[i].value, f) {
        if i > 0 { assert entries[i] == entries[1..][i - 1]; }
      }
    }
  }

  lemma {:induction false} ElementsIff(elements: seq<Value>, first: nat, f: Found)
    requires forall i :: 0 <= i < |elements| ==> WellFormed(elements[i])
    ensures f in FoundInElements(elements, first) <==>
            exists i :: 0 <= i < |elements| && GenuineInChild(Index(first + i), elements[i], f)
  {
    if elements != [] {
      BelowMembers(Index(first), FoundIn(elements[0]), f);
      if f.at.path != [] { FoundIffGenuine(elements[0], Under(f)); }
      ElementsIff(elements[1..], first + 1, f);
      if i :| 0 <= i < |elements| && GenuineInChild(Index(first + i), elements[i], f) {
        if i > 0 { assert elements[i] == elements[1..][i - 1] && first + i == first + 1 + (i - 1); }
      }
      if j :| 0 <= j < |elements[1..]| && GenuineInChild(Index(first + 1 + j), elements[1..][j], f) {
        assert elements[1..][j] == elements[j + 1] && first + 1 + j == first + (j + 1);
      }
    }
  }

  // They are found in traversal order, members by key and outer arrays first; hence each once.

  ghost predicate Ordered(found: seq<Found>) {
    forall i, j :: 0 <= i < j < |found| ==> PositionLess(found[i].at, found[j].at)
  }

  ghost predicate AllLess(a: seq<Found>, b: seq<Found>) {
    forall x, y :: x in a && y in b ==> PositionLess(x.at, y.at)
  }

  lemma OrderedConcat(a: seq<Found>, b: seq<Found>)
    requires Ordered(a) && Ordered(b) && AllLess(a, b)
    ensures Ordered(a + b)
  {
    var c := a + b;
    forall i, j | 0 <= i < j < |c| ensures PositionLess(c[i].at, c[j].at) {
      if j < |a| {
        assert c[i] == a[i] && c[j] == a[j];
      } else if i < |a| {
        assert c[i] in a && c[j] in b;
      } else {
        assert c[i] == b[i - |a|] && c[j] == b[j - |a|];
      }
    }
  }

  lemma {:induction false} HarvestOrdered(statuses: seq<Value>, first: nat, key: seq<byte>)
    ensures Ordered(HarvestAt(statuses, first, key))
  {
    if statuses != [] {
      var head := if IsError(statuses[0]) then [Found(Position([Key(key)], first), EntryOf(statuses[0]))] else [];
      var rest := HarvestAt(statuses[1..], first + 1, key);
      HarvestOrdered(statuses[1..], first + 1, key);
      forall x, y | x in head && y in rest ensures PositionLess(x.at, y.at) {
        HarvestedIff(statuses[1..], first + 1, key, y);
      }
      OrderedConcat(head, rest);
    }
  }

  lemma BelowOrdered(step: Step, found: seq<Found>)
    requires Ordered(found)
    ensures Ordered(Below(step, found))
  {
    var b := Below(step, found);
    forall i, j | 0 <= i < j < |b| ensures PositionLess(b[i].at, b[j].at) {
      assert b[i].at.path[1..] == found[i].at.path && b[j].at.path[1..] == found[j].at.path;
    }
  }

  lemma {:induction false} FoundOrdered(v: Value)
    requires WellFormed(v)
    ensures Ordered(FoundIn(v))
  {
    match v
    case Object(entries) => EntriesOrdered(entries);
    case Array(elements) => ElementsOrdered(elements, 0);
    case _ =>
  }

  lemma {:induction false} EntryOrdered(e: Entry<Value>)
    requires WellFormed(e.value)
    ensures Ordered(FoundInEntry(e))
  {
    var inner := Below(Key(e.key), FoundIn(e.value));
    FoundOrdered(e.value);
    BelowOrdered(Key(e.key), FoundIn(e.value));
    var harvest := if HoldsStatuses(e) then HarvestAt(e.value.elements, 0, e.key) else [];
    if HoldsStatuses(e) { HarvestOrdered(e.value.elements, 0, e.key); }
    forall x, y | x in harvest && y in inner ensures PositionLess(x.at, y.at) {
      HarvestedIff(e.value.elements, 0, e.key, x);
      BelowMembers(Key(e.key), FoundIn(e.value), y);
      FoundIffGenuine(e.value, Under(y));
      assert y.at.path[1..] != [];
    }
    OrderedConcat(harvest, inner);
  }

  lemma {:induction false} EntriesOrdered(entries: seq<Entry<Value>>)
    requires Sorted(entries) && forall i :: 0 <= i < |entries| ==> WellFormed(entries[i].value)
    ensures Ordered(FoundInEntries(entries))
  {
    if entries != [] {
      EntryOrdered(entries[0]);
      EntriesOrdered(entries[1..]);
      forall x, y | x in FoundInEntry(entries[0]) && y in FoundInEntries(entries[1..])
        ensures PositionLess(x.at, y.at)
      {
        EntryIff(entries[0], x);
        EntriesIff(entries[1..], y);
      }
      OrderedConcat(FoundInEntry(entries[0]), FoundInEntries(entries[1..]));
    }
  }

  lemma {:induction false} ElementsOrdered(elements: seq<Value>, first: nat)
    requires forall i :: 0 <= i < |elements| ==> WellFormed(elements[i])
    ensures Ordered(FoundInElements(elements, first))
  {
    if elements != [] {
      var head := Below(Index(first), FoundIn(elements[0]));
      FoundOrdered(elements[0]);
      BelowOrdered(Index(first), FoundIn(elements[0]));
      ElementsOrdered(elements[1..], first + 1);
      forall x, y | x in head && y in FoundInElements(elements[1..], first + 1)
        ensures PositionLess(x.at, y.at)
      {
        BelowMembers(Index(first), FoundIn(elements[0]), x);
        ElementsIff(elements[1..], first + 1, y);
      }
      OrderedConcat(head, FoundInElements(elements[1..], first + 1));
    }
  }

  lemma {:induction false} PathIrreflexive(a: seq<Step>)
    ensures !PathLess(a, a)
  {
    if a != [] {
      if a[0].Key? { LessIrreflexive(a[0].key); }
      PathIrreflexive(a[1..]);
    }
  }

  /**
   What the collector appends: the entries of exactly the error positions of the tree,
   in traversal order (members by key, outer arrays first) and each position once.
   */
  lemma CollectedErrors(v: Value)
    requires WellFormed(v)
    ensures Errors(v) == EntriesOf(FoundIn(v))
    ensures forall f :: f in FoundIn(v) <==> Genuine(v, f)
    ensures Ordered(FoundIn(v))
    ensures forall i, j :: 0 <= i < j < |FoundIn(v)| ==> FoundIn(v)[i].at != FoundIn(v)[j].at
  {
    LabelledErrors(v);
    forall f ensures f in FoundIn(v) <==> Genuine(v, f) {
      FoundIffGenuine(v, f);
    }
    FoundOrdered(v);
    forall i, j | 0 <= i < j < |FoundIn(v)| ensures FoundIn(v)[i].at != FoundIn(v)[j].at {
      PathIrreflexive(FoundIn(v)[i].at.path);
    }
  }

  // ---------- the same, read off the tree alone ----------

  lemma {:induction false} AtConcat(v: Value, a: seq<Step>, b: seq<Step>)
    ensures At(v, a + b) == if At(v, a).None? then None else At(At(v, a).value, b)
    decreases |a|
  {
    if a == [] {
      assert a + b == b;
    } else {
      var path := a + b;
      assert path[0] == a[0] && path[1..] == a[1..] + b;
      if a[0].Key? && v.Object? && Get(v.entries, a[0].key).Some? {
        AtConcat(Get(v.entries, a[0].key).value, a[1..], b);
      } else if a[0].Index? && v.Array? && a[0].index < |v.elements| {
        AtConcat(v.elements[a[0].index], a[1..], b);
      }
    }
  }

  lemma AtOne(v: Value, step: Step)
    ensures At(v, [step]) == if step.Key? && v.Object? then Get(v.entries, step.key)
                             else if step.Index? && v.Array? && step.index < |v.elements|
                                  then Some(v.elements[step.index]) else None
  {
    assert [step][1..] == [];
  }

  /** The element at this position has a member `key`, and it is the string `s`. */
  predicate MemberIs(v: Value, at: Position, key: string, s: seq<byte>)
    requires IsAscii(key)
  {
    At(v, at.path + [Index(at.index), Key(Ascii(key))]) == Some(String(s))
  }

  lemma MemberOfElement(v: Value, at: Position, key: seq<byte>, s: seq<byte>)
    ensures At(v, at.path + [Index(at.index), Key(key)]) == Some(String(s)) <==>
            var list := At(v, at.path);
            list.Some? && list.value.Array? && at.index < |list.value.elements|
            && var status := list.value.elements[at.index];
               status.Object? && StringMember(status.entries, key) == Some(s)
  {
    AtConcat(v, at.path, [Index(at.index), Key(key)]);
    if At(v, at.path).Some? {
      var list := At(v, at.path).value;
      AtConcat(list, [Index(at.index)], [Key(key)]);
      assert [Index(at.index)] + [Key(key)] == [Index(at.index), Key(key)];
      AtOne(list, Index(at.index));
      if At(list, [Index(at.index)]).Some? { AtOne(At(list, [Index(at.index)]).value, Key(key)); }
    }
  }

  lemma KeySpellings()
    ensures STATUS == Ascii("status") && ERROR == Ascii("error")
    ensures CODE == Ascii("code") && IDENT == Ascii("ident") && MESSAGE == Ascii("message")
  {}

  /**
   A position is collected exactly when it lies in an array under the key `status` and the
   member `status` of the value there is the string `error`.
   */
  lemma CollectedExactly(v: Value, at: Position)
    requires WellFormed(v)
    ensures (exists f :: f in FoundIn(v) && f.at == at) <==>
            at.path != [] && at.path[|at.path| - 1] == Key(Ascii("status"))
            && MemberIs(v, at, "status", Ascii("error"))
  {
    KeySpellings();
    MemberOfElement(v, at, STATUS, ERROR);
    if IsErrorPosition(v, at) {
      var f := Found(at, EntryOf(At(v, at.path).value.elements[at.index]));
      FoundIffGenuine(v, f);
    }
    if f :| f in FoundIn(v) && f.at == at { FoundIffGenuine(v, f); }
  }

  /** Each field of a collected entry is the string member of that name, where there is one. */
  lemma EntryReadsMembers(v: Value, f: Found, s: seq<byte>)
    requires WellFormed(v) && f in FoundIn(v)
    ensures f.entry.code == Some(s) <==> MemberIs(v, f.at, "code", s)
    ensures f.entry.ident == Some(s) <==> MemberIs(v, f.at, "ident", s)
    ensures f.entry.message == Some(s) <==> MemberIs(v, f.at, "message", s)
  {
    KeySpellings();
    FoundIffGenuine(v, f);
    MemberOfElement(v, f.at, CODE, s);
    MemberOfElement(v, f.at, IDENT, s);
    MemberOfElement(v, f.at, MESSAGE, s);
  }

  // ---------- decoding a response ----------

  /** An error anywhere makes the tree mention both strings that the prefilter looks for. */
  lemma {:induction false} ErrorsMention(v: Value)
    requires Errors(v) != []
    ensures Mentions(v, STATUS) && Mentions(v, ERROR)
  {
    match v
    case Object(entries) =>
      var i := EntryWithErrors(entries);
      assert Mentions(entries[i].value, STATUS) || entries[i].key == STATUS;
    case Array(elements) =>
      var i := ElementWithErrors(elements);
  }

  lemma {:induction false} EntryWithErrors(entries: seq<Entry<Value>>) returns (i: nat)
    requires EntriesErrors(entries) != []
    ensures i < |entries| && (entries[i].key == STATUS || Mentions(entries[i].value, STATUS))
    ensures Mentions(entries[i].value, ERROR)
  {
    var e := entries[0];
    i := 0;
    if HoldsStatuses(e) && Harvest(e.value.elements) != [] {
      var k := HarvestedStatus(e.value.elements);
    } else if Errors(e.value) != [] {
      ErrorsMention(e.value);
    } else {
      i := EntryWithErrors(entries[1..]);
      i := i + 1;
    }
  }

  lemma {:induction false} ElementWithErrors(elements: seq<Value>) returns (i: nat)
    requires ElementsErrors(elements) != []
    ensures i < |elements| && Mentions(elements[i], STATUS) && Mentions(elements[i], ERROR)
  {
    i := 0;
    if Errors(elements[0]) != [] {
      ErrorsMention(elements[0]);
    } else {
      i := ElementWithErrors(elements[1..]);
      i := i + 1;
    }
  }

  lemma {:induction false} HarvestedStatus(statuses: seq<Value>) returns (k: nat)
    requires Harvest(statuses) != []
    ensures k < |statuses| && Mentions(statuses[k], ERROR)
  {
    if IsError(statuses[0]) {
      k := 0;
      var members := statuses[0].entries;
      assert Entry(STATUS, String(ERROR)) in members;
      var i :| 0 <= i < |members| && members[i] == Entry(STATUS, String(ERROR));
      assert Mentions(members[i].value, ERROR);
    } else {
      k := HarvestedStatus(statuses[1..]);
      k := k + 1;
    }
  }

  /**
   The prefilter hides no error: if the tree of a JSON text, in any spelling and with any
   whitespace, holds an RCI error, the text is inspected.
   */
  lemma ErrorsAreInspected(document: Item, bytes: seq<byte>)
    requires Writes(document, bytes) && Errors(Tree(document.value)) != []
    ensures NeedsInspection(bytes)
  {
    ErrorsMention(Tree(document.value));
    ExpectedArePlain();
    MentionedIsFound(document, bytes, STATUS);
    MentionedIsFound(document, bytes, ERROR);
  }

  /** A parser that accepts only JSON texts, possibly not all, and builds their trees. */
  ghost predicate SoundParser(parse: seq<byte> -> Option<Value>) {
    forall bytes :: parse(bytes).Some? ==>
      exists document :: Writes(document, bytes) && Tree(document.value) == parse(bytes).value
  }

  /** The most permissive sound parser: it accepts every JSON text. */
  ghost function ReferenceParse(bytes: seq<byte>): Option<Value> {
    if document :| Writes(document, bytes) then Some(Tree(document.value)) else None
  }

  lemma ReferenceParserIsSound(document: Item, bytes: seq<byte>)
    ensures SoundParser(ReferenceParse)
    ensures Writes(document, bytes) ==> ReferenceParse(bytes).Some?
  {}

  datatype Decoded<+T> = Typed(value: T) | RciErrors(entries: seq<StatusEntry>) | InvalidJson | Mismatch

  /** What typed decoding alone may answer. */
  type TypedResult<T> = r: Decoded<T> | !r.RciErrors? witness InvalidJson

  method DecodeJsonResponse<T>(bytes: seq<byte>, parse: seq<byte> -> Option<Value>,
                               fromTree: Value -> TypedResult<T>, fromBytes: seq<byte> -> TypedResult<T>)
    returns (r: Decoded<T>)
    requires SoundParser(parse)
    ensures r.RciErrors? <==> parse(bytes).Some? && Errors(parse(bytes).value) != []
    ensures r.RciErrors? ==> r.entries == Errors(parse(bytes).value)
    ensures !r.RciErrors? && NeedsInspection(bytes) && parse(bytes).Some? ==> r == fromTree(parse(bytes).value)
    ensures NeedsInspection(bytes) && parse(bytes).None? ==> r == InvalidJson
    ensures !NeedsInspection(bytes) ==> r == fromBytes(bytes)
  {
    var inspect := NeedsRciInspection(bytes);
    if inspect {
      var value := parse(bytes);
      if value.None? {
        return InvalidJson;
      }
      var collector := new Collector();
      collector.Collect(value.value);
      if collector.entries != [] {
        return RciErrors(collector.entries);
      }
      return fromTree(value.value);
    }
    if parse(bytes).Some? && Errors(parse(bytes).value) != [] {
      ghost var document :| Writes(document, bytes) && Tree(document.value) == parse(bytes).value;
      ErrorsAreInspected(document, bytes);
    }
    r := fromBytes(bytes);
  }
}
