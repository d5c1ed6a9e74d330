/** Whole runs of table operations: what the list becomes, and the finite map they implement. */
module UtRun {
  import opened Basics
  import opened StableSort
  import opened UtHandle
  import opened UtTable
  import opened UtHash

  datatype Op =
    | OpAdd(h: Handle)
    | OpAddInOrder(cmp: Cmp<Handle>, h: Handle)
    | OpReplace(h: Handle)
    | OpDelete(h: Handle)
    | OpSort(cmp: Cmp<Handle>)

  /** The application list after one operation. */
  ghost function Apply(s: seq<Handle>, op: Op): seq<Handle> {
    match op
    case OpAdd(h) => s + [h]
    case OpAddInOrder(cmp, h) => Insert(cmp, s, h)
    case OpReplace(h) => Kept(s, Lookup(s, h.key, h.hashv)) + [h]
    case OpDelete(h) => Removed(s, h)
    case OpSort(cmp) => MergeSort(cmp, s, 1)
  }

  /** The finite map after one operation. */
  ghost function MapStep(m: map<Key, Handle>, op: Op): map<Key, Handle> {
    match op
    case OpAdd(h) => m[h.key := h]
    case OpAddInOrder(cmp, h) => m[h.key := h]
    case OpReplace(h) => m[h.key := h]
    case OpDelete(h) => m - {h.key}
    case OpSort(cmp) => m
  }

  /** What the callers of the operations promise: a new element is not in the table yet and,
      unless it replaces, brings a new key; a deleted element is there. */
  ghost predicate Legal(hash: Key -> nat, s: seq<Handle>, op: Op) {
    match op
    case OpAdd(h) => h !in s && h.hashv == hash(h.key) && NewKey(s, h)
    case OpAddInOrder(cmp, h) => h !in s && h.hashv == hash(h.key) && NewKey(s, h)
    case OpReplace(h) => h !in s && h.hashv == hash(h.key)
    case OpDelete(h) => h in s
    case OpSort(cmp) => true
  }

  ghost predicate NewKey(s: seq<Handle>, h: Handle) {
    forall g :: g in s ==> g.key != h.key
  }

  ghost predicate LegalRun(hash: Key -> nat, s: seq<Handle>, ops: seq<Op>)
    decreases |ops|
  {
    |ops| == 0 || (Legal(hash, s, ops[0]) && LegalRun(hash, Apply(s, ops[0]), ops[1..]))
  }

  ghost function RunApp(s: seq<Handle>, ops: seq<Op>): seq<Handle>
    decreases |ops|
  {
    if |ops| == 0 then s else RunApp(Apply(s, ops[0]), ops[1..])
  }

  ghost function RunMap(m: map<Key, Handle>, ops: seq<Op>): map<Key, Handle>
    decreases |ops|
  {
    if |ops| == 0 then m else RunMap(MapStep(m, ops[0]), ops[1..])
  }

  /** Keys are unique among the elements and hash values are those of the keys. */
  ghost predicate Keyed(hash: Key -> nat, items: set<Handle>) {
    && (forall h :: h in items ==> h.hashv == hash(h.key))
    && (forall h, g :: h in items && g in items && h.key == g.key ==> h == g)
  }

  /** m maps the key of every element to the element, and nothing else. */
  ghost predicate MapOf(items: set<Handle>, m: map<Key, Handle>) {
    && (forall h :: h in items ==> h.key in m && m[h.key] == h)
    && (forall k :: k in m ==> m[k] in items && m[k].key == k)
  }

  lemma KeyedIsUnique(hash: Key -> nat, s: seq<Handle>)
    requires Distinct(s) && Keyed(hash, Elements(s))
    ensures UniqueKeys(s)
  {
    forall i, j | 0 <= i < j < |s|
      ensures s[i].key != s[j].key
    {
      assert s[i] in Elements(s) && s[j] in Elements(s);
    }
  }

  /** Looking a key up in the list is looking it up in the map. */
  lemma LookupIsMapLookup(hash: Key -> nat, s: seq<Handle>, m: map<Key, Handle>, key: Key)
    requires Distinct(s) && Keyed(hash, Elements(s)) && MapOf(Elements(s), m)
    ensures Lookup(s, key, hash(key)) == if key in m then m[key] else null
  {
    KeyedIsUnique(hash, s);
    var out: Handle? := if key in m then m[key] else null;
    LookupFinds(s, key, hash(key), out);
  }

  lemma RemovedElements(s: seq<Handle>, h: Handle)
    requires Distinct(s) && h in s
    ensures Elements(Removed(s, h)) == Elements(s) - {h}
  {
    var k :| 0 <= k < |s| && s[k] == h;
    RemovedAt(s, k);
    WithoutElements(s, k);
  }

  lemma InsertedElements(cmp: Cmp<Handle>, s: seq<Handle>, h: Handle)
    ensures Elements(Insert(cmp, s, h)) == Elements(s) + {h}
  {
    InsertElements(cmp, s, h);
    SameElements(s + [h], Insert(cmp, s, h));
    assert Elements(s + [h]) == Elements(s) + {h};
  }

  /** The effect of an operation on the set of elements. */
  ghost function SetStep(items: set<Handle>, s: seq<Handle>, op: Op): set<Handle> {
    match op
    case OpAdd(h) => items + {h}
    case OpAddInOrder(cmp, h) => items + {h}
    case OpReplace(h) => (set g | g in items && g.key != h.key) + {h}
    case OpDelete(h) => items - {h}
    case OpSort(cmp) => items
  }

  lemma KeptElements(hash: Key -> nat, s: seq<Handle>, h: Handle)
    requires Distinct(s) && Keyed(hash, Elements(s)) && h.hashv == hash(h.key)
    ensures Elements(Kept(s, Lookup(s, h.key, h.hashv))) == set g | g in Elements(s) && g.key != h.key
  {
    KeyedIsUnique(hash, s);
    LookupMeans(s, h.key, h.hashv);
    var found := Lookup(s, h.key, h.hashv);
    forall g | g in s && g.key == h.key
      ensures g == found
    {
      assert g in Elements(s);
      assert found in Elements(s);
    }
    if found != null {
      RemovedElements(s, found);
    }
  }

  lemma {:induction false} LookupMeans(s: seq<Handle>, key: Key, hashval: nat)
    ensures Found(s, key, hashval, Lookup(s, key, hashval))
  {
    if |s| > 0 {
      LookupMeans(s[1..], key, hashval);
    }
  }

  lemma ApplyElements(hash: Key -> nat, s: seq<Handle>, op: Op)
    requires Distinct(s) && Keyed(hash, Elements(s)) && Legal(hash, s, op)
    ensures Elements(Apply(s, op)) == SetStep(Elements(s), s, op)
  {
    match op
    case OpAdd(h) =>
    case OpAddInOrder(cmp, h) => InsertedElements(cmp, s, h);
    case OpReplace(h) => KeptElements(hash, s, h);
    case OpDelete(h) => RemovedElements(s, h);
    case OpSort(cmp) =>
      MergeSortElements(cmp, s, 1);
      SameElements(s, MergeSort(cmp, s, 1));
  }

  /** One operation keeps the keys unique and moves the map along. */
  lemma StepRefinesMap(hash: Key -> nat, s: seq<Handle>, op: Op, m: map<Key, Handle>)
    requires Distinct(s) && Keyed(hash, Elements(s)) && Legal(hash, s, op) && MapOf(Elements(s), m)
    ensures Keyed(hash, Elements(Apply(s, op)))
    ensures MapOf(Elements(Apply(s, op)), MapStep(m, op))
  {
    ApplyElements(hash, s, op);
    assert forall h :: h in Elements(s) <==> h in s;
  }

  ghost function Touched(op: Op): set<Handle> {
    if op.OpSort? then {} else {op.h}
  }

  ghost function Added(ops: seq<Op>): set<Handle> {
    set op | op in ops && !op.OpSort? :: op.h
  }

  method Perform(t: Hash, op: Op, ghost hash: Key -> nat)
    requires t.Valid() && Keyed(hash, Elements(t.app)) && Legal(hash, t.app, op)
    modifies t, t.Repr(), Elements(t.app), Touched(op)
    ensures t.Valid() && t.app == Apply(old(t.app), op)
    ensures fresh(t.Repr() - old(t.Repr()))
  {
    match op
    case OpAdd(h) => t.Add(h);
    case OpAddInOrder(cmp, h) => t.AddInOrder(cmp, h);
    case OpReplace(h) =>
      KeyedUnique(t, hash);
      var replaced := t.Replace(h);
      LookupFinds(old(t.app), h.key, h.hashv, replaced);
    case OpDelete(h) => t.Delete(h);
    case OpSort(cmp) => t.Sort(cmp);
  }

  lemma KeyedUnique(t: Hash, hash: Key -> nat)
    requires t.Valid() && Keyed(hash, Elements(t.app))
    ensures UniqueKeys(t.app)
  {
    if t.app != [] {
      KeyedIsUnique(hash, t.app);
    }
  }

  /** A valid table with unique keys whose elements are those of m. */
  ghost predicate Implements(t: Hash, hash: Key -> nat, m: map<Key, Handle>)
    reads t, t.tbl, t.Repr(), Elements(t.app)
  {
    t.Valid() && Keyed(hash, Elements(t.app)) && MapOf(Elements(t.app), m)
  }

  method Step(t: Hash, op: Op, ghost hash: Key -> nat, ghost m: map<Key, Handle>)
    requires Implements(t, hash, m) && Legal(hash, t.app, op)
    modifies t, t.Repr(), Elements(t.app), Touched(op)
    ensures Implements(t, hash, MapStep(m, op)) && t.app == Apply(old(t.app), op)
    ensures fresh(t.Repr() - old(t.Repr()))
    ensures Elements(t.app) <= old(Elements(t.app)) + Touched(op)
  {
    ValidDistinct(t);
    StepRefinesMap(hash, t.app, op, m);
    ApplyElements(hash, t.app, op);
    Perform(t, op, hash);
  }

  /** Any run of legal operations from any valid table: the integrity conditions hold at its
      end, the application list is the one the operations call for, keys are still unique, and
      the elements are those of the finite map that the run describes. */
  method Run(t: Hash, ops: seq<Op>, ghost hash: Key -> nat, ghost m: map<Key, Handle>)
    requires Implements(t, hash, m) && LegalRun(hash, t.app, ops)
    modifies t, t.Repr(), Elements(t.app), Added(ops)
    ensures Implements(t, hash, RunMap(m, ops)) && t.app == RunApp(old(t.app), ops)
    decreases |ops|
  {
    if |ops| > 0 {
      AddedSplit(ops);
      Step(t, ops[0], hash, m);
      Run(t, ops[1..], hash, MapStep(m, ops[0]));
    }
  }

  lemma AddedSplit(ops: seq<Op>)
    requires 0 < |ops|
    ensures Added(ops) == Touched(ops[0]) + Added(ops[1..])
  {
    assert ops == [ops[0]] + ops[1..];
  }

  lemma ValidDistinct(t: Hash)
    requires t.Valid()
    ensures Distinct(t.app)
  {
  }

  /** After the run a lookup finds what the map holds. */
  method RunThenFind(t: Hash, ops: seq<Op>, key: Key, hashval: nat, ghost hash: Key -> nat, ghost m: map<Key, Handle>)
    returns (out: Handle?)
    requires Implements(t, hash, m) && LegalRun(hash, t.app, ops) && hashval == hash(key)
    modifies t, t.Repr(), Elements(t.app), Added(ops)
    ensures out == if key in RunMap(m, ops) then RunMap(m, ops)[key] else null
  {
    Run(t, ops, hash, m);
    out := FindInMap(t, key, hashval, hash, RunMap(m, ops));
  }

  method FindInMap(t: Hash, key: Key, hashval: nat, ghost hash: Key -> nat, ghost m: map<Key, Handle>)
    returns (out: Handle?)
    requires Implements(t, hash, m) && hashval == hash(key)
    ensures out == if key in m then m[key] else null
  {
    out := t.Find(key, hashval);
    ValidDistinct(t);
    KeyedIsUnique(hash, t.app);
    LookupFinds(t.app, key, hashval, out);
    LookupIsMapLookup(hash, t.app, m, key);
  }

  // ---------- what runs mean ----------

  /** The operation concerns the key. */
  predicate Concerns(op: Op, key: Key) {
    !op.OpSort? && op.h.key == key
  }

  /** The operation at i is the last one on the key. */
  predicate LastOn(ops: seq<Op>, key: Key, i: nat)
    requires i < |ops|
  {
    Concerns(ops[i], key) && (forall j :: i < j < |ops| ==> !Concerns(ops[j], key))
  }

  /** The last operation on a key decides: after a delete the map does not have the key, after any
      other it has the element of that operation, and without any it is as it was. */
  lemma {:induction false} LastOperationDecides(m: map<Key, Handle>, ops: seq<Op>, key: Key)
    ensures (forall i :: 0 <= i < |ops| ==> !Concerns(ops[i], key)) ==>
              (key in RunMap(m, ops) <==> key in m) && (key in m ==> RunMap(m, ops)[key] == m[key])
    ensures forall i :: 0 <= i < |ops| && LastOn(ops, key, i) ==>
                if ops[i].OpDelete? then key !in RunMap(m, ops)
                else key in RunMap(m, ops) && RunMap(m, ops)[key] == ops[i].h
    decreases |ops|
  {
    if |ops| > 0 {
      var m', rest := MapStep(m, ops[0]), ops[1..];
      assert forall i :: 0 <= i < |rest| ==> rest[i] == ops[i + 1];
      LastOperationDecides(m', rest, key);
      forall i | 0 <= i < |ops| && LastOn(ops, key, i)
        ensures if ops[i].OpDelete? then key !in RunMap(m, ops)
                else key in RunMap(m, ops) && RunMap(m, ops)[key] == ops[i].h
      {
        if i > 0 {
          assert LastOn(rest, key, i - 1);
        } else {
          assert forall j :: 0 <= j < |rest| ==> !Concerns(rest[j], key);
        }
      }
    }
  }

  /** The list after each operation: an addition and a replacement put the element last, and a
      replacement first takes out the one with the key; an ordered addition puts it behind
      everything not greater and before the first that is; a deletion takes out that element
      alone; a sort is stable. */
  lemma ApplyMeans(hash: Key -> nat, s: seq<Handle>, op: Op)
    requires Distinct(s) && Keyed(hash, Elements(s)) && Legal(hash, s, op)
    ensures op.OpAdd? ==> Apply(s, op) == s + [op.h]
    ensures op.OpReplace? && (forall i :: 0 <= i < |s| ==> s[i].key != op.h.key) ==> Apply(s, op) == s + [op.h]
    ensures forall k :: 0 <= k < |s| && op.OpReplace? && s[k].key == op.h.key ==>
              Apply(s, op) == s[..k] + s[k + 1..] + [op.h]
    ensures forall k :: 0 <= k < |s| && op.OpDelete? && s[k] == op.h ==> Apply(s, op) == s[..k] + s[k + 1..]
    ensures op.OpAddInOrder? ==>
              exists k :: 0 <= k <= |s| && PlacedAt(op.cmp, s, op.h, k) && Apply(s, op) == s[..k] + [op.h] + s[k..]
    ensures op.OpSort? && PreorderOn(op.cmp, s) ==> StableSortOf(op.cmp, s, Apply(s, op))
  {
    match op
    case OpAdd(h) =>
    case OpAddInOrder(cmp, h) =>
      InsertPlaces(cmp, s, h);
      assert PlacedAt(cmp, s, h, InsertAt(cmp, s, h));
    case OpReplace(h) =>
      KeyedIsUnique(hash, s);
      LookupMeans(s, h.key, h.hashv);
      forall k | 0 <= k < |s| && s[k].key == h.key
        ensures Apply(s, op) == s[..k] + s[k + 1..] + [h]
      {
        assert s[k] in Elements(s) && Matches(s[k], h.key, h.hashv);
        assert Lookup(s, h.key, h.hashv) == s[k];
        RemovedAt(s, k);
      }
    case OpDelete(h) =>
      forall k | 0 <= k < |s| && s[k] == h
        ensures Apply(s, op) == s[..k] + s[k + 1..]
      {
        RemovedAt(s, k);
      }
    case OpSort(cmp) =>
      if PreorderOn(cmp, s) {
        MergeSortIsStable(cmp, s);
      }
  }

  ghost predicate PlacedAt(cmp: Cmp<Handle>, s: seq<Handle>, h: Handle, k: nat)
    requires k <= |s|
  {
    (forall i :: 0 <= i < k ==> cmp(s[i], h) <= 0) && (k < |s| ==> cmp(s[k], h) > 0)
  }

  // ---------- ordered adds against a sort at the end ----------

  ghost function Adds(hs: seq<Handle>): seq<Op> {
    seq(|hs|, i requires 0 <= i < |hs| => OpAdd(hs[i]))
  }

  ghost function OrderedAdds(cmp: Cmp<Handle>, hs: seq<Handle>): seq<Op> {
    seq(|hs|, i requires 0 <= i < |hs| => OpAddInOrder(cmp, hs[i]))
  }

  lemma {:induction false} RunAppend(s: seq<Handle>, ops: seq<Op>, op: Op)
    ensures RunApp(s, ops + [op]) == Apply(RunApp(s, ops), op)
    decreases |ops|
  {
    if |ops| == 0 {
      assert ops + [op] == [op];
      assert RunApp(Apply(s, op), [op][1..]) == Apply(s, op);
    } else {
      assert (ops + [op])[0] == ops[0] && (ops + [op])[1..] == ops[1..] + [op];
      RunAppend(Apply(s, ops[0]), ops[1..], op);
    }
  }

  lemma {:induction false} AddsRun(hs: seq<Handle>)
    ensures RunApp([], Adds(hs)) == hs
    decreases |hs|
  {
    if |hs| > 0 {
      var init, h := hs[..|hs| - 1], hs[|hs| - 1];
      AddsRun(init);
      assert Adds(hs) == Adds(init) + [OpAdd(h)];
      RunAppend([], Adds(init), OpAdd(h));
      assert hs == init + [h];
    }
  }

  lemma {:induction false} OrderedAddsRun(cmp: Cmp<Handle>, hs: seq<Handle>)
    ensures RunApp([], OrderedAdds(cmp, hs)) == InsertAll(cmp, hs)
    decreases |hs|
  {
    if |hs| > 0 {
      var init, op := hs[..|hs| - 1], OpAddInOrder(cmp, hs[|hs| - 1]);
      OrderedAddsRun(cmp, init);
      assert OrderedAdds(cmp, hs) == OrderedAdds(cmp, init) + [op];
      RunAppend([], OrderedAdds(cmp, init), op);
    }
  }

  /** Adding elements in order one by one leaves the list that plain adds and one sort leave. */
  lemma OrderedAddsAreAddsAndSort(cmp: Cmp<Handle>, hs: seq<Handle>)
    requires Distinct(hs) && PreorderOn(cmp, hs)
    ensures RunApp([], OrderedAdds(cmp, hs)) == RunApp([], Adds(hs) + [OpSort(cmp)])
    ensures StableSortOf(cmp, hs, RunApp([], OrderedAdds(cmp, hs)))
  {
    AddsRun(hs);
    OrderedAddsRun(cmp, hs);
    RunAppend([], Adds(hs), OpSort(cmp));
    SortIsInsertion(cmp, hs);
    MergeSortIsStable(cmp, hs);
  }
}
