/** The hash table: an application-ordered list and bucket chains over the same elements. */
module UtHash {
  import opened Basics
  import opened StableSort
  import opened UtHandle
  import opened UtSort
  import opened UtTable

  ghost function Elements(s: seq<Handle>): set<Handle> {
    set h | h in s
  }

  class Hash {
    var head: Handle?
    var tbl: Table?
    const hasBloom: bool
    const bloomNbits: nat
    ghost var app: seq<Handle>

    /** The table and its arrays. */
    ghost function Repr(): set<object?>
      reads this`tbl, tbl
    {
      if tbl == null then {} else {tbl, tbl.buckets, tbl.bloomBv}
    }

    /** The integrity that HASH_FSCK checks. Without elements there is no table; otherwise the
        application list runs from head to tail and the chains hold exactly its elements. */
    ghost predicate Valid()
      reads this, tbl, Repr(), app
    {
      && (app == [] <==> head == null) && (tbl == null <==> head == null)
      && (tbl != null ==> ListOk(app, head, tbl.tail) && tbl.Holds(Elements(app)))
    }

    constructor (hasBloom: bool, bloomNbits: nat)
      ensures Valid() && app == []
    {
      head, tbl, app := null, null, [];
      this.hasBloom, this.bloomNbits := hasBloom, bloomNbits;
    }

    /** Enter an element that is already in the application list into the chains. */
    method Enter(add: Handle, ghost items: set<Handle>, ghost after: seq<Handle>)
      requires tbl != null && tbl.Holds(items) && add !in items
      requires ListOk(after, head, tbl.tail) && Elements(after) == items + {add}
      modifies this`app, tbl, tbl.buckets, tbl.bloomBv
      modifies items`hhPrev, items`hhNext, add`hhPrev, add`hhNext
      ensures Valid() && app == after
      ensures tbl.buckets == old(tbl.buckets) || fresh(tbl.buckets)
    {
      tbl.AddToTable(add, items);
      Adopt(after);
    }

    ghost method Adopt(after: seq<Handle>)
      requires tbl != null && ListOk(after, head, tbl.tail) && tbl.Holds(Elements(after))
      modifies this`app
      ensures Valid() && app == after
    {
      app := after;
    }

    /** Start a table with its first element. */
    method First(add: Handle)
      requires head == null
      modifies this, add`next, add`prev
      ensures tbl != null && fresh(tbl) && fresh(tbl.buckets) && fresh(tbl.bloomBv) && tbl.Holds({})
      ensures ListOk([add], head, tbl.tail)
    {
      add.next := null;
      add.prev := null;
      tbl := new Table(add, hasBloom, bloomNbits);
      head := add;
    }

    /** HASH_APPEND_LIST */
    method AppendList(add: Handle)
      requires tbl != null && ListOk(app, head, tbl.tail) && add !in app && tbl.Holds(Elements(app))
      modifies tbl`tail, app`next, add`next, add`prev
      ensures ListOk(app + [add], head, tbl.tail) && tbl.Holds(Elements(app))
    {
      Append(tbl.tail, add, app);
      tbl.tail := add;
    }

    method AddFirst(add: Handle)
      requires Valid() && head == null
      modifies this, add
      ensures Valid() && app == [add]
      ensures fresh(Repr())
    {
      First(add);
      Enter(add, {}, [add]);
    }

    method AddLast(add: Handle)
      requires Valid() && head != null && add !in app
      modifies this, Repr(), Elements(app), add
      ensures Valid() && app == old(app) + [add]
      ensures fresh(Repr() - old(Repr()))
    {
      AppendList(add);
      Enter(add, Elements(app), app + [add]);
    }

    /** HASH_ADD_KEYPTR_BYHASHVALUE */
    method Add(add: Handle)
      requires Valid() && add !in app
      modifies this, Repr(), Elements(app), add
      ensures Valid() && app == old(app) + [add]
      ensures fresh(Repr() - old(Repr()))
    {
      if head == null {
        AddFirst(add);
      } else {
        AddLast(add);
      }
    }

    /** The walk of HASH_ADD_INORDER: the first element greater than add, or no element. */
    method FirstGreater(cmp: Cmp<Handle>, add: Handle) returns (iter: Handle?)
      requires Valid() && head != null
      ensures iter == At(app, InsertAt(cmp, app, add))
    {
      iter := head;
      ghost var k := 0;
      while true
        invariant 0 <= k < |app| && iter == app[k]
        invariant forall i :: 0 <= i < k ==> Le(cmp, app[i], add)
        decreases |app| - k
      {
        if cmp(iter, add) > 0 {
          break;
        }
        iter := iter.next;
        k := k + 1;
        if iter == null {
          break;
        }
      }
      FitsOnlyAt(cmp, app, add, k);
    }

    /** Put add into the application list in front of iter. */
    method SpliceList(iter: Handle, add: Handle, ghost k: nat)
      requires tbl != null && ListOk(app, head, tbl.tail) && add !in app
      requires k < |app| && iter == app[k]
      modifies this`head, app`next, app`prev, add`next, add`prev
      ensures ListOk(Spliced(app, k, add), head, tbl.tail)
    {
      InsertBefore(iter, add, app, k);
      if add.prev == null {
        head := add;
      }
    }

    method SpliceBefore(iter: Handle, add: Handle, ghost k: nat)
      requires tbl != null && ListOk(app, head, tbl.tail) && add !in app
      requires k < |app| && iter == app[k] && tbl.Holds(Elements(app))
      modifies this`head, app`next, app`prev, add`next, add`prev
      ensures ListOk(Spliced(app, k, add), head, tbl.tail) && tbl.Holds(Elements(app))
    {
      SpliceList(iter, add, k);
    }

    method AddBefore(iter: Handle, add: Handle, ghost k: nat)
      requires Valid() && add !in app && k < |app| && iter == app[k]
      modifies this, Repr(), Elements(app), add
      ensures Valid() && app == Spliced(old(app), k, add)
      ensures fresh(Repr() - old(Repr()))
    {
      ghost var items, after := Elements(app), Spliced(app, k, add);
      SplicedElements(app, k, add);
      SpliceBefore(iter, add, k);
      Enter(add, items, after);
    }

    /** Add in front of iter, or at the end if there is none. */
    method AddAt(iter: Handle?, add: Handle, ghost k: nat)
      requires Valid() && add !in app && head != null && k <= |app| && iter == At(app, k)
      modifies this, Repr(), Elements(app), add
      ensures Valid() && app == Spliced(old(app), k, add)
      ensures fresh(Repr() - old(Repr()))
    {
      SplicedLast(app, add);
      if iter != null {
        AddBefore(iter, add, k);
      } else {
        AddLast(add);
      }
    }

    method AddAmong(cmp: Cmp<Handle>, add: Handle, ghost k: nat, ghost repr: set<object?>, ghost items: set<Handle>)
      requires Valid() && add !in app && head != null && k == InsertAt(cmp, app, add)
      requires Repr() == repr && Elements(app) == items
      modifies this, repr, items, add
      ensures Valid() && app == Spliced(old(app), k, add)
      ensures fresh(Repr() - repr)
    {
      var iter := FirstGreater(cmp, add);
      assert Repr() == repr;
      AddAt(iter, add, k);
    }

    /** HASH_ADD_KEYPTR_BYHASHVALUE_INORDER */
    method AddInOrder(cmp: Cmp<Handle>, add: Handle)
      requires Valid() && add !in app
      modifies this, Repr(), Elements(app), add
      ensures Valid() && app == Insert(cmp, old(app), add)
      ensures fresh(Repr() - old(Repr()))
    {
      ghost var k := InsertAt(cmp, app, add);
      InsertIsSplice(cmp, app, add);
      if head == null {
        AddFirst(add);
      } else {
        AddAmong(cmp, add, k, Repr(), Elements(app));
      }
    }

    /** The list part of HASH_SRT */
    method SortApp(cmp: Cmp<Handle>) returns (ghost s: seq<Handle>)
      requires tbl != null && ListOk(app, head, tbl.tail)
      modifies this`head, tbl`tail, app`next, app`prev
      ensures ListOk(s, head, tbl.tail) && s == MergeSort(cmp, app, 1)
    {
      var list, tail;
      list, tail, s := SortList(cmp, app, head, Elements(app));
      tbl.tail := tail;
      head := list;
    }

    /** It does not touch the chains. */
    method SortTable(cmp: Cmp<Handle>) returns (ghost s: seq<Handle>)
      requires tbl != null && ListOk(app, head, tbl.tail) && tbl.Holds(Elements(app))
      modifies this`head, tbl`tail, app`next, app`prev
      ensures ListOk(s, head, tbl.tail) && s == MergeSort(cmp, app, 1)
      ensures tbl.Holds(Elements(app))
    {
      s := SortApp(cmp);
    }

    /** HASH_SRT */
    method Sort(cmp: Cmp<Handle>)
      requires Valid()
      modifies this`head, this`app, (if tbl == null then {} else {tbl})`tail, app`next, app`prev
      ensures Valid() && app == MergeSort(cmp, old(app), 1)
    {
      if head != null {
        ghost var s := SortTable(cmp);
        SortedElements(cmp, app, s);
        Adopt(s);
      }
    }

    /** The application-list part of HASH_DELETE_HH */
    method DetachList(del: Handle, ghost k: nat)
      requires tbl != null && ListOk(app, head, tbl.tail)
      requires k < |app| && app[k] == del && 1 < |app|
      modifies this`head, tbl`tail, app`next, app`prev
      ensures ListOk(Without(app, k), head, tbl.tail)
    {
      if del == tbl.tail {
        tbl.tail := del.prev;
      }
      if del.prev == null {
        head := del.next;
      }
      Detach(del, app, k);
    }

    method DetachApp(del: Handle, ghost k: nat)
      requires tbl != null && ListOk(app, head, tbl.tail) && tbl.Holds(Elements(app))
      requires k < |app| && app[k] == del && 1 < |app|
      modifies this`head, tbl`tail, app`next, app`prev
      ensures ListOk(Without(app, k), head, tbl.tail) && tbl.Holds(Elements(app))
    {
      DetachList(del, k);
    }

    /** Take an element that has left the application list out of the chains. */
    method Leave(del: Handle, ghost items: set<Handle>, ghost after: seq<Handle>)
      requires tbl != null && tbl.Holds(items) && del in items
      requires ListOk(after, head, tbl.tail) && Elements(after) == items - {del}
      modifies this`app, tbl, tbl.buckets, items`hhPrev, items`hhNext
      ensures Valid() && app == after && tbl.buckets == old(tbl.buckets)
    {
      tbl.DelFromTable(del, items);
      Adopt(after);
    }

    /** HASH_DELETE_HH for an element that is not the last one left. */
    method DeleteOne(del: Handle, ghost k: nat)
      requires Valid() && k < |app| && app[k] == del && 1 < |app|
      modifies this, Repr(), Elements(app)
      ensures Valid() && app == Without(old(app), k)
      ensures Repr() == old(Repr())
    {
      ghost var items, after := Elements(app), Without(app, k);
      WithoutElements(app, k);
      DetachApp(del, k);
      Leave(del, items, after);
    }

    /** HASH_DELETE_HH. Deleting the last element frees the table. */
    method Delete(del: Handle)
      requires Valid() && del in app
      modifies this, Repr(), Elements(app)
      ensures Valid() && app == Removed(old(app), del)
      ensures Repr() <= old(Repr())
    {
      ghost var k :| 0 <= k < |app| && app[k] == del;
      RemovedAt(app, k);
      if del.prev == null && del.next == null {
        assert |app| == 1;
        tbl := null;
        head := null;
        app := [];
      } else {
        DeleteOne(del, k);
      }
    }

    /** HASH_FIND_BYHASHVALUE */
    method Find(key: Key, hashval: nat) returns (out: Handle?)
      requires Valid()
      ensures Found(app, key, hashval, out)
    {
      out := null;
      if head != null {
        out := tbl.Find(key, hashval, Elements(app));
      }
    }

    /** Delete and Add where what they may change is given from outside. */
    method DeleteWithin(del: Handle, ghost repr: set<object?>, ghost items: set<Handle>)
      requires Valid() && del in app && Repr() <= repr && Elements(app) <= items
      modifies this, repr, items
      ensures Valid() && app == Removed(old(app), del)
      ensures Repr() <= repr && Elements(app) <= items
    {
      RemovedMembers(app, del);
      Delete(del);
    }

    method AddWithin(add: Handle, ghost repr: set<object?>, ghost items: set<Handle>)
      requires Valid() && add !in app && Repr() <= repr && Elements(app) <= items
      modifies this, repr, items, add
      ensures Valid() && app == old(app) + [add]
      ensures fresh(Repr() - repr)
    {
      ghost var before := Repr();
      Add(add);
      assert Repr() - repr <= Repr() - before;
    }

    /** The delete and add of a replace that finds an element. */
    method Exchange(del: Handle, add: Handle, ghost repr: set<object?>, ghost items: set<Handle>)
      requires Valid() && del in app && add !in app && Repr() <= repr && Elements(app) <= items
      modifies this, repr, items, add
      ensures Valid() && app == Removed(old(app), del) + [add]
      ensures fresh(Repr() - repr)
    {
      RemovedMembers(app, del);
      DeleteWithin(del, repr, items);
      AddWithin(add, repr, items);
    }

    method AddInstead(found: Handle?, add: Handle, ghost repr: set<object?>, ghost items: set<Handle>)
      requires Valid() && add !in app && (found != null ==> found in app)
      requires Repr() <= repr && Elements(app) <= items
      modifies this, repr, items, add
      ensures Valid() && app == Kept(old(app), found) + [add]
      ensures fresh(Repr() - repr)
    {
      if found != null {
        Exchange(found, add, repr, items);
      } else {
        AddWithin(add, repr, items);
      }
    }

    method ReplaceWithin(add: Handle, ghost repr: set<object?>, ghost items: set<Handle>)
      returns (replaced: Handle?)
      requires Valid() && add !in app && Repr() <= repr && Elements(app) <= items
      modifies this, repr, items, add
      ensures Found(old(app), add.key, add.hashv, replaced)
      ensures Valid() && app == Kept(old(app), replaced) + [add]
      ensures fresh(Repr() - repr)
    {
      replaced := Find(add.key, add.hashv);
      AddInstead(replaced, add, repr, items);
    }

    /** HASH_REPLACE_BYHASHVALUE */
    method Replace(add: Handle) returns (replaced: Handle?)
      requires Valid() && add !in app
      modifies this, Repr(), Elements(app), add
      ensures Found(old(app), add.key, add.hashv, replaced)
      ensures Valid() && app == Kept(old(app), replaced) + [add]
      ensures fresh(Repr() - old(Repr()))
    {
      replaced := ReplaceWithin(add, Repr(), Elements(app));
    }
  }

  // ---------- lookup ----------

  ghost predicate UniqueKeys(s: seq<Handle>) {
    forall i, j :: 0 <= i < j < |s| ==> s[i].key != s[j].key
  }

  /** out is an element with the key and hash value, or none if there is no such element. */
  ghost predicate Found(s: seq<Handle>, key: Key, hashval: nat, out: Handle?) {
    && (out != null ==> out in s && Matches(out, key, hashval))
    && (out == null ==> forall h :: h in s ==> !Matches(h, key, hashval))
  }

  ghost function Lookup(s: seq<Handle>, key: Key, hashval: nat): Handle? {
    if |s| == 0 then null
    else if Matches(s[0], key, hashval) then s[0]
    else Lookup(s[1..], key, hashval)
  }

  lemma {:induction false} LookupFinds(s: seq<Handle>, key: Key, hashval: nat, out: Handle?)
    requires Found(s, key, hashval, out)
    ensures UniqueKeys(s) ==> out == Lookup(s, key, hashval)
  {
    if |s| > 0 && UniqueKeys(s) {
      assert s[0] in s;
      if !Matches(s[0], key, hashval) {
        assert forall h :: h in s[1..] ==> h in s;
        LookupFinds(s[1..], key, hashval, out);
      } else {
        var i :| 0 <= i < |s| && s[i] == out;
      }
    }
  }

  // ---------- lists ----------

  /** s without the element h. */
  ghost function Removed(s: seq<Handle>, h: Handle): seq<Handle> {
    if |s| == 0 then []
    else if s[0] == h then s[1..]
    else [s[0]] + Removed(s[1..], h)
  }

  lemma {:induction false} RemovedAt(s: seq<Handle>, k: nat)
    requires Distinct(s) && k < |s|
    ensures Removed(s, s[k]) == Without(s, k) == s[..k] + s[k + 1..]
  {
    if k > 0 {
      var rest := s[1..];
      assert rest[k - 1] == s[k] && s[0] != s[k];
      RemovedAt(rest, k - 1);
      assert Without(s, k) == [s[0]] + Without(rest, k - 1);
    } else {
      assert Without(s, 0) == s[1..];
    }
  }

  lemma {:induction false} RemovedMembers(s: seq<Handle>, h: Handle)
    ensures forall g :: g in Removed(s, h) ==> g in s
  {
    if |s| > 0 && s[0] != h {
      RemovedMembers(s[1..], h);
    }
  }

  /** What a replace leaves of the list. */
  ghost function Kept(s: seq<Handle>, found: Handle?): seq<Handle> {
    if found == null then s else Removed(s, found)
  }

  lemma WithoutElements(s: seq<Handle>, k: nat)
    requires Distinct(s) && k < |s|
    ensures Elements(Without(s, k)) == Elements(s) - {s[k]}
  {
    forall h | h in Elements(s) - {s[k]}
      ensures h in Without(s, k)
    {
      var i :| 0 <= i < |s| && s[i] == h;
      assert Without(s, k)[if i < k then i else i - 1] == h;
    }
  }

  ghost function Spliced(s: seq<Handle>, k: nat, add: Handle): seq<Handle>
    requires k <= |s|
  {
    s[..k] + [add] + s[k..]
  }

  lemma SplicedElements(s: seq<Handle>, k: nat, add: Handle)
    requires k <= |s|
    ensures Elements(Spliced(s, k, add)) == Elements(s) + {add}
  {
    assert s == s[..k] + s[k..];
  }

  lemma SplicedLast(s: seq<Handle>, add: Handle)
    ensures Spliced(s, |s|, add) == s + [add]
  {
  }

  /** k is the place behind everything that is not greater than add. */
  ghost predicate FitsAt(cmp: Cmp<Handle>, s: seq<Handle>, add: Handle, k: nat)
    requires k <= |s|
  {
    (forall i :: 0 <= i < k ==> Le(cmp, s[i], add)) && (k < |s| ==> !Le(cmp, s[k], add))
  }

  lemma FitsOnlyAt(cmp: Cmp<Handle>, s: seq<Handle>, add: Handle, k: nat)
    requires k <= |s| && FitsAt(cmp, s, add, k)
    ensures k == InsertAt(cmp, s, add)
  {
    InsertPlaces(cmp, s, add);
    var m := InsertAt(cmp, s, add);
    assert m <= k && k <= m;
  }

  lemma InsertIsSplice(cmp: Cmp<Handle>, s: seq<Handle>, add: Handle)
    ensures Insert(cmp, s, add) == Spliced(s, InsertAt(cmp, s, add), add)
  {
    InsertPlaces(cmp, s, add);
  }

  lemma SortedElements(cmp: Cmp<Handle>, s: seq<Handle>, t: seq<Handle>)
    requires t == MergeSort(cmp, s, 1)
    ensures Elements(t) == Elements(s)
  {
    MergeSortElements(cmp, s, 1);
    SameElements(s, t);
  }

  lemma SameElements(s: seq<Handle>, t: seq<Handle>)
    requires multiset(s) == multiset(t)
    ensures Elements(s) == Elements(t)
  {
    forall h
      ensures h in Elements(s) <==> h in Elements(t)
    {
      SameMembers(s, t, h);
    }
  }

  ghost predicate ListOk(app: seq<Handle>, head: Handle?, tail: Handle?)
    reads app`prev, app`next
  {
    && 0 < |app| && Distinct(app) && AppLinked(app)
    && head == app[0] && tail == app[|app| - 1]
  }
}
