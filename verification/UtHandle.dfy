/** Elements of the hash table and the two doubly linked lists they sit in. */
module UtHandle {
  import opened Basics

  type Key = seq<Byte>

  /** An element with its hash handle. The key and its hash do not change while it lives. */
  class Handle {
    const key: Key
    const hashv: nat
    var prev: Handle?
    var next: Handle?
    var hhPrev: Handle?
    var hhNext: Handle?

    constructor (key: Key, hashv: nat)
      ensures this.key == key && this.hashv == hashv
    {
      this.key, this.hashv := key, hashv;
      prev, next, hhPrev, hhNext := null, null, null, null;
    }
  }

  /** The element at position i, or no element. */
  function At(s: seq<Handle>, i: int): Handle? {
    if 0 <= i < |s| then s[i] else null
  }

  /** s is the application list: every link points to the neighbour in s. */
  ghost predicate AppLinked(s: seq<Handle>)
    reads s`prev, s`next
  {
    && (forall i {:trigger s[i].prev} :: 0 <= i < |s| ==> s[i].prev == At(s, i - 1))
    && (forall i {:trigger s[i].next} :: 0 <= i < |s| ==> s[i].next == At(s, i + 1))
  }

  /** s without its k-th element. */
  function Without<T>(s: seq<T>, k: nat): seq<T>
    requires k < |s|
  {
    s[..k] + s[k + 1..]
  }

  lemma WithoutDistinct<T>(s: seq<T>, k: nat)
    requires k < |s| && Distinct(s)
    ensures Distinct(Without(s, k))
  {
  }

  /** HASH_APPEND_LIST */
  method Append(tail: Handle, add: Handle, ghost s: seq<Handle>)
    requires 0 < |s| && Distinct(s) && AppLinked(s) && tail == s[|s| - 1] && add !in s
    modifies tail`next, add`next, add`prev
    ensures AppLinked(s + [add]) && Distinct(s + [add])
  {
    add.next := null;
    add.prev := tail;
    tail.next := add;
  }

  /** Put add in front of the k-th element. */
  method InsertBefore(iter: Handle, add: Handle, ghost s: seq<Handle>, ghost k: nat)
    requires k < |s| && Distinct(s) && AppLinked(s) && iter == s[k] && add !in s
    modifies s`next, s`prev, add`next, add`prev
    ensures AppLinked(s[..k] + [add] + s[k..]) && Distinct(s[..k] + [add] + s[k..])
    ensures add.prev == At(s, k - 1)
  {
    add.next := iter;
    add.prev := iter.prev;
    if add.prev != null {
      add.prev.next := add;
    }
    iter.prev := add;
  }

  /** Back links that skip the k-th element are those of the list without it. */
  lemma DetachedBack(s: seq<Handle>, k: nat)
    requires k < |s|
    requires forall i {:trigger s[i].prev} ::
               0 <= i < |s| && i != k ==> s[i].prev == At(s, if i == k + 1 then k - 1 else i - 1)
    ensures var t := Without(s, k); forall i {:trigger t[i].prev} :: 0 <= i < |t| ==> t[i].prev == At(t, i - 1)
  {
    var t := Without(s, k);
    forall i | 0 <= i < |t|
      ensures t[i].prev == At(t, i - 1)
    {
      assert t[i] == s[if i < k then i else i + 1];
    }
  }

  /** Forward links that skip the k-th element are those of the list without it. */
  lemma DetachedForth(s: seq<Handle>, k: nat)
    requires k < |s|
    requires forall i {:trigger s[i].next} ::
               0 <= i < |s| && i != k ==> s[i].next == At(s, if i + 1 == k then k + 1 else i + 1)
    ensures var t := Without(s, k); forall i {:trigger t[i].next} :: 0 <= i < |t| ==> t[i].next == At(t, i + 1)
  {
    var t := Without(s, k);
    forall i | 0 <= i < |t|
      ensures t[i].next == At(t, i + 1)
    {
      assert t[i] == s[if i < k then i else i + 1];
    }
  }

  /** Let the neighbours of the k-th element point past it. */
  method Detach(del: Handle, ghost s: seq<Handle>, ghost k: nat)
    requires k < |s| && Distinct(s) && AppLinked(s) && del == s[k]
    modifies s`next, s`prev
    ensures AppLinked(Without(s, k)) && Distinct(Without(s, k))
  {
    if del.prev != null {
      del.prev.next := del.next;
    }
    if del.next != null {
      del.next.prev := del.prev;
    }
    WithoutDistinct(s, k);
    DetachedBack(s, k);
    DetachedForth(s, k);
  }
}
