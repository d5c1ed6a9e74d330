/** Bottom-up merge sort and ordered insertion on sequences, and why they are stable sorts.

    `MergeSort` follows the passes of HASH_SRT, `Insert` the walk of HASH_ADD_INORDER.
 */
module StableSort {
  import opened Basics

  type Cmp<!T> = (T, T) -> int

  predicate Le<T>(cmp: Cmp<T>, x: T, y: T) {
    cmp(x, y) <= 0
  }

  /** The comparator is a total preorder on the elements of s. */
  ghost predicate PreorderOn<T>(cmp: Cmp<T>, s: seq<T>) {
    && (forall x, y :: x in s && y in s ==> Le(cmp, x, y) || Le(cmp, y, x))
    && (forall x, y, z :: x in s && y in s && z in s && Le(cmp, x, y) && Le(cmp, y, z) ==> Le(cmp, x, z))
  }

  /** x may stand before y when x is not greater, and came first if the two compare equal. */
  ghost predicate Prec<T>(cmp: Cmp<T>, rank: T -> int, x: T, y: T) {
    Le(cmp, x, y) && (Le(cmp, y, x) ==> rank(x) < rank(y))
  }

  ghost predicate Ordered<T>(cmp: Cmp<T>, rank: T -> int, s: seq<T>) {
    forall i, j :: 0 <= i < j < |s| ==> Prec(cmp, rank, s[i], s[j])
  }

  ghost function IndexIn<T>(s: seq<T>, x: T): int {
    if |s| == 0 || s[0] == x then 0 else 1 + IndexIn(s[1..], x)
  }

  /** t is s rearranged in order, with elements that compare equal as they stood in s. */
  ghost predicate StableSortOf<T>(cmp: Cmp<T>, s: seq<T>, t: seq<T>) {
    && multiset(t) == multiset(s)
    && Ordered(cmp, x => IndexIn(s, x), t)
  }

  // ---------- the algorithms ----------

  function Take<T>(s: seq<T>, k: nat): seq<T> {
    if k < |s| then s[..k] else s
  }

  function Drop<T>(s: seq<T>, k: nat): seq<T> {
    if k < |s| then s[k..] else []
  }

  function Merge<T>(cmp: Cmp<T>, a: seq<T>, b: seq<T>): (r: seq<T>)
    ensures |r| == |a| + |b|
  {
    if |a| == 0 then b
    else if |b| == 0 then a
    else if cmp(a[0], b[0]) <= 0 then [a[0]] + Merge(cmp, a[1..], b)
    else [b[0]] + Merge(cmp, a, b[1..])
  }

  /** One pass: merge neighbouring runs of length k. */
  function Pass<T>(cmp: Cmp<T>, s: seq<T>, k: nat): (r: seq<T>)
    requires 1 <= k
    ensures |r| == |s|
    decreases |s|
  {
    if |s| == 0 then []
    else Merge(cmp, Take(s, k), Take(Drop(s, k), k)) + Pass(cmp, Drop(s, 2 * k), k)
  }

  /** Passes with doubling runs until one merge covered everything. */
  function MergeSort<T>(cmp: Cmp<T>, s: seq<T>, k: nat): (r: seq<T>)
    requires 1 <= k
    ensures |r| == |s|
    decreases if k < |s| then |s| - k else 0
  {
    if |s| <= 2 * k then Pass(cmp, s, k) else MergeSort(cmp, Pass(cmp, s, k), 2 * k)
  }

  /** x goes before the first element that is greater. */
  function Insert<T>(cmp: Cmp<T>, s: seq<T>, x: T): (r: seq<T>)
    ensures |r| == |s| + 1
  {
    if |s| == 0 || cmp(s[0], x) > 0 then [x] + s else [s[0]] + Insert(cmp, s[1..], x)
  }

  function InsertAll<T>(cmp: Cmp<T>, s: seq<T>): (r: seq<T>)
    ensures |r| == |s|
  {
    if |s| == 0 then [] else Insert(cmp, InsertAll(cmp, s[..|s| - 1]), s[|s| - 1])
  }

  // ---------- order ----------

  lemma PrecTransitive<T>(cmp: Cmp<T>, rank: T -> int, all: seq<T>, x: T, y: T, z: T)
    requires PreorderOn(cmp, all) && x in all && y in all && z in all
    requires Prec(cmp, rank, x, y) && Prec(cmp, rank, y, z)
    ensures Prec(cmp, rank, x, z)
  {
    if Le(cmp, z, x) {
      assert Le(cmp, y, x) && Le(cmp, z, y);
    }
  }

  ghost predicate Leads<T>(cmp: Cmp<T>, rank: T -> int, x: T, s: seq<T>) {
    forall y :: y in s ==> Prec(cmp, rank, x, y)
  }

  lemma OrderedCons<T>(cmp: Cmp<T>, rank: T -> int, x: T, s: seq<T>)
    requires Ordered(cmp, rank, s) && Leads(cmp, rank, x, s)
    ensures Ordered(cmp, rank, [x] + s)
  {
  }

  lemma OrderedTail<T>(cmp: Cmp<T>, rank: T -> int, s: seq<T>)
    requires 0 < |s| && Ordered(cmp, rank, s)
    ensures Ordered(cmp, rank, s[1..])
    ensures Leads(cmp, rank, s[0], s[1..])
  {
  }

  lemma ConsElements<T>(x: T, s: seq<T>)
    ensures multiset([x] + s) == multiset{x} + multiset(s)
  {
  }

  lemma HeadElements<T>(s: seq<T>)
    requires 0 < |s|
    ensures multiset(s) == multiset{s[0]} + multiset(s[1..])
  {
    assert s == [s[0]] + s[1..];
  }

  lemma {:induction false} MergeElements<T>(cmp: Cmp<T>, a: seq<T>, b: seq<T>)
    ensures multiset(Merge(cmp, a, b)) == multiset(a) + multiset(b)
    decreases |a| + |b|
  {
    if |a| == 0 || |b| == 0 {
    } else if cmp(a[0], b[0]) <= 0 {
      MergeElements(cmp, a[1..], b);
      ConsElements(a[0], Merge(cmp, a[1..], b));
      HeadElements(a);
    } else {
      MergeElements(cmp, a, b[1..]);
      ConsElements(b[0], Merge(cmp, a, b[1..]));
      HeadElements(b);
    }
  }

  lemma {:induction false} LeadsMerge<T>(cmp: Cmp<T>, rank: T -> int, x: T, a: seq<T>, b: seq<T>)
    requires Leads(cmp, rank, x, a) && Leads(cmp, rank, x, b)
    ensures Leads(cmp, rank, x, Merge(cmp, a, b))
    decreases |a| + |b|
  {
    if |a| == 0 || |b| == 0 {
    } else if cmp(a[0], b[0]) <= 0 {
      LeadsMerge(cmp, rank, x, a[1..], b);
    } else {
      LeadsMerge(cmp, rank, x, a, b[1..]);
    }
  }

  /** Every element of the first run was originally before every element of the second. */
  ghost predicate Before<T>(rank: T -> int, a: seq<T>, b: seq<T>) {
    forall x, y :: x in a && y in b ==> rank(x) < rank(y)
  }

  lemma {:induction false} MergeOrdered<T>(cmp: Cmp<T>, rank: T -> int, a: seq<T>, b: seq<T>, all: seq<T>)
    requires PreorderOn(cmp, all)
    requires (forall x :: x in a ==> x in all) && (forall x :: x in b ==> x in all)
    requires Ordered(cmp, rank, a) && Ordered(cmp, rank, b) && Before(rank, a, b)
    ensures Ordered(cmp, rank, Merge(cmp, a, b))
    decreases |a| + |b|
  {
    if |a| == 0 || |b| == 0 {
    } else if cmp(a[0], b[0]) <= 0 {
      OrderedTail(cmp, rank, a);
      MergeOrdered(cmp, rank, a[1..], b, all);
      LeastFirst(cmp, rank, a, b, all);
      LeadsMerge(cmp, rank, a[0], a[1..], b);
      OrderedCons(cmp, rank, a[0], Merge(cmp, a[1..], b));
    } else {
      OrderedTail(cmp, rank, b);
      MergeOrdered(cmp, rank, a, b[1..], all);
      LeastFirst(cmp, rank, a, b, all);
      LeadsMerge(cmp, rank, b[0], a, b[1..]);
      OrderedCons(cmp, rank, b[0], Merge(cmp, a, b[1..]));
    }
  }

  /** The head that merging picks comes before everything that is left. */
  lemma LeastFirst<T>(cmp: Cmp<T>, rank: T -> int, a: seq<T>, b: seq<T>, all: seq<T>)
    requires PreorderOn(cmp, all)
    requires (forall x :: x in a ==> x in all) && (forall x :: x in b ==> x in all)
    requires Ordered(cmp, rank, a) && Ordered(cmp, rank, b) && Before(rank, a, b)
    requires 0 < |a| && 0 < |b|
    ensures cmp(a[0], b[0]) <= 0 ==> Leads(cmp, rank, a[0], a[1..]) && Leads(cmp, rank, a[0], b)
    ensures cmp(a[0], b[0]) > 0 ==> Leads(cmp, rank, b[0], a) && Leads(cmp, rank, b[0], b[1..])
  {
    OrderedTail(cmp, rank, a);
    OrderedTail(cmp, rank, b);
    assert a[0] in a && b[0] in b;
    var x, other := if cmp(a[0], b[0]) <= 0 then a[0] else b[0], if cmp(a[0], b[0]) <= 0 then b else a;
    assert Prec(cmp, rank, x, other[0]);
    forall y | y in other
      ensures Prec(cmp, rank, x, y)
    {
      if y in other[1..] {
        PrecTransitive(cmp, rank, all, x, other[0], y);
      }
    }
  }

  // ---------- passes ----------

  /** s consists of ordered runs of length k, each originally before the next. */
  ghost predicate Runs<T>(cmp: Cmp<T>, rank: T -> int, s: seq<T>, k: nat)
    requires 1 <= k
    decreases |s|
  {
    |s| == 0 ||
    (Ordered(cmp, rank, Take(s, k)) && Before(rank, Take(s, k), Drop(s, k)) && Runs(cmp, rank, Drop(s, k), k))
  }

  lemma {:induction false} PassElements<T>(cmp: Cmp<T>, s: seq<T>, k: nat)
    requires 1 <= k
    ensures multiset(Pass(cmp, s, k)) == multiset(s)
    decreases |s|
  {
    if |s| > 0 {
      var a, b, rest := Take(s, k), Take(Drop(s, k), k), Drop(s, 2 * k);
      var merged, others := Merge(cmp, a, b), Pass(cmp, rest, k);
      MergeElements(cmp, a, b);
      PassElements(cmp, rest, k);
      AppendElements(merged, others);
      BlockElements(s, k);
      assert Pass(cmp, s, k) == merged + others;
    }
  }

  lemma AppendElements<T>(a: seq<T>, b: seq<T>)
    ensures multiset(a + b) == multiset(a) + multiset(b)
  {
  }

  lemma BlockElements<T>(s: seq<T>, k: nat)
    ensures multiset(s) == multiset(Take(s, k)) + multiset(Take(Drop(s, k), k)) + multiset(Drop(s, 2 * k))
  {
    var first, rest := Take(s, k), Drop(s, k);
    Blocks(s, k);
    TakeDrop(s, k);
    AppendElements(first, rest);
    AppendElements(Take(rest, k), Drop(s, 2 * k));
  }

  lemma TakeDrop<T>(s: seq<T>, k: nat)
    ensures s == Take(s, k) + Drop(s, k)
  {
  }

  lemma SameMembers<T>(s: seq<T>, t: seq<T>, x: T)
    requires multiset(s) == multiset(t)
    ensures x in s <==> x in t
  {
    assert x in multiset(s) <==> x in multiset(t);
  }

  lemma BeforeKeeps<T>(rank: T -> int, a: seq<T>, b: seq<T>, a': seq<T>, b': seq<T>)
    requires Before(rank, a, b)
    requires multiset(a') == multiset(a) && multiset(b') == multiset(b)
    ensures Before(rank, a', b')
  {
    forall x, y | x in a' && y in b'
      ensures rank(x) < rank(y)
    {
      SameMembers(a, a', x);
      SameMembers(b, b', y);
    }
  }

  lemma Blocks<T>(s: seq<T>, k: nat)
    ensures Drop(Drop(s, k), k) == Drop(s, 2 * k)
    ensures Drop(s, k) == Take(Drop(s, k), k) + Drop(s, 2 * k)
    ensures |Take(s, k)| + |Take(Drop(s, k), k)| == |Take(s, 2 * k)|
  {
  }

  lemma RunsCons<T>(cmp: Cmp<T>, rank: T -> int, m: seq<T>, p: seq<T>, k: nat)
    requires 1 <= k && (|m| == k || (|m| < k && |p| == 0))
    requires Ordered(cmp, rank, m) && Before(rank, m, p) && Runs(cmp, rank, p, k)
    ensures Runs(cmp, rank, m + p, k)
  {
    assert Take(m + p, k) == m && Drop(m + p, k) == p;
  }

  lemma BeforeSplit<T>(rank: T -> int, a: seq<T>, b: seq<T>, c: seq<T>)
    requires Before(rank, a, b + c) && Before(rank, b, c)
    ensures Before(rank, a, b) && Before(rank, a + b, c)
  {
    forall x, y | x in a && y in c
      ensures rank(x) < rank(y)
    {
      assert y in b + c;
    }
    forall x, y | x in a && y in b
      ensures rank(x) < rank(y)
    {
      assert y in b + c;
    }
  }

  lemma {:induction false} PassRuns<T>(cmp: Cmp<T>, rank: T -> int, s: seq<T>, k: nat, all: seq<T>)
    requires 1 <= k && PreorderOn(cmp, all) && (forall x :: x in s ==> x in all)
    requires Runs(cmp, rank, s, k)
    ensures Runs(cmp, rank, Pass(cmp, s, k), 2 * k)
    decreases |s|
  {
    if |s| > 0 {
      var a, b, rest := Take(s, k), Take(Drop(s, k), k), Drop(s, 2 * k);
      Blocks(s, k);
      assert Ordered(cmp, rank, b) && Before(rank, b, rest) && Runs(cmp, rank, rest, k) by {
        if |Drop(s, k)| == 0 {
          assert b == [] && rest == [];
        }
      }
      BeforeSplit(rank, a, b, rest);
      MergeOrdered(cmp, rank, a, b, all);
      PassRuns(cmp, rank, rest, k, all);
      MergeElements(cmp, a, b);
      PassElements(cmp, rest, k);
      BeforeKeeps(rank, a + b, rest, Merge(cmp, a, b), Pass(cmp, rest, k));
      RunsCons(cmp, rank, Merge(cmp, a, b), Pass(cmp, rest, k), 2 * k);
    }
  }

  // ---------- merge sort ----------

  ghost predicate Increasing<T>(rank: T -> int, s: seq<T>) {
    forall i, j :: 0 <= i < j < |s| ==> rank(s[i]) < rank(s[j])
  }

  lemma {:induction false} RunsOfOne<T>(cmp: Cmp<T>, rank: T -> int, s: seq<T>)
    requires Increasing(rank, s)
    ensures Runs(cmp, rank, s, 1)
    decreases |s|
  {
    if |s| > 0 {
      assert Increasing(rank, Drop(s, 1));
      RunsOfOne(cmp, rank, Drop(s, 1));
      assert Take(s, 1) == [s[0]];
      assert Before(rank, Take(s, 1), Drop(s, 1));
    }
  }

  lemma {:induction false} MergeSortElements<T>(cmp: Cmp<T>, s: seq<T>, k: nat)
    requires 1 <= k
    ensures multiset(MergeSort(cmp, s, k)) == multiset(s)
    decreases if k < |s| then |s| - k else 0
  {
    PassElements(cmp, s, k);
    if |s| > 2 * k {
      MergeSortElements(cmp, Pass(cmp, s, k), 2 * k);
    }
  }

  lemma {:induction false} MergeSortOrdered<T>(cmp: Cmp<T>, rank: T -> int, s: seq<T>, k: nat, all: seq<T>)
    requires 1 <= k && PreorderOn(cmp, all) && (forall x :: x in s ==> x in all)
    requires Runs(cmp, rank, s, k)
    ensures Ordered(cmp, rank, MergeSort(cmp, s, k))
    decreases if k < |s| then |s| - k else 0
  {
    var t := Pass(cmp, s, k);
    PassRuns(cmp, rank, s, k, all);
    if |s| <= 2 * k {
      assert Take(t, 2 * k) == t;
    } else {
      PassElements(cmp, s, k);
      forall x | x in t
        ensures x in all
      {
        SameMembers(s, t, x);
      }
      MergeSortOrdered(cmp, rank, t, 2 * k, all);
    }
  }

  lemma {:induction false} IndexInAt<T>(s: seq<T>, i: nat)
    requires Distinct(s) && i < |s|
    ensures IndexIn(s, s[i]) == i
  {
    if i > 0 {
      assert s[0] != s[i];
      assert s[1..][i - 1] == s[i];
      IndexInAt(s[1..], i - 1);
    }
  }

  lemma IndexInIncreasing<T>(s: seq<T>)
    requires Distinct(s)
    ensures Increasing(x => IndexIn(s, x), s)
  {
    forall i, j | 0 <= i < j < |s|
      ensures IndexIn(s, s[i]) < IndexIn(s, s[j])
    {
      IndexInAt(s, i);
      IndexInAt(s, j);
    }
  }

  lemma MergeSortIsStable<T>(cmp: Cmp<T>, s: seq<T>)
    requires Distinct(s) && PreorderOn(cmp, s)
    ensures StableSortOf(cmp, s, MergeSort(cmp, s, 1))
  {
    var rank := (x: T) => IndexIn(s, x);
    IndexInIncreasing(s);
    RunsOfOne(cmp, rank, s);
    MergeSortElements(cmp, s, 1);
    MergeSortOrdered(cmp, rank, s, 1, s);
  }

  // ---------- ordered insertion ----------

  lemma {:induction false} InsertElements<T>(cmp: Cmp<T>, s: seq<T>, x: T)
    ensures multiset(Insert(cmp, s, x)) == multiset(s) + multiset{x}
  {
    if |s| == 0 || cmp(s[0], x) > 0 {
      ConsElements(x, s);
    } else {
      InsertElements(cmp, s[1..], x);
      ConsElements(s[0], Insert(cmp, s[1..], x));
      ConsElements(s[0], s[1..]);
      assert s == [s[0]] + s[1..];
    }
  }

  /** The place of the new element: after every element that is not greater, before the rest. */
  function InsertAt<T>(cmp: Cmp<T>, s: seq<T>, x: T): (k: nat)
    ensures k <= |s|
  {
    if |s| == 0 || cmp(s[0], x) > 0 then 0 else 1 + InsertAt(cmp, s[1..], x)
  }

  lemma InsertPlaces<T>(cmp: Cmp<T>, s: seq<T>, x: T)
    ensures var k := InsertAt(cmp, s, x);
            && Insert(cmp, s, x) == s[..k] + [x] + s[k..]
            && (forall i :: 0 <= i < k ==> Le(cmp, s[i], x))
            && (k < |s| ==> !Le(cmp, s[k], x))
  {
    InsertSplices(cmp, s, x);
    InsertSeparates(cmp, s, x);
  }

  lemma {:induction false} InsertSeparates<T>(cmp: Cmp<T>, s: seq<T>, x: T)
    ensures var k := InsertAt(cmp, s, x);
            (forall i :: 0 <= i < k ==> Le(cmp, s[i], x)) && (k < |s| ==> !Le(cmp, s[k], x))
  {
    if |s| > 0 && cmp(s[0], x) <= 0 {
      var rest := s[1..];
      var k := InsertAt(cmp, rest, x);
      InsertSeparates(cmp, rest, x);
      forall i | 0 <= i < k + 1
        ensures Le(cmp, s[i], x)
      {
        if i > 0 {
          assert s[i] == rest[i - 1];
        }
      }
    }
  }

  lemma {:induction false} InsertSplices<T>(cmp: Cmp<T>, s: seq<T>, x: T)
    ensures var k := InsertAt(cmp, s, x); Insert(cmp, s, x) == s[..k] + [x] + s[k..]
  {
    if |s| == 0 || cmp(s[0], x) > 0 {
      assert s[..0] + [x] + s[0..] == [x] + s;
    } else {
      var rest := s[1..];
      var k := InsertAt(cmp, rest, x);
      InsertSplices(cmp, rest, x);
      ConsSplice(s[0], rest, k, x);
      assert s == [s[0]] + rest;
    }
  }

  lemma ConsSplice<T>(y: T, s: seq<T>, k: nat, x: T)
    requires k <= |s|
    ensures var t := [y] + s; t[..k + 1] + [x] + t[k + 1..] == [y] + (s[..k] + [x] + s[k..])
  {
    var t := [y] + s;
    assert t[..k + 1] == [y] + s[..k] && t[k + 1..] == s[k..];
  }

  /** The elements compare equal. */
  predicate Equals<T>(cmp: Cmp<T>, x: T, y: T) {
    cmp(x, y) <= 0 && cmp(y, x) <= 0
  }

  /** In plain terms: the sort is a permutation, no element stands before a smaller one, and of two
      that compare equal the one that stood first still does. */
  lemma MergeSortPlain<T>(cmp: Cmp<T>, s: seq<T>)
    requires Distinct(s) && PreorderOn(cmp, s)
    ensures var t := MergeSort(cmp, s, 1);
            && multiset(t) == multiset(s)
            && (forall i, j :: 0 <= i < j < |t| ==> cmp(t[i], t[j]) <= 0)
            && (forall i, j, a, b ::
                  0 <= j <= i < |t| && 0 <= a < b < |s| && t[i] == s[a] && t[j] == s[b] ==> !Equals(cmp, s[a], s[b]))
  {
    var t, rank := MergeSort(cmp, s, 1), (x: T) => IndexIn(s, x);
    MergeSortIsStable(cmp, s);
    forall i, j | 0 <= i < j < |t|
      ensures cmp(t[i], t[j]) <= 0
    {
      assert Prec(cmp, rank, t[i], t[j]);
    }
    forall i, j, a, b | 0 <= j <= i < |t| && 0 <= a < b < |s| && t[i] == s[a] && t[j] == s[b]
      ensures !Equals(cmp, s[a], s[b])
    {
      IndexInAt(s, a);
      IndexInAt(s, b);
      assert j < i;
      assert Prec(cmp, rank, t[j], t[i]);
    }
  }

  /** Insertion into an ordered list keeps it ordered, the newcomer last among its equals. */
  lemma InsertOrdered<T>(cmp: Cmp<T>, rank: T -> int, s: seq<T>, x: T, all: seq<T>)
    requires PreorderOn(cmp, all) && (forall y :: y in s ==> y in all) && x in all
    requires Ordered(cmp, rank, s) && (forall y :: y in s ==> rank(y) < rank(x))
    ensures Ordered(cmp, rank, Insert(cmp, s, x))
  {
    InsertPlaces(cmp, s, x);
    var k := InsertAt(cmp, s, x);
    forall i | 0 <= i < |s|
      ensures i < k ==> Prec(cmp, rank, s[i], x)
      ensures k <= i ==> Prec(cmp, rank, x, s[i])
    {
      assert s[i] in s;
      if k < i {
        assert s[k] in s;
        assert Prec(cmp, rank, s[k], s[i]);
        PrecTransitive(cmp, rank, all, x, s[k], s[i]);
      }
    }
    OrderedJoin(cmp, rank, s[..k], x, s[k..]);
  }

  lemma OrderedJoin<T>(cmp: Cmp<T>, rank: T -> int, a: seq<T>, x: T, b: seq<T>)
    requires Ordered(cmp, rank, a + b)
    requires forall i :: 0 <= i < |a| ==> Prec(cmp, rank, a[i], x)
    requires forall i :: 0 <= i < |b| ==> Prec(cmp, rank, x, b[i])
    ensures Ordered(cmp, rank, a + [x] + b)
  {
    var t, s := a + [x] + b, a + b;
    forall i, j | 0 <= i < j < |t|
      ensures Prec(cmp, rank, t[i], t[j])
    {
      var i', j' := if i < |a| then i else i - 1, if j < |a| then j else j - 1;
      if i != |a| && j != |a| {
        assert t[i] == s[i'] && t[j] == s[j'];
      }
    }
  }

  lemma {:induction false} InsertAllOrdered<T>(cmp: Cmp<T>, rank: T -> int, s: seq<T>, all: seq<T>)
    requires PreorderOn(cmp, all) && (forall y :: y in s ==> y in all) && Increasing(rank, s)
    ensures Ordered(cmp, rank, InsertAll(cmp, s)) && multiset(InsertAll(cmp, s)) == multiset(s)
  {
    if |s| > 0 {
      var p, x := s[..|s| - 1], s[|s| - 1];
      InsertAllOrdered(cmp, rank, p, all);
      assert s == p + [x];
      InsertNext(cmp, rank, p, x, InsertAll(cmp, p), all);
    }
  }

  lemma InsertNext<T>(cmp: Cmp<T>, rank: T -> int, p: seq<T>, x: T, t: seq<T>, all: seq<T>)
    requires PreorderOn(cmp, all) && (forall y :: y in p ==> y in all) && x in all && Increasing(rank, p + [x])
    requires Ordered(cmp, rank, t) && multiset(t) == multiset(p)
    ensures Ordered(cmp, rank, Insert(cmp, t, x)) && multiset(Insert(cmp, t, x)) == multiset(p + [x])
  {
    forall y | y in t
      ensures y in all && rank(y) < rank(x)
    {
      SameMembers(p, t, y);
      var k :| 0 <= k < |p| && p[k] == y;
      assert (p + [x])[k] == y && (p + [x])[|p|] == x;
    }
    InsertOrdered(cmp, rank, t, x, all);
    InsertElements(cmp, t, x);
  }

  // ---------- the two agree ----------

  lemma SameHead<T>(cmp: Cmp<T>, rank: T -> int, a: seq<T>, b: seq<T>)
    requires Ordered(cmp, rank, a) && Ordered(cmp, rank, b) && multiset(a) == multiset(b)
    requires 0 < |a| && 0 < |b|
    ensures a[0] == b[0]
  {
    SameMembers(a, b, a[0]);
    SameMembers(a, b, b[0]);
    var i :| 0 <= i < |b| && b[i] == a[0];
    var j :| 0 <= j < |a| && a[j] == b[0];
  }

  /** At most one arrangement of the elements is ordered. */
  lemma {:induction false} OrderedUnique<T>(cmp: Cmp<T>, rank: T -> int, a: seq<T>, b: seq<T>)
    requires Ordered(cmp, rank, a) && Ordered(cmp, rank, b) && multiset(a) == multiset(b)
    ensures a == b
    decreases |a|
  {
    assert |a| == |multiset(a)| == |multiset(b)| == |b|;
    if |a| > 0 {
      SameHead(cmp, rank, a, b);
      SameTails(a, b);
      OrderedTail(cmp, rank, a);
      OrderedTail(cmp, rank, b);
      OrderedUnique(cmp, rank, a[1..], b[1..]);
      assert a == [a[0]] + a[1..] && b == [b[0]] + b[1..];
    }
  }

  lemma SameTails<T>(a: seq<T>, b: seq<T>)
    requires 0 < |a| && 0 < |b| && a[0] == b[0] && multiset(a) == multiset(b)
    ensures multiset(a[1..]) == multiset(b[1..])
  {
    HeadElements(a);
    HeadElements(b);
    assert multiset(a[1..]) == multiset(a) - multiset{a[0]};
    assert multiset(b[1..]) == multiset(b) - multiset{b[0]};
  }

  lemma SortIsInsertion<T>(cmp: Cmp<T>, s: seq<T>)
    requires Distinct(s) && PreorderOn(cmp, s)
    ensures MergeSort(cmp, s, 1) == InsertAll(cmp, s)
  {
    var rank := (x: T) => IndexIn(s, x);
    MergeSortIsStable(cmp, s);
    IndexInIncreasing(s);
    InsertAllOrdered(cmp, rank, s, s);
    OrderedUnique(cmp, rank, MergeSort(cmp, s, 1), InsertAll(cmp, s));
  }
}
