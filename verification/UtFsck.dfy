/** The table's own integrity check, HASH_FSCK: what it checks, and that valid tables pass. */
module UtFsck {
  import opened Basics
  import opened Bits
  import opened UtHandle
  import opened UtBuckets
  import opened UtTable
  import opened UtHash

  function TotalLength(chains: seq<seq<Handle>>): nat {
    if |chains| == 0 then 0 else TotalLength(chains[..|chains| - 1]) + |chains[|chains| - 1]|
  }

  ghost function InFirst(chains: seq<seq<Handle>>, n: nat): set<Handle>
    requires n <= |chains|
  {
    if n == 0 then {} else InFirst(chains, n - 1) + Elements(chains[n - 1])
  }

  lemma {:induction false} DistinctCount(s: seq<Handle>)
    requires Distinct(s)
    ensures |Elements(s)| == |s|
    decreases |s|
  {
    if |s| > 0 {
      var last := |s| - 1;
      DistinctCount(s[..last]);
      assert Elements(s) == Elements(s[..last]) + {s[last]};
    }
  }

  ghost predicate Placed(chains: seq<seq<Handle>>, items: set<Handle>)
    requires 0 < |chains|
  {
    forall b :: 0 <= b < |chains| ==>
      Distinct(chains[b]) && forall h :: h in chains[b] ==> h in items && Slot(h.hashv, |chains|) == b
  }

  lemma {:induction false} InFirstSlots(chains: seq<seq<Handle>>, items: set<Handle>, n: nat)
    requires 0 < |chains| && n <= |chains| && Placed(chains, items)
    ensures |InFirst(chains, n)| == TotalLength(chains[..n])
    ensures forall h :: h in InFirst(chains, n) <==>
              Slot(h.hashv, |chains|) < n && h in chains[Slot(h.hashv, |chains|)]
    decreases n
  {
    if n > 0 {
      InFirstSlots(chains, items, n - 1);
      DistinctCount(chains[n - 1]);
      assert chains[..n][..n - 1] == chains[..n - 1];
      assert InFirst(chains, n - 1) !! Elements(chains[n - 1]);
    }
  }

  /** The chain lengths add up to the number of elements. */
  lemma CountsSum(chains: seq<seq<Handle>>, items: set<Handle>)
    requires 0 < |chains| && Placed(chains, items) && InSlot(chains, items)
    ensures TotalLength(chains) == |items|
  {
    var n := |chains|;
    InFirstSlots(chains, items, n);
    SameSet(InFirst(chains, n), items, chains);
    assert chains[..n] == chains;
  }

  lemma SameSet(all: set<Handle>, items: set<Handle>, chains: seq<seq<Handle>>)
    requires 0 < |chains| && Placed(chains, items) && InSlot(chains, items)
    requires forall h :: h in all <==>
               Slot(h.hashv, |chains|) < |chains| && h in chains[Slot(h.hashv, |chains|)]
    ensures all == items
  {
    forall h | h in all
      ensures h in items
    {
      assert Distinct(chains[Slot(h.hashv, |chains|)]);
    }
  }

  lemma BucketsPlaced(buckets: seq<Bucket>, chains: seq<seq<Handle>>, items: set<Handle>)
    requires BucketsOk(buckets, chains, items)
    ensures Placed(chains, items)
  {
    forall b | 0 <= b < |chains|
      ensures Distinct(chains[b]) && forall h :: h in chains[b] ==> h in items && Slot(h.hashv, |chains|) == b
    {
      assert BucketOk(buckets[b], chains[b], b, |chains|, items);
    }
  }

  // ---------- the check ----------

  ghost predicate ForwardChain(head: Handle?, c: seq<Handle>)
    reads c`hhNext
  {
    head == At(c, 0) && forall i {:trigger c[i].hhNext} :: 0 <= i < |c| ==> c[i].hhNext == At(c, i + 1)
  }

  ghost predicate BackChain(c: seq<Handle>)
    reads c`hhPrev
  {
    forall i {:trigger c[i].hhPrev} :: 0 <= i < |c| ==> c[i].hhPrev == At(c, i - 1)
  }

  ghost predicate ForwardList(head: Handle?, s: seq<Handle>)
    reads s`next
  {
    head == At(s, 0) && forall i {:trigger s[i].next} :: 0 <= i < |s| ==> s[i].next == At(s, i + 1)
  }

  ghost predicate BackList(s: seq<Handle>)
    reads s`prev
  {
    forall i {:trigger s[i].prev} :: 0 <= i < |s| ==> s[i].prev == At(s, i - 1)
  }

  ghost function Members(chains: seq<seq<Handle>>): (r: set<Handle>)
    ensures forall b, i :: 0 <= b < |chains| && 0 <= i < |chains[b]| ==> chains[b][i] in r
  {
    set b, i | 0 <= b < |chains| && 0 <= i < |chains[b]| :: chains[b][i]
  }

  /** Following the forward links from the buckets ends, and meets the given chains. */
  ghost predicate Walkable(buckets: seq<Bucket>, chains: seq<seq<Handle>>)
    reads Members(chains)
  {
    |buckets| == |chains| && forall b :: 0 <= b < |chains| ==> ForwardChain(buckets[b].hhHead, chains[b])
  }

  /** Back links and count of one bucket are right. */
  ghost predicate BucketClean(bucket: Bucket, c: seq<Handle>)
    reads c`hhPrev
  {
    BackChain(c) && bucket.count == |c|
  }

  /** What the check is after: right back links everywhere, right counts, and as many elements
      in the chains and in the list as the table believes to have. */
  ghost predicate Clean(buckets: seq<Bucket>, numItems: nat, chains: seq<seq<Handle>>, app: seq<Handle>)
    requires |buckets| == |chains|
    reads Members(chains)
    reads app`prev
  {
    && (forall b :: 0 <= b < |chains| ==> BucketClean(buckets[b], chains[b]))
    && TotalLength(chains) == numItems
    && BackList(app) && |app| == numItems
  }

  /** Walk one bucket chain, comparing every back link; the number of elements met. */
  method CheckChain(head: Handle?, ghost c: seq<Handle>) returns (ok: bool, count: nat)
    requires ForwardChain(head, c)
    ensures (ok <==> BackChain(c)) && count == |c|
  {
    ok, count := true, 0;
    var thh := head;
    var prev: Handle? := null;
    while thh != null
      invariant count <= |c| && thh == At(c, count) && prev == At(c, count - 1)
      invariant ok <==> forall i {:trigger c[i].hhPrev} :: 0 <= i < count ==> c[i].hhPrev == At(c, i - 1)
      decreases |c| - count
    {
      if prev != thh.hhPrev {
        ok := false;
      }
      count := count + 1;
      prev := thh;
      thh := thh.hhNext;
    }
  }

  method CheckBuckets(buckets: array<Bucket>, ghost chains: seq<seq<Handle>>) returns (ok: bool, count: nat)
    requires Walkable(buckets[..], chains)
    ensures ok <==> forall b :: 0 <= b < |chains| ==> BucketClean(buckets[b], chains[b])
    ensures count == TotalLength(chains)
  {
    ok, count := true, 0;
    for i := 0 to buckets.Length
      invariant ok <==> forall b :: 0 <= b < i ==> BucketClean(buckets[b], chains[b])
      invariant count == TotalLength(chains[..i])
    {
      ghost var c := chains[i];
      assert ForwardChain(buckets[..][i].hhHead, c);
      var chainOk, n := CheckChain(buckets[i].hhHead, c);
      assert chains[..i + 1][..i] == chains[..i];
      count := count + n;
      if !chainOk || buckets[i].count != n {
        ok := false;
      }
    }
    assert chains[..buckets.Length] == chains;
  }

  method CheckList(head: Handle, ghost s: seq<Handle>) returns (ok: bool, count: nat)
    requires ForwardList(head, s)
    ensures (ok <==> BackList(s)) && count == |s|
  {
    ok, count := true, 0;
    var thh: Handle? := head;
    var prev: Handle? := null;
    while thh != null
      invariant count <= |s| && thh == At(s, count) && prev == At(s, count - 1)
      invariant ok <==> forall i {:trigger s[i].prev} :: 0 <= i < count ==> s[i].prev == At(s, i - 1)
      decreases |s| - count
    {
      count := count + 1;
      if prev != thh.prev {
        ok := false;
      }
      prev := thh;
      thh := thh.next;
    }
  }

  /** HASH_FSCK on any table whose forward links can be followed: it passes exactly the tables
      with right back links and counts. */
  method Fsck(head: Handle?, buckets: array<Bucket>, numItems: nat, ghost chains: seq<seq<Handle>>,
              ghost app: seq<Handle>)
    returns (ok: bool)
    requires Walkable(buckets[..], chains) && ForwardList(head, app)
    ensures head != null ==> (ok <==> Clean(buckets[..], numItems, chains, app))
    ensures head == null ==> ok
  {
    ok := true;
    if head != null {
      var bucketsOk, n := CheckBuckets(buckets, chains);
      var listOk, m := CheckList(head, app);
      ok := bucketsOk && n == numItems && listOk && m == numItems;
    }
  }

  /** A valid table passes. */
  lemma ValidIsClean(hash: Hash)
    requires hash.Valid() && hash.tbl != null
    ensures Walkable(hash.tbl.buckets[..], hash.tbl.chains) && ForwardList(hash.head, hash.app)
    ensures Clean(hash.tbl.buckets[..], hash.tbl.numItems, hash.tbl.chains, hash.app)
  {
    var items, buckets, chains := Elements(hash.app), hash.tbl.buckets[..], hash.tbl.chains;
    BucketsPlaced(buckets, chains, items);
    CountsSum(chains, items);
    DistinctCount(hash.app);
    forall b | 0 <= b < |chains|
      ensures ForwardChain(buckets[b].hhHead, chains[b]) && BucketClean(buckets[b], chains[b])
    {
      assert BucketOk(buckets[b], chains[b], b, |chains|, items);
    }
  }

  /** Link by link: what a valid table looks like. */
  lemma ValidMeans(hash: Hash)
    requires hash.Valid() && hash.tbl != null
    ensures var app, chains, buckets, n := hash.app, hash.tbl.chains, hash.tbl.buckets, hash.tbl.numBuckets;
            && 0 < |app| && hash.head == app[0] && app[0].prev == null
            && hash.tbl.tail == app[|app| - 1] && app[|app| - 1].next == null
            && (forall i :: 0 <= i < |app| - 1 ==> app[i].next == app[i + 1])
            && (forall i :: 0 < i < |app| ==> app[i].prev == app[i - 1])
            && |app| == hash.tbl.numItems == TotalLength(chains)
            && n == Pow2(hash.tbl.log2NumBuckets) == |chains| == buckets.Length
            && (forall h :: h in app ==> h in chains[h.hashv % n])
            && (forall b, h :: 0 <= b < n && h in chains[b] ==> h in app && h.hashv % n == b)
  {
    ValidIsClean(hash);
    DistinctCount(hash.app);
    BucketsPlaced(hash.tbl.buckets[..], hash.tbl.chains, Elements(hash.app));
    CountsSum(hash.tbl.chains, Elements(hash.app));
  }

  /** The same for the links and counts of one chain. */
  lemma ValidChainMeans(hash: Hash, b: nat)
    requires hash.Valid() && hash.tbl != null && b < hash.tbl.numBuckets
    ensures var c, bucket := hash.tbl.chains[b], hash.tbl.buckets[b];
            && bucket.count == |c|
            && (|c| == 0 ==> bucket.hhHead == null)
            && (|c| > 0 ==> bucket.hhHead == c[0] && c[0].hhPrev == null && c[|c| - 1].hhNext == null)
            && (forall i :: 0 <= i < |c| - 1 ==> c[i].hhNext == c[i + 1])
            && (forall i :: 0 < i < |c| ==> c[i].hhPrev == c[i - 1])
            && (forall i, j :: 0 <= i < j < |c| ==> c[i] != c[j])
  {
    assert BucketOk(hash.tbl.buckets[b], hash.tbl.chains[b], b, |hash.tbl.chains|, Elements(hash.app));
  }
}
