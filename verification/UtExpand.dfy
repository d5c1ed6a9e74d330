/** HASH_EXPAND_BUCKETS: every element moves to a bucket array of twice the size. */
module UtExpand {
  import opened Basics
  import opened Bits
  import opened UtHandle
  import opened UtBuckets

  /** The new buckets hold exactly the elements of `part`, with the statistics that go with it. */
  ghost predicate Expanding(buckets: seq<Bucket>, part: seq<seq<Handle>>, ideal: nat, nonideal: nat,
                            region: set<Handle>)
    reads region`hhPrev, region`hhNext
  {
    && 0 < |part|
    && BucketsOk(buckets, SpreadAll(part), region)
    && MultsOk(buckets, SpreadAll(part), ideal)
    && nonideal == Excess(SpreadAll(part), ideal)
  }

  /** Every bucket's multiplier is the one of its chain length. */
  ghost predicate MultsOk(buckets: seq<Bucket>, chains: seq<seq<Handle>>, ideal: nat) {
    && |buckets| == |chains|
    && forall k :: 0 <= k < |buckets| ==> buckets[k].expandMult == Mult(|chains[k]|, ideal)
  }

  ghost predicate ChainIntact(c: seq<Handle>, from: nat)
    reads c`hhNext
  {
    forall i {:trigger c[i].hhNext} :: from <= i < |c| ==> c[i].hhNext == At(c, i + 1)
  }

  /** Account for the element just added to bucket k. */
  method Tally(buckets: array<Bucket>, k: nat, ideal: nat, nonideal0: nat) returns (nonideal: nat)
    requires k < buckets.Length && 0 < buckets[k].count
    requires buckets[k].expandMult == Mult(buckets[k].count - 1, ideal)
    modifies buckets
    ensures buckets[..] == old(buckets[..])[k := old(buckets[k]).(expandMult := Mult(old(buckets[k]).count, ideal))]
    ensures nonideal == nonideal0 + Over(buckets[k].count, ideal) - Over(buckets[k].count - 1, ideal)
  {
    nonideal := nonideal0;
    if buckets[k].count > ideal {
      nonideal := nonideal + 1;
      if buckets[k].count > buckets[k].expandMult * ideal {
        buckets[k] := buckets[k].(expandMult := buckets[k].expandMult + 1);
      }
    }
  }

  method MoveElement(buckets: array<Bucket>, e: Handle, ideal: nat, nonideal0: nat, ghost log2: nat,
                     ghost part: seq<seq<Handle>>, ghost b: nat, ghost region: set<Handle>) returns (nonideal: nat)
    requires Expanding(buckets[..], part, ideal, nonideal0, region)
    requires |part| == Pow2(log2) && b < |part| && Slot(e.hashv, |part|) == b && e !in part[b] && e in region
    modifies buckets, e`hhNext, region`hhPrev
    ensures Expanding(buckets[..], part[b := part[b] + [e]], ideal, nonideal, region)
  {
    ghost var chains := SpreadAll(part);
    var k := HashToBkt(e.hashv, buckets.Length, log2 + 1);
    assert e !in chains[k] by {
      SlotHalves(e.hashv, |part|);
      SpreadMembers(part[b], k, 2 * |part|, e);
    }
    SpreadAllStep(part, b, e);
    ExcessUpdate(chains, k, [e] + chains[k], ideal);
    assert BucketOk(buckets[k], chains[k], k, |chains|, region);
    PushFront(buckets, chains, k, e, region);
    label pushed:
    nonideal := Tally(buckets, k, ideal, nonideal0);
    SameChains(old@pushed(buckets[..]), buckets[..], chains[k := [e] + chains[k]], region);
  }

  /** Multipliers have no part in the linking of the chains. */
  lemma SameChains(before: seq<Bucket>, after: seq<Bucket>, chains: seq<seq<Handle>>, region: set<Handle>)
    requires BucketsOk(before, chains, region) && |after| == |before|
    requires forall k :: 0 <= k < |before| ==> after[k].hhHead == before[k].hhHead && after[k].count == before[k].count
    ensures BucketsOk(after, chains, region)
  {
    forall b | 0 <= b < |chains|
      ensures BucketOk(after[b], chains[b], b, |chains|, region)
    {
      assert BucketOk(before[b], chains[b], b, |chains|, region);
    }
  }

  /** Move one whole chain. */
  method MoveChain(buckets: array<Bucket>, head: Handle?, ideal: nat, nonideal0: nat, ghost log2: nat,
                   ghost c: seq<Handle>, ghost part: seq<seq<Handle>>, ghost b: nat, ghost region: set<Handle>)
    returns (nonideal: nat)
    requires Expanding(buckets[..], part, ideal, nonideal0, region)
    requires |part| == Pow2(log2) && b < |part| && part[b] == []
    requires Distinct(c) && ChainIntact(c, 0) && head == At(c, 0)
    requires forall i :: 0 <= i < |c| ==> c[i] in region && Slot(c[i].hashv, |part|) == b
    modifies buckets, c`hhNext, region`hhPrev
    ensures Expanding(buckets[..], part[b := c], ideal, nonideal, region)
  {
    nonideal := nonideal0;
    var thh := head;
    ghost var j := 0;
    assert part[b := c[..0]] == part;
    while thh != null
      invariant 0 <= j <= |c| && thh == At(c, j)
      invariant ChainIntact(c, j)
      invariant Expanding(buckets[..], part[b := c[..j]], ideal, nonideal, region)
      decreases |c| - j
    {
      var nxt := thh.hhNext;
      ghost var now := part[b := c[..j]];
      nonideal := MoveElement(buckets, thh, ideal, nonideal, log2, now, b, region);
      assert c[..j] + [thh] == c[..j + 1];
      assert now[b := c[..j + 1]] == part[b := c[..j + 1]];
      thh := nxt;
      j := j + 1;
    }
    assert c[..j] == c;
  }

  /** The chains that have been moved once the first n are done. */
  ghost function Moved(chains: seq<seq<Handle>>, n: nat): (r: seq<seq<Handle>>)
    ensures |r| == |chains|
  {
    seq(|chains|, b requires 0 <= b < |chains| => if b < n then chains[b] else [])
  }

  lemma {:induction false} NoExcess(chains: seq<seq<Handle>>, ideal: nat)
    requires forall k :: 0 <= k < |chains| ==> chains[k] == []
    ensures Excess(chains, ideal) == 0
  {
    if |chains| > 0 {
      NoExcess(chains[1..], ideal);
    }
  }

  lemma NothingMoved(buckets: seq<Bucket>, chains: seq<seq<Handle>>, ideal: nat, region: set<Handle>)
    requires 0 < |chains| && |buckets| == 2 * |chains|
    requires forall k :: 0 <= k < |buckets| ==> buckets[k] == EMPTY_BUCKET
    ensures Expanding(buckets, Moved(chains, 0), ideal, 0, region)
  {
    NoExcess(SpreadAll(Moved(chains, 0)), ideal);
  }

  /** What the statistics of an expansion say about every bucket. The ideal length is the
      smallest that lets all chains hold all elements, and a bucket beyond it has the multiplier
      that its length asks for. */
  lemma ExpansionStatistics(buckets: seq<Bucket>, chains: seq<seq<Handle>>, numItems: nat, ideal: nat,
                            region: set<Handle>)
    requires BucketsOk(buckets, chains, region) && MultsOk(buckets, chains, ideal)
    requires 0 < numItems && ideal == CeilDiv(numItems, |chains|)
    ensures (ideal - 1) * |chains| < numItems <= ideal * |chains|
    ensures forall k :: 0 <= k < |buckets| ==>
              && (buckets[k].expandMult == 0 <==> buckets[k].count <= ideal)
              && (buckets[k].count > ideal ==>
                    (buckets[k].expandMult - 1) * ideal < buckets[k].count <= buckets[k].expandMult * ideal + 1)
  {
    CeilBounds(numItems, |chains|);
    forall k | 0 <= k < |buckets|
      ensures buckets[k].expandMult == 0 <==> buckets[k].count <= ideal
      ensures buckets[k].count > ideal ==>
                (buckets[k].expandMult - 1) * ideal < buckets[k].count <= buckets[k].expandMult * ideal + 1
    {
      assert BucketOk(buckets[k], chains[k], k, |chains|, region);
      MultBounds(|chains[k]|, ideal);
    }
  }

  /** ceil(n / 2b) by shift and mask, b being the current number of buckets. */
  method IdealLength(numItems: nat, log2: nat, b: nat) returns (ideal: nat)
    requires b == Pow2(log2)
    ensures ideal == CeilDiv(numItems, 2 * b)
  {
    CeilByShift(numItems, log2 + 1);
    ideal := Shr(numItems, log2 + 1) + (if And(numItems, b * 2 - 1) != 0 then 1 else 0);
  }

  ghost predicate Disjoint(s: seq<Handle>, t: seq<Handle>) {
    forall h :: h in s ==> h !in t
  }

  ghost predicate InRegion(c: seq<Handle>, b: nat, n: nat, region: set<Handle>)
    requires 0 < n
  {
    forall k :: 0 <= k < |c| ==> c[k] in region && Slot(c[k].hashv, n) == b
  }

  lemma OtherChain(s: seq<Handle>, b: nat, t: seq<Handle>, i: nat, n: nat, region: set<Handle>)
    requires 0 < n && b != i && InRegion(s, b, n, region) && InRegion(t, i, n, region)
    ensures Disjoint(s, t)
  {
  }

  /** Move chain i; the chains after it keep their links. */
  method MoveOne(after: array<Bucket>, head: Handle?, ideal: nat, nonideal0: nat, ghost log2: nat,
                 ghost chains: seq<seq<Handle>>, ghost i: nat, ghost region: set<Handle>)
    returns (nonideal: nat)
    requires |chains| == Pow2(log2) && i < |chains| && head == At(chains[i], 0)
    requires forall b :: 0 <= b < |chains| ==> Distinct(chains[b])
    requires forall b :: 0 <= b < |chains| ==> InRegion(chains[b], b, |chains|, region)
    requires Expanding(after[..], Moved(chains, i), ideal, nonideal0, region)
    requires forall b :: i <= b < |chains| ==> ChainIntact(chains[b], 0)
    modifies after, region`hhPrev, region`hhNext
    ensures Expanding(after[..], Moved(chains, i + 1), ideal, nonideal, region)
    ensures forall b :: i < b < |chains| ==> ChainIntact(chains[b], 0)
  {
    ghost var c, moved := chains[i], Moved(chains, i);
    assert moved[i := c] == Moved(chains, i + 1);
    assert InRegion(c, i, |chains|, region);
    nonideal := MoveChain(after, head, ideal, nonideal0, log2, c, moved, i, region);
    forall b | i < b < |chains|
      ensures ChainIntact(chains[b], 0)
    {
      assert old(ChainIntact(chains[b], 0));
      OtherChain(chains[b], b, c, i, |chains|, region);
    }
  }

  lemma ChainsReady(buckets: seq<Bucket>, chains: seq<seq<Handle>>, region: set<Handle>)
    requires BucketsOk(buckets, chains, region)
    ensures forall b :: 0 <= b < |chains| ==> Distinct(chains[b]) && buckets[b].hhHead == At(chains[b], 0)
    ensures forall b :: 0 <= b < |chains| ==> InRegion(chains[b], b, |chains|, region)
    ensures forall b :: 0 <= b < |chains| ==> ChainIntact(chains[b], 0)
  {
    forall b | 0 <= b < |chains|
      ensures Distinct(chains[b]) && buckets[b].hhHead == At(chains[b], 0)
      ensures InRegion(chains[b], b, |chains|, region) && ChainIntact(chains[b], 0)
    {
      assert BucketOk(buckets[b], chains[b], b, |chains|, region);
    }
  }

  method MoveAll(buckets: array<Bucket>, after: array<Bucket>, ideal: nat, ghost log2: nat,
                 ghost chains: seq<seq<Handle>>, ghost region: set<Handle>)
    returns (nonideal: nat)
    requires buckets != after && |chains| == Pow2(log2)
    requires BucketsOk(buckets[..], chains, region)
    requires Expanding(after[..], Moved(chains, 0), ideal, 0, region)
    modifies after, region`hhPrev, region`hhNext
    ensures Expanding(after[..], chains, ideal, nonideal, region)
  {
    var n := buckets.Length;
    nonideal := 0;
    ChainsReady(buckets[..], chains, region);
    for i := 0 to n
      invariant Expanding(after[..], Moved(chains, i), ideal, nonideal, region)
      invariant forall b :: i <= b < n ==> ChainIntact(chains[b], 0)
    {
      nonideal := MoveOne(after, buckets[i].hhHead, ideal, nonideal, log2, chains, i, region);
    }
    assert Moved(chains, n) == chains;
  }

  /** The doubled bucket array, the ideal chain length and the number of elements beyond it. */
  method ExpandBuckets(buckets: array<Bucket>, log2: nat, numItems: nat,
                       ghost chains: seq<seq<Handle>>, ghost region: set<Handle>)
    returns (after: array<Bucket>, ideal: nat, nonideal: nat)
    requires BucketsOk(buckets[..], chains, region) && |chains| == Pow2(log2)
    modifies region`hhPrev, region`hhNext
    ensures fresh(after) && after.Length == 2 * |chains|
    ensures BucketsOk(after[..], SpreadAll(chains), region)
    ensures ideal == CeilDiv(numItems, 2 * |chains|)
    ensures nonideal == Excess(SpreadAll(chains), ideal)
    ensures MultsOk(after[..], SpreadAll(chains), ideal)
  {
    after := new Bucket[2 * buckets.Length](_ => EMPTY_BUCKET);
    ideal := IdealLength(numItems, log2, buckets.Length);
    NothingMoved(after[..], chains, ideal, region);
    nonideal := MoveAll(buckets, after, ideal, log2, chains, region);
  }
}
