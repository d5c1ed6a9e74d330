/** Bucket chains: insertion at the front, removal, and the doubling of the bucket array. */
module UtBuckets {
  import opened Basics
  import opened Bits
  import opened StableSort
  import opened UtHandle

  datatype Bucket = Bucket(hhHead: Handle?, count: nat, expandMult: nat)

  const EMPTY_BUCKET := Bucket(null, 0, 0)

  /** The bucket of a hash value among n buckets. */
  function Slot(hashv: nat, n: nat): (b: nat)
    requires 0 < n
    ensures b < n
  {
    hashv % n
  }

  /** HASH_TO_BKT masks with n - 1, which selects the slot because n is a power of two. */
  method HashToBkt(hashv: nat, n: nat, ghost log2: nat) returns (b: nat)
    requires n == Pow2(log2)
    ensures b == Slot(hashv, n) && b == hashv % n
  {
    AndMask(hashv, log2);
    b := And(hashv, n - 1);
  }

  ghost predicate ChainLinked(c: seq<Handle>)
    reads c`hhPrev, c`hhNext
  {
    && (forall i {:trigger c[i].hhPrev} :: 0 <= i < |c| ==> c[i].hhPrev == At(c, i - 1))
    && (forall i {:trigger c[i].hhNext} :: 0 <= i < |c| ==> c[i].hhNext == At(c, i + 1))
  }

  /** A bucket whose chain is c: well linked, counted, and only with elements of slot b of n. */
  ghost predicate BucketOk(bucket: Bucket, c: seq<Handle>, b: nat, n: nat, region: set<Handle>)
    requires 0 < n
    reads region`hhPrev, region`hhNext
  {
    && (forall i :: 0 <= i < |c| ==> c[i] in region && Slot(c[i].hashv, n) == b)
    && Distinct(c) && ChainLinked(c)
    && bucket.hhHead == At(c, 0) && bucket.count == |c|
  }

  ghost predicate BucketsOk(buckets: seq<Bucket>, chains: seq<seq<Handle>>, region: set<Handle>)
    reads region`hhPrev, region`hhNext
  {
    && 0 < |chains| == |buckets|
    && forall b :: 0 <= b < |chains| ==> BucketOk(buckets[b], chains[b], b, |chains|, region)
  }

  /** Put h at the front of chain b. */
  method PushFront(buckets: array<Bucket>, ghost chains: seq<seq<Handle>>, b: nat, h: Handle, ghost region: set<Handle>)
    requires BucketsOk(buckets[..], chains, region)
    requires b < buckets.Length && b == Slot(h.hashv, |chains|) && h in region
    requires h !in chains[b]
    modifies buckets, h`hhNext, region`hhPrev
    ensures buckets[..] == old(buckets[..])[b := old(buckets[b]).(hhHead := h, count := old(buckets[b]).count + 1)]
    ensures BucketsOk(buckets[..], chains[b := [h] + chains[b]], region)
  {
    ghost var c := chains[b];
    var bucket := buckets[b];
    assert BucketOk(bucket, c, b, |chains|, region);
    h.hhNext := bucket.hhHead;
    h.hhPrev := null;
    if bucket.hhHead != null {
      bucket.hhHead.hhPrev := h;
    }
    buckets[b] := bucket.(hhHead := h, count := bucket.count + 1);
    ghost var after := chains[b := [h] + c];
    forall k | 0 <= k < |after|
      ensures BucketOk(buckets[k], after[k], k, |after|, region)
    {
      assert old(BucketOk(buckets[k], chains[k], k, |chains|, region));
    }
  }

  /** Back links that skip the k-th element are those of the chain without it. */
  lemma UnlinkedBack(c: seq<Handle>, k: nat)
    requires k < |c|
    requires forall i {:trigger c[i].hhPrev} ::
               0 <= i < |c| && i != k ==> c[i].hhPrev == At(c, if i == k + 1 then k - 1 else i - 1)
    ensures var t := Without(c, k); forall i {:trigger t[i].hhPrev} :: 0 <= i < |t| ==> t[i].hhPrev == At(t, i - 1)
  {
    var t := Without(c, k);
    forall i | 0 <= i < |t|
      ensures t[i].hhPrev == At(t, i - 1)
    {
      assert t[i] == c[if i < k then i else i + 1];
    }
  }

  /** Forward links that skip the k-th element are those of the chain without it. */
  lemma UnlinkedForth(c: seq<Handle>, k: nat)
    requires k < |c|
    requires forall i {:trigger c[i].hhNext} ::
               0 <= i < |c| && i != k ==> c[i].hhNext == At(c, if i + 1 == k then k + 1 else i + 1)
    ensures var t := Without(c, k); forall i {:trigger t[i].hhNext} :: 0 <= i < |t| ==> t[i].hhNext == At(t, i + 1)
  {
    var t := Without(c, k);
    forall i | 0 <= i < |t|
      ensures t[i].hhNext == At(t, i + 1)
    {
      assert t[i] == c[if i < k then i else i + 1];
    }
  }

  /** Let the neighbours of the k-th element of a chain point past it. */
  method Unlink(del: Handle, ghost c: seq<Handle>, ghost k: nat)
    requires Distinct(c) && ChainLinked(c) && k < |c| && del == c[k]
    modifies c`hhNext, c`hhPrev
    ensures ChainLinked(Without(c, k)) && Distinct(Without(c, k))
  {
    if del.hhPrev != null {
      del.hhPrev.hhNext := del.hhNext;
    }
    if del.hhNext != null {
      del.hhNext.hhPrev := del.hhPrev;
    }
    WithoutDistinct(c, k);
    UnlinkedBack(c, k);
    UnlinkedForth(c, k);
  }

  /** Take the k-th element out of chain b. */
  method DelInBkt(buckets: array<Bucket>, ghost chains: seq<seq<Handle>>, b: nat, del: Handle, ghost k: nat,
                  ghost region: set<Handle>)
    requires BucketsOk(buckets[..], chains, region)
    requires b < buckets.Length && k < |chains[b]| && del == chains[b][k]
    modifies buckets, region`hhNext, region`hhPrev
    ensures forall j :: 0 <= j < buckets.Length ==> buckets[j].expandMult == old(buckets[j].expandMult)
    ensures BucketsOk(buckets[..], chains[b := Without(chains[b], k)], region)
  {
    ghost var c := chains[b];
    assert BucketOk(buckets[b], c, b, |chains|, region);
    var bucket := buckets[b].(count := buckets[b].count - 1);
    if bucket.hhHead == del {
      bucket := bucket.(hhHead := del.hhNext);
    }
    assert bucket.hhHead == At(Without(c, k), 0);
    buckets[b] := bucket;
    Unlink(del, c, k);
    ghost var after := chains[b := Without(c, k)];
    forall j | 0 <= j < |after|
      ensures BucketOk(buckets[j], after[j], j, |after|, region)
    {
      assert old(BucketOk(buckets[j], chains[j], j, |chains|, region));
    }
  }

  // ---------- expansion ----------

  /** The elements of a chain that fall into slot k of n, the last one first. */
  function Spread(c: seq<Handle>, k: nat, n: nat): seq<Handle>
    requires 0 < n
  {
    if |c| == 0 then []
    else
      var rest := Spread(c[..|c| - 1], k, n);
      if Slot(c[|c| - 1].hashv, n) == k then [c[|c| - 1]] + rest else rest
  }

  /** The chains after doubling: chain k comes from the old chain with the same low bits. */
  function SpreadAll(chains: seq<seq<Handle>>): (r: seq<seq<Handle>>)
    requires 0 < |chains|
    ensures |r| == 2 * |chains|
  {
    seq(2 * |chains|, k requires 0 <= k < 2 * |chains| => Spread(chains[Slot(k, |chains|)], k, 2 * |chains|))
  }

  lemma {:induction false} SpreadMembers(c: seq<Handle>, k: nat, n: nat, h: Handle)
    requires 0 < n
    ensures h in Spread(c, k, n) <==> h in c && Slot(h.hashv, n) == k
    decreases |c|
  {
    if |c| > 0 {
      var last := |c| - 1;
      SpreadMembers(c[..last], k, n, h);
      assert c == c[..last] + [c[last]];
    }
  }

  /** A new chain has the elements of its slot in the reverse of their old order. */
  lemma {:induction false} SpreadReverses(c: seq<Handle>, k: nat, n: nat, i: nat, j: nat) returns (a: nat, b: nat)
    requires 0 < n && i < j < |c| && c[i].hashv % n == k && c[j].hashv % n == k
    ensures a < b < |Spread(c, k, n)| && Spread(c, k, n)[a] == c[j] && Spread(c, k, n)[b] == c[i]
    decreases |c|
  {
    var last := |c| - 1;
    var rest := Spread(c[..last], k, n);
    if j == last {
      SpreadMembers(c[..last], k, n, c[i]);
      assert c[..last][i] == c[i];
      var at :| 0 <= at < |rest| && rest[at] == c[i];
      a, b := 0, at + 1;
    } else {
      a, b := SpreadReverses(c[..last], k, n, i, j);
      if c[last].hashv % n == k {
        a, b := a + 1, b + 1;
      }
    }
  }

  /** After doubling, chain k holds exactly the elements with remainder k. */
  lemma SpreadAllMembers(chains: seq<seq<Handle>>, k: nat, h: Handle)
    requires 0 < |chains| && k < 2 * |chains|
    ensures h in SpreadAll(chains)[k] <==> h in chains[k % |chains|] && h.hashv % (2 * |chains|) == k
  {
    SpreadMembers(chains[k % |chains|], k, 2 * |chains|, h);
  }

  lemma SlotHalves(hashv: nat, n: nat)
    requires 0 < n
    ensures Slot(hashv, 2 * n) == Slot(hashv, n) || Slot(hashv, 2 * n) == Slot(hashv, n) + n
    ensures Slot(Slot(hashv, 2 * n), n) == Slot(hashv, n)
  {
    ModDouble(hashv, n);
  }

  /** Every element of chain b lands in exactly one of the new chains b and b + n. */
  lemma {:induction false} SpreadSplits(c: seq<Handle>, b: nat, n: nat)
    requires b < n && forall i :: 0 <= i < |c| ==> Slot(c[i].hashv, n) == b
    ensures multiset(Spread(c, b, 2 * n)) + multiset(Spread(c, b + n, 2 * n)) == multiset(c)
    decreases |c|
  {
    if |c| > 0 {
      var last := |c| - 1;
      SpreadSplits(c[..last], b, n);
      SlotHalves(c[last].hashv, n);
      assert c == c[..last] + [c[last]];
      ConsElements(c[last], Spread(c[..last], b, 2 * n));
      ConsElements(c[last], Spread(c[..last], b + n, 2 * n));
    }
  }

  /** Moving the next element of chain b pushes it on one new chain and leaves the others. */
  lemma SpreadAllStep(part: seq<seq<Handle>>, b: nat, h: Handle)
    requires b < |part| && Slot(h.hashv, |part|) == b
    ensures var k := Slot(h.hashv, 2 * |part|);
            SpreadAll(part[b := part[b] + [h]]) == SpreadAll(part)[k := [h] + SpreadAll(part)[k]]
  {
    var n, k := |part|, Slot(h.hashv, 2 * |part|);
    SlotHalves(h.hashv, n);
    var part' := part[b := part[b] + [h]];
    forall j | 0 <= j < 2 * n
      ensures SpreadAll(part')[j] == SpreadAll(part)[k := [h] + SpreadAll(part)[k]][j]
    {
      var c := part'[Slot(j, n)];
      if Slot(j, n) == b {
        assert c[..|c| - 1] == part[b];
      }
    }
  }

  // ---------- the statistics an expansion computes ----------

  /** The threshold multiplier of a bucket that received `count` elements one by one. */
  function Mult(count: nat, ideal: nat): nat {
    if count <= ideal then 0
    else
      var m := Mult(count - 1, ideal);
      if count > m * ideal then m + 1 else m
  }

  lemma {:induction false} MultBounds(count: nat, ideal: nat)
    requires 1 <= ideal
    ensures Mult(count, ideal) == 0 <==> count <= ideal
    ensures count > ideal ==> (Mult(count, ideal) - 1) * ideal < count <= Mult(count, ideal) * ideal + 1
    decreases count
  {
    if count > ideal {
      MultBounds(count - 1, ideal);
      var m := Mult(count - 1, ideal);
      assert (m + 1) * ideal == m * ideal + ideal;
      if m > 0 {
        assert (m - 1) * ideal == m * ideal - ideal;
      }
    }
  }

  /** In closed form: a bucket within the ideal has none, one element more gives one, and from then
      on the multiplier is the ceiling of the quotient; for an ideal of one it stays one behind. */
  lemma {:induction false} MultIs(count: nat, ideal: nat)
    requires 1 <= ideal
    ensures Mult(count, ideal) ==
              if count <= ideal then 0
              else if ideal == 1 then count - 1
              else if count == ideal + 1 then 1
              else CeilDiv(count, ideal)
    decreases count
  {
    if count > ideal {
      MultIs(count - 1, ideal);
      if ideal > 1 && count > ideal + 1 {
        CeilStep(count, ideal);
        if count == ideal + 2 {
          DivModUnique(ideal + 2 + ideal - 1, ideal, 2, 1);
        }
      }
    }
  }

  /** The ceiling grows by one behind every multiple of the divisor. */
  lemma CeilStep(count: nat, ideal: nat)
    requires 1 <= ideal && 1 <= count
    ensures CeilDiv(count, ideal) ==
              if count - 1 > (CeilDiv(count - 1, ideal) - 1) * ideal && count > CeilDiv(count - 1, ideal) * ideal then
                CeilDiv(count - 1, ideal) + 1
              else CeilDiv(count - 1, ideal)
  {
    var q, r := (count - 1 + ideal - 1) / ideal, (count - 1 + ideal - 1) % ideal;
    assert count - 1 + ideal - 1 == q * ideal + r;
    assert (q - 1) * ideal == q * ideal - ideal;
    if r == ideal - 1 {
      assert count + ideal - 1 == (q + 1) * ideal + 0 by {
        assert (q + 1) * ideal == q * ideal + ideal;
      }
      DivModUnique(count + ideal - 1, ideal, q + 1, 0);
    } else {
      DivModUnique(count + ideal - 1, ideal, q, r + 1);
    }
  }

  function Over(count: nat, ideal: nat): nat {
    if count > ideal then count - ideal else 0
  }

  /** How many elements sit deeper in their chain than the ideal length. */
  function Excess(chains: seq<seq<Handle>>, ideal: nat): nat {
    if |chains| == 0 then 0 else Over(|chains[0]|, ideal) + Excess(chains[1..], ideal)
  }

  /** The places beyond the ideal depth. */
  ghost function Deep(chains: seq<seq<Handle>>, ideal: nat): set<(nat, nat)> {
    set k: nat, i: nat | k < |chains| && ideal <= i < |chains[k]| :: (k, i)
  }

  /** The excess counts exactly the elements that sit at such a place. */
  lemma {:induction false} ExcessCounts(chains: seq<seq<Handle>>, ideal: nat)
    ensures Excess(chains, ideal) == |Deep(chains, ideal)|
    decreases |chains|
  {
    if |chains| == 0 {
      assert Deep(chains, ideal) == {};
    } else {
      ExcessCounts(chains[1..], ideal);
      RowSize(|chains[0]|, ideal);
      ShiftedSize(Deep(chains[1..], ideal));
      DeepSplits(chains, ideal);
    }
  }

  lemma DeepSplits(chains: seq<seq<Handle>>, ideal: nat)
    requires 0 < |chains|
    ensures Row(|chains[0]|, ideal) !! Shifted(Deep(chains[1..], ideal))
    ensures Deep(chains, ideal) == Row(|chains[0]|, ideal) + Shifted(Deep(chains[1..], ideal))
  {
    var rest := Deep(chains[1..], ideal);
    forall p | p in Deep(chains, ideal)
      ensures p in Row(|chains[0]|, ideal) + Shifted(rest)
    {
      if p.0 > 0 {
        assert chains[p.0] == chains[1..][p.0 - 1];
        assert (p.0 - 1, p.1) in rest;
        assert p == ((p.0 - 1) + 1, p.1);
      }
    }
    forall p | p in Shifted(rest)
      ensures p in Deep(chains, ideal) && p.0 > 0
    {
      var q :| q in rest && p == (q.0 + 1, q.1);
      assert chains[p.0] == chains[1..][q.0];
    }
  }

  ghost function Row(count: nat, ideal: nat): set<(nat, nat)> {
    set i: nat | ideal <= i < count :: (0, i)
  }

  lemma {:induction false} RowSize(count: nat, ideal: nat)
    ensures |Row(count, ideal)| == Over(count, ideal)
  {
    if count > ideal {
      RowSize(count - 1, ideal);
      assert Row(count, ideal) == Row(count - 1, ideal) + {(0, count - 1)};
    } else {
      assert Row(count, ideal) == {};
    }
  }

  ghost function Shifted(places: set<(nat, nat)>): set<(nat, nat)> {
    set p | p in places :: (p.0 + 1, p.1)
  }

  lemma ShiftedOne(places: set<(nat, nat)>, p: (nat, nat))
    requires p in places
    ensures Shifted(places) == Shifted(places - {p}) + {(p.0 + 1, p.1)} && (p.0 + 1, p.1) !in Shifted(places - {p})
  {
  }

  lemma {:induction false} ShiftedSize(places: set<(nat, nat)>)
    ensures |Shifted(places)| == |places|
  {
    if places != {} {
      var p :| p in places;
      ShiftedSize(places - {p});
      ShiftedOne(places, p);
    } else {
      assert Shifted(places) == {};
    }
  }

  lemma {:induction false} ExcessUpdate(chains: seq<seq<Handle>>, k: nat, c: seq<Handle>, ideal: nat)
    requires k < |chains|
    ensures Excess(chains[k := c], ideal) == Excess(chains, ideal) - Over(|chains[k]|, ideal) + Over(|c|, ideal)
    decreases |chains|
  {
    if k > 0 {
      assert chains[k := c][1..] == chains[1..][k - 1 := c];
      ExcessUpdate(chains[1..], k - 1, c, ideal);
    } else {
      assert chains[k := c][1..] == chains[1..];
    }
  }

  function CeilDiv(n: nat, d: nat): nat
    requires 0 < d
  {
    (n + d - 1) / d
  }

  lemma CeilBounds(n: nat, d: nat)
    requires 0 < n && 0 < d
    ensures 1 <= CeilDiv(n, d)
    ensures (CeilDiv(n, d) - 1) * d < n <= CeilDiv(n, d) * d
  {
    var q, r := (n + d - 1) / d, (n + d - 1) % d;
    assert n + d - 1 == q * d + r;
    if q <= 0 {
      MulAtLeast(q - 1, d);
    }
    assert (q - 1) * d == q * d - d;
  }

  /** The shift-and-mask form of the ceiling. */
  lemma CeilByShift(n: nat, k: nat)
    ensures Shr(n, k) + (if And(n, Pow2(k) - 1) != 0 then 1 else 0) == CeilDiv(n, Pow2(k))
  {
    ShrDivides(n, k);
    AndMask(n, k);
    Ceil(n, Pow2(k));
  }

  lemma Ceil(n: nat, d: nat)
    requires 0 < d
    ensures CeilDiv(n, d) == n / d + (if n % d != 0 then 1 else 0)
  {
    var q, r := n / d, n % d;
    if r == 0 {
      DivModUnique(n + d - 1, d, q, d - 1);
    } else {
      assert n + d - 1 == (q + 1) * d + (r - 1);
      DivModUnique(n + d - 1, d, q + 1, r - 1);
    }
  }
}
