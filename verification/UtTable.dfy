/** The bucket side of the hash table: chains, Bloom filter, adding, removing, finding. */
module UtTable {
  import opened Basics
  import opened Bits
  import opened UtHandle
  import opened UtBuckets
  import opened UtExpand
  import opened UtBloom

  const HASH_INITIAL_NUM_BUCKETS: nat := 32
  const HASH_INITIAL_NUM_BUCKETS_LOG2: nat := 5
  const HASH_BKT_CAPACITY_THRESH: nat := 10

  /** The bucket side of a hash table (UT_hash_table). */
  class Table {
    var buckets: array<Bucket>
    var numBuckets: nat
    var log2NumBuckets: nat
    var numItems: nat
    var tail: Handle?
    var idealChainMaxlen: nat
    var nonidealItems: nat
    var ineffExpands: nat
    var noexpand: bool
    const hasBloom: bool
    const bloomNbits: nat
    const bloomBv: array<bv8>
    ghost var chains: seq<seq<Handle>>

    /** The chains are well formed, counted and in the right buckets. */
    ghost predicate ChainsOk(items: set<Handle>)
      reads this`buckets, this`numBuckets, this`log2NumBuckets, this`chains, buckets, items`hhPrev, items`hhNext
    {
      && numBuckets == |chains| == buckets.Length == Pow2(log2NumBuckets)
      && BucketsOk(buckets[..], chains, items)
    }

    /** The filter knows every element. */
    ghost predicate BloomKnows(items: set<Handle>)
      reads bloomBv
    {
      hasBloom ==>
        && bloomBv.Length == ByteLen(bloomNbits)
        && forall h :: h in items ==> Tested(bloomBv[..], Slot(h.hashv, Pow2(bloomNbits)))
    }

    /** The chains hold exactly the given elements, each in the slot of its hash value. */
    ghost predicate Holds(items: set<Handle>)
      reads this, buckets, bloomBv, items`hhPrev, items`hhNext
    {
      && ChainsOk(items) && (buckets as object) != bloomBv
      && InSlot(chains, items)
      && numItems == |items|
      && BloomKnows(items)
    }

    /** HASH_MAKE_TABLE */
    constructor (tail: Handle, hasBloom: bool, bloomNbits: nat)
      ensures Holds({}) && fresh(buckets) && fresh(bloomBv)
      ensures numBuckets == 32 && log2NumBuckets == 5 && !noexpand && ineffExpands == 0
      ensures forall b :: 0 <= b < 32 ==> chains[b] == []
      ensures this.tail == tail
      ensures this.hasBloom == hasBloom && this.bloomNbits == bloomNbits
    {
      buckets := new Bucket[HASH_INITIAL_NUM_BUCKETS](_ => EMPTY_BUCKET);
      numBuckets, log2NumBuckets := HASH_INITIAL_NUM_BUCKETS, HASH_INITIAL_NUM_BUCKETS_LOG2;
      numItems, idealChainMaxlen, nonidealItems, ineffExpands, noexpand := 0, 0, 0, 0, false;
      this.tail, this.hasBloom, this.bloomNbits := tail, hasBloom, bloomNbits;
      bloomBv := new bv8[ByteLen(bloomNbits)](_ => 0);
      chains := seq(HASH_INITIAL_NUM_BUCKETS, _ => []);
    }

    /** Replace the bucket array and decide whether expanding still helps. */
    method Install(after: array<Bucket>, ideal: nat, nonideal: nat, ghost doubled: seq<seq<Handle>>,
                   ghost items: set<Handle>)
      requires after.Length == 2 * numBuckets && numBuckets == Pow2(log2NumBuckets)
      requires |doubled| == after.Length && BucketsOk(after[..], doubled, items)
      modifies this`buckets, this`numBuckets, this`log2NumBuckets, this`chains, this`idealChainMaxlen
      modifies this`nonidealItems, this`ineffExpands, this`noexpand
      ensures ChainsOk(items) && chains == doubled && buckets == after && numBuckets == 2 * old(numBuckets)
      ensures idealChainMaxlen == ideal && nonidealItems == nonideal
      ensures ineffExpands == if nonidealItems > numItems / 2 then old(ineffExpands) + 1 else 0
      ensures noexpand == (old(noexpand) || ineffExpands > 1)
    {
      idealChainMaxlen, nonidealItems := ideal, nonideal;
      numBuckets := numBuckets * 2;
      log2NumBuckets := log2NumBuckets + 1;
      buckets := after;
      ineffExpands := if nonidealItems > numItems / 2 then ineffExpands + 1 else 0;
      if ineffExpands > 1 {
        noexpand := true;
      }
      chains := doubled;
    }

    /** HASH_EXPAND_BUCKETS */
    method Expand(ghost items: set<Handle>)
      requires ChainsOk(items) && InSlot(chains, items)
      modifies this`buckets, this`numBuckets, this`log2NumBuckets, this`chains, this`idealChainMaxlen
      modifies this`nonidealItems, this`ineffExpands, this`noexpand
      modifies items`hhPrev, items`hhNext
      ensures ChainsOk(items) && InSlot(chains, items)
      ensures fresh(buckets)
      ensures chains == SpreadAll(old(chains)) && numBuckets == 2 * old(numBuckets)
      ensures idealChainMaxlen == CeilDiv(numItems, numBuckets)
      ensures nonidealItems == Excess(chains, idealChainMaxlen)
      ensures MultsOk(buckets[..], chains, idealChainMaxlen)
      ensures ineffExpands == if nonidealItems > numItems / 2 then old(ineffExpands) + 1 else 0
      ensures noexpand == (old(noexpand) || ineffExpands > 1)
    {
      SpreadAllKeeps(chains, items);
      var after, ideal, nonideal := ExpandBuckets(buckets, log2NumBuckets, numItems, chains, items);
      Install(after, ideal, nonideal, SpreadAll(chains), items);
    }

    /** Adding to the bucket of `add` reaches its threshold, and expanding is not given up. */
    predicate Crowded(add: Handle)
      requires 0 < buckets.Length
      reads this`buckets, this`noexpand, buckets
    {
      var bucket := buckets[Slot(add.hashv, buckets.Length)];
      bucket.count + 1 >= (bucket.expandMult + 1) * HASH_BKT_CAPACITY_THRESH && !noexpand
    }

    method PushInBkt(b: nat, add: Handle, ghost items: set<Handle>)
      requires ChainsOk(items) && InSlot(chains, items) && add !in items && b == Slot(add.hashv, numBuckets)
      modifies this`chains, buckets, items`hhPrev, items`hhNext, add`hhPrev, add`hhNext
      ensures ChainsOk(items + {add}) && InSlot(chains, items + {add}) && chains == Pushed(old(chains), add)
      ensures buckets[b].count == old(buckets[b].count) + 1
      ensures forall j :: 0 <= j < buckets.Length ==> buckets[j].expandMult == old(buckets[j].expandMult)
    {
      ghost var items' := items + {add};
      BucketsOkGrows(buckets[..], chains, items, items');
      assert BucketOk(buckets[b], chains[b], b, |chains|, items);
      PushFront(buckets, chains, b, add, items');
      InSlotPush(chains, items, b, add);
      chains := chains[b := [add] + chains[b]];
    }

    /** HASH_ADD_TO_BKT: one chain grows at its front, and all are spread over twice as many
        buckets exactly when that makes the bucket crowded. */
    method AddToBkt(add: Handle, ghost items: set<Handle>)
      requires ChainsOk(items) && InSlot(chains, items) && add !in items
      modifies this`buckets, this`numBuckets, this`log2NumBuckets, this`chains, this`idealChainMaxlen
      modifies this`nonidealItems, this`ineffExpands, this`noexpand
      modifies buckets, items`hhPrev, items`hhNext, add`hhPrev, add`hhNext
      ensures ChainsOk(items + {add}) && InSlot(chains, items + {add})
      ensures buckets == old(buckets) || fresh(buckets)
      ensures var pushed := Pushed(old(chains), add);
              chains == if old(Crowded(add)) then SpreadAll(pushed) else pushed
      ensures var bucket := old(buckets[add.hashv % buckets.Length]);
              numBuckets == if bucket.count + 1 >= (bucket.expandMult + 1) * 10 && !old(noexpand) then
                              2 * old(numBuckets)
                            else old(numBuckets)
      ensures !old(Crowded(add)) ==>
                && noexpand == old(noexpand) && ineffExpands == old(ineffExpands)
                && idealChainMaxlen == old(idealChainMaxlen) && nonidealItems == old(nonidealItems)
                && buckets == old(buckets)
                && forall j :: 0 <= j < buckets.Length ==> buckets[j].expandMult == old(buckets[j].expandMult)
      ensures old(Crowded(add)) ==>
                && idealChainMaxlen == CeilDiv(numItems, numBuckets)
                && nonidealItems == Excess(chains, idealChainMaxlen)
                && MultsOk(buckets[..], chains, idealChainMaxlen)
                && ineffExpands == (if nonidealItems > numItems / 2 then old(ineffExpands) + 1 else 0)
                && noexpand == (ineffExpands > 1)
    {
      var b := HashToBkt(add.hashv, numBuckets, log2NumBuckets);
      PushInBkt(b, add, items);
      if buckets[b].count >= (buckets[b].expandMult + 1) * HASH_BKT_CAPACITY_THRESH && !noexpand {
        Expand(items + {add});
      }
    }

    /** HASH_BLOOM_ADD */
    method BloomAdd(add: Handle, ghost items: set<Handle>)
      requires BloomKnows(items)
      modifies bloomBv
      ensures BloomKnows(items + {add})
      ensures hasBloom ==> forall j :: 0 <= j < Pow2(bloomNbits) ==>
                (Tested(bloomBv[..], j) <==> old(Tested(bloomBv[..], j)) || j == add.hashv % Pow2(bloomNbits))
      ensures !hasBloom ==> bloomBv[..] == old(bloomBv[..])
    {
      if hasBloom {
        AndMask(add.hashv, bloomNbits);
        var idx := And(add.hashv, Pow2(bloomNbits) - 1);
        BitSet(bloomBv, idx);
        assert idx == Slot(add.hashv, Pow2(bloomNbits));
      }
    }

    /** The filter is the last to learn of an element already counted and chained. */
    method BloomAddLast(add: Handle, ghost items: set<Handle>)
      requires BloomKnows(items) && (buckets as object) != bloomBv
      requires ChainsOk(items + {add}) && InSlot(chains, items + {add}) && numItems == |items + {add}|
      modifies bloomBv
      ensures Holds(items + {add})
    {
      BloomAdd(add, items);
    }

    /** HASH_ADD_TO_TABLE */
    method AddToTable(add: Handle, ghost items: set<Handle>)
      requires Holds(items) && add !in items
      modifies this`buckets, this`numBuckets, this`log2NumBuckets, this`chains, this`idealChainMaxlen
      modifies this`nonidealItems, this`ineffExpands, this`noexpand, this`numItems
      modifies buckets, bloomBv, items`hhPrev, items`hhNext, add`hhPrev, add`hhNext
      ensures Holds(items + {add})
      ensures buckets == old(buckets) || fresh(buckets)
    {
      numItems := numItems + 1;
      AddToBkt(add, items);
      BloomAddLast(add, items);
    }

    /** The bucket part of HASH_DELETE_HH */
    method DelFromTable(del: Handle, ghost items: set<Handle>)
      requires Holds(items) && del in items
      modifies this`chains, this`numItems, buckets, items`hhPrev, items`hhNext
      ensures Holds(items - {del})
    {
      var b := HashToBkt(del.hashv, numBuckets, log2NumBuckets);
      ghost var k :| 0 <= k < |chains[b]| && chains[b][k] == del;
      DelInBkt(buckets, chains, b, del, k, items);
      InSlotDrop(buckets[..], chains, items, b, k, del);
      Shrink(chains[b := Without(chains[b], k)], items - {del});
    }

    method Shrink(ghost rest: seq<seq<Handle>>, ghost items: set<Handle>)
      requires numBuckets == |rest| == buckets.Length == Pow2(log2NumBuckets)
      requires BucketsOk(buckets[..], rest, items) && InSlot(rest, items)
      requires BloomKnows(items) && (buckets as object) != bloomBv
      requires 0 < numItems && |items| == numItems - 1
      modifies this`chains, this`numItems
      ensures Holds(items)
    {
      chains := rest;
      numItems := numItems - 1;
    }

    /** HASH_FIND_IN_BKT */
    method FindInBkt(b: nat, key: Key, hashval: nat, ghost items: set<Handle>) returns (out: Handle?)
      requires ChainsOk(items) && b < numBuckets
      ensures out != null ==> out in chains[b] && Matches(out, key, hashval)
      ensures out == null ==> forall h :: h in chains[b] ==> !Matches(h, key, hashval)
    {
      ghost var c := chains[b];
      assert BucketOk(buckets[b], c, b, |chains|, items);
      out := buckets[b].hhHead;
      ghost var j := 0;
      while out != null
        invariant 0 <= j <= |c| && out == At(c, j)
        invariant forall i :: 0 <= i < j ==> !Matches(c[i], key, hashval)
        decreases |c| - j
      {
        if out.hashv == hashval && |out.key| == |key| {
          if out.key == key {
            break;
          }
        }
        out := out.hhNext;
        j := j + 1;
      }
    }

    /** HASH_BLOOM_TEST: it reads the bit of the hash value, and a negative answer is never wrong. */
    method BloomTest(hashval: nat, ghost items: set<Handle>) returns (maybe: bool)
      requires BloomKnows(items)
      ensures maybe <==> (hasBloom ==> Tested(bloomBv[..], hashval % Pow2(bloomNbits)))
      ensures !maybe ==> forall h :: h in items ==> h.hashv != hashval
    {
      maybe := true;
      if hasBloom {
        AndMask(hashval, bloomNbits);
        var idx := And(hashval, Pow2(bloomNbits) - 1);
        assert idx == Slot(hashval, Pow2(bloomNbits));
        maybe := Tested(bloomBv[..], idx);
      }
    }

    /** HASH_FIND_BYHASHVALUE on an existing table. Whether or not the filter is compiled in
        makes no difference to what is found. */
    method Find(key: Key, hashval: nat, ghost items: set<Handle>) returns (out: Handle?)
      requires Holds(items)
      ensures out != null ==> out in items && Matches(out, key, hashval)
      ensures out == null ==> forall h :: h in items ==> !Matches(h, key, hashval)
    {
      var b := HashToBkt(hashval, numBuckets, log2NumBuckets);
      out := null;
      var maybe := BloomTest(hashval, items);
      if maybe {
        out := FindInBkt(b, key, hashval, items);
        assert BucketOk(buckets[b], chains[b], b, |chains|, items);
      }
    }
  }

  /** The element an exact lookup is after. */
  predicate Matches(h: Handle, key: Key, hashval: nat) {
    h.hashv == hashval && h.key == key
  }

  /** The chains with `add` in front of the chain of its slot. */
  ghost function Pushed(chains: seq<seq<Handle>>, add: Handle): seq<seq<Handle>>
    requires 0 < |chains|
  {
    var b := Slot(add.hashv, |chains|);
    chains[b := [add] + chains[b]]
  }

  lemma BucketsOkGrows(buckets: seq<Bucket>, chains: seq<seq<Handle>>, items: set<Handle>, more: set<Handle>)
    requires BucketsOk(buckets, chains, items) && items <= more
    ensures BucketsOk(buckets, chains, more)
  {
    forall b | 0 <= b < |chains|
      ensures BucketOk(buckets[b], chains[b], b, |chains|, more)
    {
      assert BucketOk(buckets[b], chains[b], b, |chains|, items);
    }
  }

  lemma InSlotPush(chains: seq<seq<Handle>>, items: set<Handle>, b: nat, add: Handle)
    requires b < |chains| && b == Slot(add.hashv, |chains|) && InSlot(chains, items)
    ensures InSlot(chains[b := [add] + chains[b]], items + {add})
  {
  }

  /** What is left of the chains after taking one element out. */
  lemma InSlotDrop(buckets: seq<Bucket>, chains: seq<seq<Handle>>, items: set<Handle>, b: nat, k: nat, del: Handle)
    requires b < |chains| && k < |chains[b]| && chains[b][k] == del && Slot(del.hashv, |chains|) == b
    requires Distinct(chains[b]) && InSlot(chains, items)
    requires BucketsOk(buckets, chains[b := Without(chains[b], k)], items)
    ensures InSlot(chains[b := Without(chains[b], k)], items - {del})
    ensures BucketsOk(buckets, chains[b := Without(chains[b], k)], items - {del})
  {
    var c, after := chains[b], chains[b := Without(chains[b], k)];
    forall h | h in items - {del}
      ensures h in after[Slot(h.hashv, |chains|)]
    {
      if Slot(h.hashv, |chains|) == b {
        var i :| 0 <= i < |c| && c[i] == h;
        assert Without(c, k)[if i < k then i else i - 1] == h;
      }
    }
    forall j | 0 <= j < |after|
      ensures BucketOk(buckets[j], after[j], j, |after|, items - {del})
    {
      assert BucketOk(buckets[j], after[j], j, |after|, items);
    }
  }

  ghost predicate InSlot(chains: seq<seq<Handle>>, items: set<Handle>)
    requires 0 < |chains|
  {
    forall h :: h in items ==> h in chains[Slot(h.hashv, |chains|)]
  }

  lemma SpreadAllKeeps(chains: seq<seq<Handle>>, items: set<Handle>)
    requires 0 < |chains| && InSlot(chains, items)
    ensures InSlot(SpreadAll(chains), items)
  {
    forall h | h in items
      ensures h in SpreadAll(chains)[Slot(h.hashv, 2 * |chains|)]
    {
      var n := |chains|;
      SlotHalves(h.hashv, n);
      SpreadMembers(chains[Slot(h.hashv, n)], Slot(h.hashv, 2 * n), 2 * n, h);
    }
  }
}
