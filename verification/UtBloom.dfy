/** The optional Bloom filter of the hash table: a bit array that is set and never cleared. */
module UtBloom {
  import opened Bits

  function Mask(i: nat): bv8
    requires i < 8
  {
    (1 as bv8) << i
  }

  /** HASH_BLOOM_BITTEST */
  predicate Tested(bv: seq<bv8>, idx: nat)
    requires idx / 8 < |bv|
  {
    bv[idx / 8] & Mask(idx % 8) != 0
  }

  /** HASH_BLOOM_BYTELEN for 2^nbits bits. */
  function ByteLen(nbits: nat): (n: nat)
    ensures forall idx :: 0 <= idx < Pow2(nbits) ==> idx / 8 < n
  {
    Pow2(nbits) / 8 + (if Pow2(nbits) % 8 != 0 then 1 else 0)
  }

  lemma MaskBits(i: nat)
    requires i < 8
    ensures Mask(i) != 0
  {
    assert i == 0 || i == 1 || i == 2 || i == 3 || i == 4 || i == 5 || i == 6 || i == 7;
  }

  lemma OrSets(x: bv8, i: nat, j: nat)
    requires i < 8 && j < 8
    ensures (x | Mask(i)) & Mask(j) != 0 <==> x & Mask(j) != 0 || i == j
  {
    MaskBits(i);
    if i != j {
      MasksApart(i, j);
      OrApart(x, Mask(i), Mask(j));
    } else {
      OrKeeps(x, Mask(i), Mask(i));
    }
  }

  lemma OrApart(x: bv8, m: bv8, k: bv8)
    requires m & k == 0
    ensures (x | m) & k == x & k
  {
  }

  lemma MasksApart(i: nat, j: nat)
    requires i < 8 && j < 8 && i != j
    ensures Mask(i) & Mask(j) == 0
  {
    assert i == 0 || i == 1 || i == 2 || i == 3 || i == 4 || i == 5 || i == 6 || i == 7;
    assert j == 0 || j == 1 || j == 2 || j == 3 || j == 4 || j == 5 || j == 6 || j == 7;
  }

  lemma OrKeeps(x: bv8, m: bv8, k: bv8)
    ensures (x | m) & m == m
    ensures x & k != 0 ==> (x | m) & k != 0
  {
  }

  /** HASH_BLOOM_BITSET: this bit is set, and every other is as it was. */
  method BitSet(bv: array<bv8>, idx: nat)
    requires idx / 8 < bv.Length
    modifies bv
    ensures forall j: nat :: j / 8 < bv.Length ==> (Tested(bv[..], j) <==> old(Tested(bv[..], j)) || j == idx)
  {
    var m := Mask(idx % 8);
    ghost var x := bv[idx / 8];
    bv[idx / 8] := bv[idx / 8] | m;
    forall j: nat | j / 8 < bv.Length
      ensures Tested(bv[..], j) <==> old(Tested(bv[..], j)) || j == idx
    {
      OrSets(x, idx % 8, j % 8);
    }
  }
}
