/** What the chunkers compute, in plain terms: digits of a sum of table entries. */
module CdcPlain {
  import opened Basics
  import opened Bits
  import opened GearCut
  import opened FastCdc

  // ---------- what the masks test ----------

  lemma Places()
    ensures Pow2(16) == 0x1_0000 && Pow2(17) == 0x2_0000 && Pow2(20) == 0x10_0000 && Pow2(22) == 0x40_0000
    ensures Pow2(24) == 0x100_0000 && Pow2(25) == 0x200_0000 && Pow2(26) == 0x400_0000
    ensures Pow2(36) == 0x10_0000_0000 && Pow2(37) == 0x20_0000_0000
    ensures Pow2(38) == 0x40_0000_0000 && Pow2(39) == 0x80_0000_0000
    ensures Pow2(40) == 0x100_0000_0000 && Pow2(43) == 0x800_0000_0000 && Pow2(44) == 0x1000_0000_0000
    ensures Pow2(46) == 0x4000_0000_0000 && Pow2(47) == 0x8000_0000_0000
  {
    Pow2Values();
    Pow2Add(16, 1);
    Pow2Add(16, 4);
    Pow2Add(16, 6);
    Pow2Add(16, 8);
    Pow2Add(24, 1);
    Pow2Add(24, 2);
    Pow2Add(36, 1);
    Pow2Add(36, 2);
    Pow2Add(36, 3);
    Pow2Add(36, 4);
    Pow2Add(40, 3);
    Pow2Add(40, 4);
    Pow2Add(40, 6);
    Pow2Add(40, 7);
  }

  /** Two more digits on top of a mask. */
  lemma AddTwo(f: Word, m: nat, ks: seq<nat>, k: nat, l: nat)
    requires m < Pow2(k) && m + Pow2(k) < Pow2(l) && (And(f, m) == 0 <==> ZeroAt(f, ks))
    ensures And(f, m + Pow2(k) + Pow2(l)) == 0 <==> ZeroAt(f, ks + [k, l])
  {
    AddPlace(f, m, ks, k);
    AddPlace(f, m + Pow2(k), ks + [k], l);
    assert ks + [k] + [l] == ks + [k, l];
  }

  lemma FourLow(f: Word)
    ensures And(f, 0x53_0000) == 0 <==> ZeroAt(f, [16, 17, 20, 22])
  {
    Places();
    assert [] + [16, 17] == [16, 17] && [16, 17] + [20, 22] == [16, 17, 20, 22];
    AddTwo(f, 0, [], 16, 17);
    AddTwo(f, 0x3_0000, [16, 17], 20, 22);
  }

  /** The digits that all three masks test below the place 32. */
  lemma LowPlaces(f: Word)
    ensures And(f, 0x353_0000) == 0 <==> ZeroAt(f, [16, 17, 20, 22, 24, 25])
  {
    Places();
    FourLow(f);
    assert [16, 17, 20, 22] + [24, 25] == [16, 17, 20, 22, 24, 25];
    AddTwo(f, 0x53_0000, [16, 17, 20, 22], 24, 25);
  }

  /** The digits that all three masks test above the place 39. */
  lemma HighPlaces(f: Word, m: nat, ks: seq<nat>)
    requires m < 0x100_0000_0000 && (And(f, m) == 0 <==> ZeroAt(f, ks))
    ensures And(f, m + 0xd900_0000_0000) == 0 <==> ZeroAt(f, ks + [40, 43, 44, 46, 47])
  {
    Places();
    AddPlace(f, m, ks, 40);
    AddTwo(f, m + 0x100_0000_0000, ks + [40], 43, 44);
    AddTwo(f, m + 0x1900_0000_0000, ks + [40] + [43, 44], 46, 47);
    assert ks + [40] + [43, 44] + [46, 47] == ks + [40, 43, 44, 46, 47];
  }

  /** The 2 KB mask tests 11 digits of the fingerprint. */
  lemma Mask02KBTests(f: Word)
    ensures And(f, MASK_02KB) == 0 <==> ZeroAt(f, [16, 17, 20, 22, 24, 25, 40, 43, 44, 46, 47])
  {
    LowPlaces(f);
    HighPlaces(f, 0x353_0000, [16, 17, 20, 22, 24, 25]);
    assert [16, 17, 20, 22, 24, 25] + [40, 43, 44, 46, 47] == [16, 17, 20, 22, 24, 25, 40, 43, 44, 46, 47];
  }

  lemma MiddlePlaces(f: Word)
    ensures And(f, 0x30_0353_0000) == 0 <==> ZeroAt(f, [16, 17, 20, 22, 24, 25, 36, 37])
  {
    Places();
    LowPlaces(f);
    assert [16, 17, 20, 22, 24, 25] + [36, 37] == [16, 17, 20, 22, 24, 25, 36, 37];
    AddTwo(f, 0x353_0000, [16, 17, 20, 22, 24, 25], 36, 37);
  }

  /** The 8 KB mask tests 13 digits. */
  lemma Mask08KBTests(f: Word)
    ensures And(f, MASK_08KB) == 0 <==> ZeroAt(f, [16, 17, 20, 22, 24, 25, 36, 37, 40, 43, 44, 46, 47])
  {
    var ks := [16, 17, 20, 22, 24, 25, 36, 37];
    MiddlePlaces(f);
    HighPlaces(f, 0x30_0353_0000, ks);
    assert ks + [40, 43, 44, 46, 47] == [16, 17, 20, 22, 24, 25, 36, 37, 40, 43, 44, 46, 47];
  }

  /** The 32 KB mask tests 15 digits. */
  lemma Mask32KBTests(f: Word)
    ensures And(f, MASK_32KB) == 0 <==> ZeroAt(f, [16, 17, 20, 22, 24, 25, 36, 37, 38, 39, 40, 43, 44, 46, 47])
  {
    var ks := [16, 17, 20, 22, 24, 25, 36, 37];
    Places();
    MiddlePlaces(f);
    AddTwo(f, 0x30_0353_0000, ks, 38, 39);
    HighPlaces(f, 0xf0_0353_0000, ks + [38, 39]);
    assert ks + [38, 39] + [40, 43, 44, 46, 47] == [16, 17, 20, 22, 24, 25, 36, 37, 38, 39, 40, 43, 44, 46, 47];
  }

  // ---------- the fingerprint ----------

  /** The table entries of the bytes p[s..i], each shifted by how many bytes follow it. */
  function GearSum(g: Gear, p: seq<Byte>, s: nat, i: nat): nat
    requires s <= i <= |p|
    decreases i - s
  {
    if s == i then 0 else g[p[s]] * Pow2(i - 1 - s) + GearSum(g, p, s + 1, i)
  }

  /** One more byte doubles the sum and adds an entry. */
  lemma {:induction false} GearSumNext(g: Gear, p: seq<Byte>, s: nat, i: nat)
    requires s <= i < |p|
    ensures GearSum(g, p, s, i + 1) == 2 * GearSum(g, p, s, i) + g[p[i]]
    decreases i - s
  {
    if s < i {
      GearSumNext(g, p, s + 1, i);
      DoubledTerm(g[p[s]], i - 1 - s);
    }
  }

  lemma DoubledTerm(x: nat, k: nat)
    ensures x * Pow2(k + 1) == 2 * (x * Pow2(k))
  {
  }

  lemma RollIsRemainder(f: Word, sum: nat, v: Word, next: nat)
    requires f == sum % WORD && next == 2 * sum + v
    ensures Roll(f, v) == next % WORD
  {
    var q, low := Parts(sum, WORD);
    assert next == (2 * q) * WORD + (2 * low + v);
    ModShift(2 * low + v, 2 * q, WORD);
    assert Roll(low, v) == (2 * low + v) % WORD;
  }

  /** The fingerprint is the sum modulo 2^64. */
  lemma {:induction false} FingerprintIsSum(g: Gear, p: seq<Byte>, s: nat, i: nat)
    requires s <= i <= |p|
    ensures Fingerprint(g, p, s, i) == GearSum(g, p, s, i) % 0x1_0000_0000_0000_0000
    decreases i
  {
    if s < i {
      FingerprintIsSum(g, p, s, i - 1);
      GearSumNext(g, p, s, i - 1);
      RollIsRemainder(Fingerprint(g, p, s, i - 1), GearSum(g, p, s, i - 1), g[p[i - 1]], GearSum(g, p, s, i));
    } else {
      assert GearSum(g, p, s, i) == 0;
    }
  }

  // ---------- the cuts ----------

  /** The byte at i ends a run from s whose sum has the given digits zero. */
  ghost predicate CutsAt(g: Gear, p: seq<Byte>, s: nat, i: nat, ks: seq<nat>)
    requires s <= i < |p|
  {
    ZeroAt(GearSum(g, p, s, i + 1) % 0x1_0000_0000_0000_0000, ks)
  }

  /** The digits that the normalized forms test at position i. */
  function NormalPlaces(i: nat): seq<nat> {
    if i < 8192 then [16, 17, 20, 22, 24, 25, 36, 37, 38, 39, 40, 43, 44, 46, 47]
    else [16, 17, 20, 22, 24, 25, 40, 43, 44, 46, 47]
  }

  const ORIGIN_PLACES: seq<nat> := [16, 17, 20, 22, 24, 25, 36, 37, 40, 43, 44, 46, 47]

  /** r is where a chunker cuts n bytes: at the first place from s on that cuts, if there is one
      among the first maxSize bytes, and else behind them; at most minSize bytes are not cut. */
  ghost predicate IsCut(g: Gear, p: seq<Byte>, n: nat, minSize: nat, s: nat, maxSize: nat,
                        places: nat -> seq<nat>, r: nat)
    requires n <= |p|
  {
    var m := if n <= maxSize then n else maxSize;
    if n <= minSize then r == n
    else
      && (r == m || (s <= r < m && CutsAt(g, p, s, r, places(r))))
      && forall j :: s <= j < r && j < m ==> !CutsAt(g, p, s, j, places(j))
  }

  lemma CutIs(g: Gear, c: Config, p: seq<Byte>, n: nat, places: nat -> seq<nat>)
    requires n <= |p| && !c.pairs
    requires forall f: Word, i: nat :: And(f, c.MaskAt(i)) == 0 <==> ZeroAt(f, places(i))
    ensures IsCut(g, p, n, c.minSize, c.start, c.maxSize, places, Cut(g, c, p, n))
  {
    var m := c.Clamp(n);
    forall j | c.start <= j < m
      ensures Hit(g, c, p, j) <==> CutsAt(g, p, c.start, j, places(j))
    {
      FingerprintIsSum(g, p, c.start, j + 1);
    }
    FirstHitMeans(g, c, p, c.start, m);
  }

  lemma OriginCutIs(g: Gear, minSize: nat, maxSize: nat, p: seq<Byte>, n: nat)
    requires n <= |p|
    ensures IsCut(g, p, n, minSize, minSize, maxSize, _ => ORIGIN_PLACES, Cut(g, OriginConfig(minSize, maxSize), p, n))
  {
    var c, places := OriginConfig(minSize, maxSize), (i: nat) => ORIGIN_PLACES;
    forall f: Word, i: nat
      ensures And(f, c.MaskAt(i)) == 0 <==> ZeroAt(f, places(i))
    {
      Mask08KBTests(f);
    }
    CutIs(g, c, p, n, places);
  }

  lemma NormalCutIs(g: Gear, maxSize: nat, p: seq<Byte>, n: nat)
    requires n <= |p|
    ensures IsCut(g, p, n, 6144, 6144, maxSize, NormalPlaces, Cut(g, NormalConfig(maxSize), p, n))
  {
    var c := NormalConfig(maxSize);
    forall f: Word, i: nat
      ensures And(f, c.MaskAt(i)) == 0 <==> ZeroAt(f, NormalPlaces(i))
    {
      Mask32KBTests(f);
      Mask02KBTests(f);
    }
    CutIs(g, c, p, n, NormalPlaces);
  }
}
