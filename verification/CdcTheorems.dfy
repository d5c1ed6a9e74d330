/** What the chunkers guarantee, for every buffer and every Gear table. */
module CdcTheorems {
  import opened Basics
  import opened Bits
  import opened GearCut
  import opened FastCdc

  // ---------- two bytes per step refine one byte per step ----------

  /** What a two-byte form returns where the one-byte form returns `r`. */
  function OddEnd(c: Config, n: nat, r: nat): nat {
    if c.Clamp(n) % 2 == 1 && r == c.Clamp(n) - 1 then c.Clamp(n) else r
  }

  lemma {:induction false} FirstHitIgnoresPairs(g: Gear, c: Config, p: seq<Byte>, i: nat, n: nat)
    requires c.start <= i && n <= |p|
    ensures FirstHit(g, c.(pairs := true), p, i, n) == FirstHit(g, c.(pairs := false), p, i, n)
    decreases n - i
  {
    if i < n {
      assert Hit(g, c.(pairs := true), p, i) <==> Hit(g, c.(pairs := false), p, i);
      FirstHitIgnoresPairs(g, c, p, i + 1, n);
    }
  }

  lemma PairsRefine(g: Gear, c: Config, p: seq<Byte>, n: nat)
    requires n <= |p|
    ensures Cut(g, c.(pairs := true), p, n) == OddEnd(c, n, Cut(g, c.(pairs := false), p, n))
  {
    FirstHitIgnoresPairs(g, c, p, c.start, c.Clamp(n));
  }

  /** The clamped length is odd and its last byte is the first hit. */
  ghost predicate FirstHitAtOddEnd(g: Gear, c: Config, p: seq<Byte>, n: nat)
    requires n <= |p|
  {
    var m := c.Clamp(n);
    && c.minSize < n && m % 2 == 1 && c.start < m
    && Hit(g, c, p, m - 1)
    && forall j :: c.start <= j < m - 1 ==> !Hit(g, c, p, j)
  }

  /** The two forms of a chunker differ exactly on the buffers that have their first hit at an
      odd end. */
  lemma PairsDifferAtOddEnd(g: Gear, c: Config, p: seq<Byte>, n: nat)
    requires n <= |p| && !c.pairs
    ensures Cut(g, c.(pairs := true), p, n) != Cut(g, c, p, n) <==> FirstHitAtOddEnd(g, c, p, n)
    ensures FirstHitAtOddEnd(g, c, p, n) ==>
              Cut(g, c, p, n) == c.Clamp(n) - 1 && Cut(g, c.(pairs := true), p, n) == c.Clamp(n)
  {
    PairsRefine(g, c, p, n);
    assert c.(pairs := false) == c;
    var m := c.Clamp(n);
    if c.start < m {
      FirstHitMeans(g, c, p, c.start, m);
    }
  }

  /** At an even clamped length they agree, whatever the bytes. */
  lemma EvenLengthsAgree(g: Gear, c: Config, p: seq<Byte>, n: nat)
    requires n <= |p| && c.Clamp(n) % 2 == 0
    ensures Cut(g, c.(pairs := true), p, n) == Cut(g, c.(pairs := false), p, n)
  {
    PairsDifferAtOddEnd(g, c.(pairs := false), p, n);
    assert c.(pairs := false).(pairs := true) == c.(pairs := true);
  }

  lemma NormalFormsDifferAtOddEnd(g: Gear, maxSize: nat, p: seq<Byte>, n: nat)
    requires n <= |p|
    ensures Cut(g, NormalPairsConfig(maxSize), p, n) != Cut(g, NormalConfig(maxSize), p, n)
       <==> FirstHitAtOddEnd(g, NormalConfig(maxSize), p, n)
  {
    PairsDifferAtOddEnd(g, NormalConfig(maxSize), p, n);
  }

  lemma RollingDiffersAtOddEnd(g: Gear, minSize: nat, minSizeHalf: nat, maxSize: nat, p: seq<Byte>, n: nat)
    requires n <= |p| && minSize == 2 * minSizeHalf
    ensures Cut(g, RollingConfig(minSize, minSizeHalf, maxSize), p, n) != Cut(g, OriginConfig(minSize, maxSize), p, n)
       <==> FirstHitAtOddEnd(g, OriginConfig(minSize, maxSize), p, n)
  {
    PairsDifferAtOddEnd(g, OriginConfig(minSize, maxSize), p, n);
  }

  lemma NormalPairsRefineNormal(g: Gear, maxSize: nat, p: seq<Byte>, n: nat)
    requires n <= |p|
    ensures Cut(g, NormalPairsConfig(maxSize), p, n)
         == OddEnd(NormalConfig(maxSize), n, Cut(g, NormalConfig(maxSize), p, n))
  {
    PairsRefine(g, NormalConfig(maxSize), p, n);
  }

  /** The rolling form agrees with the origin form on every buffer. */
  ghost predicate RollingMatches(g: Gear, minSize: nat, minSizeHalf: nat, maxSize: nat) {
    forall p: seq<Byte>, n: nat | n <= |p| ::
      Cut(g, RollingConfig(minSize, minSizeHalf, maxSize), p, n)
      == OddEnd(OriginConfig(minSize, maxSize), n, Cut(g, OriginConfig(minSize, maxSize), p, n))
  }

  lemma RollingRefinesOrigin(g: Gear, minSize: nat, minSizeHalf: nat, maxSize: nat)
    requires minSize == 2 * minSizeHalf
    ensures RollingMatches(g, minSize, minSizeHalf, maxSize)
  {
    forall p: seq<Byte>, n: nat | n <= |p|
      ensures Cut(g, RollingConfig(minSize, minSizeHalf, maxSize), p, n)
           == OddEnd(OriginConfig(minSize, maxSize), n, Cut(g, OriginConfig(minSize, maxSize), p, n))
    {
      PairsRefine(g, OriginConfig(minSize, maxSize), p, n);
    }
  }

  /** Two byte values that cut in a row but not alone. */
  ghost predicate CutPair(g: Gear, x: Byte, y: Byte) {
    && And(g[x], MASK_08KB) != 0
    && And(g[y], MASK_08KB) != 0
    && And(Roll(g[x], g[y]), MASK_08KB) == 0
  }

  function PairAt(x: Byte, y: Byte, at: nat, n: nat): (p: seq<Byte>)
    ensures |p| == n
  {
    seq(n, i => if i == at then x else y)
  }

  lemma PairAtCuts(g: Gear, c: Config, x: Byte, y: Byte, at: nat, n: nat)
    requires CutPair(g, x, y)
    requires at + 2 <= n && c.below == MASK_08KB && c.above == MASK_08KB
    ensures c.start == at ==> FirstHit(g, c, PairAt(x, y, at, n), at, n) == at + 1
    ensures c.start == at + 1 ==> !Hit(g, c, PairAt(x, y, at, n), at + 1)
  {
    var p := PairAt(x, y, at, n);
    if c.start == at {
      assert Fingerprint(g, p, at, at) == 0;
      assert Fingerprint(g, p, at, at + 1) == g[x];
      assert Fingerprint(g, p, at, at + 2) == Roll(g[x], g[y]);
      assert !Hit(g, c, p, at);
      assert Hit(g, c, p, at + 1);
    } else if c.start == at + 1 {
      assert Fingerprint(g, p, at + 1, at + 1) == 0;
      assert Fingerprint(g, p, at + 1, at + 2) == g[y];
    }
  }

  /** A call of a normalized chunker changes the minimum and leaves its halved copy behind.
      From then on the rolling form starts elsewhere than the origin form, and the two differ. */
  lemma RollingMatchesOnlyInStep(g: Gear, minSize: nat, minSizeHalf: nat, maxSize: nat, x: Byte, y: Byte)
    requires CutPair(g, x, y)
    requires minSize + 2 <= maxSize && 2 * minSizeHalf + 2 <= maxSize
    ensures RollingMatches(g, minSize, minSizeHalf, maxSize) <==> minSize == 2 * minSizeHalf
  {
    var rolling, origin := RollingConfig(minSize, minSizeHalf, maxSize), OriginConfig(minSize, maxSize);
    var s := 2 * minSizeHalf;
    if minSize == s {
      RollingRefinesOrigin(g, minSize, minSizeHalf, maxSize);
    } else if s < minSize {
      var p, n := PairAt(x, y, s, minSize + 2), minSize + 2;
      PairAtCuts(g, rolling, x, y, s, n);
      PairAtCuts(g, origin, x, y, s, n);
      assert Cut(g, rolling, p, n) == s + 1;
      assert Cut(g, origin, p, n) != s + 1;
    } else {
      var p, n := PairAt(x, y, minSize, s + 2), s + 2;
      PairAtCuts(g, rolling, x, y, minSize, n);
      PairAtCuts(g, origin, x, y, minSize, n);
      assert Cut(g, origin, p, n) == minSize + 1;
      assert Cut(g, rolling, p, n) != minSize + 1;
    }
  }

  /** Two entries of the shipped table. */
  const GEAR_35: Word := 0x5b59_6e7a_23e7_af9a
  const GEAR_91: Word := 0xcf05_250d_1439_0e94

  lemma ByteMeets(x: nat, d: nat, y: nat, s: nat)
    requires d < 256 && s < 256
    ensures And(256 * x + d, 256 * y + s) == 0 <==> And(x, y) == 0 && And(d, s) == 0
  {
    AndByte(x, d, y, s);
  }

  /** MASK_08KB, MASK_02KB and MASK_32KB differ in one byte only. */
  function MaskOf(q: nat): nat {
    256 * (256 * (256 * (256 * (256 * 0xd9 + q) + 0x03) + 0x53))
  }

  /** The test against a mask, byte by byte; the high two bytes and the low two never count. */
  lemma MaskTest(x: Word, q: nat, high: nat, a: nat, b: nat, c: nat, d: nat, e: nat, f: nat)
    requires q < 256 && a < 256 && b < 256 && c < 256 && d < 256 && e < 256 && f < 256
    requires x == 256 * (256 * (256 * (256 * (256 * (256 * high + a) + b) + c) + d) + e) + f
    ensures And(x, MaskOf(q)) == 0
       <==> And(a, 0xd9) == 0 && And(b, q) == 0 && And(c, 0x03) == 0 && And(d, 0x53) == 0
  {
    var x3, y3 := 256 * (256 * (256 * high + a) + b) + c, 256 * (256 * 0xd9 + q) + 0x03;
    HighMaskTest(high, a, b, c, q);
    LowMaskTest(x3, d, e, f, y3, 0x53);
  }

  lemma LowMaskTest(x: nat, d: nat, e: nat, f: nat, y: nat, s: nat)
    requires d < 256 && e < 256 && f < 256 && s < 256
    ensures And(256 * (256 * (256 * x + d) + e) + f, 256 * (256 * (256 * y + s))) == 0
       <==> And(x, y) == 0 && And(d, s) == 0
  {
    TwoMeet(256 * x + d, e, f, 256 * y + s, 0, 0);
    ByteMeets(x, d, y, s);
  }

  lemma HighMaskTest(high: nat, a: nat, b: nat, c: nat, q: nat)
    requires q < 256 && a < 256 && b < 256 && c < 256
    ensures And(256 * (256 * (256 * high + a) + b) + c, 256 * (256 * 0xd9 + q) + 0x03) == 0
       <==> And(a, 0xd9) == 0 && And(b, q) == 0 && And(c, 0x03) == 0
  {
    TopMaskTest(high, a, 0xd9);
    TwoMeet(256 * high + a, b, c, 0xd9, q, 0x03);
  }

  lemma TwoMeet(x: nat, b: nat, c: nat, y: nat, q: nat, r: nat)
    requires b < 256 && c < 256 && q < 256 && r < 256
    ensures And(256 * (256 * x + b) + c, 256 * (256 * y + q) + r) == 0
       <==> And(x, y) == 0 && And(b, q) == 0 && And(c, r) == 0
  {
    var x', y' := 256 * x + b, 256 * y + q;
    ByteMeets(x, b, y, q);
    ByteMeets(x', c, y', r);
  }

  lemma TopMaskTest(high: nat, a: nat, mask: nat)
    requires a < 256 && mask < 256
    ensures And(256 * high + a, mask) == And(a, mask)
  {
    AndByte(high, a, 0, mask);
  }

  /** Odd bytes meet a mask with the last bit. */
  lemma OddMeets(a: nat, mask: nat)
    requires a % 2 == 1 && mask % 2 == 1
    ensures And(a, mask) != 0
  {
    AndStep(a, mask);
  }

  lemma ByteMisses()
    ensures And(0x02, 0xd9) == 0 && And(0x01, 0x30) == 0 && And(0x5c, 0x03) == 0 && And(0x08, 0x53) == 0
  {
  }

  lemma ShippedPair(g: Gear)
    requires g[35] == GEAR_35 && g[91] == GEAR_91
    ensures CutPair(g, 35, 91)
  {
    OddMeets(0x23, 0x03);
    OddMeets(0x25, 0xd9);
    ByteMisses();
    MaskTest(g[35], 0x30, 0x5b59, 0x6e, 0x7a, 0x23, 0xe7, 0xaf, 0x9a);
    MaskTest(g[91], 0x30, 0xcf05, 0x25, 0x0d, 0x14, 0x39, 0x0e, 0x94);
    MaskTest(Roll(g[35], g[91]), 0x30, 0x85b8, 0x02, 0x01, 0x5c, 0x08, 0x6d, 0xc8);
  }

  /** With the shipped table, the rolling form agrees with the origin form after `Init` and no
      longer does once a normalized chunker has been called. */
  lemma NormalizedCallBreaksRolling(g: Gear)
    requires g[35] == GEAR_35 && g[91] == GEAR_91
    ensures RollingMatches(g, 2048, 1024, 32768)
    ensures !RollingMatches(g, NORMAL_MIN, 1024, 32768)
  {
    ShippedPair(g);
    RollingMatchesOnlyInStep(g, 2048, 1024, 32768, 35, 91);
    RollingMatchesOnlyInStep(g, NORMAL_MIN, 1024, 32768, 35, 91);
  }

  /** A byte that cuts behind two of another kind, which do not cut, under either mask. */
  ghost predicate CutThird(g: Gear, x: Byte, y: Byte) {
    && And(g[y], MASK_08KB) != 0
    && And(Roll(g[y], g[y]), MASK_08KB) != 0
    && And(Roll(Roll(g[y], g[y]), g[x]), MASK_32KB) == 0
  }

  lemma ThirdCuts(g: Gear, c: Config, x: Byte, y: Byte, p: seq<Byte>)
    requires CutThird(g, x, y) && p == PairAt(x, y, c.start + 2, c.start + 3)
    requires forall i :: c.start <= i < c.start + 3 ==> c.MaskAt(i) == MASK_08KB || c.MaskAt(i) == MASK_32KB
    ensures FirstHit(g, c, p, c.start, c.start + 3) == c.start + 2
  {
    var s := c.start;
    var f1, f2 := g[y], Roll(g[y], g[y]);
    assert Fingerprint(g, p, s, s) == 0;
    assert Fingerprint(g, p, s, s + 1) == f1;
    assert Fingerprint(g, p, s, s + 2) == f2;
    assert Fingerprint(g, p, s, s + 3) == Roll(f2, g[x]);
    WiderMask(f1);
    WiderMask(f2);
    WiderMask(Roll(f2, g[x]));
    assert !Hit(g, c, p, s) && !Hit(g, c, p, s + 1) && Hit(g, c, p, s + 2);
    assert FirstHit(g, c, p, s + 2, s + 3) == s + 2;
    assert FirstHit(g, c, p, s + 1, s + 3) == s + 2;
  }

  lemma WiderMask(f: Word)
    ensures And(f, MASK_32KB) == 0 ==> And(f, MASK_08KB) == 0
  {
    MasksNest();
    if And(f, MASK_32KB) == 0 {
      AndSubset(f, MASK_08KB, MASK_32KB);
    }
  }

  /** Two more entries of the shipped table. */
  const GEAR_121: Word := 0xfc09_23f5_563e_8424
  const GEAR_246: Word := 0xd2ae_2841_8f09_3e67

  lemma ThirdMisses(c: nat, d: nat)
    requires c == 0x94 && d == 0x80
    ensures And(0x00, 0xd9) == 0 && And(0x01, 0xf0) == 0 && And(c, 0x03) == 0 && And(d, 0x53) == 0
  {
    AndByteLow(c, 2);
    AndByteLow(d, 7);
  }

  /** A number whose low k digits are zero misses a mask of k digits. */
  lemma AndByteLow(x: nat, k: nat)
    requires x % Pow2(k) == 0
    ensures forall mask: nat :: mask < Pow2(k) ==> And(x, mask) == 0
  {
    forall mask: nat | mask < Pow2(k)
      ensures And(x, mask) == 0
    {
      AndLow(x, mask, k);
    }
  }

  lemma ShippedThird(g: Gear)
    requires g[121] == GEAR_121 && g[246] == GEAR_246
    ensures CutThird(g, 246, 121)
  {
    var f2 := Roll(g[121], g[121]);
    OddMeets(0x23, 0xd9);
    OddMeets(0x6b, 0xd9);
    ThirdMisses(0x94, 0x80);
    MaskTest(g[121], 0x30, 0xfc09, 0x23, 0xf5, 0x56, 0x3e, 0x84, 0x24);
    MaskTest(f2, 0x30, 0xf41b, 0x6b, 0xe0, 0x02, 0xbb, 0x8c, 0x6c);
    MaskTest(Roll(f2, g[246]), 0xf0, 0xbae5, 0x00, 0x01, 0x94, 0x80, 0x57, 0x3f);
  }

  /** With the shipped table and sizes both two-byte forms miss a cut at an odd end: of 2051
      and of 6147 bytes, all 121 but for a last one of 246, they take the whole buffer, and
      the one-byte forms do not. */
  lemma OddEndIsMissed(g: Gear)
    requires g[121] == GEAR_121 && g[246] == GEAR_246
    ensures var p := PairAt(246, 121, 2050, 2051);
            && Cut(g, OriginConfig(2048, 32768), p, 2051) == 2050
            && Cut(g, RollingConfig(2048, 1024, 32768), p, 2051) == 2051
    ensures var p := PairAt(246, 121, 6146, 6147);
            && Cut(g, NormalConfig(32768), p, 6147) == 6146
            && Cut(g, NormalPairsConfig(32768), p, 6147) == 6147
  {
    ShippedThird(g);
    var origin, normal := OriginConfig(2048, 32768), NormalConfig(32768);
    var p, q := PairAt(246, 121, 2050, 2051), PairAt(246, 121, 6146, 6147);
    ThirdCuts(g, origin, 246, 121, p);
    ThirdCuts(g, normal, 246, 121, q);
    RollingRefinesOrigin(g, 2048, 1024, 32768);
    NormalPairsRefineNormal(g, 32768, q, 6147);
  }

  // ---------- normalization moves cuts toward the mid point ----------

  lemma MasksNest()
    ensures And(MASK_02KB, MASK_08KB) == MASK_02KB
    ensures And(MASK_08KB, MASK_32KB) == MASK_08KB
  {
    AndSelf(0xd9);
    SubsetAppend(0xd9, 0xd9, 0, 0);
    SubsetAppend(0x1b2, 0x1b2, 0, 0);
    SubsetAppend(0x364, 0x364, 0, 1);
    SubsetAppend(0x6c8, 0x6c9, 0, 1);
    SubsetAppend(0xd9, 0xd9, 0, 1);
    SubsetAppend(0x1b2, 0x1b3, 0, 1);
    SubsetAppend(0x364, 0x367, 1, 1);
    SubsetAppend(0x6c9, 0x6cf, 1, 1);
    Pow2Values();
    SubsetShift(0xd90, 0xd93, 0x353_0000, 36);
    SubsetShift(0xd93, 0xd9f, 0x353_0000, 36);
  }

  /** Below the mid point the normalized form cuts only where the origin form may, from the mid
      point on it cuts wherever the origin form does. */
  lemma NormalHits(g: Gear, p: seq<Byte>, maxSize: nat, i: nat)
    requires NORMAL_MIN <= i < |p|
    ensures i < NORMAL_MID && Hit(g, NormalConfig(maxSize), p, i) ==> Hit(g, OriginConfig(NORMAL_MIN, maxSize), p, i)
    ensures NORMAL_MID <= i && Hit(g, OriginConfig(NORMAL_MIN, maxSize), p, i) ==> Hit(g, NormalConfig(maxSize), p, i)
  {
    var f := Fingerprint(g, p, NORMAL_MIN, i + 1);
    MasksNest();
    if And(f, MASK_32KB) == 0 {
      AndSubset(f, MASK_08KB, MASK_32KB);
    }
    if And(f, MASK_08KB) == 0 {
      AndSubset(f, MASK_02KB, MASK_08KB);
    }
  }

  lemma NormalizationMovesTowardMid(g: Gear, p: seq<Byte>, n: nat, maxSize: nat)
    requires n <= |p|
    ensures var origin := Cut(g, OriginConfig(NORMAL_MIN, maxSize), p, n);
            var normal := Cut(g, NormalConfig(maxSize), p, n);
            && (origin < NORMAL_MID ==> origin <= normal)
            && (NORMAL_MID <= origin ==> NORMAL_MID <= normal <= origin)
  {
    var c, d, m := OriginConfig(NORMAL_MIN, maxSize), NormalConfig(maxSize), OriginConfig(NORMAL_MIN, maxSize).Clamp(n);
    if NORMAL_MIN < m && NORMAL_MIN < n {
      var a, b := FirstHit(g, c, p, NORMAL_MIN, m), FirstHit(g, d, p, NORMAL_MIN, m);
      FirstHitMeans(g, c, p, NORMAL_MIN, m);
      FirstHitMeans(g, d, p, NORMAL_MIN, m);
      if a < m {
        NormalHits(g, p, maxSize, a);
      }
      if b < m {
        NormalHits(g, p, maxSize, b);
      }
    }
  }

  // ---------- locality ----------

  /** Dropping carries of a multiple of m does not change the remainder modulo m. */
  lemma CarryMod(x: nat, y: nat, carry: nat, w: nat, m: nat)
    requires m >= 1 && x == y + carry * (w * m)
    ensures x % m == y % m
  {
    assert carry * (w * m) == (carry * w) * m;
    ModShift(y, carry * w, m);
  }

  lemma RollCarry(f: Word, v: Word) returns (carry: nat)
    ensures 2 * f + v == Roll(f, v) + carry * WORD
  {
    carry := if 2 * f + v == Roll(f, v) then 0 else if 2 * f + v == Roll(f, v) + WORD then 1 else 2;
  }

  lemma SumMod(a: nat, b: nat, m: nat)
    requires m >= 1
    ensures (a + b) % m == (a % m + b) % m
  {
    ModShift(a % m + b, a / m, m);
    assert a == a % m + (a / m) * m;
  }

  lemma RollLow(f: Word, v: Word, k: nat)
    requires k < 64
    ensures Roll(f, v) % Pow2(k + 1) == (2 * (f % Pow2(k)) + v) % Pow2(k + 1)
  {
    WordFactors(63 - k, k + 1);
    RollMod(f, v, Pow2(k), Pow2(k + 1), Pow2(63 - k));
  }

  lemma WordFactors(a: nat, b: nat)
    requires a + b == 64
    ensures WORD == Pow2(a) * Pow2(b)
  {
    Pow2Add(a, b);
    Pow2Values();
  }

  lemma RollMod(f: Word, v: Word, h: nat, m: nat, w: nat)
    requires h >= 1 && m == 2 * h && WORD == w * m
    ensures Roll(f, v) % m == (2 * (f % h) + v) % m
  {
    var carry := RollCarry(f, v);
    CarryMod(2 * f + v, Roll(f, v), carry, w, m);
    SumMod(2 * f, v, m);
    DoubleMod(f, 0, h);
  }

  /** After k equal bytes the low k digits of two fingerprints agree, whatever came before. */
  lemma {:induction false} WindowLow(g: Gear, p: seq<Byte>, s: nat, i: nat, q: seq<Byte>, t: nat, j: nat, k: nat)
    requires k <= 64 && s + k <= i <= |p| && t + k <= j <= |q|
    requires p[i - k..i] == q[j - k..j]
    ensures Fingerprint(g, p, s, i) % Pow2(k) == Fingerprint(g, q, t, j) % Pow2(k)
    decreases k
  {
    if k > 0 {
      assert p[i - k..i][k - 1] == q[j - k..j][k - 1];
      assert p[i - k..i - 1] == p[i - k..i][..k - 1];
      assert q[j - k..j - 1] == q[j - k..j][..k - 1];
      WindowLow(g, p, s, i - 1, q, t, j - 1, k - 1);
      RollSame(Fingerprint(g, p, s, i - 1), Fingerprint(g, q, t, j - 1), g[p[i - 1]], k - 1);
    }
  }

  lemma RollSame(f: Word, f': Word, v: Word, k: nat)
    requires k < 64 && f % Pow2(k) == f' % Pow2(k)
    ensures Roll(f, v) % Pow2(k + 1) == Roll(f', v) % Pow2(k + 1)
  {
    RollLow(f, v, k);
    RollLow(f', v, k);
  }

  lemma {:induction false} SameRun(g: Gear, p: seq<Byte>, s: nat, q: seq<Byte>, t: nat, k: nat)
    requires s + k <= |p| && t + k <= |q|
    requires p[s..s + k] == q[t..t + k]
    ensures Fingerprint(g, p, s, s + k) == Fingerprint(g, q, t, t + k)
    decreases k
  {
    if k > 0 {
      assert p[s..s + k - 1] == p[s..s + k][..k - 1];
      assert q[t..t + k - 1] == q[t..t + k][..k - 1];
      SameRun(g, p, s, q, t, k - 1);
      assert p[s..s + k][k - 1] == q[t..t + k][k - 1];
    }
  }

  /** Two positions whose windows hold the same bytes, 48 or those from the start on, pass or fail
      the same mask together, in any two buffers and at any distance from the start. */
  lemma CutTestSeesOnlyItsWindow(g: Gear, c: Config, p: seq<Byte>, i: nat, d: Config, q: seq<Byte>, j: nat)
    requires c.start <= i < |p| && d.start <= j < |q|
    requires c.MaskAt(i) == d.MaskAt(j) < 0x1_0000_0000_0000
    requires p[if i >= c.start + 47 then i - 47 else c.start..i + 1]
          == q[if j >= d.start + 47 then j - 47 else d.start..j + 1]
    ensures Hit(g, c, p, i) <==> Hit(g, d, q, j)
  {
    var x, y := Fingerprint(g, p, c.start, i + 1), Fingerprint(g, q, d.start, j + 1);
    var s := if i >= c.start + 47 then i - 47 else c.start;
    var t := if j >= d.start + 47 then j - 47 else d.start;
    assert i + 1 - s == |p[s..i + 1]| == |q[t..j + 1]| == j + 1 - t;
    if i + 1 - s < 48 {
      SameRun(g, p, c.start, q, d.start, i + 1 - s);
    } else {
      WindowLow(g, p, c.start, i + 1, q, d.start, j + 1, 48);
      LowTest(x, y, c.MaskAt(i));
    }
    assert And(x, c.MaskAt(i)) == And(y, d.MaskAt(j));
  }

  lemma LowTest(x: Word, y: Word, mask: Word)
    requires mask < 0x1_0000_0000_0000
    requires x % Pow2(48) == y % Pow2(48)
    ensures And(x, mask) == And(y, mask)
  {
    Pow2Values();
    AndLow(x, mask, 48);
    AndLow(y, mask, 48);
  }
}
