/** The cut positions of the Gear rolling hash, stated without loops.

    A chunker rolls a 64-bit fingerprint over the buffer from a start position and cuts at
    the first position whose fingerprint has no bit in common with the mask of that position.
    `Cut` is the reference that the loops in FastCdc are proved against.
 */
module GearCut {
  import opened Basics
  import opened Bits

  /** A 64-bit word; sums and shifts are taken modulo WORD. */
  const WORD: nat := 0x1_0000_0000_0000_0000
  type Word = x: int | 0 <= x < WORD

  /** A table of one word per byte. Every result here holds for every table. */
  type Gear = g: seq<Word> | |g| == 256 witness seq(256, _ => 0)

  const MASK_08KB: Word := 0x0000_d930_0353_0000
  const MASK_02KB: Word := 0x0000_d900_0353_0000
  const MASK_32KB: Word := 0x0000_d9f0_0353_0000

  /** x << 1 */
  function Shl(x: Word): Word {
    if 2 * x < WORD then 2 * x else 2 * x - WORD
  }

  function Plus(x: Word, y: Word): Word {
    if x + y < WORD then x + y else x + y - WORD
  }

  function Roll(f: Word, g: Word): Word {
    Plus(Shl(f), g)
  }

  /** Where a chunker starts, where it stops, and which mask it uses below and from `mid` on.
      `pairs` marks the forms that consume two bytes per step. */
  datatype Config = Config(minSize: nat, start: nat, maxSize: nat, mid: nat,
                           below: Word, above: Word, pairs: bool)
  {
    function MaskAt(i: nat): Word {
      if i < mid then below else above
    }

    function Clamp(n: nat): nat {
      if n > maxSize then maxSize else n
    }
  }

  /** The fingerprint after the bytes p[start..i]. */
  function Fingerprint(g: Gear, p: seq<Byte>, start: nat, i: nat): Word
    requires start <= i
    requires i == start || i <= |p|
    decreases i
  {
    if i == start then 0 else Roll(Fingerprint(g, p, start, i - 1), g[p[i - 1]])
  }

  predicate Hit(g: Gear, c: Config, p: seq<Byte>, i: nat)
    requires c.start <= i < |p|
  {
    And(Fingerprint(g, p, c.start, i + 1), c.MaskAt(i)) == 0
  }

  /** The first hit in [i, n), or n. */
  function FirstHit(g: Gear, c: Config, p: seq<Byte>, i: nat, n: nat): (r: nat)
    requires c.start <= i
    requires n <= |p|
    ensures r <= n
    ensures r < n ==> i <= r
    decreases n - i
  {
    if i >= n then n
    else if Hit(g, c, p, i) then i
    else FirstHit(g, c, p, i + 1, n)
  }

  /** What the scan result means: a hit unless it is n, and no hit before it. */
  lemma {:induction false} FirstHitMeans(g: Gear, c: Config, p: seq<Byte>, i: nat, n: nat)
    requires c.start <= i && n <= |p|
    ensures FirstHit(g, c, p, i, n) < n ==> Hit(g, c, p, FirstHit(g, c, p, i, n))
    ensures forall j :: i <= j < FirstHit(g, c, p, i, n) ==> !Hit(g, c, p, j)
    decreases n - i
  {
    if i < n && !Hit(g, c, p, i) {
      FirstHitMeans(g, c, p, i + 1, n);
    }
  }

  /** A scan over [i, n) is a scan over [i, k) continued from k. */
  lemma {:induction false} FirstHitSplit(g: Gear, c: Config, p: seq<Byte>, i: nat, k: nat, n: nat)
    requires c.start <= i <= k <= n <= |p|
    ensures FirstHit(g, c, p, i, n)
         == if FirstHit(g, c, p, i, k) < k then FirstHit(g, c, p, i, k) else FirstHit(g, c, p, k, n)
    decreases k - i
  {
    if i < k && !Hit(g, c, p, i) {
      FirstHitSplit(g, c, p, i + 1, k, n);
    }
  }

  /** The chunk length. A form that takes bytes in pairs never tests the last byte of an odd
      length, so a cut there is replaced by the full length. */
  function Cut(g: Gear, c: Config, p: seq<Byte>, n: nat): nat
    requires n <= |p|
  {
    if n <= c.minSize then n
    else
      var m := c.Clamp(n);
      var r := FirstHit(g, c, p, c.start, m);
      if c.pairs && m % 2 == 1 && r == m - 1 then m else r
  }

  /** The cut of a two-byte form, assembled from two scans that both end at an even position. */
  lemma CutByParts(g: Gear, c: Config, p: seq<Byte>, n: nat, k: nat)
    requires n <= |p| && c.minSize < n && c.pairs
    requires c.start <= k <= c.Clamp(n) / 2 * 2
    ensures var e := c.Clamp(n) / 2 * 2;
            Cut(g, c, p, n) == if FirstHit(g, c, p, c.start, k) < k then FirstHit(g, c, p, c.start, k)
                               else if FirstHit(g, c, p, k, e) < e then FirstHit(g, c, p, k, e)
                               else c.Clamp(n)
  {
    var m := c.Clamp(n);
    FirstHitSplit(g, c, p, c.start, k, m);
    FirstHitSplit(g, c, p, k, m / 2 * 2, m);
  }
}
