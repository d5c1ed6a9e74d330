/** The four chunkers of FastCDC with the globals they share. */
module FastCdc {
  import opened Basics
  import opened Bits
  import opened GearCut

  const MASK_08KB_LS: Word := Shl(MASK_08KB)
  const MASK_02KB_LS: Word := Shl(MASK_02KB)
  const MASK_32KB_LS: Word := Shl(MASK_32KB)

  const NORMAL_MIN: nat := 6 * 1024
  const NORMAL_MID: nat := 8 * 1024

  function OriginConfig(minSize: nat, maxSize: nat): Config {
    Config(minSize, minSize, maxSize, 0, MASK_08KB, MASK_08KB, false)
  }

  /** The scan starts at twice the halved minimum, which is a global of its own. */
  function RollingConfig(minSize: nat, minSizeHalf: nat, maxSize: nat): Config {
    Config(minSize, 2 * minSizeHalf, maxSize, 0, MASK_08KB, MASK_08KB, true)
  }

  function NormalConfig(maxSize: nat): Config {
    Config(NORMAL_MIN, NORMAL_MIN, maxSize, NORMAL_MID, MASK_32KB, MASK_02KB, false)
  }

  function NormalPairsConfig(maxSize: nat): Config {
    NormalConfig(maxSize).(pairs := true)
  }

  /** The first half step of a two-byte form is a step of the one-byte form, shifted once. */
  lemma PairFirst(f: Word, a: Word)
    ensures Plus(Shl(Shl(f)), Shl(a)) == Shl(Roll(f, a))
  {
  }

  /** A doubled word meets a doubled mask when the word meets the mask, provided doubling
      the mask drops no bit. */
  lemma ShiftedTest(x: Word, mask: Word)
    requires mask < 0x1_0000_0000_0000
    ensures And(Shl(x), Shl(mask)) == 0 <==> And(x, mask) == 0
  {
    var y := Shl(x) / 2;
    AndStep(Shl(x), Shl(mask));
    DroppedBit(x, y, mask);
  }

  lemma DroppedBit(x: nat, y: nat, mask: nat)
    requires mask < 0x1_0000_0000_0000
    requires x == y || x == y + 0x8000_0000_0000_0000
    ensures And(x, mask) == And(y, mask)
  {
    Pow2Values();
    ModShift(y, 0x8000, Pow2(48));
    AndLow(x, mask, 48);
    AndLow(y, mask, 48);
  }

  class Chunker {
    const gear: Gear
    const lear: array<Word>
    var minSize: nat
    var minSizeHalf: nat
    var maxSize: nat

    constructor (gear: Gear)
      ensures this.gear == gear
      ensures fresh(lear) && lear.Length == 256
    {
      this.gear := gear;
      lear := new Word[256];
      minSize, minSizeHalf, maxSize := 0, 0, 0;
    }

    /** Every entry of the second table is the first table's entry shifted left once. */
    ghost predicate TableReady()
      reads lear
    {
      && lear.Length == 256
      && forall i :: 0 <= i < 256 ==> lear[i] == Shl(gear[i])
    }

    method Init()
      requires lear.Length == 256
      modifies this, lear
      ensures TableReady()
      ensures minSize == 2048 && maxSize == 32768 && minSizeHalf == 1024
      ensures minSize == 2 * minSizeHalf
    {
      for i := 0 to 256
        invariant forall j :: 0 <= j < i ==> lear[j] == Shl(gear[j])
      {
        lear[i] := Shl(gear[i]);
      }
      minSize := 8192 / 4;
      maxSize := 8192 * 4;
      minSizeHalf := minSize / 2;
    }

    /** The one-byte loop: roll from `from` up to `to` under one mask. */
    method ScanBytes(ghost c: Config, p: seq<Byte>, f: Word, from: nat, to: nat, mask: Word)
      returns (r: nat, fingerprint: Word)
      requires c.start <= from <= to <= |p|
      requires f == Fingerprint(gear, p, c.start, from)
      requires forall j :: from <= j < to ==> c.MaskAt(j) == mask
      ensures r == FirstHit(gear, c, p, from, to)
      ensures r == to ==> fingerprint == Fingerprint(gear, p, c.start, to)
    {
      fingerprint := f;
      var i := from;
      while i < to
        invariant from <= i <= to
        invariant fingerprint == Fingerprint(gear, p, c.start, i)
        invariant FirstHit(gear, c, p, from, to) == FirstHit(gear, c, p, i, to)
      {
        fingerprint := Plus(Shl(fingerprint), gear[p[i]]);
        assert c.MaskAt(i) == mask;
        if And(fingerprint, mask) == 0 {
          return i, fingerprint;
        }
        i := i + 1;
      }
      return to, fingerprint;
    }

    /** The two-byte loop, from position 2 * from up to 2 * to. The mask and the table entry of
        the first byte of a pair are doubled, so no extra shift is needed between the bytes. */
    method ScanPairs(ghost c: Config, p: seq<Byte>, f: Word, from: nat, to: nat, mask: Word, maskLs: Word)
      returns (r: nat, fingerprint: Word)
      requires TableReady()
      requires c.start <= 2 * from && from <= to && 2 * to <= |p|
      requires f == Fingerprint(gear, p, c.start, 2 * from)
      requires forall j :: 2 * from <= j < 2 * to ==> c.MaskAt(j) == mask
      requires mask < 0x1_0000_0000_0000 && maskLs == Shl(mask)
      ensures r == FirstHit(gear, c, p, 2 * from, 2 * to)
      ensures r == 2 * to ==> fingerprint == Fingerprint(gear, p, c.start, 2 * to)
    {
      fingerprint := f;
      var i := from;
      while i < to
        invariant from <= i <= to
        invariant fingerprint == Fingerprint(gear, p, c.start, 2 * i)
        invariant FirstHit(gear, c, p, 2 * from, 2 * to) == FirstHit(gear, c, p, 2 * i, 2 * to)
      {
        var a := i * 2;
        assert c.MaskAt(a) == mask && c.MaskAt(a + 1) == mask;
        ghost var half := Fingerprint(gear, p, c.start, a + 1);
        PairFirst(fingerprint, gear[p[a]]);
        ShiftedTest(half, mask);
        fingerprint := Plus(Shl(Shl(fingerprint)), lear[p[a]]);
        if And(fingerprint, maskLs) == 0 {
          return a, fingerprint;
        }
        fingerprint := Plus(fingerprint, gear[p[a + 1]]);
        if And(fingerprint, mask) == 0 {
          return a + 1, fingerprint;
        }
        i := i + 1;
      }
      return 2 * to, fingerprint;
    }

    method CdcOrigin(p: seq<Byte>, n: nat) returns (r: nat)
      requires n <= |p|
      ensures r == Cut(gear, OriginConfig(minSize, maxSize), p, n)
    {
      if n <= minSize {
        return n;
      }
      var m := n;
      if n > maxSize {
        m := maxSize;
      }
      if minSize < m {
        var f;
        r, f := ScanBytes(OriginConfig(minSize, maxSize), p, 0, minSize, m, MASK_08KB);
        return;
      }
      return m;
    }

    method RollingData2Bytes(p: seq<Byte>, n: nat) returns (r: nat)
      requires TableReady()
      requires n <= |p|
      ensures r == Cut(gear, RollingConfig(minSize, minSizeHalf, maxSize), p, n)
    {
      ghost var c := RollingConfig(minSize, minSizeHalf, maxSize);
      if n <= minSize {
        return n;
      }
      var m := n;
      if n > maxSize {
        m := maxSize;
      }
      if minSizeHalf < m / 2 {
        CutByParts(gear, c, p, n, c.start);
        var f;
        r, f := ScanPairs(c, p, 0, minSizeHalf, m / 2, MASK_08KB, MASK_08KB_LS);
        if r < 2 * (m / 2) {
          return;
        }
      }
      return m;
    }

    /** The global minimum is overwritten, its halved copy is not. A maximum below the
        mid point would let the first loop run past the buffer, so callers keep it above. */
    method NormalizedChunking(p: seq<Byte>, n: nat) returns (r: nat)
      requires n <= |p|
      requires NORMAL_MID <= maxSize
      modifies this`minSize
      ensures minSize == NORMAL_MIN
      ensures r == Cut(gear, NormalConfig(maxSize), p, n)
    {
      ghost var c := NormalConfig(maxSize);
      minSize := 6 * 1024;
      var mid := 8 * 1024;
      if n <= minSize {
        return n;
      }
      var m := n;
      if n > maxSize {
        m := maxSize;
      } else if n < mid {
        mid := n;
      }
      FirstHitSplit(gear, c, p, c.start, mid, m);
      var f;
      r, f := ScanBytes(c, p, 0, minSize, mid, MASK_32KB);
      if r < mid {
        return;
      }
      r, f := ScanBytes(c, p, f, mid, m, MASK_02KB);
    }

    method NormalizedChunking2Bytes(p: seq<Byte>, n: nat) returns (r: nat)
      requires TableReady()
      requires n <= |p|
      requires NORMAL_MID <= maxSize
      modifies this`minSize
      ensures minSize == NORMAL_MIN
      ensures r == Cut(gear, NormalPairsConfig(maxSize), p, n)
    {
      ghost var c := NormalPairsConfig(maxSize);
      minSize := 6 * 1024;
      var mid := 8 * 1024;
      if n <= minSize {
        return n;
      }
      var m := n;
      if n > maxSize {
        m := maxSize;
      } else if n < mid {
        mid := n;
      }
      r := ScanBothHalves(c, p, n, minSize / 2, mid, m);
    }

    /** The two loops of the two-byte normalized form, one on each side of the mid point. */
    method ScanBothHalves(ghost c: Config, p: seq<Byte>, n: nat, half: nat, mid: nat, m: nat) returns (r: nat)
      requires TableReady()
      requires n <= |p| && c.minSize < n && c.pairs && m == c.Clamp(n)
      requires c.start == 2 * half && half <= mid / 2 && mid <= m
      requires c.below == MASK_32KB && c.above == MASK_02KB && mid <= c.mid && (c.mid <= mid || mid == m)
      requires c.mid % 2 == 0
      ensures r == Cut(gear, c, p, n)
    {
      CutByParts(gear, c, p, n, mid / 2 * 2);
      var f;
      r, f := ScanPairs(c, p, 0, half, mid / 2, MASK_32KB, MASK_32KB_LS);
      if r < 2 * (mid / 2) {
        return;
      }
      r, f := ScanPairs(c, p, f, mid / 2, m / 2, MASK_02KB, MASK_02KB_LS);
      if r < 2 * (m / 2) {
        return;
      }
      return m;
    }
  }
}
