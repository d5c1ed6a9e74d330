/** Bitwise AND and powers of two on natural numbers.

    The C sources use unsigned machine words. A word is a natural number here, every
    wrap-around is written as a remainder, and `&` is the digit-by-digit `And` below.
 */
module Bits {

  function Pow2(k: nat): (r: nat)
    ensures r >= 1
  {
    if k == 0 then 1 else 2 * Pow2(k - 1)
  }

  lemma {:induction false} Pow2Add(a: nat, b: nat)
    ensures Pow2(a + b) == Pow2(a) * Pow2(b)
    decreases b
  {
    if b > 0 {
      Pow2Add(a, b - 1);
      assert Pow2(a) * (2 * Pow2(b - 1)) == 2 * (Pow2(a) * Pow2(b - 1));
    }
  }

  lemma Pow2Values()
    ensures Pow2(16) == 0x1_0000
    ensures Pow2(36) == 0x10_0000_0000
    ensures Pow2(48) == 0x1_0000_0000_0000
    ensures Pow2(64) == 0x1_0000_0000_0000_0000
  {
    assert Pow2(8) == 0x100;
    Pow2Add(8, 8);
    Pow2Add(16, 16);
    Pow2Add(32, 4);
    Pow2Add(32, 16);
    Pow2Add(48, 16);
  }

  function And(x: nat, y: nat): (r: nat)
    ensures r <= x && r <= y
    decreases x
  {
    if x == 0 || y == 0 then 0
    else 2 * And(x / 2, y / 2) + (if x % 2 == 1 && y % 2 == 1 then 1 else 0)
  }

  function Shr(x: nat, k: nat): nat {
    if k == 0 then x else Shr(x / 2, k - 1)
  }

  /** x << k, without a width. */
  function Scaled(x: nat, k: nat): nat {
    if k == 0 then x else 2 * Scaled(x, k - 1)
  }

  lemma {:induction false} ScaledTimes(x: nat, k: nat)
    ensures Scaled(x, k) == x * Pow2(k)
  {
    if k > 0 {
      ScaledTimes(x, k - 1);
    }
  }

  /** (2a + d) mod 2m, digit by digit. */
  lemma DoubleMod(a: nat, d: nat, m: nat)
    requires m >= 1 && d < 2
    ensures (2 * a + d) % (2 * m) == 2 * (a % m) + d
    ensures (2 * a + d) / (2 * m) == a / m
  {
    var q, r := a / m, a % m;
    assert a == q * m + r;
    assert 2 * a + d == q * (2 * m) + (2 * r + d);
    DivModUnique(2 * a + d, 2 * m, q, 2 * r + d);
  }

  lemma DivModUnique(x: nat, m: nat, q: int, r: nat)
    requires m >= 1 && x == q * m + r && r < m
    ensures x / m == q && x % m == r
  {
    var q', r' := x / m, x % m;
    assert x == q' * m + r';
    MulAtLeast(q - q', m);
    assert (q - q') * m == r' - r;
  }

  lemma MulAtLeast(d: int, m: nat)
    ensures d >= 1 ==> d * m >= m
    ensures d <= -1 ==> d * m <= 0 - m
  {
  }

  /** Shifting right by k divides by 2^k. */
  lemma {:induction false} ShrDivides(x: nat, k: nat)
    ensures Shr(x, k) == x / Pow2(k)
    decreases k
  {
    if k > 0 {
      ShrDivides(x / 2, k - 1);
      DoubleMod(x / 2, x % 2, Pow2(k - 1));
    }
  }

  lemma ModShift(x: nat, k: nat, m: nat)
    requires m >= 1
    ensures (x + k * m) % m == x % m
  {
    var q := x / m;
    assert x + k * m == (q + k) * m + x % m by {
      assert x == q * m + x % m;
    }
    DivModUnique(x + k * m, m, q + k, x % m);
  }

  /** Masking with 2^k - 1 is the remainder modulo 2^k. */
  lemma {:induction false} AndMask(x: nat, k: nat)
    ensures And(x, Pow2(k) - 1) == x % Pow2(k)
    decreases k
  {
    if k > 0 {
      var half, digit, m := x / 2, x % 2, Pow2(k - 1);
      AndMask(half, k - 1);
      AndMaskStep(half, digit, m - 1, half % m);
      DoubleMod(half, digit, m);
    }
  }

  lemma AndMaskStep(half: nat, digit: nat, ones: nat, r: nat)
    requires And(half, ones) == r && digit < 2
    ensures And(2 * half + digit, 2 * ones + 1) == 2 * r + digit
  {
    AndStep(2 * half + digit, 2 * ones + 1);
  }

  /** A mask below 2^k sees only the low k digits. */
  lemma {:induction false} AndLow(x: nat, m: nat, k: nat)
    requires m < Pow2(k)
    ensures And(x % Pow2(k), m) == And(x, m)
    decreases k
  {
    if k == 0 {
      assert m == 0;
    } else {
      var w := Pow2(k - 1);
      DoubleMod(x / 2, x % 2, w);
      assert 2 * (x / 2) + x % 2 == x;
      var y := x % Pow2(k);
      assert y / 2 == (x / 2) % w && y % 2 == x % 2;
      AndLow(x / 2, m / 2, k - 1);
      AndStep(x, m);
      AndStep(y, m);
    }
  }

  lemma AndStep(x: nat, y: nat)
    ensures And(x, y) == 2 * And(x / 2, y / 2) + (if x % 2 == 1 && y % 2 == 1 then 1 else 0)
  {
  }

  lemma {:induction false} AndSelf(x: nat)
    ensures And(x, x) == x
  {
    AndStep(x, x);
    if x > 0 {
      AndSelf(x / 2);
    }
  }

  /** The bits of `a` stay among the bits of `b` when a digit is appended to both. */
  lemma SubsetAppend(a: nat, b: nat, c: nat, d: nat)
    requires And(a, b) == a && c <= d < 2
    ensures And(2 * a + c, 2 * b + d) == 2 * a + c
  {
    var x, y := 2 * a + c, 2 * b + d;
    assert x / 2 == a && x % 2 == c && y / 2 == b && y % 2 == d;
    AndStep(x, y);
  }

  lemma AndSplitStep(x: nat, b: nat, y: nat, d: nat, high: nat)
    requires b / 2 <= x / 2 && d / 2 <= y / 2 && x % 2 == b % 2 && y % 2 == d % 2
    requires And(x / 2, y / 2) == high + And(b / 2, d / 2)
    ensures And(x, y) == 2 * high + And(b, d)
  {
    AndStep(x, y);
    AndStep(b, d);
  }

  /** High and low digits are masked independently. */
  lemma {:induction false} AndSplit(a: nat, b: nat, c: nat, d: nat, k: nat, x: nat, y: nat)
    requires b < Pow2(k) && d < Pow2(k) && x == Scaled(a, k) + b && y == Scaled(c, k) + d
    ensures And(x, y) == Scaled(And(a, c), k) + And(b, d)
    decreases k
  {
    if k == 0 {
      assert b == 0 && d == 0 && x == a && y == c;
    } else {
      AndSplit(a, b / 2, c, d / 2, k - 1, x / 2, y / 2);
      AndSplitStep(x, b, y, d, Scaled(And(a, c), k - 1));
    }
  }

  lemma AndByte(a: nat, b: nat, c: nat, d: nat)
    requires b < 256 && d < 256
    ensures And(256 * a + b, 256 * c + d) == 256 * And(a, c) + And(b, d)
  {
    ScaledByte(a);
    ScaledByte(c);
    ScaledByte(And(a, c));
    AndSplit(a, b, c, d, 8, 256 * a + b, 256 * c + d);
  }

  lemma ScaledByte(a: nat)
    ensures Scaled(a, 8) == 256 * a && Pow2(8) == 256
  {
    assert Pow2(8) == 256;
    ScaledTimes(a, 8);
  }

  lemma SubsetShift(a: nat, b: nat, low: nat, k: nat)
    requires And(a, b) == a && low < Pow2(k)
    ensures And(a * Pow2(k) + low, b * Pow2(k) + low) == a * Pow2(k) + low
  {
    ScaledTimes(a, k);
    ScaledTimes(b, k);
    AndSplit(a, low, b, low, k, a * Pow2(k) + low, b * Pow2(k) + low);
    AndSelf(low);
  }

  /** A mask whose bits all lie in a larger mask meets fewer words. */
  lemma {:induction false} AndSubset(x: nat, a: nat, b: nat)
    requires And(a, b) == a
    requires And(x, b) == 0
    ensures And(x, a) == 0
    decreases x
  {
    AndStep(x, a);
    AndStep(x, b);
    AndStep(a, b);
    if x == 0 {
    } else {
      assert And(a / 2, b / 2) <= a / 2;
      AndSubset(x / 2, a / 2, b / 2);
    }
  }

  /** x mod 2m is x mod m, or m more. */
  lemma ModDouble(x: nat, m: nat)
    requires m >= 1
    ensures x % (2 * m) == x % m || x % (2 * m) == x % m + m
    ensures (x % (2 * m)) % m == x % m
  {
    var q, r := x / (2 * m), x % (2 * m);
    assert x == q * (2 * m) + r;
    if r < m {
      assert x == (2 * q) * m + r;
      DivModUnique(x, m, 2 * q, r);
      DivModUnique(r, m, 0, r);
    } else {
      assert x == (2 * q + 1) * m + (r - m);
      DivModUnique(x, m, 2 * q + 1, r - m);
      DivModUnique(r, m, 1, r - m);
    }
  }

  // ---------- digits ----------

  /** The binary digit of x at place k. */
  function Digit(x: nat, k: nat): (d: nat)
    ensures d < 2
  {
    x / Pow2(k) % 2
  }

  lemma DigitNext(x: nat, k: nat)
    ensures Digit(x, k + 1) == Digit(x / 2, k)
  {
    DoubleMod(x / 2, x % 2, Pow2(k));
  }

  /** AND works on every digit by itself. */
  lemma {:induction false} AndDigit(x: nat, y: nat, k: nat)
    ensures Digit(And(x, y), k) == if Digit(x, k) == 1 && Digit(y, k) == 1 then 1 else 0
    decreases k
  {
    AndStep(x, y);
    var z := And(x, y);
    assert z / 2 == And(x / 2, y / 2);
    if k == 0 {
      assert Pow2(0) == 1;
    } else {
      AndDigit(x / 2, y / 2, k - 1);
      DigitNext(x, k - 1);
      DigitNext(y, k - 1);
      DigitNext(z, k - 1);
    }
  }

  /** Every digit of x at the given places is zero. */
  predicate ZeroAt(x: nat, ks: seq<nat>) {
    forall i :: 0 <= i < |ks| ==> x / Pow2(ks[i]) % 2 == 0
  }

  /** One more mask digit on top of those below it. */
  lemma AndTopDigit(x: nat, m: nat, k: nat)
    requires m < Pow2(k)
    ensures And(x, m + Pow2(k)) == 0 <==> And(x, m) == 0 && x / Pow2(k) % 2 == 0
  {
    var w := Pow2(k);
    var q, low := Parts(x, w);
    ScaledTimes(q, k);
    ScaledTimes(1, k);
    AndTop(x, q, low, m + w, m, k);
    AndLow(x, m, k);
  }

  lemma Parts(x: nat, w: nat) returns (q: nat, low: nat)
    requires 1 <= w
    ensures q == x / w && low == x % w && low < w && x == q * w + low
  {
    q, low := x / w, x % w;
  }

  lemma AndTop(x: nat, q: nat, low: nat, y: nat, m: nat, k: nat)
    requires low < Pow2(k) && m < Pow2(k) && x == Scaled(q, k) + low && y == Scaled(1, k) + m
    ensures And(x, y) == 0 <==> And(low, m) == 0 && q % 2 == 0
  {
    AndSplit(q, low, 1, m, k, x, y);
    AndOne(q);
    ScaledZero(q % 2, k);
  }

  lemma AndOne(q: nat)
    ensures And(q, 1) == q % 2
  {
    AndStep(q, 1);
  }

  lemma {:induction false} ScaledZero(x: nat, k: nat)
    ensures Scaled(x, k) == 0 <==> x == 0
  {
    if k > 0 {
      ScaledZero(x, k - 1);
    }
  }

  /** A mask whose digits are known, with one more on top. */
  lemma AddPlace(x: nat, m: nat, ks: seq<nat>, k: nat)
    requires m < Pow2(k) && (And(x, m) == 0 <==> ZeroAt(x, ks))
    ensures And(x, m + Pow2(k)) == 0 <==> ZeroAt(x, ks + [k])
  {
    AndTopDigit(x, m, k);
    var more := ks + [k];
    if ZeroAt(x, more) {
      forall i | 0 <= i < |ks|
        ensures x / Pow2(ks[i]) % 2 == 0
      {
        assert more[i] == ks[i];
      }
      assert more[|ks|] == k;
    }
  }
}
