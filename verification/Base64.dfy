/** Base64 with the alphabet of section 4 of RFC 4648. */
module Base64 {
  import opened Basics
  import opened Bits

  type Sextet = v: int | 0 <= v < 64

  const UPPER: string := "ABCDEFGHIJKLMNOPQRSTUVWXYZ"
  const LOWER: string := "abcdefghijklmnopqrstuvwxyz"
  const OTHER: string := "0123456789+/"
  const BASE64_CHARS: string := UPPER + LOWER + OTHER

  // ---------- the alphabet ----------

  function Letter(v: Sextet): char {
    if v < 26 then 'A' + v as char
    else if v < 52 then 'a' + (v - 26) as char
    else if v < 62 then '0' + (v - 52) as char
    else if v == 62 then '+' else '/'
  }

  predicate IsBase64(c: char) {
    ('A' <= c <= 'Z') || ('a' <= c <= 'z') || ('0' <= c <= '9') || c == '+' || c == '/'
  }

  function Find(s: string, c: char): (i: nat)
    ensures i <= |s|
  {
    if |s| == 0 || s[0] == c then 0 else 1 + Find(s[1..], c)
  }

  lemma UpperAt(i: nat)
    requires i < 26
    ensures UPPER[i] == 'A' + i as char && LOWER[i] == 'a' + i as char
  {
  }

  lemma AlphabetAt(v: Sextet)
    ensures |BASE64_CHARS| == 64 && BASE64_CHARS[v] == Letter(v)
  {
    if v < 26 {
      UpperAt(v);
    } else if v < 52 {
      UpperAt(v - 26);
    }
  }

  lemma {:induction false} FindAt(s: string, i: nat)
    requires i < |s| && forall j :: 0 <= j < i ==> s[j] != s[i]
    ensures Find(s, s[i]) == i
  {
    if i > 0 {
      assert s[1..][i - 1] == s[i];
      FindAt(s[1..], i - 1);
    }
  }

  lemma FindLetter(v: Sextet)
    ensures IsBase64(Letter(v)) && Find(BASE64_CHARS, Letter(v)) == v
  {
    AlphabetAt(v);
    forall j: nat | j < v
      ensures BASE64_CHARS[j] != BASE64_CHARS[v]
    {
      AlphabetAt(j);
    }
    FindAt(BASE64_CHARS, v);
  }

  /** Every character the decoder accepts is a letter of the alphabet. */
  function Value(c: char): (v: Sextet)
    requires IsBase64(c)
    ensures Letter(v) == c && Find(BASE64_CHARS, c) == v
  {
    var v: Sextet :=
      if 'A' <= c <= 'Z' then c as int - 'A' as int
      else if 'a' <= c <= 'z' then c as int - 'a' as int + 26
      else if '0' <= c <= '9' then c as int - '0' as int + 52
      else if c == '+' then 62 else 63;
    FindLetter(v);
    v
  }

  // ---------- groups of 24 bits ----------

  function Join(g: seq<Byte>): nat
    requires |g| == 3
  {
    65536 * (g[0] as int) + 256 * (g[1] as int) + g[2]
  }

  function JoinSextets(v: seq<Sextet>): nat
    requires |v| == 4
  {
    262144 * (v[0] as int) + 4096 * (v[1] as int) + 64 * (v[2] as int) + v[3]
  }

  /** The sextet at place i of a group. */
  function SextetAt(g: seq<Byte>, i: nat): Sextet
    requires |g| == 3
  {
    if i == 0 then g[0] / 4
    else if i == 1 then g[0] % 4 * 16 + g[1] / 16
    else if i == 2 then g[1] % 16 * 4 + g[2] / 64
    else g[2] % 64
  }

  /** Three bytes as four sextets. */
  function Cut(g: seq<Byte>): (r: seq<Sextet>)
    requires |g| == 3
    ensures |r| == 4
  {
    seq(4, i requires 0 <= i => SextetAt(g, i))
  }

  /** The byte at place i of a group, from the sextets at places i and i + 1. */
  function ByteAt(i: nat, x: Sextet, y: Sextet): Byte {
    if i == 0 then x * 4 + y / 16
    else if i == 1 then x % 16 * 16 + y / 4
    else x % 4 * 64 + y
  }

  /** Four sextets as three bytes. */
  function CutBytes(v: seq<Sextet>): (b: seq<Byte>)
    requires |v| == 4
    ensures |b| == 3
  {
    seq(3, i requires 0 <= i < 3 => ByteAt(i, v[i], v[i + 1]))
  }

  /** Both ways of cutting keep the 24 bits. */
  lemma CutKeepsBits(g: seq<Byte>)
    requires |g| == 3
    ensures JoinSextets(Cut(g)) == Join(g)
  {
  }

  lemma CutBytesKeepsBits(v: seq<Sextet>)
    requires |v| == 4
    ensures Join(CutBytes(v)) == JoinSextets(v)
  {
  }

  lemma JoinInjective(x: seq<Byte>, y: seq<Byte>)
    requires |x| == |y| == 3 && Join(x) == Join(y)
    ensures x == y
  {
    var high, high' := 256 * (x[0] as int) + x[1], 256 * (y[0] as int) + y[1];
    assert 256 * (high - high') == y[2] - x[2];
  }

  lemma GroupRoundTrip(g: seq<Byte>)
    requires |g| == 3
    ensures CutBytes(Cut(g)) == g
  {
    CutKeepsBits(g);
    CutBytesKeepsBits(Cut(g));
    JoinInjective(CutBytes(Cut(g)), g);
  }

  // ---------- whole strings ----------

  /** A short group filled up with zeros. */
  function Fill(g: seq<int>, n: nat): (r: seq<int>)
    requires |g| <= n
    ensures |r| == n && r[..|g|] == g
  {
    g + seq(n - |g|, _ => 0)
  }

  /** The sextets of a byte string; a last group of one or two bytes gives two or three. */
  function Pack(b: seq<Byte>): seq<Sextet> {
    if |b| == 0 then []
    else if |b| < 3 then Cut(Fill(b, 3))[..|b| + 1]
    else Cut(b[..3]) + Pack(b[3..])
  }

  /** The bytes of a string of sextets; a last group of n gives n - 1. */
  function Unpack(v: seq<Sextet>): seq<Byte> {
    if |v| == 0 then []
    else if |v| < 4 then CutBytes(Fill(v, 4))[..|v| - 1]
    else CutBytes(v[..4]) + Unpack(v[4..])
  }

  function Letters(v: seq<Sextet>): (s: string)
    ensures |s| == |v|
  {
    seq(|v|, i requires 0 <= i < |v| => Letter(v[i]))
  }

  function Padding(n: nat): string {
    if n % 3 == 1 then "==" else if n % 3 == 2 then "=" else ""
  }

  function Encode(b: seq<Byte>): string {
    Letters(Pack(b)) + Padding(|b|)
  }

  /** The values of the longest prefix of letters. */
  function Sextets(s: string): seq<Sextet> {
    if |s| == 0 || !IsBase64(s[0]) then [] else [Value(s[0])] + Sextets(s[1..])
  }

  function Decode(s: string): seq<Byte> {
    Unpack(Sextets(s))
  }

  /** The low bits of a short group's last sextet come from the zeros filled in. */
  lemma ShortGroup(g: seq<Byte>)
    requires 1 <= |g| < 3
    ensures Fill(Cut(Fill(g, 3))[..|g| + 1], 4) == Cut(Fill(g, 3))
  {
  }

  lemma {:induction false} UnpackPack(b: seq<Byte>)
    ensures Unpack(Pack(b)) == b
    decreases |b|
  {
    if 0 < |b| < 3 {
      ShortGroup(b);
      GroupRoundTrip(Fill(b, 3));
    } else if |b| >= 3 {
      GroupRoundTrip(b[..3]);
      UnpackPack(b[3..]);
      assert Pack(b)[..4] == Cut(b[..3]) && Pack(b)[4..] == Pack(b[3..]);
      assert b == b[..3] + b[3..];
    }
  }

  lemma {:induction false} SextetsOfLetters(v: seq<Sextet>, rest: string)
    requires |rest| == 0 || !IsBase64(rest[0])
    ensures Sextets(Letters(v) + rest) == v
    decreases |v|
  {
    var s := Letters(v) + rest;
    if |v| == 0 {
      assert s == rest;
    } else {
      FindLetter(v[0]);
      assert s[0] == Letter(v[0]);
      assert Letters(v)[1..] == Letters(v[1..]);
      assert s[1..] == Letters(v[1..]) + rest;
      SextetsOfLetters(v[1..], rest);
    }
  }

  /** Decoding an encoding gives the bytes back. */
  lemma RoundTrip(b: seq<Byte>)
    ensures Decode(Encode(b)) == b
  {
    SextetsOfLetters(Pack(b), Padding(|b|));
    UnpackPack(b);
  }

  lemma {:induction false} PackLength(b: seq<Byte>)
    ensures |Pack(b)| == 4 * (|b| / 3) + (if |b| % 3 == 0 then 0 else |b| % 3 + 1)
    decreases |b|
  {
    if |b| >= 3 {
      PackLength(b[3..]);
      assert |b| / 3 == |b[3..]| / 3 + 1 && |b| % 3 == |b[3..]| % 3;
    }
  }

  /** Every group of three bytes, the last one padded, takes four characters. */
  lemma EncodeLength(b: seq<Byte>)
    ensures |Encode(b)| == 4 * ((|b| + 2) / 3)
  {
    PackLength(b);
  }

  lemma {:induction false} UnpackLength(v: seq<Sextet>)
    ensures |Unpack(v)| == 6 * |v| / 8
    decreases |v|
  {
    if |v| >= 4 {
      UnpackLength(v[4..]);
    }
  }

  /** The number of letters in front of the first character outside the alphabet. */
  lemma {:induction false} SextetsPrefix(s: string)
    ensures var k := |Sextets(s)|;
            && k <= |s| && (k < |s| ==> !IsBase64(s[k]))
            && (forall i :: 0 <= i < k ==> IsBase64(s[i]) && Sextets(s)[i] == Value(s[i]))
    decreases |s|
  {
    if |s| > 0 && IsBase64(s[0]) {
      SextetsPrefix(s[1..]);
    }
  }

  /** Decoding any string at all reads its longest prefix of k letters and nothing
      else, and k letters give floor(6k / 8) bytes. */
  lemma DecodeUsesLetterPrefix(s: string, t: string, k: nat)
    requires k <= |s| && (forall i :: 0 <= i < k ==> IsBase64(s[i])) && (k < |s| ==> !IsBase64(s[k]))
    requires k <= |t| && t[..k] == s[..k] && (k < |t| ==> !IsBase64(t[k]))
    ensures |Decode(s)| == 6 * k / 8 && Decode(t) == Decode(s)
  {
    SextetsPrefix(s);
    SextetsPrefix(t);
    forall i | 0 <= i < k
      ensures t[i] == s[i]
    {
      assert t[..k][i] == s[..k][i];
    }
    var m, n := |Sextets(s)|, |Sextets(t)|;
    assert m == k && n == k;
    assert Sextets(s) == Sextets(t);
    UnpackLength(Sextets(s));
  }

  // ---------- what is written and read, bit by bit ----------

  /** The element at place i, or zero behind the end. */
  function OrZero(s: seq<int>, i: nat): int {
    if i < |s| then s[i] else 0
  }

  /** The 24 bits of the q-th group of bytes. */
  function ByteGroup(b: seq<Byte>, q: nat): int {
    65536 * OrZero(b, 3 * q) + 256 * OrZero(b, 3 * q + 1) + OrZero(b, 3 * q + 2)
  }

  /** The 24 bits of the q-th group of sextets. */
  function SextetGroup(v: seq<int>, q: nat): int {
    262144 * OrZero(v, 4 * q) + 4096 * OrZero(v, 4 * q + 1) + 64 * OrZero(v, 4 * q + 2) + OrZero(v, 4 * q + 3)
  }

  /** The j-th of the four digits to the base 64. */
  function SixBits(n: int, j: nat): int {
    if j == 0 then n / 262144 % 64 else if j == 1 then n / 4096 % 64 else if j == 2 then n / 64 % 64 else n % 64
  }

  /** The j-th of the three digits to the base 256. */
  function EightBits(n: int, j: nat): int {
    if j == 0 then n / 65536 % 256 else if j == 1 then n / 256 % 256 else n % 256
  }

  lemma SixBitsOf(p: Sextet, q: Sextet, r: Sextet, s: Sextet)
    ensures var n := 262144 * (p as int) + 4096 * (q as int) + 64 * (r as int) + s;
            SixBits(n, 0) == p && SixBits(n, 1) == q && SixBits(n, 2) == r && SixBits(n, 3) == s
  {
    var n := 262144 * (p as int) + 4096 * (q as int) + 64 * (r as int) + s;
    DivModUnique(n, 262144, p, 4096 * (q as int) + 64 * (r as int) + s);
    DivModUnique(n, 4096, 64 * (p as int) + q, 64 * (r as int) + s);
    DivModUnique(n, 64, 4096 * (p as int) + 64 * (q as int) + r, s);
  }

  lemma EightBitsOf(a: Byte, b: Byte, c: Byte)
    ensures var n := 65536 * (a as int) + 256 * (b as int) + c;
            EightBits(n, 0) == a && EightBits(n, 1) == b && EightBits(n, 2) == c
  {
    var n := 65536 * (a as int) + 256 * (b as int) + c;
    DivModUnique(n, 65536, a, 256 * (b as int) + c);
    DivModUnique(n, 256, 256 * (a as int) + b, c);
  }

  lemma CutBits(g: seq<Byte>, j: nat)
    requires |g| == 3 && j < 4
    ensures Cut(g)[j] == SixBits(Join(g), j)
  {
    var v := Cut(g);
    CutKeepsBits(g);
    SixBitsOf(v[0], v[1], v[2], v[3]);
  }

  lemma CutBytesBits(v: seq<Sextet>, j: nat)
    requires |v| == 4 && j < 3
    ensures CutBytes(v)[j] == EightBits(JoinSextets(v), j)
  {
    var b := CutBytes(v);
    CutBytesKeepsBits(v);
    EightBitsOf(b[0], b[1], b[2]);
  }

  lemma OrZeroTail(s: seq<int>, k: nat, i: nat)
    requires k <= |s|
    ensures OrZero(s[k..], i) == OrZero(s, k + i)
  {
  }

  /** The i-th sextet is six bits of the group it belongs to. */
  lemma {:induction false} PackMeans(b: seq<Byte>, i: nat)
    requires i < |Pack(b)|
    ensures Pack(b)[i] == SixBits(ByteGroup(b, i / 4), i % 4)
    decreases |b|
  {
    if |b| < 3 {
      CutBits(Fill(b, 3), i);
      assert Join(Fill(b, 3)) == ByteGroup(b, 0);
    } else if i < 4 {
      CutBits(b[..3], i);
      assert Join(b[..3]) == ByteGroup(b, 0);
    } else {
      PackMeans(b[3..], i - 4);
      var q := i / 4 - 1;
      assert (i - 4) / 4 == q && (i - 4) % 4 == i % 4;
      OrZeroTail(b, 3, 3 * q);
      OrZeroTail(b, 3, 3 * q + 1);
      OrZeroTail(b, 3, 3 * q + 2);
    }
  }

  lemma {:induction false} UnpackMeans(v: seq<Sextet>, i: nat)
    requires i < |Unpack(v)|
    ensures Unpack(v)[i] == EightBits(SextetGroup(v, i / 3), i % 3)
    decreases |v|
  {
    if |v| < 4 {
      CutBytesBits(Fill(v, 4), i);
      assert JoinSextets(Fill(v, 4)) == SextetGroup(v, 0);
    } else if i < 3 {
      CutBytesBits(v[..4], i);
      assert JoinSextets(v[..4]) == SextetGroup(v, 0);
    } else {
      UnpackMeans(v[4..], i - 3);
      var q := i / 3 - 1;
      assert (i - 3) / 3 == q && (i - 3) % 3 == i % 3;
      OrZeroTail(v, 4, 4 * q);
      OrZeroTail(v, 4, 4 * q + 1);
      OrZeroTail(v, 4, 4 * q + 2);
      OrZeroTail(v, 4, 4 * q + 3);
    }
  }

  /** How many letters n bytes take. */
  function LetterCount(n: nat): nat {
    4 * (n / 3) + (if n % 3 == 0 then 0 else n % 3 + 1)
  }

  lemma TableAt(v: Sextet)
    ensures var table := "ABCDEFGHIJKLMNOPQRSTUVWXYZ" + "abcdefghijklmnopqrstuvwxyz" + "0123456789+/";
            |table| == 64 && table[v] == Letter(v)
  {
    AlphabetAt(v);
  }

  /** The encoding: each letter is the one that the alphabet has at the value of its six bits, and
      behind the letters there are only equals signs, as many as bytes are missing in the last
      group. */
  lemma EncodeMeans(b: seq<Byte>)
    ensures var table := "ABCDEFGHIJKLMNOPQRSTUVWXYZ" + "abcdefghijklmnopqrstuvwxyz" + "0123456789+/";
            var s, letters := Encode(b), LetterCount(|b|);
            && |table| == 64
            && |s| == letters + (3 - |b| % 3) % 3
            && (forall i :: 0 <= i < letters ==>
                  0 <= SixBits(ByteGroup(b, i / 4), i % 4) < 64 &&
                  s[i] == table[SixBits(ByteGroup(b, i / 4), i % 4)])
            && (forall i :: letters <= i < |s| ==> s[i] == '=')
  {
    TableAt(0);
    PackLength(b);
    forall i | 0 <= i < LetterCount(|b|)
      ensures Encode(b)[i] == Letter(Pack(b)[i]) && Pack(b)[i] == SixBits(ByteGroup(b, i / 4), i % 4)
    {
      PackMeans(b, i);
    }
    forall v: Sextet
      ensures Letter(v) == ("ABCDEFGHIJKLMNOPQRSTUVWXYZ" + "abcdefghijklmnopqrstuvwxyz" + "0123456789+/")[v]
    {
      TableAt(v);
    }
  }

  lemma LetterInjective(v: Sextet, w: Sextet)
    requires Letter(v) == Letter(w)
    ensures v == w
  {
    FindLetter(v);
    FindLetter(w);
  }

  /** The decoding: where the first k characters are letters of the alphabet, of the given values,
      and the next is none, the bytes are eight bits each of the groups of those values. */
  lemma DecodeMeans(s: string, v: seq<Sextet>, i: nat)
    requires |v| <= |s| && (|v| < |s| ==> !IsBase64(s[|v|]))
    requires var table := "ABCDEFGHIJKLMNOPQRSTUVWXYZ" + "abcdefghijklmnopqrstuvwxyz" + "0123456789+/";
             |table| == 64 && forall j :: 0 <= j < |v| ==> table[v[j]] == s[j]
    requires i < 6 * |v| / 8
    ensures |Decode(s)| == 6 * |v| / 8 && Decode(s)[i] == EightBits(SextetGroup(v, i / 3), i % 3)
  {
    forall j | 0 <= j < |v|
      ensures IsBase64(s[j]) && Value(s[j]) == v[j]
    {
      TableAt(v[j]);
      FindLetter(v[j]);
      LetterInjective(Value(s[j]), v[j]);
    }
    SextetsPrefix(s);
    assert |Sextets(s)| == |v|;
    assert Sextets(s) == v;
    UnpackLength(v);
    UnpackMeans(v, i);
  }

  /** The letters are exactly the characters of the alphabet. */
  lemma LettersAre(c: char)
    ensures IsBase64(c) <==> c in "ABCDEFGHIJKLMNOPQRSTUVWXYZ" + "abcdefghijklmnopqrstuvwxyz" + "0123456789+/"
  {
    var table := "ABCDEFGHIJKLMNOPQRSTUVWXYZ" + "abcdefghijklmnopqrstuvwxyz" + "0123456789+/";
    TableAt(0);
    if IsBase64(c) {
      TableAt(Value(c));
      assert table[Value(c)] == c;
    }
    if c in table {
      var v: nat :| v < |table| && table[v] == c;
      TableAt(v);
      FindLetter(v);
    }
  }

  // ---------- the loops ----------

  /** Masking in place and shifting down, or shifting down and then masking. */
  lemma {:induction false} Field(x: nat, m: nat, k: nat)
    ensures Shr(And(x, Scaled(m, k)), k) == And(Shr(x, k), m)
    decreases k
  {
    if k > 0 {
      var half, mask := x / 2, Scaled(m, k - 1);
      MaskedHalf(x, mask);
      assert 2 * And(half, mask) / 2 == And(half, mask);
      Field(half, m, k - 1);
    }
  }

  lemma MaskedHalf(x: nat, m: nat)
    ensures And(x, 2 * m) == 2 * And(x / 2, m)
  {
    assert 2 * m / 2 == m && 2 * m % 2 == 0;
    AndStep(x, 2 * m);
  }

  lemma SmallMod(q: nat, m: nat)
    requires q < m
    ensures q % m == q
  {
    DivModUnique(q, m, 0, q);
  }

  /** A mask over the top j of k + j digits. */
  lemma HighMask(x: nat, j: nat, k: nat)
    requires Shr(x, k) < Pow2(j)
    ensures Shr(And(x, Scaled(Pow2(j) - 1, k)), k) == Shr(x, k)
  {
    Field(x, Pow2(j) - 1, k);
    AndMask(Shr(x, k), j);
    SmallMod(Shr(x, k), Pow2(j));
  }

  /** The masks and shifts of the encoder cut the 24 bits as `Cut` does. */
  lemma EncoderMasks(a: Byte, b: Byte, c: Byte)
    ensures Shr(And(a, 0xfc), 2) == a / 4 && And(a, 0x03) == a % 4
    ensures Shr(And(b, 0xf0), 4) == b / 16 && And(b, 0x0f) == b % 16
    ensures Shr(And(c, 0xc0), 6) == c / 64 && And(c, 0x3f) == c % 64
  {
    Powers();
    ShrDivides(a, 2);
    HighMask(a, 6, 2);
    AndMask(a, 2);
    ShrDivides(b, 4);
    HighMask(b, 4, 4);
    AndMask(b, 4);
    ShrDivides(c, 6);
    HighMask(c, 2, 6);
    AndMask(c, 6);
  }

  lemma DecoderMasks(q: Sextet, r: Sextet)
    ensures Shr(And(q, 0x30), 4) == q / 16 && And(q, 0xf) == q % 16
    ensures Shr(And(r, 0x3c), 2) == r / 4 && And(r, 0x3) == r % 4
  {
    Powers();
    ShrDivides(q, 4);
    HighMask(q, 2, 4);
    AndMask(q, 4);
    ShrDivides(r, 2);
    HighMask(r, 4, 2);
    AndMask(r, 2);
  }

  lemma Powers()
    ensures Pow2(2) == 4 && Pow2(4) == 16 && Pow2(6) == 64
    ensures Scaled(63, 2) == 0xfc && Scaled(15, 4) == 0xf0 && Scaled(3, 6) == 0xc0
    ensures Scaled(3, 4) == 0x30 && Scaled(15, 2) == 0x3c
  {
  }

  lemma {:induction false} PackAppend(p: seq<Byte>, q: seq<Byte>)
    requires |p| % 3 == 0
    ensures Pack(p + q) == Pack(p) + Pack(q)
    decreases |p|
  {
    if |p| == 0 {
      assert p + q == q;
    } else {
      var first, rest := p[..3], p[3..];
      PackAppend(rest, q);
      assert (p + q)[..3] == first && (p + q)[3..] == rest + q;
      assert Pack(p + q) == Cut(first) + Pack(rest + q) == Pack(p) + Pack(q);
    }
  }

  lemma {:induction false} UnpackAppend(p: seq<Sextet>, q: seq<Sextet>)
    requires |p| % 4 == 0
    ensures Unpack(p + q) == Unpack(p) + Unpack(q)
    decreases |p|
  {
    if |p| == 0 {
      assert p + q == q;
    } else {
      UnpackAppend(p[4..], q);
      assert (p + q)[..4] == p[..4] && (p + q)[4..] == p[4..] + q;
    }
  }

  method EncodeGroup(three: array<Byte>, four: array<Byte>)
    requires three.Length == 3 && four.Length == 4 && three != four
    modifies four
    ensures four[..] == Cut(three[..])
  {
    var a, b, c := three[0], three[1], three[2];
    EncoderMasks(a, b, c);
    four[0] := Shr(And(a, 0xfc), 2);
    four[1] := And(a, 0x03) * 16 + Shr(And(b, 0xf0), 4);
    four[2] := And(b, 0x0f) * 4 + Shr(And(c, 0xc0), 6);
    four[3] := And(c, 0x3f);
  }

  /** `ret += base64_chars[four[j]]` for the first |w| entries. */
  method AppendLetters(ret: string, four: array<Byte>, n: nat, ghost v: seq<Sextet>, ghost w: seq<Sextet>)
    returns (r: string)
    requires n <= four.Length && four[..n] == w && ret == Letters(v)
    ensures r == Letters(v + w)
  {
    r := ret;
    for j := 0 to n
      invariant r == Letters(v + w[..j])
    {
      assert four[..n][j] == w[j];
      AlphabetAt(four[j]);
      r := r + [BASE64_CHARS[four[j]]];
    }
    assert w[..n] == w;
  }

  lemma PackOneGroup(b: seq<Byte>)
    requires 1 <= |b| <= 3
    ensures Pack(b) == Cut(Fill(b, 3))[..|b| + 1]
  {
    if |b| == 3 {
      assert b[..3] == b == Fill(b, 3) && b[3..] == [];
    }
  }

  /** `ret` holds the letters of the complete groups `done`. */
  ghost predicate Written(done: seq<Byte>, ret: string) {
    |done| % 3 == 0 && ret == Letters(Pack(done))
  }

  lemma WrittenAll(done: seq<Byte>, ret: string)
    requires Written(done, ret)
    ensures ret == Encode(done)
  {
    assert ret == ret + Padding(|done|);
  }

  method EncodeFull(start: string, three: array<Byte>, four: array<Byte>, ghost done: seq<Byte>)
    returns (ret: string)
    requires three.Length == 3 && four.Length == 4 && three != four && Written(done, start)
    modifies four
    ensures Written(done + three[..], ret)
  {
    ghost var group := three[..];
    PackOneGroup(group);
    assert Fill(group, 3) == group;
    PackAppend(done, group);
    EncodeGroup(three, four);
    ret := AppendLetters(start, four, 4, Pack(done), Pack(group));
  }

  method EncodeTail(start: string, three: array<Byte>, four: array<Byte>, n: nat, ghost done: seq<Byte>)
    returns (ret: string)
    requires three.Length == 3 && four.Length == 4 && three != four && 1 <= n <= 2
    requires Written(done, start)
    modifies three, four
    ensures ret == Encode(done + old(three[..n]))
  {
    ghost var tail := three[..n];
    for j := n to 3
      invariant three[..n] == tail
      invariant forall m :: n <= m < j ==> three[m] == 0
    {
      three[j] := 0;
    }
    EncodeGroup(three, four);
    PackOneGroup(tail);
    assert three[..] == Fill(tail, 3);
    PackAppend(done, tail);
    ret := AppendLetters(start, four, n + 1, Pack(done), Pack(tail));
    ghost var letters := ret;
    var i := n;
    while i < 3
      invariant n <= i <= 3
      invariant ret == letters + seq(i - n, _ => '=')
    {
      ret := ret + "=";
      i := i + 1;
    }
    assert seq(3 - n, _ => '=') == Padding(|done + tail|);
  }

  /** Three bytes are buffered before each group is written; a short last group is
      filled up with zeros and its missing letters are written as '='. */
  method Base64Encode(buf: seq<Byte>) returns (ret: string)
    ensures ret == Encode(buf)
  {
    ret := "";
    var three, four := new Byte[3], new Byte[4];
    var i := 0;
    ghost var done: seq<Byte> := [];
    for k := 0 to |buf|
      invariant i < 3 && buf[..k] == done + three[..i]
      invariant Written(done, ret)
    {
      three[i] := buf[k];
      i := i + 1;
      assert buf[..k + 1] == buf[..k] + [buf[k]] == done + three[..i];
      if i == 3 {
        ret := EncodeFull(ret, three, four, done);
        done := done + three[..];
        i := 0;
      }
    }
    assert buf[..|buf|] == buf;
    if i != 0 {
      ret := EncodeTail(ret, three, four, i, done);
    } else {
      WrittenAll(done, ret);
    }
  }

  /** `base64_chars.find` stored into a byte: the missing answer `npos` becomes 255. */
  function FindByte(code: Byte): Byte {
    var i := Find(BASE64_CHARS, code as char);
    if i < 64 then i else 255
  }

  function Truncate(x: nat): (b: Byte)
    ensures x < 256 ==> b == x
  {
    x % 256
  }

  /** Each byte comes from two neighbouring sextets, where both were found. */
  ghost predicate Merged(four: seq<Byte>, three: seq<Byte>)
    requires |four| == 4 && |three| == 3
  {
    forall i :: 0 <= i < 3 && four[i] < 64 && four[i + 1] < 64
      ==> three[i] == ByteAt(i, four[i], four[i + 1])
  }

  method DecodeGroup(four: array<Byte>, three: array<Byte>)
    requires three.Length == 3 && four.Length == 4 && three != four
    modifies three
    ensures Merged(four[..], three[..])
  {
    var p: nat, q: nat, r: nat, s: nat := four[0], four[1], four[2], four[3];
    if q < 64 {
      DecoderMasks(q, q);
    }
    if r < 64 {
      DecoderMasks(r, r);
    }
    three[0] := Truncate(p * 4 + Shr(And(q, 0x30), 4));
    three[1] := Truncate(And(q, 0xf) * 16 + Shr(And(r, 0x3c), 2));
    three[2] := Truncate(And(r, 0x3) * 64 + s);
  }

  /** The characters collected so far are the letters of w. */
  ghost predicate Collected(four: seq<Byte>, w: seq<Sextet>) {
    |w| <= |four| && forall j :: 0 <= j < |w| ==> four[j] == Letter(w[j]) as int
  }

  /** The values of the letters collected in `four`, in place. */
  method LookUp(four: array<Byte>, ghost v: seq<Sextet>)
    requires four.Length == 4 && Collected(four[..], v)
    modifies four
    ensures four[..|v|] == v
  {
    for j := 0 to 4
      invariant forall m :: 0 <= m < j && m < |v| ==> four[m] == v[m]
      invariant forall m :: j <= m < |v| ==> four[m] == Letter(v[m]) as int
    {
      if j < |v| {
        FindLetter(v[j]);
      }
      four[j] := FindByte(four[j]);
    }
  }

  lemma UnpackOneGroup(v: seq<Sextet>)
    requires 1 <= |v| <= 4
    ensures Unpack(v) == CutBytes(Fill(v, 4))[..|v| - 1]
  {
    if |v| == 4 {
      assert v[..4] == v == Fill(v, 4) && v[4..] == [];
    }
  }

  /** The bytes of n letters do not depend on what is left in the missing places. */
  lemma MergedBytes(w: seq<Sextet>, four: seq<Byte>, three: seq<Byte>)
    requires 1 <= |w| <= 4 == |four| && |three| == 3 && four[..|w|] == w && Merged(four, three)
    ensures Unpack(w) == three[..|w| - 1]
  {
    var n, full := |w|, Fill(w, 4);
    UnpackOneGroup(w);
    forall i | 0 <= i < n - 1
      ensures three[i] == CutBytes(full)[i]
    {
      assert four[..n][i] == w[i] == full[i] && four[..n][i + 1] == w[i + 1] == full[i + 1];
      assert three[i] == ByteAt(i, four[i], four[i + 1]);
    }
  }

  method DecodeFlush(start: seq<Byte>, four: array<Byte>, three: array<Byte>, n: nat,
                     ghost v: seq<Sextet>, ghost w: seq<Sextet>)
    returns (ret: seq<Byte>)
    requires three.Length == 3 && four.Length == 4 && three != four && 1 <= n <= 4
    requires |w| == n && Collected(four[..], w) && Recovered(v, start)
    modifies three, four
    ensures ret == Unpack(v + w) && (n == 4 ==> Recovered(v + w, ret))
  {
    for j := n to 4
      invariant Collected(four[..], w)
    {
      four[j] := 0;
    }
    LookUp(four, w);
    DecodeGroup(four, three);
    MergedBytes(w, four[..], three[..]);
    UnpackAppend(v, w);
    ret := start;
    for j := 0 to n - 1
      invariant ret == start + three[..j]
    {
      ret := ret + [three[j]];
    }
  }

  lemma SextetsStep(s: string, k: nat)
    requires k <= |s| && forall i :: 0 <= i < k ==> IsBase64(s[i])
    ensures |Sextets(s)| >= k
    ensures k < |s| && IsBase64(s[k]) ==> |Sextets(s)| > k && Sextets(s)[k] == Value(s[k])
    ensures (k < |s| ==> !IsBase64(s[k])) ==> |Sextets(s)| == k
  {
    SextetsPrefix(s);
  }

  /** `ret` holds the bytes of the complete groups `done`. */
  ghost predicate Recovered(done: seq<Sextet>, ret: seq<Byte>) {
    |done| % 4 == 0 && ret == Unpack(done)
  }

  /** Letters are collected four at a time until the first other character. */
  method Base64Decode(s: string) returns (ret: seq<Byte>)
    ensures ret == Decode(s)
  {
    var four, three := new Byte[4], new Byte[3];
    ret := [];
    var i, k := 0, 0;
    ghost var v, done, w: seq<Sextet> := Sextets(s), [], [];
    while k < |s| && s[k] != '=' && IsBase64(s[k])
      invariant k <= |s| && k <= |v| && v[..k] == done + w
      invariant forall j :: 0 <= j < k ==> IsBase64(s[j])
      invariant i == |w| < 4 && Collected(four[..], w)
      invariant Recovered(done, ret)
    {
      SextetsStep(s, k);
      assert v[..k + 1] == v[..k] + [v[k]] == done + (w + [v[k]]);
      four[i] := s[k] as int;
      i := i + 1;
      w := w + [v[k]];
      k := k + 1;
      if i == 4 {
        ret := DecodeFlush(ret, four, three, 4, done, w);
        i := 0;
        done, w := done + w, [];
      }
    }
    SextetsStep(s, k);
    assert v[..k] == v;
    if i != 0 {
      ret := DecodeFlush(ret, four, three, i, done, w);
    } else {
      assert done + w == done;
    }
  }
}
