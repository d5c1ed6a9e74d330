/** Chunking a stream through a window gives the same chunks as chunking the whole buffer. */
module CdcStreaming {
  import opened Basics
  import opened GearCut
  import opened FastCdc

  /** A configuration with which every chunk has at least one byte. */
  predicate Advancing(c: Config) {
    0 < c.start && 0 < c.maxSize
  }

  lemma CutBounds(g: Gear, c: Config, p: seq<Byte>, n: nat)
    requires n <= |p| && Advancing(c)
    ensures Cut(g, c, p, n) <= c.Clamp(n) || n <= c.minSize
    ensures Cut(g, c, p, n) <= n
    ensures 0 < n ==> 0 < Cut(g, c, p, n)
    ensures Cut(g, c, p, n) < c.Clamp(n) ==> c.start <= Cut(g, c, p, n)
  {
  }

  lemma SamePrefix(p: seq<Byte>, q: seq<Byte>, s: nat, i: nat, n: nat)
    requires s <= i <= n <= |p| && n <= |q| && p[s..n] == q[s..n]
    ensures p[s..i] == q[s..i]
  {
    assert p[s..i] == p[s..n][..i - s];
    assert q[s..i] == q[s..n][..i - s];
  }

  lemma {:induction false} FingerprintPrefix(g: Gear, p: seq<Byte>, q: seq<Byte>, s: nat, i: nat)
    requires s <= i <= |p| && i <= |q| && p[s..i] == q[s..i]
    ensures Fingerprint(g, p, s, i) == Fingerprint(g, q, s, i)
    decreases i
  {
    if s < i {
      SamePrefix(p, q, s, i - 1, i);
      FingerprintPrefix(g, p, q, s, i - 1);
      assert p[s..i][i - 1 - s] == q[s..i][i - 1 - s];
    }
  }

  lemma {:induction false} FirstHitPrefix(g: Gear, c: Config, p: seq<Byte>, q: seq<Byte>, i: nat, n: nat)
    requires c.start <= i && n <= |p| && n <= |q|
    requires c.start <= n ==> p[c.start..n] == q[c.start..n]
    ensures FirstHit(g, c, p, i, n) == FirstHit(g, c, q, i, n)
    decreases n - i
  {
    if i < n {
      SamePrefix(p, q, c.start, i + 1, n);
      FingerprintPrefix(g, p, q, c.start, i + 1);
      FirstHitPrefix(g, c, p, q, i + 1, n);
    }
  }

  /** The cut depends only on the bytes from the start of the scan to the clamped length. */
  lemma CutSeesOnlyScannedBytes(g: Gear, c: Config, p: seq<Byte>, q: seq<Byte>, n: nat)
    requires n <= |p| && n <= |q|
    requires c.start <= c.Clamp(n) ==> p[c.start..c.Clamp(n)] == q[c.start..c.Clamp(n)]
    ensures Cut(g, c, p, n) == Cut(g, c, q, n)
  {
    FirstHitPrefix(g, c, p, q, c.start, c.Clamp(n));
  }

  /** A cut inside the buffer is final: more bytes behind it change nothing. */
  lemma CutSurvivesAppend(g: Gear, c: Config, p: seq<Byte>, q: seq<Byte>, n: nat, k: nat)
    requires n <= |p| && n <= k <= |q| && p[..n] == q[..n]
    requires Cut(g, c, p, n) < n
    ensures Cut(g, c, q, k) == Cut(g, c, p, n)
  {
    var m := c.Clamp(n);
    forall t | c.start <= t < m
      ensures p[t] == q[t]
    {
      assert p[..n][t] == q[..n][t];
    }
    FirstHitPrefix(g, c, p, q, c.start, m);
    if n <= c.maxSize && c.start <= n {
      FirstHitSplit(g, c, q, c.start, n, c.Clamp(k));
    }
  }

  /** At least `maxSize` bytes are enough: length and bytes beyond them do not matter. */
  lemma CutNeedsOnlyMaxSize(g: Gear, c: Config, p: seq<Byte>, q: seq<Byte>, n: nat, k: nat)
    requires c.maxSize <= n <= |p| && c.maxSize <= k <= |q|
    requires c.minSize < n && c.minSize < k
    requires p[..c.maxSize] == q[..c.maxSize]
    ensures Cut(g, c, p, n) == Cut(g, c, q, k)
  {
    if c.start <= c.maxSize {
      assert p[c.start..c.maxSize] == p[..c.maxSize][c.start..];
      assert q[c.start..c.maxSize] == q[..c.maxSize][c.start..];
    }
    FirstHitPrefix(g, c, p, q, c.start, c.maxSize);
  }

  /** The chunk lengths of a whole buffer. */
  function Tiles(g: Gear, c: Config, p: seq<Byte>): seq<nat>
    requires Advancing(c)
    decreases |p|
  {
    if p == [] then []
    else
      CutBounds(g, c, p, |p|);
      var r := Cut(g, c, p, |p|);
      [r] + Tiles(g, c, p[r..])
  }

  function Sum(s: seq<nat>): nat {
    if s == [] then 0 else s[0] + Sum(s[1..])
  }

  /** `cuts` is what a reader obtains that is handed, for each chunk, the first offers[k] bytes
      of what remains: the whole rest, or at least `maxSize` bytes of it. */
  ghost predicate Streamed(g: Gear, c: Config, rest: seq<Byte>, offers: seq<nat>, cuts: seq<nat>)
    decreases |offers|
  {
    if rest == [] then offers == [] && cuts == []
    else
      && offers != [] && cuts != []
      && offers[0] <= |rest|
      && (offers[0] == |rest| || c.maxSize <= offers[0])
      && cuts[0] == Cut(g, c, rest[..offers[0]], offers[0])
      && cuts[0] <= |rest|
      && Streamed(g, c, rest[cuts[0]..], offers[1..], cuts[1..])
  }

  lemma OfferedCut(g: Gear, c: Config, rest: seq<Byte>, k: nat)
    requires c.minSize < c.maxSize
    requires k <= |rest| && (k == |rest| || c.maxSize <= k)
    ensures Cut(g, c, rest[..k], k) == Cut(g, c, rest, |rest|)
  {
    if k == |rest| {
      assert rest[..k] == rest;
    } else {
      assert rest[..k][..c.maxSize] == rest[..c.maxSize];
      CutNeedsOnlyMaxSize(g, c, rest[..k], rest, k, |rest|);
    }
  }

  /** Whatever the refills offered, the chunks are those of the whole buffer. */
  lemma {:induction false} StreamingMatchesWhole(g: Gear, c: Config, p: seq<Byte>, offers: seq<nat>, cuts: seq<nat>)
    requires Advancing(c) && c.minSize < c.maxSize
    requires Streamed(g, c, p, offers, cuts)
    ensures cuts == Tiles(g, c, p)
    decreases |offers|
  {
    if p != [] {
      OfferedCut(g, c, p, offers[0]);
      StreamingMatchesWhole(g, c, p[cuts[0]..], offers[1..], cuts[1..]);
    }
  }

  /** The chunks tile the buffer, and every chunk but the last has at least `start` bytes. */
  lemma {:induction false} TilesCover(g: Gear, c: Config, p: seq<Byte>)
    requires Advancing(c) && c.start <= c.maxSize && c.minSize <= c.maxSize
    ensures Sum(Tiles(g, c, p)) == |p|
    ensures forall i :: 0 <= i < |Tiles(g, c, p)| ==> 0 < Tiles(g, c, p)[i] <= c.maxSize
    ensures forall i :: 0 <= i < |Tiles(g, c, p)| - 1 ==> c.start <= Tiles(g, c, p)[i]
    decreases |p|
  {
    if p != [] {
      CutBounds(g, c, p, |p|);
      var r := Cut(g, c, p, |p|);
      TilesCover(g, c, p[r..]);
      var rest := Tiles(g, c, p[r..]);
      assert Tiles(g, c, p) == [r] + rest;
      assert r < |p| ==> c.start <= r;
    }
  }

  /** Each of the four chunkers streams with the sizes that `Init` sets: the chunks do not depend on
      the refills, and they tile the stream. */
  lemma EveryChunkerStreams(g: Gear, c: Config, p: seq<Byte>, offers: seq<nat>, cuts: seq<nat>)
    requires c == OriginConfig(2048, 32768) || c == RollingConfig(2048, 1024, 32768) || c == NormalConfig(32768) ||
             c == NormalPairsConfig(32768)
    requires Streamed(g, c, p, offers, cuts)
    ensures cuts == Tiles(g, c, p) && Sum(cuts) == |p|
    ensures forall i :: 0 <= i < |cuts| ==> 0 < cuts[i] <= 32768
  {
    StreamingMatchesWhole(g, c, p, offers, cuts);
    TilesCover(g, c, p);
  }

  /** The first k of the lengths t end at a boundary of p, and the others are the chunks behind it. */
  ghost predicate BoundaryAt(g: Gear, c: Config, p: seq<Byte>, t: seq<nat>, k: nat)
    requires Advancing(c) && k <= |t|
  {
    Sum(t[..k]) <= |p| && t[k..] == Tiles(g, c, p[Sum(t[..k])..])
  }

  lemma NextBoundary(g: Gear, c: Config, p: seq<Byte>, r: nat, u: seq<nat>, k: nat)
    requires Advancing(c) && r <= |p| && k <= |u| && BoundaryAt(g, c, p[r..], u, k)
    ensures BoundaryAt(g, c, p, [r] + u, k + 1)
  {
    var t, s := [r] + u, Sum(u[..k]);
    assert t[..k + 1][0] == r && t[..k + 1][1..] == u[..k];
    assert t[k + 1..] == u[k..];
    assert p[r..][s..] == p[r + s..];
  }

  /** Chunking is memoryless: what follows a boundary is chunked as if the stream began there. */
  lemma {:induction false} TilesAfterBoundary(g: Gear, c: Config, p: seq<Byte>, k: nat)
    requires Advancing(c) && k <= |Tiles(g, c, p)|
    ensures BoundaryAt(g, c, p, Tiles(g, c, p), k)
    decreases k
  {
    if k > 0 {
      CutBounds(g, c, p, |p|);
      var r := Cut(g, c, p, |p|);
      TilesAfterBoundary(g, c, p[r..], k - 1);
      NextBoundary(g, c, p, r, Tiles(g, c, p[r..]), k - 1);
    } else {
      var t := Tiles(g, c, p);
      assert p[0..] == p && t[0..] == t;
    }
  }

  /** Deduplication: once two streams have a boundary before the same remaining bytes, all
      their later chunks coincide, whatever was edited before. */
  lemma EditedStreamsResynchronise(g: Gear, c: Config, p: seq<Byte>, i: nat, q: seq<Byte>, j: nat)
    requires Advancing(c)
    requires i <= |Tiles(g, c, p)| && j <= |Tiles(g, c, q)|
    requires Sum(Tiles(g, c, p)[..i]) <= |p| && Sum(Tiles(g, c, q)[..j]) <= |q|
    requires p[Sum(Tiles(g, c, p)[..i])..] == q[Sum(Tiles(g, c, q)[..j])..]
    ensures Tiles(g, c, p)[i..] == Tiles(g, c, q)[j..]
  {
    TilesAfterBoundary(g, c, p, i);
    TilesAfterBoundary(g, c, q, j);
  }
}
