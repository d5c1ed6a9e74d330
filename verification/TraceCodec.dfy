/** The byte layout of a prefetch trace: a 24-byte header and 24-byte records, little-endian. */
module TraceCodec {
  import opened Basics
  import opened Bits

  type Word32 = x: int | 0 <= x < 0x1_0000_0000
  type Word64 = x: int | 0 <= x < 0x1_0000_0000_0000_0000

  const TRACE_MAGIC: Word32 := 3270449184
  const HEADER_SIZE: nat := 24
  const RECORD_SIZE: nat := 24

  /** One recorded access; the offset is kept as its two's complement word. */
  datatype Record = Record(op: Byte, layerIndex: Word32, count: Word64, offset: Word64)

  datatype Header = Header(magic: Word32, dataSize: Word64, checksum: Word32)

  /** crc32c_extend: the running checksum after some more bytes. */
  type Crc = (seq<Byte>, Word32) -> Word32

  function Pow256(k: nat): (r: nat)
    ensures r >= 1
  {
    if k == 0 then 1 else 256 * Pow256(k - 1)
  }

  lemma Pow256Values()
    ensures Pow256(4) == 0x1_0000_0000
    ensures Pow256(8) == 0x1_0000_0000_0000_0000
  {
    assert Pow256(4) == 0x1_0000_0000;
    assert Pow256(8) == 256 * (256 * (256 * (256 * Pow256(4))));
  }

  /** n as k little-endian bytes. */
  function LittleEndian(n: nat, k: nat): (s: seq<Byte>)
    ensures |s| == k
  {
    if k == 0 then [] else [n % 256] + LittleEndian(n / 256, k - 1)
  }

  function FromLittleEndian(s: seq<Byte>): (n: nat)
    ensures n < Pow256(|s|)
  {
    if |s| == 0 then 0 else s[0] + 256 * FromLittleEndian(s[1..])
  }

  lemma {:induction false} LittleEndianRoundTrip(n: nat, k: nat)
    requires n < Pow256(k)
    ensures FromLittleEndian(LittleEndian(n, k)) == n
    decreases k
  {
    if k > 0 {
      LittleEndianRoundTrip(n / 256, k - 1);
      assert LittleEndian(n, k)[1..] == LittleEndian(n / 256, k - 1);
    }
  }

  /** Every sequence of bytes is the encoding of its value. */
  lemma {:induction false} LittleEndianOf(s: seq<Byte>)
    ensures LittleEndian(FromLittleEndian(s), |s|) == s
  {
    if |s| > 0 {
      var rest := s[1..];
      LittleEndianOf(rest);
      LastByte(s[0], FromLittleEndian(rest));
      assert s == [s[0]] + rest;
    }
  }

  lemma LastByte(b: Byte, n: nat)
    ensures (b + 256 * n) % 256 == b && (b + 256 * n) / 256 == n
  {
  }

  lemma {:induction false} LittleEndianZero(k: nat)
    ensures LittleEndian(0, k) == Zeros(k)
  {
    if k > 0 {
      LittleEndianZero(k - 1);
    }
  }

  function Zeros(k: nat): (s: seq<Byte>)
    ensures |s| == k
  {
    seq(k, _ => 0)
  }

  function EncodeRecord(r: Record): (s: seq<Byte>)
    ensures |s| == RECORD_SIZE
  {
    [r.op] + Zeros(3) + LittleEndian(r.layerIndex, 4) + LittleEndian(r.count, 8) + LittleEndian(r.offset, 8)
  }

  function Word32At(s: seq<Byte>, i: nat): Word32
    requires i + 4 <= |s|
  {
    Pow256Values();
    FromLittleEndian(s[i..i + 4])
  }

  function Word64At(s: seq<Byte>, i: nat): Word64
    requires i + 8 <= |s|
  {
    Pow256Values();
    FromLittleEndian(s[i..i + 8])
  }

  function DecodeRecord(s: seq<Byte>): Record
    requires |s| == RECORD_SIZE
  {
    Record(s[0], Word32At(s, 4), Word64At(s, 8), Word64At(s, 16))
  }

  lemma RecordRoundTrip(r: Record)
    ensures DecodeRecord(EncodeRecord(r)) == r
  {
    var op, layer, count, offset :=
      [r.op] + Zeros(3), LittleEndian(r.layerIndex, 4), LittleEndian(r.count, 8), LittleEndian(r.offset, 8);
    Pow256Values();
    LittleEndianRoundTrip(r.layerIndex, 4);
    LittleEndianRoundTrip(r.count, 8);
    LittleEndianRoundTrip(r.offset, 8);
    var s := EncodeRecord(r);
    FourParts(s, op, layer, count, offset);
    assert s[0] == s[..4][0] == r.op;
    assert s[16..24] == s[16..];
  }

  /** The parts of a concatenation are slices of it. */
  lemma FourParts(s: seq<Byte>, a: seq<Byte>, b: seq<Byte>, c: seq<Byte>, d: seq<Byte>)
    requires s == a + b + c + d
    ensures s[..|a|] == a && s[|a|..|a| + |b|] == b
    ensures s[|a| + |b|..|a| + |b| + |c|] == c && s[|a| + |b| + |c|..] == d
  {
    var ab, abc := a + b, a + b + c;
    assert s[..|abc|] == abc && s[|abc|..] == d;
    assert abc[..|ab|] == ab && abc[|ab|..] == c;
    assert ab[..|a|] == a && ab[|a|..] == b;
    Shorter(s, abc, |ab|, |abc|);
    Shorter(s, abc, |a|, |ab|);
    Shorter(s, abc, 0, |a|);
    Shorter(abc, ab, |a|, |ab|);
    Shorter(abc, ab, 0, |a|);
  }

  lemma Shorter(s: seq<Byte>, t: seq<Byte>, i: nat, j: nat)
    requires i <= j <= |t| <= |s| && s[..|t|] == t
    ensures s[i..j] == t[i..j]
  {
    forall k | i <= k < j
      ensures s[k] == t[k]
    {
      assert s[..|t|][k] == t[k];
    }
  }

  function EncodeHeader(h: Header): (s: seq<Byte>)
    ensures |s| == HEADER_SIZE
  {
    LittleEndian(h.magic, 4) + Zeros(4) + LittleEndian(h.dataSize, 8) + LittleEndian(h.checksum, 4) + Zeros(4)
  }

  function DecodeHeader(s: seq<Byte>): Header
    requires |s| == HEADER_SIZE
  {
    Header(Word32At(s, 0), Word64At(s, 8), Word32At(s, 16))
  }

  lemma HeaderRoundTrip(h: Header)
    ensures DecodeHeader(EncodeHeader(h)) == h
  {
    var s := EncodeHeader(h);
    var magic, size, sum := LittleEndian(h.magic, 4), LittleEndian(h.dataSize, 8), LittleEndian(h.checksum, 4);
    Pow256Values();
    LittleEndianRoundTrip(h.magic, 4);
    LittleEndianRoundTrip(h.dataSize, 8);
    LittleEndianRoundTrip(h.checksum, 4);
    FourParts(s, magic + Zeros(4), size, sum, Zeros(4));
    assert s[0..4] == s[..8][..4] == magic;
  }

  /** The three stretches of a header; only the second depends on the checksum. */
  lemma HeaderStretches(h: Header)
    ensures var s := EncodeHeader(h);
            && s[..16] == LittleEndian(h.magic, 4) + Zeros(4) + LittleEndian(h.dataSize, 8)
            && s[16..20] == LittleEndian(h.checksum, 4)
            && s[20..] == Zeros(4)
  {
    var front := LittleEndian(h.magic, 4) + Zeros(4);
    var size, sum := LittleEndian(h.dataSize, 8), LittleEndian(h.checksum, 4);
    var s := EncodeHeader(h);
    FourParts(s, front, size, sum, Zeros(4));
    assert s[..16] == s[..8] + s[8..16] == front + size;
  }

  /** The bytes of the checksum that lie beyond the first n bytes of the header are zero. */
  predicate Stands(checksum: Word32, n: int) {
    forall j :: 0 <= j < 4 && n <= 16 + j ==> LittleEndian(checksum, 4)[j] == 0
  }

  /** A header of checksum zero whose first n bytes were overwritten with another checksum's. */
  function Overwritten(h: Header, checksum: Word32, n: nat): (s: seq<Byte>)
    requires n <= HEADER_SIZE
    ensures |s| == HEADER_SIZE
  {
    EncodeHeader(h.(checksum := checksum))[..n] + EncodeHeader(h.(checksum := 0))[n..]
  }

  /** The bytes of a checksum of which only the first n bytes of the header were written. */
  ghost predicate Partly(mid: seq<Byte>, sum: seq<Byte>, n: int) {
    |mid| == |sum| == 4 && forall j :: 0 <= j < 4 ==> mid[j] == if 16 + j < n then sum[j] else 0
  }

  lemma OverwrittenAt(h: Header, checksum: Word32, n: nat)
    requires n <= HEADER_SIZE
    ensures var s, full := Overwritten(h, checksum, n), EncodeHeader(h.(checksum := checksum));
            s[..16] == full[..16] && s[20..] == full[20..] && Partly(s[16..20], LittleEndian(checksum, 4), n)
  {
    var s, full := Overwritten(h, checksum, n), EncodeHeader(h.(checksum := checksum));
    var zero, sum := EncodeHeader(h.(checksum := 0)), LittleEndian(checksum, 4);
    HeaderStretches(h.(checksum := checksum));
    HeaderStretches(h.(checksum := 0));
    LittleEndianZero(4);
    forall i | 0 <= i < 16
      ensures s[i] == full[i]
    {
      assert full[..16][i] == zero[..16][i];
    }
    forall i | 20 <= i < 24
      ensures s[i] == full[i]
    {
      assert full[20..][i - 20] == zero[20..][i - 20];
    }
    forall j | 0 <= j < 4
      ensures s[16..20][j] == if 16 + j < n then sum[j] else 0
    {
      assert full[16..20][j] == sum[j] && zero[16..20][j] == 0;
    }
  }

  /** The overwritten header is read with the new checksum exactly if it is the new header, which
      is the case exactly if the part of the checksum not written was zero. */
  lemma OverwrittenHeader(h: Header, checksum: Word32, n: nat)
    requires n <= HEADER_SIZE
    ensures var s, full := Overwritten(h, checksum, n), h.(checksum := checksum);
            && DecodeHeader(s).magic == h.magic && DecodeHeader(s).dataSize == h.dataSize
            && (s == EncodeHeader(full) <==> Stands(checksum, n))
            && (DecodeHeader(s).checksum == checksum <==> Stands(checksum, n))
  {
    var s, full := Overwritten(h, checksum, n), EncodeHeader(h.(checksum := checksum));
    OverwrittenAt(h, checksum, n);
    HeaderRoundTrip(h.(checksum := checksum));
    HeaderStretches(h.(checksum := checksum));
    SameFront(s, full);
    PartlyIsWhole(s[16..20], checksum, n);
    Pow256Values();
    Stretches(s);
    Stretches(full);
  }

  lemma Stretches(s: seq<Byte>)
    requires |s| == HEADER_SIZE
    ensures s == s[..16] + s[16..20] + s[20..]
  {
  }

  lemma SameFront(s: seq<Byte>, t: seq<Byte>)
    requires |s| == |t| == HEADER_SIZE && s[..16] == t[..16]
    ensures DecodeHeader(s).magic == DecodeHeader(t).magic && DecodeHeader(s).dataSize == DecodeHeader(t).dataSize
  {
    assert s[0..4] == s[..16][..4] && t[0..4] == t[..16][..4];
    assert s[8..16] == s[..16][8..] && t[8..16] == t[..16][8..];
  }

  lemma PartlyIsWhole(mid: seq<Byte>, checksum: Word32, n: int)
    requires Partly(mid, LittleEndian(checksum, 4), n)
    ensures mid == LittleEndian(checksum, 4) <==> Stands(checksum, n)
    ensures FromLittleEndian(mid) == checksum <==> mid == LittleEndian(checksum, 4)
  {
    Pow256Values();
    LittleEndianRoundTrip(checksum, 4);
    LittleEndianOf(mid);
  }

  function EncodeRecords(rs: seq<Record>): (s: seq<Byte>)
    ensures |s| == RECORD_SIZE * |rs|
  {
    if |rs| == 0 then [] else EncodeRecords(rs[..|rs| - 1]) + EncodeRecord(rs[|rs| - 1])
  }

  function Checksum(crc: Crc, rs: seq<Record>): Word32 {
    if |rs| == 0 then 0 else crc(EncodeRecord(rs[|rs| - 1]), Checksum(crc, rs[..|rs| - 1]))
  }

  /** A complete trace file. */
  function EncodeTrace(crc: Crc, rs: seq<Record>): (s: seq<Byte>)
    requires RECORD_SIZE * |rs| < 0x1_0000_0000_0000_0000
    ensures |s| == HEADER_SIZE + RECORD_SIZE * |rs|
  {
    EncodeHeader(Header(TRACE_MAGIC, RECORD_SIZE * |rs|, Checksum(crc, rs))) + EncodeRecords(rs)
  }

  /** The i-th record starts 24 * i bytes in. */
  lemma {:induction false} RecordAt(rs: seq<Record>, i: nat)
    requires i < |rs|
    ensures EncodeRecords(rs)[RECORD_SIZE * i..RECORD_SIZE * (i + 1)] == EncodeRecord(rs[i])
    decreases |rs|
  {
    var n := |rs| - 1;
    var front := EncodeRecords(rs[..n]);
    if i < n {
      RecordAt(rs[..n], i);
      assert EncodeRecords(rs)[RECORD_SIZE * i..RECORD_SIZE * (i + 1)] == front[RECORD_SIZE * i..RECORD_SIZE * (i + 1)];
    } else {
      assert EncodeRecords(rs)[RECORD_SIZE * i..RECORD_SIZE * (i + 1)] == EncodeRecord(rs[n]);
    }
  }

  // ---------- the bytes themselves ----------

  /** Little-endian: byte k of n counts 256^k. */
  lemma {:induction false} LittleEndianBytes(n: nat, size: nat, k: nat)
    requires k < size
    ensures LittleEndian(n, size)[k] == n / Pow256(k) % 256
    decreases k
  {
    if k == 0 {
      assert Pow256(0) == 1;
    } else {
      LittleEndianBytes(n / 256, size - 1, k - 1);
      NestedDivision(n, Pow256(k - 1));
    }
  }

  lemma NestedDivision(n: nat, w: nat)
    requires 1 <= w
    ensures n / 256 / w == n / (256 * w)
  {
    var q, r := n / 256 / w, n / 256 % w;
    assert n / 256 == q * w + r;
    assert n == q * (256 * w) + (256 * r + n % 256);
    DivModUnique(n, 256 * w, q, 256 * r + n % 256);
  }

  /** The layout of a record: the operation at 0, the layer at 4, the count at 8, the offset at 16. */
  lemma RecordLayout(r: Record)
    ensures var s := EncodeRecord(r);
            && |s| == 24 && s[0] == r.op && s[1..4] == [0, 0, 0]
            && (forall k :: 0 <= k < 4 ==> s[4..8][k] == r.layerIndex / Pow256(k) % 256)
            && (forall k :: 0 <= k < 8 ==> s[8..16][k] == r.count / Pow256(k) % 256)
            && (forall k :: 0 <= k < 8 ==> s[16..24][k] == r.offset / Pow256(k) % 256)
  {
    var op, layer, count, offset :=
      [r.op] + Zeros(3), LittleEndian(r.layerIndex, 4), LittleEndian(r.count, 8), LittleEndian(r.offset, 8);
    var s := EncodeRecord(r);
    FourParts(s, op, layer, count, offset);
    assert s[0] == s[..4][0] && s[1..4] == s[..4][1..];
    assert s[16..24] == s[16..];
    forall k | 0 <= k < 8
      ensures k < 4 ==> layer[k] == r.layerIndex / Pow256(k) % 256
      ensures count[k] == r.count / Pow256(k) % 256 && offset[k] == r.offset / Pow256(k) % 256
    {
      if k < 4 {
        LittleEndianBytes(r.layerIndex, 4, k);
      }
      LittleEndianBytes(r.count, 8, k);
      LittleEndianBytes(r.offset, 8, k);
    }
  }

  /** The layout of a header: the magic at 0, the size at 8, the checksum at 16. */
  lemma HeaderLayout(h: Header)
    ensures var s := EncodeHeader(h);
            && |s| == 24 && s[4..8] == [0, 0, 0, 0] && s[20..24] == [0, 0, 0, 0]
            && (forall k :: 0 <= k < 4 ==> s[0..4][k] == h.magic / Pow256(k) % 256)
            && (forall k :: 0 <= k < 8 ==> s[8..16][k] == h.dataSize / Pow256(k) % 256)
            && (forall k :: 0 <= k < 4 ==> s[16..20][k] == h.checksum / Pow256(k) % 256)
  {
    var s := EncodeHeader(h);
    var magic, size, sum := LittleEndian(h.magic, 4), LittleEndian(h.dataSize, 8), LittleEndian(h.checksum, 4);
    FourParts(s, magic + Zeros(4), size, sum, Zeros(4));
    assert s[0..4] == s[..8][..4] == magic && s[4..8] == s[..8][4..] == Zeros(4);
    assert s[20..24] == s[20..];
    forall k | 0 <= k < 8
      ensures k < 4 ==> magic[k] == h.magic / Pow256(k) % 256 && sum[k] == h.checksum / Pow256(k) % 256
      ensures size[k] == h.dataSize / Pow256(k) % 256
    {
      if k < 4 {
        LittleEndianBytes(h.magic, 4, k);
        LittleEndianBytes(h.checksum, 4, k);
      }
      LittleEndianBytes(h.dataSize, 8, k);
    }
  }

  /** The checksum that the loop of a dump computes, record by record from zero. */
  function Extended(crc: Crc, sum: Word32, rs: seq<Record>): Word32
    decreases |rs|
  {
    if |rs| == 0 then sum else Extended(crc, crc(EncodeRecord(rs[0]), sum), rs[1..])
  }

  lemma {:induction false} ExtendedAppend(crc: Crc, sum: Word32, rs: seq<Record>, r: Record)
    ensures Extended(crc, sum, rs + [r]) == crc(EncodeRecord(r), Extended(crc, sum, rs))
    decreases |rs|
  {
    if |rs| == 0 {
      assert rs + [r] == [r] && [r][1..] == [];
    } else {
      assert (rs + [r])[1..] == rs[1..] + [r];
      ExtendedAppend(crc, crc(EncodeRecord(rs[0]), sum), rs[1..], r);
    }
  }

  lemma {:induction false} ChecksumIsExtended(crc: Crc, rs: seq<Record>)
    ensures Checksum(crc, rs) == Extended(crc, 0, rs)
    decreases |rs|
  {
    if |rs| > 0 {
      var init, last := rs[..|rs| - 1], rs[|rs| - 1];
      ChecksumIsExtended(crc, init);
      ExtendedAppend(crc, 0, init, last);
      assert rs == init + [last];
    }
  }

  /** A trace is a header with the magic number, the size of the records and their checksum, */
  lemma TraceHead(crc: Crc, rs: seq<Record>)
    requires RECORD_SIZE * |rs| < 0x1_0000_0000_0000_0000
    ensures |EncodeTrace(crc, rs)| == 24 + 24 * |rs|
    ensures EncodeTrace(crc, rs)[..24] == EncodeHeader(Header(3270449184, 24 * |rs|, Extended(crc, 0, rs)))
  {
    ChecksumIsExtended(crc, rs);
    BehindHead(EncodeHeader(Header(TRACE_MAGIC, RECORD_SIZE * |rs|, Checksum(crc, rs))), EncodeRecords(rs), 0, 0);
  }

  /** and then the records, 24 bytes each. */
  lemma TraceRecord(crc: Crc, rs: seq<Record>, i: nat)
    requires RECORD_SIZE * |rs| < 0x1_0000_0000_0000_0000 && i < |rs|
    ensures EncodeTrace(crc, rs)[24 + 24 * i..24 + 24 * (i + 1)] == EncodeRecord(rs[i])
  {
    var head := EncodeHeader(Header(TRACE_MAGIC, RECORD_SIZE * |rs|, Checksum(crc, rs)));
    RecordAt(rs, i);
    BehindHead(head, EncodeRecords(rs), 24 * i, 24 * (i + 1));
  }

  lemma BehindHead(head: seq<Byte>, body: seq<Byte>, i: nat, j: nat)
    requires i <= j <= |body|
    ensures (head + body)[|head| + i..|head| + j] == body[i..j] && (head + body)[..|head|] == head
  {
  }
}
