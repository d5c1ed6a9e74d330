/** The resumable block copy of a background download. */
module BlobCopy {
  import opened Basics
  import opened Bits

  /** A file is a sequence of bytes and holes; a hole reads as zero. */
  datatype Cell = Hole | Data(byte: Byte)

  /** The directory of a layer: the file being downloaded and the file committed. */
  class Dir {
    var tmp: Option<seq<Cell>>
    var commit: Option<seq<Byte>>

    constructor ()
      ensures tmp == None && commit == None
    {
      tmp, commit := None, None;
    }
  }

  function ByteOf(cell: Cell): Byte {
    if cell.Data? then cell.byte else 0
  }

  function Bytes(cells: seq<Cell>): (r: seq<Byte>)
    ensures |r| == |cells|
    ensures forall i :: 0 <= i < |cells| ==> (cells[i] == Hole && r[i] == 0) || cells[i] == Data(r[i])
  {
    seq(|cells|, i requires 0 <= i < |cells| => ByteOf(cells[i]))
  }

  /** Whatever was written so far is what the source has there. */
  ghost predicate Agrees(cells: seq<Cell>, src: seq<Byte>) {
    forall i :: 0 <= i < |cells| && i < |src| && cells[i].Data? ==> cells[i].byte == src[i]
  }

  function Truncated(cells: seq<Cell>, n: nat): (r: seq<Cell>)
    ensures |r| == n && forall i :: 0 <= i < n ==> r[i] == if i < |cells| then cells[i] else Hole
  {
    if n <= |cells| then cells[..n] else cells + seq(n - |cells|, _ => Hole)
  }

  /** lseek with SEEK_HOLE: the first hole at or after the offset; the end of the file counts. */
  function SeekHole(cells: seq<Cell>, offset: nat): (pos: nat)
    requires offset <= |cells|
    ensures offset <= pos <= |cells|
    ensures forall i :: offset <= i < pos ==> cells[i].Data?
    ensures pos == |cells| || cells[pos].Hole?
    decreases |cells| - offset
  {
    if offset == |cells| || cells[offset].Hole? then offset else SeekHole(cells, offset + 1)
  }

  function Written(cells: seq<Cell>, offset: nat, bytes: seq<Byte>): (r: seq<Cell>)
    requires offset + |bytes| <= |cells|
    ensures |r| == |cells|
  {
    seq(|cells|, i requires 0 <= i < |cells| =>
      if offset <= i < offset + |bytes| then Data(bytes[i - offset]) else cells[i])
  }

  function Min(a: nat, b: nat): nat {
    if a < b then a else b
  }

  /** What the environment answers during one attempt: whether the file and a buffer can be had
      and what the buffer holds at first, whether the image runs when the block at an offset is
      due, what a try of a read or write at an offset returns at most (negative for an error), and
      whether the rename and the opening of the commit file succeed. */
  datatype Io = Io(ready: bool, buffer: bool, stale: nat -> Byte, running: nat -> bool,
                   read: (nat, nat) -> int, write: (nat, nat) -> int, renames: bool, opens: bool)

  /** The try of a read at the offset whose result is used. */
  predicate Accepted(io: Io, offset: nat, try: nat) {
    0 <= io.read(offset, try) && (try == 0 || (try == 1 && io.read(offset, 0) < 0))
  }

  /** Every read that is used returns all that is there, up to a block. */
  ghost predicate NoShortRead(io: Io, src: seq<Byte>, bs: nat) {
    forall offset: nat, try: nat :: Accepted(io, offset, try) && offset < |src| ==>
      Min(bs, |src| - offset) <= io.read(offset, try)
  }

  /** The first try of every read and write is used, and no write is short; reads may be. */
  ghost predicate Prompt(io: Io, bs: nat) {
    && io.ready && io.buffer
    && (forall offset :: io.running(offset))
    && (forall offset :: 0 <= io.read(offset, 0))
    && (forall offset :: bs <= io.write(offset, 0))
  }

  /** Nothing fails and nothing is short. */
  ghost predicate Smooth(io: Io, bs: nat) {
    && io.ready && io.buffer && io.renames && io.opens
    && (forall offset :: io.running(offset))
    && (forall offset, try :: bs <= io.read(offset, try))
    && (forall offset, try :: bs <= io.write(offset, try))
  }

  /** A buffer whose front was overwritten. */
  function Overlay(b: seq<Byte>, r: seq<Byte>): (b': seq<Byte>)
    requires |r| <= |b|
    ensures |b'| == |b|
  {
    r + b[|r|..]
  }

  /** A buffer as it is allocated. */
  function Fresh(io: Io, n: nat): (b: seq<Byte>)
    ensures |b| == n && forall i :: 0 <= i < n ==> b[i] == io.stale(i)
  {
    if n == 0 then [] else Fresh(io, n - 1) + [io.stale(n - 1)]
  }

  /** One attempt at a copy, and what becomes of its blocks. */
  datatype Job = Job(io: Io, src: seq<Byte>, fileSize: nat, bs: nat, force: bool)
  {
    function Count(offset: nat): nat
      requires offset <= fileSize
    {
      Min(bs, fileSize - offset)
    }

    /** What a try of a read puts into the buffer. */
    function ReadBytes(offset: nat, try: nat): (r: seq<Byte>)
      ensures |r| <= bs && (|r| == 0 || offset + |r| <= |src|)
    {
      if io.read(offset, try) < 0 || |src| <= offset then []
      else src[offset..offset + Min(io.read(offset, try), Min(bs, |src| - offset))]
    }

    /** The try whose result is used, if any is. */
    function Try(offset: nat): nat {
      if io.read(offset, 0) < 0 then 1 else 0
    }

    function Read(offset: nat): (r: seq<Byte>)
      ensures |r| <= bs && (|r| == 0 || offset + |r| <= |src|)
    {
      ReadBytes(offset, Try(offset))
    }

    /** The result of a try of a write of a whole block. */
    function WriteLength(offset: nat, try: nat): (n: int)
      requires offset <= fileSize
      ensures n <= Count(offset)
    {
      if io.write(offset, try) < 0 then -1 else Min(io.write(offset, try), Count(offset))
    }

    /** The result of the write that ends the tries: the first no shorter than the read. */
    function Stored(offset: nat, rlen: nat): (n: int)
      requires offset <= fileSize
      ensures n <= Count(offset)
    {
      if rlen <= WriteLength(offset, 0) then WriteLength(offset, 0) else WriteLength(offset, 1)
    }

    /** The block is read and written with success. */
    predicate Fetches(offset: nat)
      requires offset <= fileSize
    {
      0 <= io.read(offset, Try(offset)) && |Read(offset)| <= Stored(offset, |Read(offset)|)
    }

    /** The block is taken to be there already. */
    predicate Skips(cells: seq<Cell>, offset: nat)
      requires offset <= |cells|
    {
      !force && offset + bs <= SeekHole(cells, offset)
    }
  }

  // ---------- what a copy stores ----------

  /** What the buffer holds when the block at the offset is due. */
  ghost function BufferAt(job: Job, cells: seq<Cell>, offset: nat): (b: seq<Byte>)
    requires 0 < job.bs && offset <= |cells|
    ensures |b| == job.bs
  {
    if offset < job.bs then Fresh(job.io, job.bs)
    else
      var b := BufferAt(job, cells, offset - job.bs);
      if job.Skips(cells, offset - job.bs) then b else Overlay(b, job.Read(offset - job.bs))
  }

  /** The cell at place j of the block at the offset: of the buffer where the write reached, and as
      it was where it did not or where the block was skipped. */
  ghost function BlockCell(job: Job, cells: seq<Cell>, offset: nat, j: nat): Cell
    requires j < job.bs && offset + j < |cells| == job.fileSize
  {
    if job.Skips(cells, offset) || job.Stored(offset, |job.Read(offset)|) <= j then cells[offset + j]
    else Data(Overlay(BufferAt(job, cells, offset), job.Read(offset))[j])
  }

  ghost function CopyCell(job: Job, cells: seq<Cell>, i: nat): Cell
    requires 0 < job.bs && i < |cells| == job.fileSize
  {
    BlockCell(job, cells, i - i % job.bs, i % job.bs)
  }

  /** The file that a successful copy makes of the cells. */
  ghost function CopyOf(job: Job, cells: seq<Cell>): (r: seq<Cell>)
    requires 0 < job.bs && |cells| == job.fileSize
    ensures |r| == |cells|
  {
    seq(|cells|, i requires 0 <= i < |cells| => CopyCell(job, cells, i))
  }

  /** Up to the offset the image ran and every block was skipped or fetched. */
  ghost predicate Passes(job: Job, cells: seq<Cell>, offset: nat)
    requires 0 < job.bs && |cells| == job.fileSize
  {
    forall o: nat :: o < offset && o < job.fileSize && o % job.bs == 0 ==> Passed(job, cells, o)
  }

  ghost predicate Passed(job: Job, cells: seq<Cell>, o: nat)
    requires o < |cells| == job.fileSize
  {
    job.io.running(o) && (job.Skips(cells, o) || job.Fetches(o))
  }

  ghost predicate Succeeds(job: Job, cells: seq<Cell>)
    requires 0 < job.bs && |cells| == job.fileSize
  {
    job.io.ready && job.io.buffer && Passes(job, cells, job.fileSize)
  }

  /** The places of a block. */
  lemma InBlock(offset: nat, j: nat, bs: nat)
    requires 0 < bs && offset % bs == 0 && j < bs
    ensures (offset + j) % bs == j && (offset + bs) % bs == 0
  {
    var q := offset / bs;
    DivModUnique(offset + j, bs, q, j);
    DivModUnique(offset + bs, bs, q + 1, 0);
  }

  lemma CopyCellAt(job: Job, cells: seq<Cell>, offset: nat, j: nat)
    requires 0 < job.bs && offset % job.bs == 0 && j < job.bs && offset + j < |cells| == job.fileSize
    ensures CopyCell(job, cells, offset + j) == BlockCell(job, cells, offset, j)
  {
    var i := offset + j;
    InBlock(offset, j, job.bs);
    assert i - i % job.bs == offset && i % job.bs == j;
  }

  lemma PassesStep(job: Job, cells: seq<Cell>, offset: nat)
    requires 0 < job.bs && |cells| == job.fileSize && offset < job.fileSize && offset % job.bs == 0
    requires Passes(job, cells, offset)
    ensures Passes(job, cells, offset + job.bs) <==> Passed(job, cells, offset)
  {
    forall o: nat | offset < o < offset + job.bs
      ensures o % job.bs != 0
    {
      InBlock(offset, o - offset, job.bs);
    }
  }

  ghost predicate CopiedTo(job: Job, cells: seq<Cell>, now: seq<Cell>, offset: nat)
    requires 0 < job.bs && |now| == |cells| == job.fileSize
  {
    forall i :: 0 <= i < |cells| && i < offset ==> now[i] == CopyCell(job, cells, i)
  }

  /** One more block, from the offset up to the end given. */
  lemma CopiedFurther(job: Job, cells: seq<Cell>, now: seq<Cell>, after: seq<Cell>, offset: nat, end: nat)
    requires 0 < job.bs && |after| == |now| == |cells| == job.fileSize && offset % job.bs == 0
    requires offset <= end <= offset + job.bs && CopiedTo(job, cells, now, offset)
    requires forall i :: 0 <= i < |cells| && i < offset ==> after[i] == now[i]
    requires forall j :: 0 <= j < end - offset && offset + j < |cells| ==>
               after[offset + j] == BlockCell(job, cells, offset, j)
    ensures CopiedTo(job, cells, after, end)
  {
    forall i | 0 <= i < |cells| && i < end
      ensures after[i] == CopyCell(job, cells, i)
    {
      if i < offset {
        assert after[i] == now[i];
      } else {
        var j := i - offset;
        CopyCellAt(job, cells, offset, j);
        assert after[offset + j] == BlockCell(job, cells, offset, j);
      }
    }
  }

  /** The copy has reached the offset: behind it the file is as it will be, before it as it was. */
  ghost predicate Reached(job: Job, cells: seq<Cell>, now: seq<Cell>, offset: nat, buff: seq<Byte>)
    requires 0 < job.bs && |cells| == job.fileSize
  {
    && |now| == |cells| && Passes(job, cells, offset)
    && CopiedTo(job, cells, now, offset) && Ahead(cells, now, offset)
    && Due(job, cells, offset, buff)
  }

  ghost predicate Ahead(cells: seq<Cell>, now: seq<Cell>, offset: nat) {
    |now| == |cells| && forall i :: offset <= i < |cells| ==> now[i] == cells[i]
  }

  /** Another block begins here, and the buffer is as it should be. */
  ghost predicate Due(job: Job, cells: seq<Cell>, offset: nat, buff: seq<Byte>)
    requires 0 < job.bs
  {
    offset < |cells| ==> offset % job.bs == 0 && buff == BufferAt(job, cells, offset)
  }

  lemma ReachedStart(job: Job, cells: seq<Cell>)
    requires 0 < job.bs && |cells| == job.fileSize
    ensures Reached(job, cells, cells, 0, Fresh(job.io, job.bs))
  {
  }

  lemma ReachedSkip(job: Job, cells: seq<Cell>, now: seq<Cell>, offset: nat, buff: seq<Byte>)
    requires 0 < job.bs && |cells| == job.fileSize && offset < job.fileSize && Passed(job, cells, offset)
    requires Reached(job, cells, now, offset, buff) && job.Skips(cells, offset)
    ensures Reached(job, cells, now, offset + job.bs, buff)
  {
    PassesStep(job, cells, offset);
    CopiedFurther(job, cells, now, now, offset, offset + job.bs);
    NextDue(job, cells, offset, buff, buff);
  }

  lemma ReachedFetch(job: Job, cells: seq<Cell>, now: seq<Cell>, offset: nat, buff: seq<Byte>, block: seq<Byte>)
    requires 0 < job.bs && |cells| == job.fileSize && offset < job.fileSize && Passed(job, cells, offset)
    requires Reached(job, cells, now, offset, buff) && !job.Skips(cells, offset)
    requires block == Overlay(buff, job.Read(offset))
    ensures var after := Written(now, offset, block[..job.Stored(offset, |job.Read(offset)|)]);
            Reached(job, cells, after, offset + job.Count(offset), block)
  {
    var n, end := job.Stored(offset, |job.Read(offset)|), offset + job.Count(offset);
    var after := Written(now, offset, block[..n]);
    FetchedCells(job, cells, now, offset, block, n);
    WrittenElsewhere(now, offset, block[..n], end);
    CopiedFurther(job, cells, now, after, offset, end);
    PassesStep(job, cells, offset);
    PassesEnd(job, cells, offset);
    NextDue(job, cells, offset, buff, block);
  }

  lemma PassesEnd(job: Job, cells: seq<Cell>, offset: nat)
    requires 0 < job.bs && |cells| == job.fileSize && offset < job.fileSize && Passes(job, cells, offset + job.bs)
    ensures Passes(job, cells, offset + job.Count(offset))
  {
  }

  lemma NextDue(job: Job, cells: seq<Cell>, offset: nat, buff: seq<Byte>, block: seq<Byte>)
    requires 0 < job.bs && |cells| == job.fileSize && offset < job.fileSize
    requires Due(job, cells, offset, buff) && |buff| == job.bs
    requires block == if job.Skips(cells, offset) then buff else Overlay(buff, job.Read(offset))
    ensures Due(job, cells, offset + job.Count(offset), block) && Due(job, cells, offset + job.bs, block)
  {
    if offset + job.bs <= |cells| {
      InBlock(offset, 0, job.bs);
      NextBuffer(job, cells, offset);
    }
  }

  lemma WrittenAt(cells: seq<Cell>, offset: nat, bytes: seq<Byte>, j: nat)
    requires offset + |bytes| <= |cells| && offset + j < |cells|
    ensures Written(cells, offset, bytes)[offset + j] == if j < |bytes| then Data(bytes[j]) else cells[offset + j]
  {
  }

  lemma WrittenElsewhere(cells: seq<Cell>, offset: nat, bytes: seq<Byte>, end: nat)
    requires offset + |bytes| <= end <= |cells|
    ensures var after := Written(cells, offset, bytes);
            && (forall i :: 0 <= i < offset ==> after[i] == cells[i])
            && (forall i :: end <= i < |cells| ==> after[i] == cells[i])
  {
  }

  lemma FetchedCells(job: Job, cells: seq<Cell>, now: seq<Cell>, offset: nat, block: seq<Byte>, n: nat)
    requires 0 < job.bs && |now| == |cells| == job.fileSize && offset < job.fileSize && !job.Skips(cells, offset)
    requires block == Overlay(BufferAt(job, cells, offset), job.Read(offset))
    requires n == job.Stored(offset, |job.Read(offset)|)
    requires forall i :: offset <= i < |cells| ==> now[i] == cells[i]
    ensures var after := Written(now, offset, block[..n]);
            forall j :: 0 <= j < job.Count(offset) ==> after[offset + j] == BlockCell(job, cells, offset, j)
  {
    var after := Written(now, offset, block[..n]);
    forall j | 0 <= j < job.Count(offset)
      ensures after[offset + j] == BlockCell(job, cells, offset, j)
    {
      assert now[offset + j] == cells[offset + j];
      WrittenAt(now, offset, block[..n], j);
      assert j < n ==> block[..n][j] == block[j];
    }
  }

  lemma NextBuffer(job: Job, cells: seq<Cell>, offset: nat)
    requires 0 < job.bs && offset + job.bs <= |cells|
    ensures BufferAt(job, cells, offset + job.bs) ==
              if job.Skips(cells, offset) then BufferAt(job, cells, offset)
              else Overlay(BufferAt(job, cells, offset), job.Read(offset))
  {
  }

  // ---------- reading and writing ----------

  /** pread on the source: an error, or some of the bytes there; the rest of the buffer stays. */
  method Pread(job: Job, buff: array<Byte>, offset: nat, try: nat) returns (rlen: int)
    requires job.bs == buff.Length
    modifies buff
    ensures rlen == if job.io.read(offset, try) < 0 then -1 else |job.ReadBytes(offset, try)|
    ensures buff[..] == Overlay(old(buff[..]), job.ReadBytes(offset, try))
  {
    if job.io.read(offset, try) < 0 {
      return -1;
    }
    var bytes := job.ReadBytes(offset, try);
    for i := 0 to |bytes|
      invariant forall j :: 0 <= j < i ==> buff[j] == bytes[j]
      invariant forall j :: i <= j < job.bs ==> buff[j] == old(buff[j])
    {
      buff[i] := bytes[i];
    }
    return |bytes|;
  }

  /** pwrite: an error that writes nothing, or the first wlen bytes are written. */
  method Pwrite(job: Job, dir: Dir, buff: array<Byte>, count: nat, offset: nat, try: nat) returns (wlen: int)
    requires dir.tmp.Some? && offset + count <= |dir.tmp.value| && count <= buff.Length
    requires offset <= job.fileSize && count == job.Count(offset)
    modifies dir`tmp
    ensures wlen == job.WriteLength(offset, try)
    ensures wlen < 0 ==> dir.tmp == old(dir.tmp)
    ensures 0 <= wlen ==> dir.tmp == Some(Written(old(dir.tmp).value, offset, buff[..wlen]))
  {
    wlen := job.WriteLength(offset, try);
    if 0 <= wlen {
      dir.tmp := Some(Written(dir.tmp.value, offset, buff[..wlen]));
    }
  }

  /** Read one block, at most twice. */
  method ReadBlock(job: Job, buff: array<Byte>, offset: nat) returns (ok: bool, rlen: int)
    requires job.bs == buff.Length
    modifies buff
    ensures ok <==> 0 <= job.io.read(offset, job.Try(offset))
    ensures ok ==> rlen == |job.Read(offset)| && buff[..] == Overlay(old(buff[..]), job.Read(offset))
  {
    var retry := 2;
    rlen := -1;
    while retry > 0
      invariant 0 <= retry <= 2
      invariant retry <= 1 ==> job.io.read(offset, 0) < 0
      invariant retry == 0 ==> job.io.read(offset, 1) < 0
      invariant buff[..] == old(buff[..])
    {
      retry := retry - 1;
      rlen := Pread(job, buff, offset, 1 - retry);
      if rlen >= 0 {
        return true, rlen;
      }
    }
    return false, rlen;
  }

  /** A second write over a first that was shorter. */
  lemma WrittenOver(cells: seq<Cell>, offset: nat, bytes: seq<Byte>, n: nat)
    requires offset + |bytes| <= |cells| && n <= |bytes|
    ensures Written(Written(cells, offset, bytes[..n]), offset, bytes) == Written(cells, offset, bytes)
  {
  }

  /** Writing source bytes where they belong keeps agreement. */
  lemma WrittenAgrees(cells: seq<Cell>, src: seq<Byte>, offset: nat, block: seq<Byte>, n: nat)
    requires n <= |block| && offset + |block| <= |cells| == |src| && block == src[offset..offset + |block|]
    requires Agrees(cells, src)
    ensures Agrees(Written(cells, offset, block[..n]), src)
  {
    forall j | 0 <= j < n
      ensures block[..n][j] == src[offset + j]
    {
      assert block[j] == src[offset..offset + |block|][j];
    }
    var after := Written(cells, offset, block[..n]);
    forall i | 0 <= i < |src| && after[i].Data?
      ensures after[i].byte == src[i]
    {
      if offset <= i < offset + n {
        assert after[i] == Data(block[..n][i - offset]);
      }
    }
  }

  /** Write one block, at most twice; a write no shorter than what was read counts as done. */
  method WriteBlock(job: Job, dir: Dir, buff: array<Byte>, count: nat, offset: nat, rlen: nat, ghost right: bool)
    returns (ok: bool)
    requires dir.tmp.Some? && |dir.tmp.value| == job.fileSize && job.bs == buff.Length
    requires offset < job.fileSize && count == job.Count(offset)
    requires right ==> |job.src| == job.fileSize && buff[..count] == job.src[offset..offset + count]
    modifies dir`tmp
    ensures dir.tmp.Some? && |dir.tmp.value| == job.fileSize
    ensures right && old(Agrees(dir.tmp.value, job.src)) ==> Agrees(dir.tmp.value, job.src)
    ensures ok <==> rlen <= job.Stored(offset, rlen)
    ensures ok ==> dir.tmp == Some(Written(old(dir.tmp).value, offset, buff[..job.Stored(offset, rlen)]))
  {
    ghost var first, block := dir.tmp.value, buff[..count];
    var retry := 2;
    while retry > 0
      invariant 0 <= retry <= 2 && dir.tmp.Some? && |dir.tmp.value| == job.fileSize && buff[..count] == block
      invariant right && Agrees(first, job.src) ==> Agrees(dir.tmp.value, job.src)
      invariant retry == 2 ==> dir.tmp.value == first
      invariant retry <= 1 ==> job.WriteLength(offset, 0) < rlen
      invariant retry == 1 ==> dir.tmp.value == After(first, offset, block, job.WriteLength(offset, 0))
      invariant retry == 0 ==> job.WriteLength(offset, 1) < rlen
    {
      retry := retry - 1;
      ghost var before := dir.tmp.value;
      var wlen := Pwrite(job, dir, buff, count, offset, 1 - retry);
      AfterWrite(job, before, offset, block, buff[..], count, wlen, right);
      if wlen >= rlen {
        AfterTwo(first, offset, block, job.WriteLength(offset, 0), wlen);
        assert buff[..wlen] == block[..wlen];
        return true;
      }
    }
    return false;
  }

  /** The cells after a write of the given result. */
  function After(cells: seq<Cell>, offset: nat, block: seq<Byte>, wlen: int): seq<Cell>
    requires offset + |block| <= |cells| && wlen <= |block|
  {
    if wlen < 0 then cells else Written(cells, offset, block[..wlen])
  }

  lemma AfterWrite(job: Job, before: seq<Cell>, offset: nat, block: seq<Byte>, buff: seq<Byte>, count: nat, wlen: int,
                   right: bool)
    requires offset + count <= |before| && wlen <= count == |block| && count <= |buff| && block == buff[..count]
    requires right ==> |job.src| == |before| && block == job.src[offset..offset + count]
    ensures 0 <= wlen ==> Written(before, offset, buff[..wlen]) == After(before, offset, block, wlen)
    ensures right && Agrees(before, job.src) ==> Agrees(After(before, offset, block, wlen), job.src)
  {
    if 0 <= wlen {
      assert buff[..wlen] == block[..wlen];
      if right && Agrees(before, job.src) {
        WrittenAgrees(before, job.src, offset, block, wlen);
      }
    }
  }

  lemma AfterTwo(cells: seq<Cell>, offset: nat, block: seq<Byte>, first: int, second: int)
    requires offset + |block| <= |cells| && first <= |block| && 0 <= second <= |block|
    ensures first <= second ==>
              After(After(cells, offset, block, first), offset, block, second)
              == Written(cells, offset, block[..second])
  {
    if 0 <= first <= second {
      WrittenOver(cells, offset, block[..second], first);
      assert block[..second][..first] == block[..first];
    }
  }

  /** Fetch the block at the offset and store it. */
  method CopyBlock(job: Job, dir: Dir, buff: array<Byte>, offset: nat) returns (ok: bool, count: nat)
    requires 0 < job.bs == buff.Length && dir.tmp.Some? && |dir.tmp.value| == job.fileSize && offset < job.fileSize
    modifies dir`tmp, buff
    ensures dir.tmp.Some? && |dir.tmp.value| == job.fileSize && count == job.Count(offset)
    ensures NoShortRead(job.io, job.src, job.bs) && job.fileSize == |job.src| &&
            old(Agrees(dir.tmp.value, job.src)) ==>
              Agrees(dir.tmp.value, job.src)
    ensures ok <==> job.Fetches(offset)
    ensures ok ==>
              var n := job.Stored(offset, |job.Read(offset)|);
              && buff[..] == Overlay(old(buff[..]), job.Read(offset))
              && dir.tmp == Some(Written(old(dir.tmp).value, offset, buff[..n]))
  {
    count := job.bs;
    if offset + count > job.fileSize {
      count := job.fileSize - offset;
    }
    var rlen;
    ok, rlen := ReadBlock(job, buff, offset);
    if !ok {
      return false, count;
    }
    ghost var right := NoShortRead(job.io, job.src, job.bs) && job.fileSize == |job.src|;
    if right {
      WholeRead(job, offset);
      assert buff[..count] == job.Read(offset);
    }
    ok := WriteBlock(job, dir, buff, count, offset, rlen, right);
  }

  lemma WholeRead(job: Job, offset: nat)
    requires NoShortRead(job.io, job.src, job.bs) && offset < job.fileSize == |job.src|
    requires 0 <= job.io.read(offset, job.Try(offset))
    ensures job.Read(offset) == job.src[offset..offset + job.Count(offset)]
  {
    assert Accepted(job.io, offset, job.Try(offset));
  }

  // ---------- the loop ----------

  /** A file that a later attempt can build on. */
  ghost predicate Resumable(tmp: Option<seq<Cell>>, src: seq<Byte>) {
    tmp.Some? ==> Agrees(tmp.value, src)
  }

  /** The file as it is opened and brought to its size. */
  function Opened(tmp: Option<seq<Cell>>, fileSize: nat): (cells: seq<Cell>)
    ensures |cells| == fileSize
  {
    Truncated(if tmp.Some? then tmp.value else [], fileSize)
  }

  method Allocate(io: Io, bs: nat) returns (buff: array<Byte>)
    ensures fresh(buff) && buff.Length == bs && buff[..] == Fresh(io, bs)
  {
    buff := new Byte[bs];
    for i := 0 to bs
      invariant buff[..i] == Fresh(io, i)
    {
      buff[i] := io.stale(i);
    }
    assert buff[..bs] == buff[..];
  }

  /** Holes before the offset do not matter. */
  lemma {:induction false} SeekHoleSame(a: seq<Cell>, b: seq<Cell>, offset: nat)
    requires offset <= |a| == |b| && forall i :: offset <= i < |a| ==> a[i] == b[i]
    ensures SeekHole(a, offset) == SeekHole(b, offset)
    decreases |a| - offset
  {
    if offset < |a| && a[offset].Data? {
      SeekHoleSame(a, b, offset + 1);
    }
  }

  lemma SkipsSame(job: Job, cells: seq<Cell>, now: seq<Cell>, offset: nat)
    requires offset <= |cells| && Ahead(cells, now, offset)
    ensures job.Skips(now, offset) == job.Skips(cells, offset)
  {
    SeekHoleSame(now, cells, offset);
  }

  /** A block that is not there is fetched. */
  method FetchNext(job: Job, dir: Dir, buff: array<Byte>, start: nat, ghost cells: seq<Cell>)
    returns (ok: bool, offset: nat)
    requires 0 < job.bs == buff.Length && |cells| == job.fileSize && dir.tmp.Some?
    requires start < job.fileSize && job.io.running(start) && Reached(job, cells, dir.tmp.value, start, buff[..])
    requires !job.Skips(cells, start)
    modifies dir`tmp, buff
    ensures dir.tmp.Some? && |dir.tmp.value| == job.fileSize && (ok ==> start < offset)
    ensures NoShortRead(job.io, job.src, job.bs) && job.fileSize == |job.src| &&
            old(Agrees(dir.tmp.value, job.src)) ==>
              Agrees(dir.tmp.value, job.src)
    ensures ok <==> Passed(job, cells, start)
    ensures ok ==> Reached(job, cells, dir.tmp.value, offset, buff[..])
  {
    var count;
    ghost var now, before := dir.tmp.value, buff[..];
    ok, count := CopyBlock(job, dir, buff, start);
    offset := start + count;
    if ok {
      ReachedFetch(job, cells, now, start, before, buff[..]);
    }
  }

  /** One turn of the copy loop: skip a block that is there, or fetch it. */
  method NextBlock(job: Job, dir: Dir, buff: array<Byte>, start: nat, ghost cells: seq<Cell>)
    returns (ok: bool, offset: nat)
    requires 0 < job.bs == buff.Length && |cells| == job.fileSize && dir.tmp.Some?
    requires start < job.fileSize && job.io.running(start) && Reached(job, cells, dir.tmp.value, start, buff[..])
    modifies dir`tmp, buff
    ensures dir.tmp.Some? && |dir.tmp.value| == job.fileSize && (ok ==> start < offset)
    ensures NoShortRead(job.io, job.src, job.bs) && job.fileSize == |job.src| &&
            old(Agrees(dir.tmp.value, job.src)) ==>
              Agrees(dir.tmp.value, job.src)
    ensures ok <==> Passed(job, cells, start)
    ensures ok ==> Reached(job, cells, dir.tmp.value, offset, buff[..])
  {
    var skip := SkipTest(job, dir, start, cells);
    if skip {
      ReachedSkip(job, cells, dir.tmp.value, start, buff[..]);
      return true, start + job.bs;
    }
    ok, offset := FetchNext(job, dir, buff, start, cells);
  }

  /** Whether a retry finds the whole block in the file already. */
  method SkipTest(job: Job, dir: Dir, start: nat, ghost cells: seq<Cell>) returns (skip: bool)
    requires |cells| == job.fileSize && dir.tmp.Some? && start < job.fileSize && Ahead(cells, dir.tmp.value, start)
    ensures skip == job.Skips(cells, start)
  {
    SkipsSame(job, cells, dir.tmp.value, start);
    if !job.force {
      var holePos := SeekHole(dir.tmp.value, start);
      return holePos >= start + job.bs;
    }
    return false;
  }

  /** BkDownload::download_blob. It succeeds exactly if the file and a buffer can be had, the image
      keeps running, and every block is there already or is read and written; and then the file
      is exactly `CopyOf` what it was when it was opened. So with a source of the expected size
      and no short read a successful copy equals the source, from any earlier file if forced and
      otherwise from any resumable one; and every unforced attempt then leaves a resumable file
      resumable. */
  method DownloadBlob(job: Job, dir: Dir) returns (ok: bool)
    requires 0 < job.bs
    modifies dir`tmp
    ensures ok <==> Succeeds(job, Opened(old(dir.tmp), job.fileSize))
    ensures ok ==> dir.tmp == Some(CopyOf(job, Opened(old(dir.tmp), job.fileSize)))
    ensures NoShortRead(job.io, job.src, job.bs) && job.fileSize == |job.src| && old(Resumable(dir.tmp, job.src)) ==>
              Resumable(dir.tmp, job.src)
    ensures ok && NoShortRead(job.io, job.src, job.bs) && job.fileSize == |job.src| &&
            (job.force || old(Resumable(dir.tmp, job.src))) ==>
              Bytes(dir.tmp.value) == job.src
    ensures Prompt(job.io, job.bs) && |job.src| <= job.fileSize ==> ok
  {
    ghost var cells := Opened(dir.tmp, job.fileSize);
    ghost var agrees := Resumable(dir.tmp, job.src);
    WhenPrompt(job, cells);
    if !job.io.ready {
      return false;
    }
    if dir.tmp.None? {
      dir.tmp := Some([]);
    }
    dir.tmp := Some(Truncated(dir.tmp.value, job.fileSize));
    if !job.io.buffer {
      return false;
    }
    ok := CopyLoop(job, dir, cells);
    if ok && NoShortRead(job.io, job.src, job.bs) && job.fileSize == |job.src| && (job.force || agrees) {
      NoShortReadIsExact(job, cells);
    }
  }

  method CopyLoop(job: Job, dir: Dir, ghost cells: seq<Cell>) returns (ok: bool)
    requires 0 < job.bs && |cells| == job.fileSize && dir.tmp == Some(cells)
    modifies dir`tmp
    ensures dir.tmp.Some? && |dir.tmp.value| == job.fileSize
    ensures ok <==> Passes(job, cells, job.fileSize)
    ensures ok ==> dir.tmp == Some(CopyOf(job, cells))
    ensures NoShortRead(job.io, job.src, job.bs) && job.fileSize == |job.src| && Agrees(cells, job.src) ==>
              Agrees(dir.tmp.value, job.src)
  {
    var buff := Allocate(job.io, job.bs);
    ReachedStart(job, cells);
    var offset := 0;
    while offset < job.fileSize
      invariant dir.tmp.Some? && Reached(job, cells, dir.tmp.value, offset, buff[..])
      invariant NoShortRead(job.io, job.src, job.bs) && job.fileSize == |job.src| && Agrees(cells, job.src) ==>
                  Agrees(dir.tmp.value, job.src)
      decreases job.fileSize - offset
    {
      ghost var due := offset;
      if !job.io.running(offset) {
        assert !Passed(job, cells, due);
        return false;
      }
      ok, offset := NextBlock(job, dir, buff, offset, cells);
      if !ok {
        assert !Passed(job, cells, due);
        return false;
      }
    }
    assert dir.tmp.value == CopyOf(job, cells);
    return true;
  }

  // ---------- when the copy is right ----------

  /** The byte at place j of the block comes out right: it was read, or what is left there is the
      source's all the same, be it in the buffer or in the file. */
  ghost predicate ComesOut(job: Job, cells: seq<Cell>, offset: nat, j: nat)
    requires j < job.bs && offset + j < |cells| == job.fileSize == |job.src|
  {
    if job.Skips(cells, offset) || job.Stored(offset, |job.Read(offset)|) <= j then
      Bytes(cells)[offset + j] == job.src[offset + j]
    else j < |job.Read(offset)| || BufferAt(job, cells, offset)[j] == job.src[offset + j]
  }

  /** Every byte does. */
  ghost predicate AllComeOut(job: Job, cells: seq<Cell>)
    requires 0 < job.bs && |cells| == job.fileSize == |job.src|
  {
    forall offset: nat, j: nat :: offset % job.bs == 0 && j < job.bs && offset + j < |cells| ==>
      ComesOut(job, cells, offset, j)
  }

  lemma OverlayAt(b: seq<Byte>, r: seq<Byte>, j: nat)
    requires |r| <= |b| && j < |b|
    ensures Overlay(b, r)[j] == if j < |r| then r[j] else b[j]
  {
  }

  lemma CellComesOut(job: Job, cells: seq<Cell>, offset: nat, j: nat)
    requires j < job.bs && offset + j < |cells| == job.fileSize == |job.src|
    ensures ByteOf(BlockCell(job, cells, offset, j)) == job.src[offset + j] <==> ComesOut(job, cells, offset, j)
  {
    OverlayAt(BufferAt(job, cells, offset), job.Read(offset), j);
  }

  lemma ByteComesOut(job: Job, cells: seq<Cell>, offset: nat, j: nat)
    requires 0 < job.bs && offset % job.bs == 0 && j < job.bs && offset + j < |cells| == job.fileSize == |job.src|
    ensures Bytes(CopyOf(job, cells))[offset + j] == job.src[offset + j] <==> ComesOut(job, cells, offset, j)
  {
    CopyCellAt(job, cells, offset, j);
    CellComesOut(job, cells, offset, j);
  }

  /** The copy equals its source if and only if every byte comes out right. */
  lemma CopyIsExact(job: Job, cells: seq<Cell>)
    requires 0 < job.bs && |cells| == job.fileSize == |job.src|
    ensures Bytes(CopyOf(job, cells)) == job.src <==> AllComeOut(job, cells)
  {
    var bytes := Bytes(CopyOf(job, cells));
    forall offset: nat, j: nat | offset % job.bs == 0 && j < job.bs && offset + j < |cells|
      ensures bytes[offset + j] == job.src[offset + j] <==> ComesOut(job, cells, offset, j)
    {
      ByteComesOut(job, cells, offset, j);
    }
    if AllComeOut(job, cells) {
      forall i | 0 <= i < |cells|
        ensures bytes[i] == job.src[i]
      {
        var offset, j := BlockStart(i, job.bs);
        assert ComesOut(job, cells, offset, j);
        ByteComesOut(job, cells, offset, j);
      }
    }
  }

  lemma NoShortReadComesOut(job: Job, cells: seq<Cell>, offset: nat, j: nat)
    requires j < job.bs && offset + j < |cells| == job.fileSize == |job.src| && Passed(job, cells, offset)
    requires NoShortRead(job.io, job.src, job.bs) && (job.force || Agrees(cells, job.src))
    ensures ComesOut(job, cells, offset, j)
  {
    if job.Skips(cells, offset) {
      assert cells[offset + j].Data?;
    } else {
      WholeRead(job, offset);
    }
  }

  lemma NoShortReadIsExact(job: Job, cells: seq<Cell>)
    requires 0 < job.bs && |cells| == job.fileSize == |job.src| && Passes(job, cells, job.fileSize)
    requires NoShortRead(job.io, job.src, job.bs) && (job.force || Agrees(cells, job.src))
    ensures Bytes(CopyOf(job, cells)) == job.src
  {
    forall offset: nat, j: nat | offset % job.bs == 0 && j < job.bs && offset + j < |cells|
      ensures ComesOut(job, cells, offset, j)
    {
      assert Passed(job, cells, offset);
      NoShortReadComesOut(job, cells, offset, j);
    }
    CopyIsExact(job, cells);
  }

  /** Every place is a place of a block. */
  lemma BlockStart(i: nat, bs: nat) returns (offset: nat, j: nat)
    requires 0 < bs
    ensures i == offset + j && j < bs && offset % bs == 0
  {
    offset, j := i - i % bs, i % bs;
    DivModUnique(offset, bs, i / bs, 0);
  }

  lemma WhenPrompt(job: Job, cells: seq<Cell>)
    requires 0 < job.bs && |cells| == job.fileSize
    ensures Prompt(job.io, job.bs) && |job.src| <= job.fileSize ==> Succeeds(job, cells)
  {
    if Prompt(job.io, job.bs) && |job.src| <= job.fileSize {
      forall o: nat | o < job.fileSize && o % job.bs == 0
        ensures Passed(job, cells, o)
      {
        assert job.bs <= job.io.write(o, 0) && 0 <= job.io.read(o, 0);
      }
    }
  }

  // ---------- success and content in terms of the answers ----------

  /** The block at the offset is whole and was written before. */
  ghost predicate Present(cells: seq<Cell>, offset: nat, bs: nat) {
    offset + bs <= |cells| && forall i :: offset <= i < offset + bs ==> cells[i].Data?
  }

  lemma SkipsMeans(job: Job, cells: seq<Cell>, offset: nat)
    requires offset < |cells|
    ensures job.Skips(cells, offset) <==> !job.force && Present(cells, offset, job.bs)
  {
  }

  /** What the read of a block returns: the first of two tries that is no error, as far as the
      source reaches. */
  ghost predicate Returns(job: Job, offset: nat, rlen: nat) {
    var first := job.io.read(offset, 0);
    var answer := if 0 <= first then first else job.io.read(offset, 1);
    0 <= answer &&
    rlen == (if |job.src| <= offset then 0
             else if answer <= job.bs && answer <= |job.src| - offset then answer
             else if job.bs <= |job.src| - offset then job.bs
             else |job.src| - offset)
  }

  /** How far the write of a block reaches: the first of two that is no shorter than the read. */
  ghost predicate Reaches(job: Job, offset: nat, rlen: nat, wlen: nat) {
    var first, second := job.io.write(offset, 0), job.io.write(offset, 1);
    var count := if job.bs <= job.fileSize - offset then job.bs else job.fileSize - offset;
    && rlen <= count
    && (if rlen <= first then wlen == (if first <= count then first else count)
        else rlen <= second && wlen == (if second <= count then second else count))
  }

  lemma FetchMeans(job: Job, offset: nat)
    requires 0 < job.bs && offset < job.fileSize
    ensures job.Fetches(offset) <==> exists rlen, wlen :: Returns(job, offset, rlen) && Reaches(job, offset, rlen, wlen)
    ensures forall rlen: nat :: Returns(job, offset, rlen) ==> rlen == |job.Read(offset)|
    ensures forall rlen: nat, wlen: nat :: Returns(job, offset, rlen) && Reaches(job, offset, rlen, wlen) ==>
              wlen == job.Stored(offset, rlen)
  {
    var rlen := |job.Read(offset)|;
    if job.Fetches(offset) {
      assert Returns(job, offset, rlen) && Reaches(job, offset, rlen, job.Stored(offset, rlen));
    }
  }

  /** When an attempt succeeds: the file and a buffer can be had, and for every block the image
      runs and the block is present and not forced, or is read and written. */
  lemma SucceedsMeans(job: Job, cells: seq<Cell>)
    requires 0 < job.bs && |cells| == job.fileSize
    ensures Succeeds(job, cells) <==>
              && job.io.ready && job.io.buffer
              && forall offset: nat :: offset < job.fileSize && offset % job.bs == 0 ==>
                   && job.io.running(offset)
                   && ((!job.force && Present(cells, offset, job.bs))
                       || exists rlen, wlen :: Returns(job, offset, rlen) && Reaches(job, offset, rlen, wlen))
  {
    forall offset: nat | offset < job.fileSize && offset % job.bs == 0
      ensures Passed(job, cells, offset) <==>
                && job.io.running(offset)
                && ((!job.force && Present(cells, offset, job.bs))
                    || exists rlen, wlen :: Returns(job, offset, rlen) && Reaches(job, offset, rlen, wlen))
    {
      SkipsMeans(job, cells, offset);
      FetchMeans(job, offset);
    }
  }

  /** What is stored: a present block stays as it is; of any other the bytes that the read reached
      are the source's, and those that the write did not reach stay as they were. */
  lemma CopyMeans(job: Job, cells: seq<Cell>, offset: nat, j: nat)
    requires 0 < job.bs && |cells| == job.fileSize && offset % job.bs == 0 && j < job.bs && offset + j < |cells|
    ensures !job.force && Present(cells, offset, job.bs) ==> CopyOf(job, cells)[offset + j] == cells[offset + j]
    ensures forall rlen: nat, wlen: nat ::
              Returns(job, offset, rlen) && Reaches(job, offset, rlen, wlen) &&
              (job.force || !Present(cells, offset, job.bs)) ==>
                && (j < rlen ==> CopyOf(job, cells)[offset + j] == Data(job.src[offset + j]))
                && (wlen <= j ==> CopyOf(job, cells)[offset + j] == cells[offset + j])
                && (rlen <= j < wlen ==>
                      CopyOf(job, cells)[offset + j] == Data(BufferAt(job, cells, offset)[j]))
  {
    SkipsMeans(job, cells, offset);
    FetchMeans(job, offset);
    CopyCellAt(job, cells, offset, j);
    var cell := CopyOf(job, cells)[offset + j];
    assert cell == BlockCell(job, cells, offset, j);
    forall rlen: nat, wlen: nat |
      Returns(job, offset, rlen) && Reaches(job, offset, rlen, wlen) && !job.Skips(cells, offset)
      ensures if wlen <= j then cell == cells[offset + j]
              else cell == Data(if j < rlen then job.src[offset + j] else BufferAt(job, cells, offset)[j])
    {
      FetchedCell(job, cells, offset, j);
    }
  }

  lemma FetchedCell(job: Job, cells: seq<Cell>, offset: nat, j: nat)
    requires 0 < job.bs && |cells| == job.fileSize && j < job.bs && offset + j < |cells| && !job.Skips(cells, offset)
    ensures var cell, rlen := BlockCell(job, cells, offset, j), |job.Read(offset)|;
            if job.Stored(offset, rlen) <= j then cell == cells[offset + j]
            else cell == Data(if j < rlen then job.src[offset + j] else BufferAt(job, cells, offset)[j])
  {
    OverlayAt(BufferAt(job, cells, offset), job.Read(offset), j);
  }

  /** The stale bytes of the buffer: what the last read that reached the place put there. */
  lemma {:induction false} BufferMeans(job: Job, cells: seq<Cell>, offset: nat, j: nat, last: nat)
    requires 0 < job.bs && |cells| == job.fileSize && offset <= |cells| && offset % job.bs == 0 && j < job.bs
    requires last < offset && last % job.bs == 0 && !job.Skips(cells, last) && j < |job.Read(last)|
    requires forall o: nat :: last < o < offset && o % job.bs == 0 ==> job.Skips(cells, o) || |job.Read(o)| <= j
    ensures BufferAt(job, cells, offset)[j] == job.src[last + j]
    decreases offset
  {
    var o := PreviousBlock(offset, last, job.bs);
    NextBuffer(job, cells, o);
    OverlayAt(BufferAt(job, cells, o), job.Read(o), j);
    assert o == last || job.Skips(cells, o) || |job.Read(o)| <= j;
    if o != last {
      BufferMeans(job, cells, o, j, last);
    }
  }

  /** And before any such read, what the allocation left there. */
  lemma {:induction false} BufferFresh(job: Job, cells: seq<Cell>, offset: nat, j: nat)
    requires 0 < job.bs && |cells| == job.fileSize && offset <= |cells| && offset % job.bs == 0 && j < job.bs
    requires forall o: nat :: o < offset && o % job.bs == 0 ==> job.Skips(cells, o) || |job.Read(o)| <= j
    ensures BufferAt(job, cells, offset)[j] == job.io.stale(j)
    decreases offset
  {
    if offset > 0 {
      var o := PreviousBlock(offset, 0, job.bs);
      NextBuffer(job, cells, o);
      OverlayAt(BufferAt(job, cells, o), job.Read(o), j);
      BufferFresh(job, cells, o, j);
    }
  }

  lemma PreviousBlock(offset: nat, last: nat, bs: nat) returns (o: nat)
    requires 0 < bs && last < offset && offset % bs == 0 && last % bs == 0
    ensures o + bs == offset && o % bs == 0 && last <= o
  {
    var q, p := offset / bs, last / bs;
    assert offset == q * bs && last == p * bs;
    MulAtLeast(q - 1 - p, bs);
    o := offset - bs;
    assert o == (q - 1) * bs;
    DivModUnique(o, bs, q - 1, 0);
  }

  // ---------- resumption ----------

  /** Two jobs that differ only in what reads and writes at one offset answer. */
  ghost predicate SameBut(a: Job, b: Job, offset: nat) {
    && a.src == b.src && a.fileSize == b.fileSize && a.bs == b.bs && a.force == b.force
    && a.io.ready == b.io.ready && a.io.buffer == b.io.buffer
    && a.io.stale == b.io.stale && a.io.running == b.io.running
    && (forall o, try :: o != offset ==> a.io.read(o, try) == b.io.read(o, try))
    && (forall o, try :: o != offset ==> a.io.write(o, try) == b.io.write(o, try))
  }

  /** Resumption: in an attempt that is not forced, whatever reads and writes of a present block
      would answer makes no difference to success or content, so they are not made. */
  lemma PresentIsNotFetched(a: Job, b: Job, cells: seq<Cell>, offset: nat)
    requires 0 < a.bs && |cells| == a.fileSize && offset < a.fileSize && offset % a.bs == 0
    requires SameBut(a, b, offset) && !a.force && Present(cells, offset, a.bs)
    ensures Succeeds(a, cells) <==> Succeeds(b, cells)
    ensures CopyOf(a, cells) == CopyOf(b, cells)
    ensures forall i :: offset <= i < offset + a.bs ==> CopyOf(a, cells)[i] == cells[i]
  {
    SkipsMeans(a, cells, offset);
    forall o: nat | o < a.fileSize
      ensures Passed(a, cells, o) <==> Passed(b, cells, o)
    {
      SameElsewhere(a, b, offset, o);
    }
    forall i: nat | i < |cells|
      ensures CopyCell(a, cells, i) == CopyCell(b, cells, i)
    {
      SameCell(a, b, cells, offset, i);
    }
    forall i | offset <= i < offset + a.bs
      ensures CopyOf(a, cells)[i] == cells[i]
    {
      CopyMeans(a, cells, offset, i - offset);
    }
  }

  lemma SameCell(a: Job, b: Job, cells: seq<Cell>, offset: nat, i: nat)
    requires 0 < a.bs && |cells| == a.fileSize && offset < a.fileSize && i < |cells|
    requires SameBut(a, b, offset) && a.Skips(cells, offset)
    ensures CopyCell(a, cells, i) == CopyCell(b, cells, i)
  {
    var o, j := BlockStart(i, a.bs);
    SameBlockCell(a, b, cells, offset, o, j);
    CopyCellAt(a, cells, o, j);
    CopyCellAt(b, cells, o, j);
  }

  lemma SameElsewhere(a: Job, b: Job, offset: nat, o: nat)
    requires SameBut(a, b, offset) && o < a.fileSize
    ensures o != offset ==> a.Read(o) == b.Read(o) && (a.Fetches(o) <==> b.Fetches(o))
    ensures o != offset ==> a.Stored(o, |a.Read(o)|) == b.Stored(o, |b.Read(o)|)
  {
    if o != offset {
      assert a.io.read(o, 0) == b.io.read(o, 0) && a.io.read(o, 1) == b.io.read(o, 1);
      assert a.io.write(o, 0) == b.io.write(o, 0) && a.io.write(o, 1) == b.io.write(o, 1);
    }
  }

  lemma {:induction false} SameBuffer(a: Job, b: Job, cells: seq<Cell>, offset: nat, o: nat)
    requires 0 < a.bs && |cells| == a.fileSize && offset < a.fileSize && o <= |cells|
    requires SameBut(a, b, offset) && a.Skips(cells, offset)
    ensures BufferAt(a, cells, o) == BufferAt(b, cells, o)
    decreases o
  {
    if o < a.bs {
      SameFresh(a.io, b.io, a.bs);
    } else {
      SameBuffer(a, b, cells, offset, o - a.bs);
      SameElsewhere(a, b, offset, o - a.bs);
    }
  }

  lemma {:induction false} SameFresh(a: Io, b: Io, n: nat)
    requires a.stale == b.stale
    ensures Fresh(a, n) == Fresh(b, n)
  {
    if n > 0 {
      SameFresh(a, b, n - 1);
    }
  }

  lemma SameBlockCell(a: Job, b: Job, cells: seq<Cell>, offset: nat, o: nat, j: nat)
    requires 0 < a.bs && |cells| == a.fileSize && offset < a.fileSize && j < a.bs && o + j < |cells|
    requires SameBut(a, b, offset) && a.Skips(cells, offset)
    ensures BlockCell(a, cells, o, j) == BlockCell(b, cells, o, j)
  {
    if o != offset {
      SameBuffer(a, b, cells, offset, o);
      SameElsewhere(a, b, offset, o);
    }
  }

  /** A block that is not present is fetched: where its read fails twice, so does the attempt. */
  lemma AbsentIsFetched(job: Job, cells: seq<Cell>, offset: nat)
    requires 0 < job.bs && |cells| == job.fileSize && offset < job.fileSize && offset % job.bs == 0
    requires job.force || !Present(cells, offset, job.bs)
    requires job.io.read(offset, 0) < 0 && job.io.read(offset, 1) < 0
    ensures !Succeeds(job, cells)
  {
    SkipsMeans(job, cells, offset);
    assert !Passed(job, cells, offset);
  }

  /** An environment in which the read at offset 1 returns nothing. */
  function ShortAtOne(): Io {
    Io(true, true, _ => 0, _ => true, (offset, try) => if offset == 1 then 0 else 1, (offset, try) => 1, true, true)
  }

  lemma ShortCopy(job: Job, cells: seq<Cell>)
    requires job == Job(ShortAtOne(), [7, 8], 2, 1, true) && |cells| == 2
    ensures Succeeds(job, cells) && Bytes(CopyOf(job, cells)) == [7, 7]
  {
    assert job.Read(0) == [7] && job.Read(1) == [];
    assert BufferAt(job, cells, 1) == [7];
    CopyCellAt(job, cells, 0, 0);
    CopyCellAt(job, cells, 1, 0);
    assert Prompt(job.io, job.bs);
    WhenPrompt(job, cells);
  }

  /** With blocks of one byte there, the copy of [7, 8] succeeds and stores the 7 twice. */
  method ShortReadIsAccepted(dir: Dir) returns (ok: bool)
    modifies dir`tmp
    ensures ok && dir.tmp.Some? && Bytes(dir.tmp.value) == [7, 7]
  {
    var job := Job(ShortAtOne(), [7, 8], 2, 1, true);
    ShortCopy(job, Opened(dir.tmp, 2));
    ok := DownloadBlob(job, dir);
  }
}
