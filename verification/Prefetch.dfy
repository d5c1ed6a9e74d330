/** Recording a prefetch trace, dumping it to a file, and reloading it. */
module Prefetch {
  import opened Basics
  import opened TraceCodec

  datatype Mode = Disabled | RecordMode | ReplayMode

  /** Prefetcher::detect_mode: by the size of the trace file, if there is one. */
  function DetectMode(file: Option<seq<Byte>>): Mode {
    if file.None? then Disabled else if |file.value| == 0 then RecordMode else ReplayMode
  }

  /** Without a trace file there is no prefetching, an empty one is recorded to, any other replayed. */
  lemma ModeBySize(data: seq<Byte>)
    ensures DetectMode(None) == Disabled
    ensures |data| == 0 ==> DetectMode(Some(data)) == RecordMode
    ensures |data| > 0 ==> DetectMode(Some(data)) == ReplayMode
  {
  }

  /** An open file with its position. Writes may fail or be short: the k-th one writes at most
      `answer(k)` bytes, and a negative answer is an error. Truncation works or not. */
  class TraceFile {
    const answer: nat -> int
    const truncates: bool
    var data: seq<Byte>
    var pos: nat
    var writes: nat

    constructor (data: seq<Byte>, answer: nat -> int, truncates: bool)
      ensures this.data == data && pos == 0 && writes == 0 && this.answer == answer && this.truncates == truncates
    {
      this.data, this.answer, this.truncates, pos, writes := data, answer, truncates, 0, 0;
    }

    /** The n writes from the k-th on take a whole record or header each. */
    ghost predicate Full(k: nat, n: nat) {
      forall j :: k <= j < k + n ==> RECORD_SIZE <= answer(j)
    }

    /** What the next write of n bytes returns. */
    method NextLength(n: nat) returns (r: int)
      modifies this`writes
      ensures r == (if answer(old(writes)) < n then answer(old(writes)) else n) && writes == old(writes) + 1
    {
      r := answer(writes);
      writes := writes + 1;
      if r > n {
        r := n;
      }
    }

    /** Append at the end of the file. */
    method Write(bytes: seq<Byte>) returns (n: int)
      requires pos == |data|
      modifies this
      ensures pos == |data| && writes == old(writes) + 1
      ensures n == if answer(old(writes)) < |bytes| then answer(old(writes)) else |bytes|
      ensures data == old(data) + (if n < 0 then [] else bytes[..n])
    {
      n := NextLength(|bytes|);
      if n >= 0 {
        data := data + bytes[..n];
        pos := pos + n;
      }
    }

    /** Overwrite from the start of the file. */
    method PwriteStart(bytes: seq<Byte>) returns (n: int)
      requires |bytes| <= |data|
      modifies this`data, this`writes
      ensures n == if answer(old(writes)) < |bytes| then answer(old(writes)) else |bytes|
      ensures data == if n < 0 then old(data) else bytes[..n] + old(data)[n..]
    {
      n := NextLength(|bytes|);
      if n >= 0 {
        data := bytes[..n] + data[n..];
      }
    }

    /** The result of ftruncate is not looked at. */
    method Ftruncate0()
      modifies this`data
      ensures data == if truncates then [] else old(data)
    {
      if truncates {
        data := [];
      }
    }

    method Read(k: nat) returns (bytes: seq<Byte>)
      requires pos <= |data|
      modifies this`pos
      ensures pos <= |data|
      ensures if old(pos) + k <= |data| then bytes == data[old(pos)..old(pos) + k] && pos == old(pos) + k
              else |bytes| < k
    {
      var e := if pos + k <= |data| then pos + k else |data|;
      bytes := data[pos..e];
      pos := e;
    }
  }

  function Fits(n: nat): bool {
    RECORD_SIZE * n < 0x1_0000_0000_0000_0000
  }

  /** Write the records behind the header, extending the checksum. */
  method WriteRecords(f: TraceFile, crc: Crc, rs: seq<Record>) returns (ok: bool, checksum: Word32)
    requires f.pos == |f.data|
    modifies f
    ensures ok <==> f.Full(old(f.writes), |rs|)
    ensures ok ==> f.data == old(f.data) + EncodeRecords(rs) && checksum == Checksum(crc, rs)
    ensures ok ==> f.writes == old(f.writes) + |rs|
    ensures |old(f.data)| <= |f.data| && f.data[..|old(f.data)|] == old(f.data)
    ensures !ok ==> |f.data| < |old(f.data)| + RECORD_SIZE * |rs|
  {
    checksum := 0;
    var i := 0;
    assert rs[..0] == [];
    while i < |rs|
      invariant 0 <= i <= |rs| && f.pos == |f.data|
      invariant f.writes == old(f.writes) + i && f.Full(old(f.writes), i)
      invariant f.data == old(f.data) + EncodeRecords(rs[..i]) && checksum == Checksum(crc, rs[..i])
    {
      var bytes := EncodeRecord(rs[i]);
      assert rs[..i + 1][..i] == rs[..i];
      checksum := crc(bytes, checksum);
      var n := f.Write(bytes);
      if n != RECORD_SIZE {
        return false, checksum;
      }
      i := i + 1;
    }
    assert rs[..i] == rs;
    return true, checksum;
  }

  /** The header and the records were written in full, and so was the header with the checksum;
      or that last write and the truncation after it both failed, and what the write did not
      reach of the checksum is zero. */
  ghost predicate Complete(f: TraceFile, crc: Crc, rs: seq<Record>, start: nat) {
    var last := f.answer(start + |rs| + 1);
    && f.Full(start, |rs| + 1)
    && (HEADER_SIZE <= last || (!f.truncates && Stands(Checksum(crc, rs), last)))
  }

  /** The file is the trace and reloads to its records, or it is not and reloads to nothing. */
  ghost predicate AllOrNothing(crc: Crc, data: seq<Byte>, rs: seq<Record>, complete: bool)
    requires Fits(|rs| + 1)
  {
    if complete then data == EncodeTrace(crc, rs) && ReloadOf(crc, data, |data|) == Outcome(true, rs)
    else data != EncodeTrace(crc, rs) && ReloadOf(crc, data, |data|) == Outcome(false, [])
  }

  /** What a dump leaves behind, whatever the writes and the truncation do: the trace exactly if
      it is complete, nothing exactly if a write was not full and truncation works or nothing was
      written, and in no case anything that reloads to other records. */
  ghost predicate Dumped(f: TraceFile, crc: Crc, rs: seq<Record>, start: nat)
    requires Fits(|rs| + 1)
    reads f
  {
    && AllOrNothing(crc, f.data, rs, Complete(f, crc, rs, start))
    && (f.data == [] <==> !f.Full(start, |rs| + 2) && (f.truncates || f.answer(start) <= 0))
  }

  /** A failed write is followed by a truncation, whose result is not looked at. */
  method GiveUp(f: TraceFile, crc: Crc, rs: seq<Record>, ghost complete: bool)
    requires Fits(|rs| + 1) && AllOrNothing(crc, f.data, rs, complete)
    modifies f`data
    ensures AllOrNothing(crc, f.data, rs, complete && !f.truncates)
    ensures f.data == [] <==> f.truncates || old(f.data) == []
  {
    f.Ftruncate0();
    ShortHeader(crc, [], rs);
  }

  /** The header with a checksum of zero, and the records. */
  method WriteFirst(f: TraceFile, crc: Crc, rs: seq<Record>, hdr: Header) returns (ok: bool, checksum: Word32)
    requires f.data == [] && f.pos == 0 && Fits(|rs| + 1) && hdr == FirstHeader(rs)
    modifies f
    ensures ok <==> f.Full(old(f.writes), |rs| + 1)
    ensures ok ==> f.data == EncodeHeader(hdr) + EncodeRecords(rs) && checksum == Checksum(crc, rs)
    ensures ok ==> f.writes == old(f.writes) + |rs| + 1
    ensures !ok ==> AllOrNothing(crc, f.data, rs, false)
    ensures !ok ==> (f.data == [] <==> f.truncates || f.answer(old(f.writes)) <= 0)
  {
    checksum := 0;
    var n := f.Write(EncodeHeader(hdr));
    if n != HEADER_SIZE {
      ShortHeader(crc, f.data, rs);
      GiveUp(f, crc, rs, false);
      return false, checksum;
    }
    ok, checksum := WriteRecords(f, crc, rs);
    if !ok {
      ShortBody(crc, f.data, rs);
      GiveUp(f, crc, rs, false);
    }
  }

  /** The header once more, now with the checksum. */
  method WriteSecond(f: TraceFile, crc: Crc, rs: seq<Record>, hdr: Header) returns (ok: bool)
    requires Fits(|rs| + 1) && hdr == FirstHeader(rs).(checksum := Checksum(crc, rs))
    requires f.data == EncodeHeader(FirstHeader(rs)) + EncodeRecords(rs)
    modifies f`data, f`writes
    ensures ok <==> HEADER_SIZE <= f.answer(old(f.writes))
    ensures AllOrNothing(crc, f.data, rs, ok || (Stands(hdr.checksum, f.answer(old(f.writes))) && !f.truncates))
    ensures f.data == [] <==> !ok && f.truncates
  {
    var n := f.PwriteStart(EncodeHeader(hdr));
    ghost var k: nat := if n < 0 then 0 else n;
    PartOfHeader(EncodeHeader(hdr), EncodeHeader(FirstHeader(rs)), EncodeRecords(rs), k);
    MixedHeader(crc, f.data, rs, k);
    SameStand(hdr.checksum, n, k);
    ok := n == HEADER_SIZE;
    if !ok {
      GiveUp(f, crc, rs, Stands(hdr.checksum, n));
    }
  }

  lemma SameStand(checksum: Word32, n: int, k: nat)
    requires k == if n < 0 then 0 else n
    ensures Stands(checksum, k) <==> Stands(checksum, n)
    ensures HEADER_SIZE <= k ==> Stands(checksum, k)
  {
  }

  method WriteTrace(f: TraceFile, crc: Crc, rs: seq<Record>) returns (ok: bool)
    requires f.data == [] && f.pos == 0 && Fits(|rs| + 1)
    modifies f
    ensures ok <==> f.Full(old(f.writes), |rs| + 2)
    ensures Dumped(f, crc, rs, old(f.writes))
  {
    var hdr := FirstHeader(rs);
    var checksum;
    ok, checksum := WriteFirst(f, crc, rs, hdr);
    ghost var start, complete := old(f.writes), false;
    if ok {
      ok := WriteSecond(f, crc, rs, hdr.(checksum := checksum));
      complete := ok || (Stands(checksum, f.answer(start + |rs| + 1)) && !f.truncates);
      SecondDump(f, crc, rs, start, ok, complete);
    } else {
      FirstDump(f, crc, rs, start);
    }
    IsDumped(f, crc, rs, start, complete);
  }

  lemma FullSplit(f: TraceFile, start: nat, n: nat)
    ensures f.Full(start, n + 2) <==> f.Full(start, n + 1) && HEADER_SIZE <= f.answer(start + n + 1)
  {
  }

  lemma FirstDump(f: TraceFile, crc: Crc, rs: seq<Record>, start: nat)
    requires !f.Full(start, |rs| + 1)
    ensures !Complete(f, crc, rs, start) && !f.Full(start, |rs| + 2)
  {
    FullSplit(f, start, |rs|);
  }

  lemma SecondDump(f: TraceFile, crc: Crc, rs: seq<Record>, start: nat, ok: bool, complete: bool)
    requires f.Full(start, |rs| + 1) && (ok <==> HEADER_SIZE <= f.answer(start + |rs| + 1))
    requires complete == (ok || (Stands(Checksum(crc, rs), f.answer(start + |rs| + 1)) && !f.truncates))
    ensures complete == Complete(f, crc, rs, start)
    ensures 0 < f.answer(start) && (ok <==> f.Full(start, |rs| + 2))
  {
    FullSplit(f, start, |rs|);
    assert RECORD_SIZE <= f.answer(start);
  }

  lemma IsDumped(f: TraceFile, crc: Crc, rs: seq<Record>, start: nat, complete: bool)
    requires Fits(|rs| + 1) && complete == Complete(f, crc, rs, start) && AllOrNothing(crc, f.data, rs, complete)
    requires f.data == [] <==> !f.Full(start, |rs| + 2) && (f.truncates || f.answer(start) <= 0)
    ensures Dumped(f, crc, rs, start)
  {
  }

  /** The header as it is written first. */
  function FirstHeader(rs: seq<Record>): Header
    requires Fits(|rs| + 1)
  {
    Header(TRACE_MAGIC, RECORD_SIZE * |rs|, 0)
  }

  lemma PartOfHeader(second: seq<Byte>, first: seq<Byte>, body: seq<Byte>, n: nat)
    requires n <= |first| == |second|
    ensures second[..n] + (first + body)[n..] == second[..n] + first[n..] + body
    ensures n == 0 ==> first + body == second[..n] + first[n..] + body
  {
  }

  lemma ShortHeader(crc: Crc, data: seq<Byte>, rs: seq<Record>)
    requires Fits(|rs| + 1) && |data| < HEADER_SIZE
    ensures AllOrNothing(crc, data, rs, false)
  {
  }

  /** Records are missing, which shows in the size. */
  lemma ShortBody(crc: Crc, data: seq<Byte>, rs: seq<Record>)
    requires Fits(|rs| + 1) && HEADER_SIZE <= |data| < HEADER_SIZE + RECORD_SIZE * |rs|
    requires data[..HEADER_SIZE] == EncodeHeader(FirstHeader(rs))
    ensures AllOrNothing(crc, data, rs, false)
  {
    HeaderRoundTrip(FirstHeader(rs));
  }

  /** All records are there, under a header that is partly the first and partly the second. */
  lemma MixedHeader(crc: Crc, data: seq<Byte>, rs: seq<Record>, n: nat)
    requires Fits(|rs| + 1) && n <= HEADER_SIZE
    requires data == Overwritten(FirstHeader(rs), Checksum(crc, rs), n) + EncodeRecords(rs)
    ensures AllOrNothing(crc, data, rs, Stands(Checksum(crc, rs), n))
  {
    var hdr, sum, body := FirstHeader(rs), Checksum(crc, rs), EncodeRecords(rs);
    var head := Overwritten(hdr, sum, n);
    OverwrittenHeader(hdr, sum, n);
    ReloadUnder(crc, data, rs, head);
    SameBody(head, EncodeHeader(hdr.(checksum := sum)), body);
  }

  lemma ReloadUnder(crc: Crc, data: seq<Byte>, rs: seq<Record>, head: seq<Byte>)
    requires Fits(|rs| + 1) && |head| == HEADER_SIZE && data == head + EncodeRecords(rs)
    requires DecodeHeader(head).magic == TRACE_MAGIC && DecodeHeader(head).dataSize == RECORD_SIZE * |rs|
    ensures ReloadOf(crc, data, |data|) ==
              if DecodeHeader(head).checksum == Checksum(crc, rs) then Outcome(true, rs) else Outcome(false, [])
  {
    DecodeEncoded(crc, rs, |rs|);
    assert rs[..|rs|] == rs;
    ReloadHeadAndBody(crc, data, head, EncodeRecords(rs), |rs|);
  }

  lemma SameBody(a: seq<Byte>, b: seq<Byte>, body: seq<Byte>)
    requires |a| == |b|
    ensures a + body == b + body <==> a == b
  {
    HeadAndBody(a, body);
    HeadAndBody(b, body);
  }

  /** The recorder. Its file is closed by the first dump. */
  class Recorder {
    const crc: Crc
    const file: TraceFile
    ghost const start: nat
    var records: seq<Record>
    var open: bool
    var stopped: bool

    constructor (crc: Crc, file: TraceFile)
      requires file.data == [] && file.pos == 0
      ensures this.file == file && this.crc == crc && records == []
      ensures Valid() && start == file.writes
      ensures open && !stopped
    {
      this.crc, this.file, this.start, records, open, stopped := crc, file, file.writes, [], true, false;
    }

    /** While the file is open it is empty and unwritten; once closed it is as a dump leaves it. */
    ghost predicate Valid()
      reads this, file
    {
      && Fits(|records| + 1)
      && (open ==> file.data == [] && file.pos == 0 && file.writes == start)
      && (!open ==> stopped && Dumped(file, crc, records, start))
    }

    method RecordAccess(r: Record)
      requires Valid() && Fits(|records| + 2)
      modifies this`records
      ensures Valid()
      ensures records == if stopped then old(records) else old(records) + [r]
    {
      if stopped {
        return;
      }
      records := records + [r];
    }

    /** PrefetcherImpl::dump. With the file closed there is nothing to do. */
    method Dump()
      requires Valid() && stopped
      modifies this`open, file
      ensures Valid() && !open
      ensures !old(open) ==> file.data == old(file.data)
    {
      if !open {
        return;
      }
      var ok := WriteTrace(file, crc, records);
      open := false;
    }

    /** One turn of detect_lock after the lock file was removed. */
    method LockRemoved()
      requires Valid()
      modifies this`stopped, this`open, file
      ensures Valid() && stopped
      ensures !old(stopped) ==> !open && Dumped(file, crc, records, start)
      ensures old(stopped) ==> file.data == old(file.data) && open == old(open)
    {
      if !stopped {
        stopped := true;
        Dump();
      }
    }

    /** The destructor: stop, and dump unless that was done. */
    method Destroy()
      requires Valid()
      modifies this`stopped, this`open, file
      ensures Valid() && stopped && !open && Dumped(file, crc, records, start)
      ensures !old(open) ==> file.data == old(file.data)
    {
      stopped := true;
      Dump();
    }
  }

  datatype Event = Access(r: Record) | RemoveLock

  /** The records taken before the stop. */
  function TakenBeforeStop(events: seq<Event>): (rs: seq<Record>)
    ensures |rs| <= |events|
  {
    if |events| == 0 || events[0].RemoveLock? then [] else [events[0].r] + TakenBeforeStop(events[1..])
  }

  lemma {:induction false} TakenAppend(events: seq<Event>, e: Event)
    ensures TakenBeforeStop(events + [e]) ==
              if RemoveLock in events || e.RemoveLock? then TakenBeforeStop(events)
              else TakenBeforeStop(events) + [e.r]
  {
    if |events| == 0 {
      assert events + [e] == [e];
    } else {
      assert (events + [e])[1..] == events[1..] + [e];
      TakenAppend(events[1..], e);
    }
  }

  /** They are the accesses in front of the first removal of the lock. */
  lemma {:induction false} TakenMeans(events: seq<Event>, k: nat)
    requires k <= |events| && (forall i :: 0 <= i < k ==> events[i].Access?)
    requires k < |events| ==> events[k] == RemoveLock
    ensures |TakenBeforeStop(events)| == k
    ensures forall i :: 0 <= i < k ==> events[i] == Access(TakenBeforeStop(events)[i])
  {
    if k > 0 {
      TakenMeans(events[1..], k - 1);
      var taken := TakenBeforeStop(events);
      forall i | 0 < i < k
        ensures events[i] == Access(taken[i])
      {
        assert events[i] == events[1..][i - 1] && taken[i] == TakenBeforeStop(events[1..])[i - 1];
      }
    }
  }

  /** One event of a run, behind those given. */
  method Happen(rec: Recorder, e: Event, ghost done: seq<Event>)
    requires rec.Valid() && Fits(|done| + 2)
    requires rec.records == TakenBeforeStop(done) && (rec.stopped <==> RemoveLock in done)
    modifies rec, rec.file
    ensures rec.Valid()
    ensures rec.records == TakenBeforeStop(done + [e]) && (rec.stopped <==> RemoveLock in done + [e])
  {
    TakenAppend(done, e);
    match e {
      case Access(r) => rec.RecordAccess(r);
      case RemoveLock => rec.LockRemoved();
    }
  }

  method HappenAll(rec: Recorder, events: seq<Event>)
    requires rec.Valid() && Fits(|events| + 1) && rec.records == [] && !rec.stopped
    modifies rec, rec.file
    ensures rec.Valid() && rec.records == TakenBeforeStop(events)
  {
    var i := 0;
    while i < |events|
      invariant 0 <= i <= |events| && rec.Valid()
      invariant rec.records == TakenBeforeStop(events[..i])
      invariant rec.stopped <==> RemoveLock in events[..i]
    {
      assert events[..i + 1] == events[..i] + [events[i]];
      Happen(rec, events[i], events[..i]);
      i := i + 1;
    }
    assert events[..i] == events;
  }

  /** A whole recorder run ending in destruction: the trace file is as a dump of the records taken
      before the stop leaves it. The next run records exactly if a write was not full and what had
      been written could be truncated, and replays otherwise. */
  method RecorderRun(crc: Crc, file: TraceFile, events: seq<Event>)
    requires file.data == [] && file.pos == 0 && Fits(|events| + 1)
    modifies file
    ensures Dumped(file, crc, TakenBeforeStop(events), old(file.writes))
    ensures DetectMode(Some(file.data)) == RecordMode <==>
              && !file.Full(old(file.writes), |TakenBeforeStop(events)| + 2)
              && (file.truncates || file.answer(old(file.writes)) <= 0)
  {
    var rec := new Recorder(crc, file);
    HappenAll(rec, events);
    rec.Destroy();
    DumpedMode(file, crc, TakenBeforeStop(events), old(file.writes));
  }

  lemma DumpedMode(f: TraceFile, crc: Crc, rs: seq<Record>, start: nat)
    requires Fits(|rs| + 1) && Dumped(f, crc, rs, start)
    ensures DetectMode(Some(f.data)) == RecordMode <==>
              !f.Full(start, |rs| + 2) && (f.truncates || f.answer(start) <= 0)
  {
  }

  // ---------- reloading ----------

  function Chunk(d: seq<Byte>, i: nat): (r: seq<Byte>)
    requires RECORD_SIZE * (i + 1) <= |d|
    ensures |r| == RECORD_SIZE
  {
    d[RECORD_SIZE * i..RECORD_SIZE * (i + 1)]
  }

  function DecodeRecords(d: seq<Byte>, n: nat): (rs: seq<Record>)
    requires RECORD_SIZE * n <= |d|
    ensures |rs| == n
  {
    if n == 0 then [] else DecodeRecords(d, n - 1) + [DecodeRecord(Chunk(d, n - 1))]
  }

  function RawChecksum(crc: Crc, d: seq<Byte>, n: nat): Word32
    requires RECORD_SIZE * n <= |d|
  {
    if n == 0 then 0 else crc(Chunk(d, n - 1), RawChecksum(crc, d, n - 1))
  }

  datatype Outcome = Outcome(ok: bool, queue: seq<Record>)

  /** What reload makes of a file of the given contents and reported size. */
  function ReloadOf(crc: Crc, data: seq<Byte>, fileSize: nat): Outcome {
    if |data| < HEADER_SIZE then Outcome(false, [])
    else
      var hdr := DecodeHeader(data[..HEADER_SIZE]);
      var body := data[HEADER_SIZE..];
      var n := hdr.dataSize / RECORD_SIZE;
      if hdr.magic != TRACE_MAGIC || fileSize != (hdr.dataSize + HEADER_SIZE) % 0x1_0000_0000_0000_0000 then
        Outcome(false, [])
      else if |body| < RECORD_SIZE * n then
        Outcome(false, DecodeRecords(body, |body| / RECORD_SIZE))
      else if RawChecksum(crc, body, n) != hdr.checksum then Outcome(false, [])
      else Outcome(true, DecodeRecords(body, n))
  }

  /** The number in little-endian order at a place of the file. */
  function Field(data: seq<Byte>, at: nat, size: nat): nat
    requires at + size <= |data|
  {
    FromLittleEndian(data[at..at + size])
  }

  /** The file has a header with the magic number, and its size is what the header says. */
  predicate Sized(data: seq<Byte>, fileSize: nat) {
    && |data| >= 24
    && Field(data, 0, 4) == 3270449184
    && fileSize == (Field(data, 8, 8) + 24) % 0x1_0000_0000_0000_0000
  }

  lemma HeaderFields(data: seq<Byte>)
    requires |data| >= 24
    ensures var hdr := DecodeHeader(data[..24]);
            hdr.magic == Field(data, 0, 4) && hdr.dataSize == Field(data, 8, 8) && hdr.checksum == Field(data, 16, 4)
  {
    var head := data[..24];
    assert head[0..4] == data[0..4] && head[8..16] == data[8..16] && head[16..20] == data[16..20];
  }

  /** A file that does not fit its header is refused and leaves nothing in the queue. */
  lemma ReloadRefuses(crc: Crc, data: seq<Byte>, fileSize: nat)
    requires !Sized(data, fileSize)
    ensures ReloadOf(crc, data, fileSize) == Outcome(false, [])
  {
    if |data| >= 24 {
      HeaderFields(data);
    }
  }

  /** One that ends too early is refused as well, but its whole records stay in the queue. */
  lemma ReloadShort(crc: Crc, data: seq<Byte>, fileSize: nat)
    requires Sized(data, fileSize) && |data| - 24 < 24 * (Field(data, 8, 8) / 24)
    ensures ReloadOf(crc, data, fileSize) == Outcome(false, DecodeRecords(data[24..], (|data| - 24) / 24))
  {
    HeaderFields(data);
  }

  /** Any other is accepted with its records exactly if their checksum is the header's, and leaves
      nothing in the queue otherwise. */
  lemma ReloadWhole(crc: Crc, data: seq<Byte>, fileSize: nat)
    requires Sized(data, fileSize) && 24 * (Field(data, 8, 8) / 24) <= |data| - 24
    ensures var n := Field(data, 8, 8) / 24;
            ReloadOf(crc, data, fileSize) ==
              if RawChecksum(crc, data[24..], n) == Field(data, 16, 4) then Outcome(true, DecodeRecords(data[24..], n))
              else Outcome(false, [])
  {
    HeaderFields(data);
  }

  /** The i-th record is read from the 24 bytes at 24 * i, field by field. */
  lemma {:induction false} DecodeMeans(d: seq<Byte>, n: nat, i: nat)
    requires RECORD_SIZE * n <= |d| && i < n
    ensures var r := DecodeRecords(d, n)[i];
            && r.op == d[24 * i] && r.layerIndex == Field(d, 24 * i + 4, 4)
            && r.count == Field(d, 24 * i + 8, 8) && r.offset == Field(d, 24 * i + 16, 8)
    decreases n
  {
    if i < n - 1 {
      DecodeMeans(d, n - 1, i);
    } else {
      assert DecodeRecords(d, n)[i] == DecodeRecord(Chunk(d, i));
      InChunk(d, i, 4, 8);
      InChunk(d, i, 8, 16);
      InChunk(d, i, 16, 24);
    }
  }

  lemma InChunk(d: seq<Byte>, i: nat, a: nat, b: nat)
    requires RECORD_SIZE * (i + 1) <= |d| && a <= b <= RECORD_SIZE
    ensures Chunk(d, i)[a..b] == d[RECORD_SIZE * i + a..RECORD_SIZE * i + b]
  {
    forall k | a <= k < b
      ensures Chunk(d, i)[k] == d[RECORD_SIZE * i + k]
    {
    }
  }

  lemma ChunkAt(data: seq<Byte>, start: nat, i: nat)
    requires start + RECORD_SIZE * (i + 1) <= |data|
    ensures data[start + RECORD_SIZE * i..start + RECORD_SIZE * i + RECORD_SIZE] == Chunk(data[start..], i)
  {
  }

  lemma WholeRecords(size: nat, i: nat)
    requires RECORD_SIZE * i <= size < RECORD_SIZE * (i + 1)
    ensures size / RECORD_SIZE == i
  {
  }

  lemma DecodeNext(crc: Crc, d: seq<Byte>, i: nat)
    requires RECORD_SIZE * (i + 1) <= |d|
    ensures DecodeRecords(d, i + 1) == DecodeRecords(d, i) + [DecodeRecord(Chunk(d, i))]
    ensures RawChecksum(crc, d, i + 1) == crc(Chunk(d, i), RawChecksum(crc, d, i))
  {
  }

  method ReadOne(f: TraceFile, ghost start: nat, ghost i: nat, ghost d: seq<Byte>) returns (bytes: seq<Byte>)
    requires start <= |f.data| && d == f.data[start..] && f.pos == start + RECORD_SIZE * i <= |f.data|
    modifies f`pos
    ensures f.pos <= |f.data| && (|bytes| == RECORD_SIZE <==> RECORD_SIZE * (i + 1) <= |d|)
    ensures |bytes| == RECORD_SIZE ==> bytes == Chunk(d, i) && f.pos == start + RECORD_SIZE * (i + 1)
  {
    bytes := f.Read(RECORD_SIZE);
    if start + RECORD_SIZE * (i + 1) <= |f.data| {
      ChunkAt(f.data, start, i);
    }
  }

  /** Read n records, or as many as there are. */
  method ReadRecords(f: TraceFile, crc: Crc, n: nat, ghost d: seq<Byte>)
    returns (ok: bool, queue: seq<Record>, checksum: Word32)
    requires f.pos <= |f.data| && d == f.data[f.pos..]
    modifies f`pos
    ensures ok <==> RECORD_SIZE * n <= |d|
    ensures ok ==> queue == DecodeRecords(d, n) && checksum == RawChecksum(crc, d, n)
    ensures !ok ==> queue == DecodeRecords(d, |d| / RECORD_SIZE)
  {
    ghost var start := f.pos;
    queue, checksum := [], 0;
    var i := 0;
    while i < n
      invariant 0 <= i <= n && f.pos == start + RECORD_SIZE * i <= |f.data|
      invariant queue == DecodeRecords(d, i) && checksum == RawChecksum(crc, d, i)
    {
      var bytes := ReadOne(f, start, i, d);
      if |bytes| != RECORD_SIZE {
        WholeRecords(|d|, i);
        return false, queue, checksum;
      }
      DecodeNext(crc, d, i);
      checksum := crc(bytes, checksum);
      queue := queue + [DecodeRecord(bytes)];
      i := i + 1;
    }
    return true, queue, checksum;
  }

  /** PrefetcherImpl::reload. Reads the header, checks magic and size, reads the records into the
      queue, and drops them all if the checksum does not match. */
  method Reload(f: TraceFile, crc: Crc, fileSize: nat) returns (ok: bool, queue: seq<Record>)
    requires f.pos == 0
    modifies f`pos
    ensures Outcome(ok, queue) == ReloadOf(crc, f.data, fileSize)
  {
    queue := [];
    var bytes := f.Read(HEADER_SIZE);
    if |bytes| != HEADER_SIZE {
      return false, queue;
    }
    assert bytes == f.data[..HEADER_SIZE];
    var hdr := DecodeHeader(bytes);
    if hdr.magic != TRACE_MAGIC {
      return false, queue;
    }
    if fileSize != (hdr.dataSize + HEADER_SIZE) % 0x1_0000_0000_0000_0000 {
      return false, queue;
    }
    var checksum;
    ok, queue, checksum := ReadRecords(f, crc, hdr.dataSize / RECORD_SIZE, f.data[HEADER_SIZE..]);
    if !ok {
      return false, queue;
    }
    if checksum != hdr.checksum {
      return false, [];
    }
    return true, queue;
  }

  lemma {:induction false} DecodeEncoded(crc: Crc, rs: seq<Record>, n: nat)
    requires n <= |rs|
    ensures DecodeRecords(EncodeRecords(rs), n) == rs[..n]
    ensures RawChecksum(crc, EncodeRecords(rs), n) == Checksum(crc, rs[..n])
  {
    if n > 0 {
      DecodeEncoded(crc, rs, n - 1);
      RecordAt(rs, n - 1);
      RecordRoundTrip(rs[n - 1]);
      assert rs[..n] == rs[..n - 1] + [rs[n - 1]];
      assert rs[..n][..n - 1] == rs[..n - 1];
    }
  }

  lemma HeadAndBody(head: seq<Byte>, body: seq<Byte>)
    ensures (head + body)[..|head|] == head && (head + body)[|head|..] == body
  {
  }

  /** Reload of a file that is a header of the right magic and size and a body of n records. */
  lemma ReloadHeadAndBody(crc: Crc, data: seq<Byte>, head: seq<Byte>, body: seq<Byte>, n: nat)
    requires |head| == HEADER_SIZE && data == head + body && Fits(n + 1)
    requires DecodeHeader(head).magic == TRACE_MAGIC && DecodeHeader(head).dataSize == RECORD_SIZE * n == |body|
    ensures ReloadOf(crc, data, |data|) ==
              if RawChecksum(crc, body, n) == DecodeHeader(head).checksum then Outcome(true, DecodeRecords(body, n))
              else Outcome(false, [])
  {
    HeadAndBody(head, body);
    WholeRecords(RECORD_SIZE * n, n);
  }

  /** A complete trace reloads to exactly the records it was made of. The file must be shorter
      than 2^64 bytes, header included. */
  lemma TraceRoundTrip(crc: Crc, rs: seq<Record>)
    requires Fits(|rs| + 1)
    ensures ReloadOf(crc, EncodeTrace(crc, rs), |EncodeTrace(crc, rs)|) == Outcome(true, rs)
  {
    var hdr := Header(TRACE_MAGIC, RECORD_SIZE * |rs|, Checksum(crc, rs));
    HeaderRoundTrip(hdr);
    ReloadUnder(crc, EncodeTrace(crc, rs), rs, EncodeHeader(hdr));
  }

  /** Record, destroy, and start again: the next prefetcher reloads if it finds a trace. Whatever
      the writes and the truncation do, it gets the records taken before the stop, in order, or
      none, and it gets them exactly if the trace is complete. */
  method RecordThenReload(crc: Crc, file: TraceFile, events: seq<Event>)
    returns (mode: Mode, ok: bool, queue: seq<Record>)
    requires file.data == [] && file.pos == 0 && Fits(|events| + 1)
    modifies file
    ensures queue == if ok then TakenBeforeStop(events) else []
    ensures ok <==> Complete(file, crc, TakenBeforeStop(events), old(file.writes))
    ensures ok ==> mode == ReplayMode
    ensures mode == RecordMode <==>
              && !file.Full(old(file.writes), |TakenBeforeStop(events)| + 2)
              && (file.truncates || file.answer(old(file.writes)) <= 0)
  {
    RecorderRun(crc, file, events);
    file.pos := 0;
    mode, ok, queue := DetectMode(Some(file.data)), false, [];
    if mode == ReplayMode {
      ok, queue := Reload(file, crc, |file.data|);
    }
  }

  /** A header cut short that cannot be truncated: the file is neither empty nor reloadable. */
  method NeitherEmptyNorReloadable(crc: Crc) returns (file: TraceFile)
    ensures file.data != [] && ReloadOf(crc, file.data, |file.data|) == Outcome(false, [])
  {
    file := new TraceFile([], _ => 1, false);
    RecorderRun(crc, file, []);
    assert file.answer(0) == 1;
  }

  /** The last write fails and so does the truncation, and yet the trace is complete, since the
      checksum of no records is the zero that already stands there. */
  method CompleteAfterFailedWrite(crc: Crc) returns (file: TraceFile)
    ensures file.data == EncodeTrace(crc, []) && !file.Full(0, 2)
  {
    file := new TraceFile([], k => if k == 0 then 24 else -1, false);
    RecorderRun(crc, file, []);
    LittleEndianZero(4);
    assert file.answer(1) == -1;
  }
}
