/** The download thread: a queue of layers, each tried again until it is done or out of tries. */
module DownloadQueue {
  import opened Basics
  import opened BlobCopy
  import opened Download

  ghost function Tries(items: seq<Item>): nat
    reads items`tryCnt
  {
    if |items| == 0 then 0 else items[0].tryCnt + Tries(items[1..])
  }

  lemma {:induction false} TriesAppend(items: seq<Item>, it: Item)
    ensures Tries(items + [it]) == Tries(items) + it.tryCnt
  {
    if |items| == 0 {
      assert items + [it] == [it];
    } else {
      assert (items + [it])[1..] == items[1..] + [it];
      TriesAppend(items[1..], it);
    }
  }

  /** What the queue may assume of its items: layers that share a directory or a read path are
      the same layer, digests name contents, and every item may be tried at least once. */
  ghost predicate Wellformed(w: World, items: seq<Item>) {
    && (forall i :: 0 <= i < |items| ==> Names(w, items[i].layer) && 0 < items[i].blockSize)
    && (forall i, j :: 0 <= i < |items| && 0 <= j < |items| ==> SameLayerIfShared(items[i], items[j]))
  }

  ghost predicate SameLayerIfShared(a: Item, b: Item) {
    a.dir == b.dir || a.sw == b.sw ==> a.layer == b.layer
  }

  ghost predicate AllGood(w: World, items: seq<Item>)
    reads set it | it in items :: it.dir, set it | it in items :: it.sw
  {
    forall i :: 0 <= i < |items| ==> items[i].Good(w)
  }

  /** The commit file of the item is there, or an attempt without failures makes it. */
  ghost predicate Ready(w: World, it: Item)
    reads it`forceDownload, it.dir
  {
    it.dir.commit.Some? || (it.GoodSource(w) && it.Recoverable())
  }

  ghost predicate AllReady(w: World, items: seq<Item>)
    reads items`forceDownload, set it | it in items :: it.dir
  {
    forall i :: 0 <= i < |items| ==> Ready(w, items[i])
  }

  /** The commit file of the item is there, and its readers are on it if it can be opened. */
  ghost predicate Served(w: World, it: Item)
    reads it.dir`commit, it.sw
  {
    it.dir.commit.Some? && it.Switched(w)
  }

  ghost predicate AllServed(w: World, items: seq<Item>)
    reads set it | it in items :: it.dir, set it | it in items :: it.sw
  {
    forall i :: 0 <= i < |items| ==> Served(w, items[i])
  }

  /** Readers of one layer see the same content from any of its commit files. */
  lemma SameView(w: World, a: Item, b: Item)
    requires a.layer == b.layer && Names(w, a.layer) && a.Verified(w) && b.Verified(w)
    requires b.OnCommit(w) && a.sw == b.sw
    ensures a.Switched(w)
  {
  }

  ghost predicate SmoothFor(io: Io, items: seq<Item>) {
    forall it :: it in items ==> Smooth(io, it.blockSize)
  }

  ghost function Count(log: seq<Item>, it: Item): nat {
    multiset(log)[it]
  }

  lemma CountAppend(log: seq<Item>, it: Item)
    ensures forall g :: Count(log + [it], g) == Count(log, g) + if g == it then 1 else 0
  {
    assert multiset(log + [it]) == multiset(log) + multiset{it};
  }

  // ---------- bookkeeping ----------

  /** What the thread has done: all items it was given with the tries each had, the attempts
      made and the items deleted, in order. The region holds the items, their directories and
      their read paths. */
  datatype Ledger = Ledger(all: seq<Item>, region: set<object>, budget: map<Item, nat>,
                           attempts: seq<Item>, deleted: seq<Item>)
  {
    function Dropped(it: Item): Ledger {
      this.(deleted := deleted + [it])
    }

    /** After an attempt at `it`, which is tried again or deleted. */
    function Settled(it: Item, again: bool): Ledger {
      this.(attempts := attempts + [it], deleted := if again then deleted else deleted + [it])
    }
  }

  /** The items are in the queue or deleted, each once; every item was attempted no more often
      than its budget, and those in the queue have the rest of it left. */
  ghost predicate Bookkeeping(l: Ledger, list: seq<Item>)
    reads list`tryCnt
  {
    match l
    case Ledger(all, _, budget, attempts, deleted) =>
      && Distinct(list)
      && multiset(list) + multiset(deleted) == multiset(all)
      && (forall it :: it in list ==>
            it in budget && 0 < it.tryCnt && Count(attempts, it) + it.tryCnt == budget[it])
      && (forall it :: it in deleted ==> it in budget && Count(attempts, it) <= budget[it])
  }

  /** The bookkeeping while the item `it` is out of the queue for one more attempt. */
  ghost predicate Taken(l: Ledger, rest: seq<Item>, it: Item)
    reads rest`tryCnt
  {
    && it !in rest && it !in l.deleted
    && it in l.budget && Count(l.attempts, it) + 1 <= l.budget[it]
    && Bookkeeping(l.Dropped(it), rest)
  }

  /** A deleted item has its commit file or has used up its tries. */
  ghost predicate Finished(l: Ledger)
    reads (set it | it in l.deleted :: it.dir)`commit
  {
    forall it :: it in l.deleted ==>
      it.dir.commit.Some? || (it in l.budget && Count(l.attempts, it) == l.budget[it])
  }

  /** What the rounds keep of the items: they are good; unless the image has exited, the deleted
      ones are finished; and if nothing fails, all are ready and the deleted ones served. */
  ghost predicate Progress(w: World, l: Ledger, smooth: bool, stop: bool)
    reads l.region
  {
    match l
    case Ledger(all, region, _, _, deleted) =>
      && (forall it :: it in all ==> it in region && it.dir in region && it.sw in region)
      && (forall g :: g in deleted ==> g in all)
      && Wellformed(w, all) && AllGood(w, all)
      && (!stop ==> Finished(l))
      && (smooth ==> AllReady(w, all) && AllServed(w, deleted))
  }

  /** After an attempt, the item is tried again only if it failed with tries left. */
  lemma ProgressStep(w: World, l: Ledger, smooth: bool, it: Item, ok: bool, stop: bool, again: bool)
    requires Progress(w, l, smooth, false) && it in l.all && it !in l.deleted && it in l.budget
    requires again == (!stop && !ok && it.tryCnt > 0) && (ok ==> it.dir.commit.Some?)
    requires ok || Count(l.attempts, it) + 1 + it.tryCnt == l.budget[it]
    requires smooth ==> ok && Served(w, it)
    ensures Progress(w, l.Settled(it, again), smooth, stop)
  {
    CountAppend(l.attempts, it);
  }

  lemma TakeFirst(list: seq<Item>)
    requires 0 < |list| && Distinct(list)
    ensures multiset(list) == multiset{list[0]} + multiset(list[1..])
    ensures Distinct(list[1..]) && list[0] !in list[1..]
  {
    assert list == [list[0]] + list[1..];
  }

  lemma {:induction false} DistinctOnce(s: seq<Item>, it: Item)
    requires Distinct(s)
    ensures multiset(s)[it] <= 1
  {
    if |s| > 0 {
      DistinctOnce(s[1..], it);
      TakeFirst(s);
      if s[0] == it {
        assert it !in multiset(s[1..]);
      }
    }
  }

  lemma Take(l: Ledger, list: seq<Item>)
    requires 0 < |list| && Distinct(l.all) && Bookkeeping(l, list)
    ensures Taken(l, list[1..], list[0])
    ensures list[0] in l.all && Tries(list) == list[0].tryCnt + Tries(list[1..])
  {
    var it := list[0];
    TakeFirst(list);
    assert multiset(l.deleted + [it]) == multiset(l.deleted) + multiset{it};
    assert it in multiset(l.all);
    DistinctOnce(l.all, it);
    assert multiset(list)[it] >= 1;
    assert multiset(l.deleted)[it] == 0;
  }

  /** After the attempt the item is gone for good. */
  lemma Retire(l: Ledger, rest: seq<Item>, it: Item)
    requires Taken(l, rest, it)
    ensures Bookkeeping(l.Settled(it, false), rest)
  {
    CountAppend(l.attempts, it);
  }

  /** An item that was out of the queue goes to its end. */
  lemma PutBack(l: Ledger, rest: seq<Item>, it: Item)
    requires it !in rest && Bookkeeping(l.Dropped(it), rest)
    requires it in l.budget && 0 < it.tryCnt && Count(l.attempts, it) + it.tryCnt == l.budget[it]
    ensures Bookkeeping(l, rest + [it])
    ensures Tries(rest + [it]) == Tries(rest) + it.tryCnt
  {
    TriesAppend(rest, it);
    assert multiset(rest + [it]) == multiset(rest) + multiset{it};
    assert multiset(l.deleted + [it]) == multiset(l.deleted) + multiset{it};
    assert forall g :: g in l.deleted ==> g in l.deleted + [it];
  }

  /** After the attempt the item goes to the end of the queue. */
  lemma Requeue(l: Ledger, rest: seq<Item>, it: Item)
    requires Taken(l, rest, it)
    requires 0 < it.tryCnt && Count(l.attempts, it) + 1 + it.tryCnt == l.budget[it]
    ensures Bookkeeping(l.Settled(it, true), rest + [it])
    ensures Tries(rest + [it]) == Tries(rest) + it.tryCnt
  {
    Retire(l, rest, it);
    CountAppend(l.attempts, it);
    PutBack(l.Settled(it, true), rest, it);
  }

  lemma NothingDone(all: seq<Item>, budget: map<Item, nat>)
    requires Distinct(all)
    requires forall it :: it in all ==> it in budget && 0 < it.tryCnt == budget[it]
    ensures Bookkeeping(Ledger(all, Region(all), budget, [], []), all)
  {
  }

  lemma AllDone(l: Ledger)
    requires Bookkeeping(l, [])
    ensures multiset(l.deleted) == multiset(l.all)
    ensures forall it :: it in l.all ==> it in l.deleted && it in l.budget && Count(l.attempts, it) <= l.budget[it]
  {
    forall it | it in l.all
      ensures it in l.deleted
    {
      assert it in multiset(l.all) && it in multiset(l.deleted);
    }
  }

  lemma AllOfThemServed(w: World, l: Ledger)
    requires AllServed(w, l.deleted) && forall it :: it in l.all ==> it in l.deleted
    ensures AllServed(w, l.all)
  {
    forall i | 0 <= i < |l.all|
      ensures Served(w, l.all[i])
    {
      assert l.all[i] in l.deleted;
    }
  }

  // ---------- the thread ----------

  /** One attempt at one item keeps what the rounds keep. Without failures it serves the item. */
  method Attempt(w: World, it: Item, io: Io, ghost l: Ledger, ghost smooth: bool) returns (ok: bool)
    requires Progress(w, l, smooth, false) && it in l.all && 0 < it.tryCnt
    requires smooth ==> Smooth(io, it.blockSize)
    modifies it`forceDownload, it`tryCnt, it.dir, it.sw`local
    ensures Progress(w, l, smooth, false)
    ensures it.tryCnt == old(it.tryCnt) - 1 || (ok && it.tryCnt == old(it.tryCnt))
    ensures ok ==> it.dir.commit.Some?
    ensures smooth ==> ok && Served(w, it)
  {
    ok := it.Download(w, io);
    forall i | 0 <= i < |l.all|
      ensures l.all[i].Good(w)
    {
      assert old(l.all[i].Good(w));
    }
    if smooth {
      assert old(Ready(w, it));
      forall i | 0 <= i < |l.all|
        ensures Ready(w, l.all[i])
      {
        assert old(Ready(w, l.all[i]));
      }
      forall i | 0 <= i < |l.deleted|
        ensures Served(w, l.deleted[i])
      {
        var g := l.deleted[i];
        assert old(Served(w, g)) && g in l.all && SameLayerIfShared(g, it);
        if g.sw == it.sw && it.OnCommit(w) {
          SameView(w, g, it);
        }
      }
    }
  }

  /** The same while the item is out of the queue. */
  method AttemptTaken(w: World, it: Item, io: Io, ghost l: Ledger, ghost rest: seq<Item>, ghost smooth: bool)
    returns (ok: bool)
    requires Progress(w, l, smooth, false) && Taken(l, rest, it) && it in l.all
    requires 0 < it.tryCnt && Count(l.attempts, it) + it.tryCnt == l.budget[it]
    requires smooth ==> Smooth(io, it.blockSize)
    modifies it`forceDownload, it`tryCnt, it.dir, it.sw`local
    ensures Progress(w, l, smooth, false) && Taken(l, rest, it) && Tries(rest) == old(Tries(rest))
    ensures ok || Count(l.attempts, it) + 1 + it.tryCnt == l.budget[it]
    ensures it.tryCnt <= old(it.tryCnt) && (ok ==> it.dir.commit.Some?)
    ensures smooth ==> ok && Served(w, it)
  {
    ok := Attempt(w, it, io, l, smooth);
  }

  lemma ProgressStop(w: World, l: Ledger, smooth: bool)
    requires Progress(w, l, smooth, false)
    ensures Progress(w, l, smooth, true)
  {
  }

  lemma LockedAndBack(held: set<Dir>, dir: Dir)
    ensures if dir in held then held + {dir} == held else held + {dir} - {dir} == held
  {
  }

  /** Both books after an attempt. */
  lemma RoundLedger(w: World, l: Ledger, rest: seq<Item>, it: Item, ok: bool, stop: bool, smooth: bool)
    requires Progress(w, l, smooth, false) && Taken(l, rest, it) && it in l.all
    requires ok || Count(l.attempts, it) + 1 + it.tryCnt == l.budget[it]
    requires (ok ==> it.dir.commit.Some?) && (smooth ==> ok && Served(w, it))
    ensures var again := !stop && !ok && it.tryCnt > 0;
            var list := if again then rest + [it] else rest;
            && Progress(w, l.Settled(it, again), smooth, stop)
            && Bookkeeping(l.Settled(it, again), list)
            && Tries(list) <= Tries(rest) + (if again then it.tryCnt else 0)
  {
    var again := !stop && !ok && it.tryCnt > 0;
    ProgressStep(w, l, smooth, it, ok, stop, again);
    if again {
      Requeue(l, rest, it);
    } else {
      Retire(l, rest, it);
    }
  }

  // ---------- readers ----------

  /** A read of a layer. */
  datatype Request = Request(item: Item, count: nat, offset: nat)

  /** What a read returned. */
  type Answer = seq<Byte>

  /** What the environment does while the thread runs: round by round which directories other
      queues hold, after which they hold none, and the answers to its calls; what each check of
      the image's state sees; and what is read before each turn. */
  datatype Plan = Plan(others: seq<set<Dir>>, ios: nat -> Io, running: nat -> bool, requests: nat -> seq<Request>)

  /** Every read is answered with the bytes of the layer's content from the offset on, as many as
      asked for or as there are. */
  ghost predicate TrueAnswers(rs: seq<Request>, seen: seq<Answer>) {
    |seen| == |rs| && forall i :: 0 <= i < |rs| ==> TrueAnswer(rs[i], seen[i])
  }

  ghost predicate TrueAnswer(r: Request, bytes: Answer) {
    var content := r.item.layer.content;
    && |bytes| == (if r.offset >= |content| then 0
                   else if r.count < |content| - r.offset then r.count
                   else |content| - r.offset)
    && forall j :: 0 <= j < |bytes| ==> bytes[j] == content[r.offset + j]
  }

  /** So are all reads, turn by turn. */
  ghost predicate TrueLog(plan: Plan, log: seq<seq<Answer>>) {
    forall k :: 0 <= k < |log| ==> TrueAnswers(plan.requests(k), log[k])
  }

  /** The turns in which the attempts were made: they increase, the image ran at the check before
      each, no other queue held the directory, and unless it was the last attempt the image still
      ran at the check after. */
  ghost predicate Logged(plan: Plan, attempts: seq<Item>, when: seq<nat>, turns: nat, stop: bool)
    decreases |attempts|
  {
    && |when| == |attempts|
    && (|when| > 0 ==>
          var i := |when| - 1;
          && when[i] < turns
          && plan.running(2 * when[i]) && (!stop ==> plan.running(2 * when[i] + 1))
          && (when[i] < |plan.others| ==> attempts[i].dir !in plan.others[when[i]])
          && Logged(plan, attempts[..i], when[..i], when[i], false))
  }

  lemma LoggedSkip(plan: Plan, attempts: seq<Item>, when: seq<nat>, turns: nat, stop: bool)
    requires Logged(plan, attempts, when, turns, false)
    ensures Logged(plan, attempts, when, turns + 1, stop)
  {
  }

  lemma LoggedMore(plan: Plan, attempts: seq<Item>, when: seq<nat>, turns: nat, stop: bool)
    requires Logged(plan, attempts, when, turns, stop)
    ensures Logged(plan, attempts, when, turns + 1, stop)
  {
  }

  lemma LoggedStep(plan: Plan, attempts: seq<Item>, when: seq<nat>, turns: nat, it: Item, stop: bool)
    requires Logged(plan, attempts, when, turns, false)
    requires plan.running(2 * turns) && (!stop ==> plan.running(2 * turns + 1))
    requires turns < |plan.others| ==> it.dir !in plan.others[turns]
    ensures Logged(plan, attempts + [it], when + [turns], turns + 1, stop)
  {
    assert (attempts + [it])[..|attempts|] == attempts && (when + [turns])[..|when|] == when;
  }

  ghost predicate AlwaysRunning(plan: Plan) {
    forall t: nat :: plan.running(t)
  }

  /** From the t-th check on the image is found to have exited. */
  ghost predicate ExitedFrom(plan: Plan, t: nat) {
    forall u: nat :: t <= u ==> !plan.running(u)
  }

  /** Once the image has exited for good there is at most the attempt under way. */
  lemma LoggedExit(plan: Plan, attempts: seq<Item>, when: seq<nat>, turns: nat, stop: bool, t: nat)
    requires Logged(plan, attempts, when, turns, stop) && ExitedFrom(plan, t)
    ensures 2 * |attempts| <= t + 1
  {
    if |when| > 0 {
      var i := |when| - 1;
      OnePerTurn(plan, attempts[..i], when[..i], when[i]);
      assert plan.running(2 * when[i]);
    }
  }

  lemma {:induction false} OnePerTurn(plan: Plan, attempts: seq<Item>, when: seq<nat>, turns: nat)
    requires Logged(plan, attempts, when, turns, false)
    ensures |attempts| <= turns
    decreases |attempts|
  {
    if |when| > 0 {
      var i := |when| - 1;
      OnePerTurn(plan, attempts[..i], when[..i], when[i]);
    }
  }

  ghost predicate AsksFor(plan: Plan, items: seq<Item>) {
    forall k, r :: r in plan.requests(k) ==> r.item in items
  }

  /** The reads, answered by the read path of each layer. */
  method Serve(w: World, rs: seq<Request>, ghost items: seq<Item>) returns (seen: seq<Answer>)
    requires AllGood(w, items) && forall r :: r in rs ==> r.item in items
    ensures TrueAnswers(rs, seen)
  {
    seen := [];
    for i := 0 to |rs|
      invariant |seen| == i && forall j :: 0 <= j < i ==> TrueAnswer(rs[j], seen[j])
    {
      var r := rs[i];
      assert r in rs && r.item.Good(w);
      var bytes := r.item.sw.Pread(r.count, r.offset);
      seen := seen + [bytes];
    }
  }

  /** The thread's state: its queue and the directories locked by this process. */
  class Downloader {
    var dlList: seq<Item>
    var lockFiles: set<Dir>

    constructor (items: seq<Item>)
      ensures dlList == items && lockFiles == {}
    {
      dlList, lockFiles := items, {};
    }

    method LockFile(dir: Dir) returns (ok: bool)
      modifies this`lockFiles
      ensures ok <==> dir !in old(lockFiles)
      ensures lockFiles == old(lockFiles) + {dir}
    {
      if dir in lockFiles {
        return false;
      }
      lockFiles := lockFiles + {dir};
      return true;
    }

    method UnlockFile(dir: Dir)
      modifies this`lockFiles
      ensures lockFiles == old(lockFiles) - {dir}
    {
      lockFiles := lockFiles - {dir};
    }

    /** Destroying an item releases its lock. */
    method Destroy(it: Item, ghost before: Ledger) returns (ghost l: Ledger)
      modifies this`lockFiles
      ensures lockFiles == old(lockFiles) - {it.dir}
      ensures l == before.Dropped(it)
    {
      UnlockFile(it.dir);
      l := before.Dropped(it);
    }

    /** The tail of bk_download_proc: whatever is left is destroyed. */
    method DestroyRest(ghost before: Ledger) returns (ghost l: Ledger)
      requires Bookkeeping(before, dlList)
      modifies this
      ensures dlList == [] && Bookkeeping(l, [])
      ensures l.all == before.all && l.region == before.region && l.budget == before.budget
      ensures l.attempts == before.attempts
      ensures old(dlList) == [] ==> l == before
    {
      l := before;
      while |dlList| > 0
        invariant Bookkeeping(l, dlList)
        invariant l.all == before.all && l.region == before.region && l.budget == before.budget
        invariant l.attempts == before.attempts
        invariant old(dlList) == [] ==> dlList == [] && l == before
        decreases |dlList|
      {
        var it := dlList[0];
        TakeFirst(dlList);
        dlList := dlList[1..];
        l := Destroy(it, l);
      }
    }

    /** Destroying what is left does not touch what the books are about. */
    method Finish(w: World, ghost before: Ledger, ghost smooth: bool, ghost stop: bool) returns (ghost l: Ledger)
      requires this !in before.region && Progress(w, before, smooth, stop) && Bookkeeping(before, dlList)
      requires !stop ==> dlList == []
      modifies this
      ensures dlList == [] && Bookkeeping(l, [])
      ensures l.all == before.all && l.region == before.region && l.budget == before.budget
      ensures l.attempts == before.attempts && AllGood(w, l.all)
      ensures !stop ==> Finished(l) && (smooth ==> AllServed(w, l.deleted))
    {
      l := DestroyRest(before);
    }

    /** After an attempt: unlock, and either put the item back at the end or destroy it. */
    method Settle(it: Item, ok: bool, stop: bool, ghost before: Ledger) returns (ghost l: Ledger)
      modifies this
      ensures var again := !stop && !ok && it.tryCnt > 0;
              l == before.Settled(it, again) && dlList == if again then old(dlList) + [it] else old(dlList)
      ensures lockFiles == old(lockFiles) - {it.dir}
    {
      UnlockFile(it.dir);
      if !stop && !ok && it.tryCnt > 0 {
        dlList := dlList + [it];
        l := before.Settled(it, true);
      } else {
        l := Destroy(it, before.Settled(it, true));
      }
    }

    /** Settling does not touch what the books are about. */
    method SettleBooks(w: World, it: Item, ok: bool, stop: bool, ghost before: Ledger, ghost smooth: bool)
      returns (ghost l: Ledger)
      requires var again := !stop && !ok && it.tryCnt > 0;
               && this !in before.region && Progress(w, before.Settled(it, again), smooth, stop)
               && Bookkeeping(before.Settled(it, again), if again then dlList + [it] else dlList)
      modifies this
      ensures var again := !stop && !ok && it.tryCnt > 0;
              l == before.Settled(it, again) && dlList == if again then old(dlList) + [it] else old(dlList)
      ensures lockFiles == old(lockFiles) - {it.dir}
      ensures Progress(w, l, smooth, stop) && Bookkeeping(l, dlList)
      ensures Tries(dlList) == old(Tries(if !stop && !ok && it.tryCnt > 0 then dlList + [it] else dlList))
    {
      l := Settle(it, ok, stop, before);
    }

    /** One round for the item just taken from the front and locked. `stop` tells that the image
        exited meanwhile. */
    method Round(w: World, it: Item, io: Io, stop: bool, ghost before: Ledger, ghost smooth: bool)
      returns (ghost l: Ledger)
      requires this !in before.region && Progress(w, before, smooth, false)
      requires smooth ==> Smooth(io, it.blockSize)
      requires Taken(before, dlList, it) && it in before.all
      requires 0 < it.tryCnt && Count(before.attempts, it) + it.tryCnt == before.budget[it]
      modifies this, it`forceDownload, it`tryCnt, it.dir, it.sw`local
      ensures l.all == before.all && l.region == before.region && l.budget == before.budget
      ensures l.attempts == before.attempts + [it] && lockFiles == old(lockFiles) - {it.dir}
      ensures Progress(w, l, smooth, stop)
      ensures Bookkeeping(l, dlList) && Tries(dlList) < old(it.tryCnt + Tries(dlList))
    {
      var ok := AttemptTaken(w, it, io, before, dlList, smooth);
      RoundLedger(w, before, dlList, it, ok, stop, smooth);
      l := SettleBooks(w, it, ok, stop, before, smooth);
    }

    /** Take the front item and try to lock its directory; if another queue holds it, the item
        goes to the end of the queue. */
    method PopFront(held: set<Dir>) returns (it: Item, locked: bool)
      requires 0 < |dlList|
      modifies this
      ensures it == old(dlList)[0] && (locked <==> it.dir !in held) && lockFiles == held + {it.dir}
      ensures dlList == if locked then old(dlList)[1..] else old(dlList)[1..] + [it]
    {
      lockFiles := held;
      it := dlList[0];
      dlList := dlList[1..];
      locked := LockFile(it.dir);
      if !locked {
        dlList := dlList + [it];
      }
    }

    method PopBooks(w: World, held: set<Dir>, ghost l: Ledger, ghost smooth: bool) returns (it: Item, locked: bool)
      requires this !in l.region && Progress(w, l, smooth, false)
      requires 0 < |dlList| && Taken(l, dlList[1..], dlList[0])
      requires Bookkeeping(l, dlList[1..] + [dlList[0]])
      modifies this
      ensures Progress(w, l, smooth, false)
      ensures it == old(dlList)[0] && (locked <==> it.dir !in held) && lockFiles == held + {it.dir}
      ensures dlList == if locked then old(dlList)[1..] else old(dlList)[1..] + [it]
      ensures locked ==> Taken(l, dlList, it) && Tries(dlList) == old(Tries(dlList[1..]))
      ensures !locked ==> Bookkeeping(l, dlList) && Tries(dlList) == old(Tries(dlList[1..] + [dlList[0]]))
    {
      it, locked := PopFront(held);
    }

    /** The next item with the books that go with it. */
    method NextItem(w: World, held: set<Dir>, ghost l: Ledger, ghost smooth: bool) returns (it: Item, locked: bool)
      requires this !in l.region && Progress(w, l, smooth, false)
      requires Distinct(l.all) && 0 < |dlList| && Bookkeeping(l, dlList)
      modifies this
      ensures Progress(w, l, smooth, false) && it in l.all
      ensures it == old(dlList)[0] && (locked <==> it.dir !in held) && lockFiles == held + {it.dir}
      ensures locked ==>
                && Taken(l, dlList, it)
                && 0 < it.tryCnt && Count(l.attempts, it) + it.tryCnt == l.budget[it]
                && it.tryCnt + Tries(dlList) == old(Tries(dlList))
      ensures !locked ==> Bookkeeping(l, dlList) && Tries(dlList) == old(Tries(dlList))
    {
      Take(l, dlList);
      PutBack(l, dlList[1..], dlList[0]);
      it, locked := PopBooks(w, held, l, smooth);
    }

    /** One turn of the loop. `exited` is what the check after an attempt sees. An item whose
        directory is held goes to the end untried; any other is attempted. The locks left are
        those that others hold. */
    method Turn(w: World, held: set<Dir>, io: Io, exited: bool, ghost before: Ledger, ghost smooth: bool)
      returns (stop: bool, ghost l: Ledger)
      requires Distinct(before.all) && 0 < |dlList| && Bookkeeping(before, dlList)
      requires this !in before.region && Progress(w, before, smooth, false)
      requires smooth ==> SmoothFor(io, before.all)
      modifies this, before.region
      ensures l.all == before.all && l.region == before.region && l.budget == before.budget
      ensures var it := old(dlList)[0];
              if it.dir in held then l == before && !stop else l.attempts == before.attempts + [it] && stop == exited
      ensures lockFiles == held
      ensures Progress(w, l, smooth, stop)
      ensures Bookkeeping(l, dlList) && |l.attempts| + Tries(dlList) <= |before.attempts| + old(Tries(dlList))
      ensures Tries(dlList) < old(Tries(dlList)) || (Tries(dlList) == old(Tries(dlList)) && held != {})
    {
      l, stop := before, false;
      LockedAndBack(held, dlList[0].dir);
      var it, locked := NextItem(w, held, before, smooth);
      if locked {
        stop := exited;
        l := Round(w, it, io, exited, before, smooth);
      }
    }

    /** Reading does not touch what the books are about. */
    method ServeBooks(w: World, plan: Plan, log0: seq<seq<Answer>>, ghost l: Ledger, ghost smooth: bool)
      returns (log: seq<seq<Answer>>)
      requires Progress(w, l, smooth, false) && Bookkeeping(l, dlList) && AsksFor(plan, l.all)
      requires TrueLog(plan, log0)
      ensures Progress(w, l, smooth, false) && Bookkeeping(l, dlList) && Tries(dlList) == old(Tries(dlList))
      ensures |log| == |log0| + 1 && TrueLog(plan, log)
    {
      var seen := Serve(w, plan.requests(|log0|), l.all);
      log := log0 + [seen];
    }

    /** One iteration of the loop that finds the image running. */
    method LoggedTurn(w: World, plan: Plan, round: nat, ghost before: Ledger, ghost smooth: bool,
                      ghost when0: seq<nat>)
      returns (stop: bool, ghost l: Ledger, ghost when: seq<nat>)
      requires Distinct(before.all) && 0 < |dlList| && Bookkeeping(before, dlList)
      requires this !in before.region && Progress(w, before, smooth, false)
      requires smooth ==> SmoothFor(plan.ios(round), before.all)
      requires Logged(plan, before.attempts, when0, round, false) && plan.running(2 * round)
      modifies this, before.region
      ensures l.all == before.all && l.region == before.region && l.budget == before.budget
      ensures Progress(w, l, smooth, stop) && Logged(plan, l.attempts, when, round + 1, stop)
      ensures stop ==> !plan.running(2 * round + 1)
      ensures Bookkeeping(l, dlList) && |l.attempts| + Tries(dlList) <= |before.attempts| + old(Tries(dlList))
      ensures Tries(dlList) < old(Tries(dlList)) || (Tries(dlList) == old(Tries(dlList)) && round < |plan.others|)
    {
      var held := if round < |plan.others| then plan.others[round] else {};
      ghost var it := dlList[0];
      stop, l := Turn(w, held, plan.ios(round), !plan.running(2 * round + 1), before, smooth);
      if it.dir in held {
        LoggedSkip(plan, before.attempts, when0, round, stop);
        when := when0;
      } else {
        LoggedStep(plan, before.attempts, when0, round, it, stop);
        when := when0 + [round];
      }
    }

    /** The check of the running flag, and a turn if the image runs. */
    method TurnIfRunning(w: World, plan: Plan, round: nat, ghost before: Ledger, ghost smooth: bool,
                         ghost when0: seq<nat>)
      returns (stop: bool, ghost l: Ledger, ghost when: seq<nat>, ghost at: nat)
      requires Distinct(before.all) && 0 < |dlList| && Bookkeeping(before, dlList)
      requires this !in before.region && Progress(w, before, smooth, false)
      requires smooth ==> SmoothFor(plan.ios(round), before.all)
      requires Logged(plan, before.attempts, when0, round, false)
      modifies this, before.region
      ensures l.all == before.all && l.region == before.region && l.budget == before.budget
      ensures Progress(w, l, smooth, stop) && Logged(plan, l.attempts, when, round + 1, stop)
      ensures stop ==> !plan.running(at)
      ensures Bookkeeping(l, dlList) && |l.attempts| + Tries(dlList) <= |before.attempts| + old(Tries(dlList))
      ensures stop || Tries(dlList) < old(Tries(dlList)) ||
              (Tries(dlList) == old(Tries(dlList)) && round < |plan.others|)
      ensures Tries(dlList) <= old(Tries(dlList))
    {
      at := 2 * round;
      stop := !plan.running(2 * round);
      if stop {
        LoggedSkip(plan, before.attempts, when0, round, stop);
        ProgressStop(w, before, smooth);
        l, when := before, when0;
      } else {
        stop, l, when := LoggedTurn(w, plan, round, before, smooth, when0);
        at := 2 * round + 1;
      }
    }

    /** One iteration of the loop: reads, the check, and a turn if the image runs. */
    method Iteration(w: World, plan: Plan, log0: seq<seq<Answer>>, ghost before: Ledger, ghost smooth: bool,
                     ghost when0: seq<nat>)
      returns (stop: bool, log: seq<seq<Answer>>, ghost l: Ledger, ghost when: seq<nat>, ghost at: nat)
      requires Distinct(before.all) && 0 < |dlList| && Bookkeeping(before, dlList) && AsksFor(plan, before.all)
      requires this !in before.region && Progress(w, before, smooth, false)
      requires smooth ==> SmoothFor(plan.ios(|log0|), before.all)
      requires Logged(plan, before.attempts, when0, |log0|, false) && TrueLog(plan, log0)
      modifies this, before.region
      ensures l.all == before.all && l.region == before.region && l.budget == before.budget
      ensures |log| == |log0| + 1 && TrueLog(plan, log)
      ensures Progress(w, l, smooth, stop) && Logged(plan, l.attempts, when, |log|, stop)
      ensures stop ==> !plan.running(at)
      ensures Bookkeeping(l, dlList) && |l.attempts| + Tries(dlList) <= |before.attempts| + old(Tries(dlList))
      ensures stop || Tries(dlList) < old(Tries(dlList)) ||
              (Tries(dlList) == old(Tries(dlList)) && |log0| < |plan.others|)
      ensures Tries(dlList) <= old(Tries(dlList))
    {
      log := ServeBooks(w, plan, log0, before, smooth);
      stop, l, when, at := TurnIfRunning(w, plan, |log0|, before, smooth, when0);
    }

    /** The loop of bk_download_proc: until the queue is empty or the image exits. */
    method Loop(w: World, plan: Plan, ghost before: Ledger, ghost smooth: bool)
      returns (stop: bool, log: seq<seq<Answer>>, ghost l: Ledger, ghost when: seq<nat>, ghost at: nat)
      requires Distinct(before.all) && Bookkeeping(before, dlList) && AsksFor(plan, before.all)
      requires this !in before.region && Progress(w, before, smooth, false) && before.attempts == []
      requires smooth ==> forall k :: SmoothFor(plan.ios(k), before.all)
      modifies this, before.region
      ensures l.all == before.all && l.region == before.region && l.budget == before.budget
      ensures Progress(w, l, smooth, stop) && Bookkeeping(l, dlList)
      ensures |l.attempts| <= old(Tries(dlList)) && Logged(plan, l.attempts, when, |log|, stop)
      ensures stop ==> !plan.running(at)
      ensures !stop ==> dlList == []
      ensures TrueLog(plan, log)
    {
      l, stop, log, when, at := before, false, [], [], 0;
      while |dlList| > 0 && !stop
        invariant l.all == before.all && l.region == before.region && l.budget == before.budget
        invariant Progress(w, l, smooth, stop) && Bookkeeping(l, dlList)
        invariant |l.attempts| + Tries(dlList) <= old(Tries(dlList))
        invariant Logged(plan, l.attempts, when, |log|, stop)
        invariant stop ==> !plan.running(at)
        invariant TrueLog(plan, log)
        decreases (if |log| < |plan.others| then |plan.others| - |log| else 0) + Tries(dlList), !stop
      {
        stop, log, l, when, at := Iteration(w, plan, log, l, smooth, when);
      }
    }

    /** The loop and the tail, from any ledger, and one more round of reads. */
    method Work(w: World, plan: Plan, ghost before: Ledger, ghost smooth: bool)
      returns (log: seq<seq<Answer>>, ghost l: Ledger, ghost when: seq<nat>, ghost stop: bool)
      requires Distinct(before.all) && Bookkeeping(before, dlList) && AsksFor(plan, before.all)
      requires this !in before.region && Progress(w, before, smooth, false) && before.attempts == []
      requires smooth ==> forall k :: SmoothFor(plan.ios(k), before.all)
      modifies this, before.region
      ensures dlList == [] && l.all == before.all && l.budget == before.budget
      ensures Bookkeeping(l, []) && AllGood(w, l.all)
      ensures |l.attempts| <= old(Tries(dlList))
      ensures 0 < |log| && TrueLog(plan, log) && Logged(plan, l.attempts, when, |log|, stop)
      ensures AlwaysRunning(plan) ==> Finished(l) && (smooth ==> AllServed(w, l.deleted))
    {
      var exited;
      ghost var at;
      exited, log, l, when, at := Loop(w, plan, before, smooth);
      stop := exited;
      l := Finish(w, l, smooth, exited);
      log := ServeLast(w, plan, log, l, when, exited, smooth);
    }

    method ServeLast(w: World, plan: Plan, log0: seq<seq<Answer>>, ghost l: Ledger, ghost when: seq<nat>,
                     ghost stop: bool, ghost smooth: bool)
      returns (log: seq<seq<Answer>>)
      requires AllGood(w, l.all) && AsksFor(plan, l.all) && dlList == [] && Bookkeeping(l, [])
      requires Logged(plan, l.attempts, when, |log0|, stop) && TrueLog(plan, log0)
      requires !stop ==> Finished(l) && (smooth ==> AllServed(w, l.deleted))
      ensures dlList == [] && Bookkeeping(l, []) && AllGood(w, l.all)
      ensures 0 < |log| && TrueLog(plan, log) && Logged(plan, l.attempts, when, |log|, stop)
      ensures !stop ==> Finished(l) && (smooth ==> AllServed(w, l.deleted))
    {
      LoggedMore(plan, l.attempts, when, |log0|, stop);
      var seen := Serve(w, plan.requests(|log0|), l.all);
      log := log0 + [seen];
    }

    /** bk_download_proc, under any plan of the environment. Every item is attempted at most as
        often as it has tries and destroyed exactly once, the queue ends empty, the number of
        attempts is bounded by the tries of all items together, and every read before, between
        and after the turns is answered with the layer's content. An item is attempted only in a
        turn in which the image runs and no other queue holds its directory, and once the image
        has exited there is no further attempt. Unless the image exits, an item is given up only
        when all its tries were used; and where nothing fails, good sources are all committed and
        their readers switched. */
    method Proc(w: World, plan: Plan)
      returns (log: seq<seq<Answer>>, ghost l: Ledger, ghost when: seq<nat>, ghost stop: bool)
      requires Wellformed(w, dlList) && AllGood(w, dlList) && Distinct(dlList) && AsksFor(plan, dlList)
      requires forall it :: it in dlList ==> 0 < it.tryCnt
      modifies this, Region(dlList)
      ensures dlList == [] && l.all == old(dlList)
      ensures forall it :: it in l.all ==> it in l.budget && l.budget[it] == old(it.tryCnt)
      ensures multiset(l.deleted) == multiset(l.all)
      ensures forall it :: it in l.all ==> multiset(l.attempts)[it] <= l.budget[it]
      ensures |l.attempts| <= old(Tries(dlList))
      ensures forall it :: it in l.all ==>
                && (it.dir.commit.Some? ==> w.sha(it.dir.commit.value) == it.layer.digest)
                && it.sw.View() == it.layer.content
      ensures 0 < |log| && forall k :: 0 <= k < |log| ==> TrueAnswers(plan.requests(k), log[k])
      ensures Logged(plan, l.attempts, when, |log|, stop)
      ensures forall t: nat :: ExitedFrom(plan, t) ==> 2 * |l.attempts| <= t + 1
      ensures AlwaysRunning(plan) ==>
                forall it :: it in l.all ==> it.dir.commit.Some? || multiset(l.attempts)[it] == l.budget[it]
      ensures AlwaysRunning(plan) && (forall k :: SmoothFor(plan.ios(k), l.all)) &&
              old(AllReady(w, dlList)) ==>
                forall it :: it in l.all ==>
                  && it.dir.commit.Some?
                  && (w.open(it.dir.commit.value).Some? ==> it.sw.local == w.open(it.dir.commit.value))
    {
      ghost var budget: map<Item, nat> := map it | it in dlList :: it.tryCnt;
      ghost var smooth := (forall k :: SmoothFor(plan.ios(k), dlList)) && AllReady(w, dlList);
      NothingDone(dlList, budget);
      log, l, when, stop := Work(w, plan, Ledger(dlList, Region(dlList), budget, [], []), smooth);
      Summary(w, plan, l, when, |log|, stop, smooth);
    }
  }

  /** What the books say in the end. */
  lemma Summary(w: World, plan: Plan, l: Ledger, when: seq<nat>, turns: nat, stop: bool, smooth: bool)
    requires Bookkeeping(l, []) && AllGood(w, l.all) && Logged(plan, l.attempts, when, turns, stop)
    requires AlwaysRunning(plan) ==> Finished(l) && (smooth ==> AllServed(w, l.deleted))
    ensures multiset(l.deleted) == multiset(l.all)
    ensures forall it :: it in l.all ==> it in l.budget && multiset(l.attempts)[it] <= l.budget[it]
    ensures forall it :: it in l.all ==>
              && (it.dir.commit.Some? ==> w.sha(it.dir.commit.value) == it.layer.digest)
              && it.sw.View() == it.layer.content
    ensures forall t: nat :: ExitedFrom(plan, t) ==> 2 * |l.attempts| <= t + 1
    ensures AlwaysRunning(plan) ==>
              forall it :: it in l.all ==> it.dir.commit.Some? || multiset(l.attempts)[it] == l.budget[it]
    ensures AlwaysRunning(plan) && smooth ==>
              forall it :: it in l.all ==>
                && it.dir.commit.Some?
                && (w.open(it.dir.commit.value).Some? ==> it.sw.local == w.open(it.dir.commit.value))
  {
    AllDone(l);
    GoodMeans(w, l.all);
    if AlwaysRunning(plan) && smooth {
      AllOfThemServed(w, l);
      ServedMeans(w, l.all);
    }
    forall t: nat | ExitedFrom(plan, t)
      ensures 2 * |l.attempts| <= t + 1
    {
      LoggedExit(plan, l.attempts, when, turns, stop, t);
    }
  }

  lemma GoodMeans(w: World, items: seq<Item>)
    requires AllGood(w, items)
    ensures forall it :: it in items ==>
              && (it.dir.commit.Some? ==> w.sha(it.dir.commit.value) == it.layer.digest)
              && it.sw.View() == it.layer.content
  {
    forall it | it in items
      ensures it.Good(w)
    {
      var i :| 0 <= i < |items| && items[i] == it;
    }
  }

  lemma ServedMeans(w: World, items: seq<Item>)
    requires AllServed(w, items)
    ensures forall it :: it in items ==>
              && it.dir.commit.Some?
              && (w.open(it.dir.commit.value).Some? ==> it.sw.local == w.open(it.dir.commit.value))
  {
    forall it | it in items
      ensures Served(w, it)
    {
      var i :| 0 <= i < |items| && items[i] == it;
    }
  }

  /** The items, their directories and their read paths. */
  ghost function Region(items: seq<Item>): set<object> {
    (set it | it in items :: it as object) + (set it | it in items :: it.dir as object)
    + (set it | it in items :: it.sw as object)
  }
}
