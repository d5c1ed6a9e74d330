/** Coalesced completion wake-ups of a TCMU device.

    Every command has a handler, a cooperative thread that runs from one yield to the next
    without interruption. A handler that completes its command bumps a shared counter; the one
    that finds the counter at one notifies the kernel, yields, and repeats while others have
    completed meanwhile. An event below is what one handler does between two yields.
 */
module Wakeup {

  type Id = nat

  datatype Phase = Working | Flushing

  /** The two counters of the device, the handlers alive, and as history the commands completed
      in the ring, those among them the kernel was notified of, and the number of notifications. */
  datatype State = State(pending: nat, inflight: nat, handlers: map<Id, Phase>,
                         completed: set<Id>, flushed: set<Id>, flushes: nat)

  datatype Event = Accept(id: Id) | Complete(id: Id) | Resume(id: Id)

  const INITIAL: State := State(0, 0, map[], {}, {}, 0)

  predicate Enabled(s: State, e: Event) {
    match e
    case Accept(id) => id !in s.handlers && id !in s.completed
    case Complete(id) => id in s.handlers && s.handlers[id] == Working
    case Resume(id) => id in s.handlers && s.handlers[id] == Flushing
  }

  function Flush(s: State): State {
    s.(flushed := s.completed, flushes := s.flushes + 1)
  }

  function Finish(s: State, id: Id): State {
    s.(handlers := s.handlers - {id}, inflight := if s.inflight > 0 then s.inflight - 1 else 0)
  }

  function Next(s: State, e: Event): State {
    match e
    case Accept(id) => s.(inflight := s.inflight + 1, handlers := s.handlers[id := Working])
    case Complete(id) =>
      var s1 := s.(completed := s.completed + {id}, pending := s.pending + 1);
      if s1.pending == 1 then Flush(s1).(handlers := s1.handlers[id := Flushing])
      else Finish(s1, id)
    case Resume(id) =>
      if s.pending > 1 then Flush(s.(pending := 1))
      else Finish(s.(pending := 0), id)
  }

  // ---------- the device ----------

  class Device {
    var aioPendingWakeups: nat
    var inflight: nat
    var notifications: nat
    ghost var handlers: map<Id, Phase>
    ghost var completed: set<Id>
    ghost var flushed: set<Id>

    /** The state of the protocol that the device is in. */
    ghost function Now(): State
      reads this
    {
      State(aioPendingWakeups, inflight, handlers, completed, flushed, notifications)
    }

    constructor ()
      ensures Now() == INITIAL && Invariant(Now())
    {
      aioPendingWakeups, inflight, notifications := 0, 0, 0;
      handlers, completed, flushed := map[], {}, {};
      new;
      InitialInvariant();
    }

    /** tcmulib_command_complete: the command's status is in the ring. */
    ghost method CommandComplete(id: Id)
      modifies this`completed
      ensures completed == old(completed) + {id}
    {
      completed := completed + {id};
    }

    /** tcmulib_processing_complete: the kernel learns of everything in the ring. */
    method ProcessingComplete()
      modifies this`notifications, this`flushed
      ensures notifications == old(notifications) + 1 && flushed == completed
    {
      notifications := notifications + 1;
      flushed := completed;
    }

    /** The handler gives way inside its flush loop. */
    ghost method Yield(id: Id)
      modifies this`handlers
      ensures handlers == old(handlers)[id := Flushing]
    {
      handlers := handlers[id := Flushing];
    }

    /** The end of the handler. */
    method Leave(id: Id)
      requires 0 < inflight
      modifies this`inflight, this`handlers
      ensures inflight == old(inflight) - 1 && handlers == old(handlers) - {id}
    {
      inflight := inflight - 1;
      handlers := handlers - {id};
    }

    /** One command taken from the ring. */
    method OnAccept(id: Id)
      requires Enabled(Now(), Accept(id))
      modifies this
      ensures Now() == Next(old(Now()), Accept(id))
    {
      inflight := inflight + 1;
      handlers := handlers[id := Working];
    }

    /** The handler completes its command and either becomes the one that notifies, which has
        then notified and is about to yield, or is done. */
    method CompleteCommand(id: Id) returns (wakeUp: bool)
      requires Invariant(Now()) && Enabled(Now(), Complete(id))
      modifies this
      ensures Now() == Next(old(Now()), Complete(id))
      ensures wakeUp <==> id in handlers
    {
      HandlersCounted(Now(), id);
      CommandComplete(id);
      aioPendingWakeups := aioPendingWakeups + 1;
      wakeUp := aioPendingWakeups == 1;
      if wakeUp {
        ProcessingComplete();
        Yield(id);
      } else {
        Leave(id);
      }
    }

    /** Back from the yield: notify again if anything was completed meanwhile, or stop. */
    method AfterYield(id: Id) returns (wakeUp: bool)
      requires Invariant(Now()) && Enabled(Now(), Resume(id))
      modifies this
      ensures Now() == Next(old(Now()), Resume(id))
      ensures wakeUp <==> id in handlers
    {
      HandlersCounted(Now(), id);
      if aioPendingWakeups > 1 {
        aioPendingWakeups := 1;
        wakeUp := true;
      } else {
        aioPendingWakeups := 0;
        wakeUp := false;
      }
      if wakeUp {
        ProcessingComplete();
        Yield(id);
      } else {
        Leave(id);
      }
    }

    /** Any schedule of any number of handlers. */
    method Schedule(events: seq<Event>)
      requires Invariant(Now()) && EnabledRun(Now(), events)
      modifies this
      ensures Invariant(Now()) && Now() == Run(old(Now()), events)
    {
      var i := 0;
      while i < |events|
        invariant 0 <= i <= |events|
        invariant Invariant(Now()) && EnabledRun(Now(), events[i..])
        invariant Run(Now(), events[i..]) == Run(old(Now()), events)
      {
        var e := events[i];
        assert events[i..][0] == e && events[i..][1..] == events[i + 1..];
        InvariantKept(Now(), e);
        match e {
          case Accept(id) => OnAccept(id);
          case Complete(id) => var w := CompleteCommand(id);
          case Resume(id) => var w := AfterYield(id);
        }
        i := i + 1;
      }
    }
  }

  /** A fresh device under any schedule. The counter of notifications that the device itself
      keeps never exceeds the number of completions, and with no handler left nothing is
      waiting for a notification. */
  method ServeAll(events: seq<Event>) returns (device: Device)
    requires EnabledRun(INITIAL, events)
    ensures fresh(device) && device.Now() == Run(INITIAL, events) && Invariant(device.Now())
    ensures device.notifications <= |device.completed|
    ensures device.handlers == map[] ==>
              device.flushed == device.completed && device.aioPendingWakeups == 0 && device.inflight == 0
  {
    device := new Device();
    device.Schedule(events);
    if device.handlers == map[] {
      QuietDeviceIsFlushed(device.Now());
    }
  }

  // ---------- runs ----------

  ghost predicate EnabledRun(s: State, es: seq<Event>)
    decreases |es|
  {
    |es| == 0 || (Enabled(s, es[0]) && EnabledRun(Next(s, es[0]), es[1..]))
  }

  ghost function Run(s: State, es: seq<Event>): State
    decreases |es|
  {
    if |es| == 0 then s else Run(Next(s, es[0]), es[1..])
  }

  ghost function InFlushLoop(s: State): set<Id> {
    set id | id in s.handlers && s.handlers[id] == Flushing
  }

  ghost function Unflushed(s: State): set<Id> {
    s.completed - s.flushed
  }

  /** What holds at every yield point: at most one handler is in the flush loop; while one is
      there, the counter exceeds the number of unflushed completions by one; while none is, the
      counter is zero and nothing is unflushed. */
  ghost predicate Invariant(s: State) {
    && s.flushed <= s.completed
    && s.inflight == |s.handlers|
    && (forall id :: id in s.handlers && s.handlers[id] == Working ==> id !in s.completed)
    && |InFlushLoop(s)| <= 1
    && s.pending == (if InFlushLoop(s) == {} then 0 else |Unflushed(s)| + 1)
    && (InFlushLoop(s) == {} ==> Unflushed(s) == {})
    && s.flushes + |Unflushed(s)| <= |s.completed|
  }

  lemma HandlersCounted(s: State, id: Id)
    requires Invariant(s) && id in s.handlers
    ensures s.inflight > 0
  {
  }

  lemma InitialInvariant()
    ensures Invariant(INITIAL)
  {
  }

  lemma InvariantKept(s: State, e: Event)
    requires Invariant(s) && Enabled(s, e)
    ensures Invariant(Next(s, e))
  {
    match e
    case Accept(id) => AcceptKeeps(s, id);
    case Complete(id) => CompleteKeeps(s, id);
    case Resume(id) => ResumeKeeps(s, id);
  }

  lemma AcceptKeeps(s: State, id: Id)
    requires Invariant(s) && Enabled(s, Accept(id))
    ensures Invariant(Next(s, Accept(id)))
  {
    var t := Next(s, Accept(id));
    assert t.handlers.Keys == s.handlers.Keys + {id};
    assert InFlushLoop(t) == InFlushLoop(s);
  }

  lemma CompleteKeeps(s: State, id: Id)
    requires Invariant(s) && Enabled(s, Complete(id))
    ensures Invariant(Next(s, Complete(id)))
  {
    var t := Next(s, Complete(id));
    if s.pending == 0 {
      assert t.handlers.Keys == s.handlers.Keys;
      assert InFlushLoop(t) == {id};
      assert Unflushed(t) == {};
    } else {
      assert t.handlers.Keys == s.handlers.Keys - {id};
      assert InFlushLoop(t) == InFlushLoop(s);
      assert Unflushed(t) == Unflushed(s) + {id};
    }
  }

  lemma ResumeKeeps(s: State, id: Id)
    requires Invariant(s) && Enabled(s, Resume(id))
    ensures Invariant(Next(s, Resume(id)))
  {
    var t := Next(s, Resume(id));
    OnlyOne(InFlushLoop(s), id);
    if s.pending > 1 {
      assert Unflushed(t) == {};
      assert InFlushLoop(t) == InFlushLoop(s);
    } else {
      assert t.handlers.Keys == s.handlers.Keys - {id};
      assert InFlushLoop(t) == {};
      assert Unflushed(t) == Unflushed(s);
    }
  }

  lemma OnlyOne(ids: set<Id>, id: Id)
    requires id in ids && |ids| <= 1
    ensures ids == {id}
  {
    assert |ids - {id}| == 0;
  }

  /** The invariant holds after every run from a state in which it holds. */
  lemma {:induction false} InvariantAlways(s: State, es: seq<Event>)
    requires Invariant(s) && EnabledRun(s, es)
    ensures Invariant(Run(s, es))
    decreases |es|
  {
    if |es| > 0 {
      InvariantKept(s, es[0]);
      InvariantAlways(Next(s, es[0]), es[1..]);
    }
  }

  /** So it holds at every yield point of every run from a fresh device. */
  lemma FreshRunsKeepInvariant(es: seq<Event>, k: nat)
    requires EnabledRun(INITIAL, es) && k <= |es|
    ensures EnabledRun(INITIAL, es[..k]) && Invariant(Run(INITIAL, es[..k]))
  {
    InitialInvariant();
    EnabledPrefix(INITIAL, es, k);
    InvariantAlways(INITIAL, es[..k]);
  }

  lemma {:induction false} EnabledPrefix(s: State, es: seq<Event>, k: nat)
    requires EnabledRun(s, es) && k <= |es|
    ensures EnabledRun(s, es[..k])
    decreases k
  {
    if k > 0 {
      EnabledPrefix(Next(s, es[0]), es[1..], k - 1);
      assert es[..k][1..] == es[1..][..k - 1];
    }
  }

  /** With no handler left, every completed command has been notified and both counters are
      back at zero. */
  lemma QuietDeviceIsFlushed(s: State)
    requires Invariant(s) && s.handlers == map[]
    ensures s.pending == 0 && s.inflight == 0 && s.flushed == s.completed
  {
    assert InFlushLoop(s) == {};
  }

  lemma {:induction false} HistoryGrows(s: State, es: seq<Event>)
    requires Invariant(s) && EnabledRun(s, es)
    ensures s.completed <= Run(s, es).completed && s.flushed <= Run(s, es).flushed
    decreases |es|
  {
    if |es| > 0 {
      InvariantKept(s, es[0]);
      HistoryGrows(Next(s, es[0]), es[1..]);
    }
  }

  /** Event k of the run notifies the kernel. */
  ghost predicate FlushAt(s: State, es: seq<Event>, k: nat)
    requires k < |es|
  {
    Run(s, es[..k + 1]).flushes > Run(s, es[..k]).flushes
  }

  lemma FlushFirst(s: State, es: seq<Event>, id: Id)
    requires 0 < |es| && Enabled(s, es[0]) && id !in s.flushed && id in Next(s, es[0]).flushed
    ensures FlushAt(s, es, 0)
    ensures id !in Run(s, es[..0]).flushed && id in Run(s, es[..1]).flushed
  {
    assert es[..1] == [es[0]] && es[..1][1..] == [] && es[..0] == [];
    assert Run(s, es[..1]) == Next(s, es[0]);
  }

  lemma FlushLater(s: State, es: seq<Event>, j: nat)
    requires j + 1 < |es| && FlushAt(Next(s, es[0]), es[1..], j)
    ensures FlushAt(s, es, j + 1)
    ensures Run(s, es[..j + 2]) == Run(Next(s, es[0]), es[1..][..j + 1])
    ensures Run(s, es[..j + 1]) == Run(Next(s, es[0]), es[1..][..j])
  {
    assert es[..j + 2][1..] == es[1..][..j + 1];
    assert es[..j + 1][1..] == es[1..][..j];
  }

  lemma {:induction false} NewlyFlushed(s: State, es: seq<Event>, id: Id) returns (k: nat)
    requires Invariant(s) && EnabledRun(s, es)
    requires id !in s.flushed && id in Run(s, es).flushed
    ensures k < |es| && FlushAt(s, es, k)
    ensures id !in Run(s, es[..k]).flushed && id in Run(s, es[..k + 1]).flushed
    decreases |es|
  {
    if |es| == 0 {
      assert false;
    } else {
      var t := Next(s, es[0]);
      if id in t.flushed {
        FlushFirst(s, es, id);
        k := 0;
      } else {
        InvariantKept(s, es[0]);
        var rest := es[1..];
        assert Run(s, es) == Run(t, rest);
        var j := NewlyFlushed(t, rest, id);
        FlushLater(s, es, j);
        k := j + 1;
        assert es[..k + 1] == es[..j + 2] && es[..k] == es[..j + 1];
      }
    }
  }

  /** No lost wake-up: between the completion of a command and any later point at which the
      counter is zero there is an event that notifies the kernel, and with it the kernel learns of
      the command. */
  lemma NoLostWakeup(s: State, id: Id, es: seq<Event>) returns (k: nat)
    requires Invariant(s) && Enabled(s, Complete(id)) && EnabledRun(s, [Complete(id)] + es)
    requires Run(s, [Complete(id)] + es).pending == 0
    ensures id in Run(s, [Complete(id)] + es).flushed
    ensures k < 1 + |es| && FlushAt(s, [Complete(id)] + es, k)
    ensures id in Run(s, ([Complete(id)] + es)[..k + 1]).flushed
  {
    var all := [Complete(id)] + es;
    var last := Run(s, all);
    assert all[0] == Complete(id) && all[1..] == es;
    InvariantAlways(s, all);
    InvariantKept(s, Complete(id));
    HistoryGrows(Next(s, Complete(id)), es);
    assert id in last.completed && Unflushed(last) == {};
    assert id in last.flushed;
    k := NewlyFlushed(s, all, id);
  }

  /** The notifying handler alone brings everything to rest in at most two of its turns. */
  lemma FlusherDrains(s: State, id: Id)
    requires Invariant(s) && Enabled(s, Resume(id))
    ensures var t := Next(s, Resume(id));
            && t.flushed == t.completed
            && (s.pending == 1 ==> t.pending == 0 && id !in t.handlers)
            && (s.pending > 1 ==> Enabled(t, Resume(id)) && Next(t, Resume(id)).pending == 0)
  {
    OnlyOne(InFlushLoop(s), id);
    if s.pending == 1 {
      assert Unflushed(s) == {};
    }
  }

  lemma {:induction false} RunAppend(s: State, es: seq<Event>, e: Event)
    requires EnabledRun(s, es + [e])
    ensures EnabledRun(s, es) && Enabled(Run(s, es), e) && Run(s, es + [e]) == Next(Run(s, es), e)
    decreases |es|
  {
    if |es| == 0 {
      assert es + [e] == [e] && [e][1..] == [];
    } else {
      assert (es + [e])[0] == es[0] && (es + [e])[1..] == es[1..] + [e];
      RunAppend(Next(s, es[0]), es[1..], e);
    }
  }

  /** Whenever the notifying handler gets its turn, whatever happened in between, the kernel has
      learned of everything completed before. */
  lemma FlusherTurnCovers(s: State, es: seq<Event>, flusher: Id)
    requires Invariant(s) && EnabledRun(s, es + [Resume(flusher)])
    ensures s.completed <= Run(s, es + [Resume(flusher)]).flushed
  {
    RunAppend(s, es, Resume(flusher));
    InvariantAlways(s, es);
    HistoryGrows(s, es);
    FlusherDrains(Run(s, es), flusher);
  }

  // ---------- coalescing ----------

  /** When the kernel is notified: by a completion exactly if no handler is in the flush loop, and
      by a turn of the one that is there exactly if something was completed meanwhile. Then it
      learns of everything completed; otherwise of nothing. The handler is in the flush loop
      afterwards exactly if it has just notified. */
  lemma NotifiesExactly(s: State, e: Event)
    requires Invariant(s) && Enabled(s, e)
    ensures var t := Next(s, e);
            var notifies := match e
              case Accept(id) => false
              case Complete(id) => forall h :: h in s.handlers ==> s.handlers[h] == Working
              case Resume(id) => exists c :: c in s.completed && c !in s.flushed;
            && t.flushes == s.flushes + (if notifies then 1 else 0)
            && t.flushed == (if notifies then t.completed else s.flushed)
            && t.completed == (if e.Complete? then s.completed + {e.id} else s.completed)
            && (e.Accept? || (e.id in t.handlers <==> notifies))
            && (forall h :: h != e.id ==> (h in t.handlers <==> h in s.handlers))
            && (forall h :: h != e.id && h in s.handlers ==> t.handlers[h] == s.handlers[h])
  {
    match e
    case Accept(id) =>
    case Complete(id) =>
      AllWorking(s);
    case Resume(id) =>
      assert id in InFlushLoop(s);
      SomeUnflushed(s);
  }

  lemma AllWorking(s: State)
    ensures InFlushLoop(s) == {} <==> forall h :: h in s.handlers ==> s.handlers[h] == Working
  {
    forall h | h in s.handlers && s.handlers[h] != Working
      ensures InFlushLoop(s) != {}
    {
      assert h in InFlushLoop(s);
    }
  }

  lemma SomeUnflushed(s: State)
    ensures |Unflushed(s)| > 0 <==> exists c :: c in s.completed && c !in s.flushed
  {
    if exists c :: c in s.completed && c !in s.flushed {
      var c :| c in s.completed && c !in s.flushed;
      assert c in Unflushed(s);
    } else {
      assert Unflushed(s) == {};
    }
  }

  ghost predicate NoTurn(es: seq<Event>) {
    forall i :: 0 <= i < |es| ==> !es[i].Resume?
  }

  /** Coalescing: while the notifying handler does not get its turn, no number of completions
      notifies again; and a run without such turns notifies at most once. */
  lemma {:induction false} Coalesces(s: State, es: seq<Event>)
    requires Invariant(s) && EnabledRun(s, es) && NoTurn(es)
    ensures Run(s, es).flushes <= s.flushes + 1
    ensures InFlushLoop(s) != {} ==>
              && Run(s, es).flushes == s.flushes && Run(s, es).flushed == s.flushed
              && InFlushLoop(Run(s, es)) != {}
    decreases |es|
  {
    if |es| > 0 {
      var t := Next(s, es[0]);
      InvariantKept(s, es[0]);
      NotifiesExactly(s, es[0]);
      assert !es[0].Resume?;
      StillInLoop(s, es[0]);
      Coalesces(t, es[1..]);
    }
  }

  lemma StillInLoop(s: State, e: Event)
    requires Invariant(s) && Enabled(s, e) && !e.Resume?
    ensures InFlushLoop(s) != {} ==> InFlushLoop(Next(s, e)) != {} && Next(s, e).flushes == s.flushes
    ensures InFlushLoop(s) != {} ==> Next(s, e).flushed == s.flushed
    ensures Next(s, e).flushes > s.flushes ==> InFlushLoop(Next(s, e)) != {}
  {
    NotifiesExactly(s, e);
    var t := Next(s, e);
    if InFlushLoop(s) != {} {
      var h :| h in InFlushLoop(s);
      assert h != e.id && t.handlers[h] == Flushing;
      assert h in InFlushLoop(t);
      assert s.handlers[h] != Working;
    } else if t.flushes > s.flushes {
      assert e.Complete? && e.id in InFlushLoop(t);
    }
  }
}
