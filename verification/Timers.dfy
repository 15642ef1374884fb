/** Relative timers: starting, stopping and restarting keep the heap of active timers, and
    `timers_reify` makes every due timer pending, in expiry order. */
module Timers {
  import opened Sequences
  import opened TimerHeap
  import opened Dispatch

  const EV_TIMER: Events := {8}   // the mask 0x100

  /** When a timer expires next, once it has been made pending. */
  function NextAt(at: real, repeat: real, now: real): real
  {
    if repeat == 0.0 then at - now else if at + repeat < now then now else at + repeat
  }

  /** The time of a repeating timer that has expired once at each of `nows`. */
  function TimeAfter(at: real, repeat: real, nows: seq<real>): real
    decreases |nows|
  {
    if nows == [] then at else TimeAfter(NextAt(at, repeat, nows[0]), repeat, nows[1..])
  }

  /** The k-th time after the first one. */
  function Scheduled(at: real, repeat: real, k: nat): real { at + repeat * k as real }

  lemma ScheduledNext(at: real, repeat: real, k: nat)
    ensures Scheduled(at, repeat, k + 1) == Scheduled(at + repeat, repeat, k) == Scheduled(at, repeat, k) + repeat
  {
    assert repeat * (k + 1) as real == repeat * k as real + repeat;
  }

  lemma LaterSchedule(at: real, b: real, repeat: real, k: nat)
    requires at < b
    ensures Scheduled(at, repeat, k) < Scheduled(b, repeat, k)
  {
  }

  /** A repeating timer never runs ahead of its first time plus multiples of its repeat value,
      and is on that schedule exactly if it was never late by more than the repeat value. */
  lemma {:induction false} OnSchedule(at: real, repeat: real, nows: seq<real>)
    requires repeat > 0.0
    ensures TimeAfter(at, repeat, nows) >= Scheduled(at, repeat, |nows|)
    ensures TimeAfter(at, repeat, nows) == Scheduled(at, repeat, |nows|)
      <==> forall k | 0 <= k < |nows| :: nows[k] <= Scheduled(at, repeat, k) + repeat
    decreases |nows|
  {
    if nows != [] {
      var next, rest := NextAt(at, repeat, nows[0]), nows[1..];
      OnSchedule(next, repeat, rest);
      ScheduledNext(at, repeat, |rest|);
      if next > at + repeat {
        LaterSchedule(at + repeat, next, repeat, |rest|);
      } else {
        forall k | 0 <= k < |rest|
          ensures nows[k + 1] <= Scheduled(at, repeat, k + 1) + repeat
             <==> rest[k] <= Scheduled(next, repeat, k) + repeat
        {
          ScheduledNext(at, repeat, k);
        }
        assert forall k | 0 < k < |nows| :: nows[k] == rest[k - 1];
      }
    }
  }

  /** The timers of a program: their expiry and repeat times, and which of them are started. */
  datatype Book = Book(at: map<TimeWatcher, real>, repeat: map<TimeWatcher, real>, active: set<TimeWatcher>) {
    ghost predicate Ok() { active <= at.Keys && at.Keys == repeat.Keys }

    /** The timers that stop when they expire. */
    ghost function Once(): set<TimeWatcher> { set w | w in repeat && repeat[w] == 0.0 }

    ghost function Due(now: real): set<TimeWatcher>
      requires Ok()
    {
      set w | w in active && at[w] < now
    }

    /** One round of timers_reify takes the timer w. */
    ghost function Expired(w: TimeWatcher, now: real): Book
      requires Ok() && w in active
    {
      Book(at[w := NextAt(at[w], repeat[w], now)], repeat, if repeat[w] == 0.0 then active - {w} else active)
    }
  }

  /** The book after the timers in `fed` have been rescheduled or stopped. */
  ghost function AfterFiring(b: Book, fed: seq<TimeWatcher>, now: real): (r: Book)
    requires b.Ok()
    ensures r.Ok() && r.repeat == b.repeat
  {
    Book(map w | w in b.at :: if w in fed then NextAt(b.at[w], b.repeat[w], now) else b.at[w],
         b.repeat,
         set w | w in b.active && !(w in fed && b.repeat[w] == 0.0))
  }

  /** `fed` lists due watchers once each, earliest first, and no active watcher outside it is
      earlier than one in it. */
  ghost predicate InExpiryOrder(at: map<TimeWatcher, real>, active: set<TimeWatcher>, fed: seq<TimeWatcher>, now: real)
  {
    && active <= at.Keys
    && AllDifferent(fed)
    && (forall i | 0 <= i < |fed| :: fed[i] in active && at[fed[i]] < now)
    && (forall i, j | 0 <= i < j < |fed| :: at[fed[i]] <= at[fed[j]])
    && (forall i, v | 0 <= i < |fed| && v in active && v !in fed :: at[fed[i]] <= at[v])
  }

  ghost predicate Fired(before: Book, fed: seq<TimeWatcher>, after: Book, now: real)
  {
    before.Ok() && InExpiryOrder(before.at, before.active, fed, now) && after == AfterFiring(before, fed, now)
  }

  lemma FiredBook(b: Book, fed: seq<TimeWatcher>, now: real, w: TimeWatcher)
    requires b.Ok() && w in b.active && w !in fed
    ensures w in AfterFiring(b, fed, now).active
    ensures AfterFiring(b, fed + [w], now) == AfterFiring(b, fed, now).Expired(w, now)
  {
    var x, y := AfterFiring(b, fed + [w], now), AfterFiring(b, fed, now).Expired(w, now);
    assert x.at == y.at && x.active == y.active;
  }

  lemma FiredStep(before: Book, fed: seq<TimeWatcher>, after: Book, now: real, w: TimeWatcher)
    requires Fired(before, fed, after, now)
    requires forall v | v in before.repeat :: before.repeat[v] >= 0.0
    requires w in after.active && after.at[w] < now && forall v | v in after.active :: after.at[w] <= after.at[v]
    ensures w !in fed && w in before.active
    ensures Fired(before, fed + [w], after.Expired(w, now), now)
  {
    assert forall v | v in fed :: v in after.active ==> after.at[v] >= now;
    FiredBook(before, fed, now, w);
    assert forall v | v in before.active && v !in fed :: v in after.active && after.at[v] == before.at[v];
  }

  lemma FiredAll(before: Book, fed: seq<TimeWatcher>, after: Book, now: real)
    requires Fired(before, fed, after, now) && after.Due(now) == {}
    ensures before.Due(now) == Range(fed)
  {
    assert forall w | w in before.active && w !in fed :: w in after.active && after.at[w] == before.at[w];
    assert forall w | w in after.active :: after.at[w] < now ==> w in after.Due(now);
  }

  ghost function Range(fed: seq<TimeWatcher>): set<TimeWatcher> { set w | w in fed }

  lemma RangeStep(active: set<TimeWatcher>, fed: seq<TimeWatcher>, w: TimeWatcher)
    requires w !in fed && w in active
    ensures active - Range(fed + [w]) < active - Range(fed)
  {
    assert w in active - Range(fed) && w !in active - Range(fed + [w]);
  }

  function BasesOf(fed: seq<TimeWatcher>): (r: seq<Watcher>)
    ensures |r| == |fed| && forall i | 0 <= i < |r| :: r[i] == fed[i].base
  {
    seq(|fed|, i requires 0 <= i < |fed| => fed[i].base)
  }

  /** The pending parts of those in `fed` that are stopped rather than rescheduled, in order. */
  ghost function Stopped(fed: seq<TimeWatcher>, once: set<TimeWatcher>): seq<Watcher>
  {
    if fed == [] then []
    else
      var n := |fed| - 1;
      Stopped(fed[..n], once) + if fed[n] in once then [fed[n].base] else []
  }

  /** What became of the pending events: those of the stopped watchers are cleared. */
  ghost predicate ClearedOnly(queues: Queues, fed: seq<TimeWatcher>, view: Stacks, once: set<TimeWatcher>)
    reads queues
  {
    var stopped := Stopped(fed, once);
    InRange(stopped) && |queues.pendings| == NUMPRI && queues.View() == ClearedAll(view, stopped)
  }

  lemma ClearedStep(fed: seq<TimeWatcher>, view: Stacks, once: set<TimeWatcher>, w: TimeWatcher)
    requires InRange(Stopped(fed, once)) && w.base.priority < NUMPRI
    ensures
      var before, after := Stopped(fed, once), Stopped(fed + [w], once);
      && InRange(after)
      && ClearedAll(view, after)
         == if w in once then After(ClearedAll(view, before), Clear(w.base)) else ClearedAll(view, before)
  {
    assert (fed + [w])[..|fed|] == fed;
    var before, after := Stopped(fed, once), Stopped(fed + [w], once);
    if w in once {
      assert after == before + [w.base] && after[..|before|] == before;
    } else {
      assert after == before;
    }
  }

  // ---------- The order of the callbacks ----------

  /** No two timers share their pending part. */
  ghost predicate Separate(ws: set<TimeWatcher>)
  {
    forall v, w | v in ws && w in ws && v.base == w.base :: v == w
  }

  /** The timers of one priority. */
  ghost function Among(fed: seq<TimeWatcher>, p: nat): seq<TimeWatcher>
  {
    if fed == [] then [] else (if fed[0].base.priority == p then [fed[0]] else []) + Among(fed[1..], p)
  }

  /** Different timers, the earliest first. */
  ghost predicate Ascending(s: seq<TimeWatcher>, at: map<TimeWatcher, real>)
  {
    && AllDifferent(s) && (forall i | 0 <= i < |s| :: s[i] in at)
    && (forall i, j | 0 <= i < j < |s| :: at[s[i]] <= at[s[j]])
  }

  lemma {:induction false} AmongMembers(fed: seq<TimeWatcher>, p: nat)
    ensures OfPriority(BasesOf(fed), p) == BasesOf(Among(fed, p))
    ensures forall w :: w in Among(fed, p) <==> w in fed && w.base.priority == p
  {
    if fed != [] {
      assert BasesOf(fed)[1..] == BasesOf(fed[1..]) && fed == [fed[0]] + fed[1..];
      AmongMembers(fed[1..], p);
    }
  }

  lemma {:induction false} AmongAscending(fed: seq<TimeWatcher>, at: map<TimeWatcher, real>, p: nat)
    requires Ascending(fed, at)
    ensures Ascending(Among(fed, p), at)
  {
    if fed != [] {
      AmongAscending(fed[1..], at, p);
      AmongMembers(fed[1..], p);
      FirstIsFirst(fed, at);
      if fed[0].base.priority == p { AscendingCons(fed[0], Among(fed[1..], p), at); }
    }
  }

  lemma FirstIsFirst(fed: seq<TimeWatcher>, at: map<TimeWatcher, real>)
    requires Ascending(fed, at) && fed != []
    ensures forall w | w in fed[1..] :: w in at && w != fed[0] && at[fed[0]] <= at[w]
  {
    forall w | w in fed[1..] ensures w in at && w != fed[0] && at[fed[0]] <= at[w] {
      var j :| 0 <= j < |fed[1..]| && fed[1..][j] == w;
      assert fed[j + 1] == w;
    }
  }

  lemma AscendingCons(first: TimeWatcher, rest: seq<TimeWatcher>, at: map<TimeWatcher, real>)
    requires Ascending(rest, at) && first in at && forall w | w in rest :: w in at && w != first && at[first] <= at[w]
    ensures Ascending([first] + rest, at)
  {
    assert forall i | 0 <= i < |rest| :: rest[i] in rest;
  }

  ghost predicate PartOf(b: Watcher, ws: set<TimeWatcher>) { exists w | w in ws :: w.base == b }

  /** The watchers called are pending parts of due ones, each at most once, in nondecreasing
      order of expiry. */
  ghost predicate RunsInOrder(called: seq<Watcher>, at: map<TimeWatcher, real>, due: set<TimeWatcher>)
  {
    && due <= at.Keys && AllDifferent(called)
    && (forall i | 0 <= i < |called| :: PartOf(called[i], due))
    && (forall i, j, v, w
          | 0 <= i < j < |called| && v in due && w in due && v.base == called[i] && w.base == called[j]
          :: at[v] <= at[w])
  }

  /** The callback of every due one has run, unless another callback has cleared its event. */
  ghost predicate RunsAll(trace: seq<Step>, due: set<TimeWatcher>)
  {
    forall w | w in due :: w.base in CalledOf(trace, w.base.priority) || Clear(w.base) in trace
  }

  /** What a drain with such callbacks does after the due ones were fed. */
  ghost predicate RunsDue(trace: seq<Step>, script: seq<seq<Act>>, at: map<TimeWatcher, real>, due: set<TimeWatcher>)
  {
    && NoFeeds(trace) && (ClearsNone(script) ==> NoClears(trace))
    && (forall p | 0 <= p < NUMPRI :: RunsInOrder(CalledOf(trace, p), at, due))
    && RunsAll(trace, due)
  }

  lemma AscendingRuns(ran: seq<TimeWatcher>, at: map<TimeWatcher, real>, due: set<TimeWatcher>)
    requires Ascending(ran, at) && Separate(at.Keys) && due <= at.Keys
    requires forall w | w in ran :: w in due
    ensures RunsInOrder(BasesOf(ran), at, due)
  {
    var called := BasesOf(ran);
    forall i | 0 <= i < |called| ensures ran[i] in due && ran[i].base == called[i] {
      assert ran[i] in ran;
    }
    forall i, w | 0 <= i < |ran| && w in due && w.base == called[i] ensures w == ran[i] {
      assert ran[i] in due;
    }
    forall i, j | 0 <= i < j < |called| ensures called[i] != called[j] {
      assert ran[i] != ran[j];
    }
    forall i | 0 <= i < |called| ensures PartOf(called[i], due) {
      assert ran[i] in due && ran[i].base == called[i];
    }
  }

  /** The timers behind some of the pending parts of a list. */
  lemma {:induction false} Picked(called: seq<Watcher>, ran: seq<TimeWatcher>, at: map<TimeWatcher, real>)
    returns (picked: seq<TimeWatcher>)
    requires Subsequence(called, BasesOf(ran)) && Ascending(ran, at)
    ensures called == BasesOf(picked) && Ascending(picked, at) && forall w | w in picked :: w in ran
    decreases |ran|
  {
    if called == [] {
      picked := [];
    } else {
      var bases, rest := BasesOf(ran), ran[1..];
      assert bases[1..] == BasesOf(rest) && bases[0] == ran[0].base && ran == [ran[0]] + rest;
      FirstIsFirst(ran, at);
      if called[0] == bases[0] && Subsequence(called[1..], bases[1..]) {
        var later := Picked(called[1..], rest, at);
        picked := [ran[0]] + later;
        AscendingCons(ran[0], later, at);
        assert called == [called[0]] + called[1..];
      } else {
        picked := Picked(called, rest, at);
      }
    }
  }

  /** When those in `fed` are fed in expiry order and nothing else is pending, callbacks that
      feed nothing run in that order, and all of them but those that are cleared. */
  lemma FedRunInOrder(at: map<TimeWatcher, real>, fed: seq<TimeWatcher>, events: Events, script: seq<seq<Act>>, p: nat)
    requires Ascending(fed, at) && Separate(at.Keys) && Range(fed) <= at.Keys && p < NUMPRI
    requires InRange(BasesOf(fed)) && ScriptOk(script) && FeedsNone(script)
    ensures StacksOk(FedBackwards(NonePending(), BasesOf(fed), events))
    ensures
      var trace := Drained(FedBackwards(NonePending(), BasesOf(fed), events), script).trace;
      && RunsInOrder(CalledOf(trace, p), at, Range(fed))
      && (forall w | w in fed && w.base.priority == p :: w.base in CalledOf(trace, p) || Clear(w.base) in trace)
  {
    var bases, ran := BasesOf(fed), Among(fed, p);
    DifferentBases(fed, at);
    FedBackwardsCalledForwards(bases, events, script, p);
    AmongMembers(fed, p);
    AmongAscending(fed, at, p);
    var trace := Drained(FedBackwards(NonePending(), bases, events), script).trace;
    var picked := Picked(CalledOf(trace, p), ran, at);
    AscendingRuns(picked, at, Range(fed));
    forall w | w in fed && w.base.priority == p ensures w.base in CalledOf(trace, p) || Clear(w.base) in trace {
      var i :| 0 <= i < |ran| && ran[i] == w;
      assert BasesOf(ran)[i] == w.base;
    }
  }

  lemma DifferentBases(fed: seq<TimeWatcher>, at: map<TimeWatcher, real>)
    requires Ascending(fed, at) && Separate(at.Keys)
    ensures AllDifferent(BasesOf(fed))
  {
    assert forall i | 0 <= i < |fed| :: BasesOf(fed)[i] == fed[i].base && fed[i] in at;
  }

  /** Watchers that are fed in expiry order when nothing was pending are called in that order,
      whatever the callbacks do but feed. */
  lemma ExpiredRunInOrder(at: map<TimeWatcher, real>, active: set<TimeWatcher>, fed: seq<TimeWatcher>, now: real,
                          once: set<TimeWatcher>, view: Stacks, events: Events, script: seq<seq<Act>>)
    requires InExpiryOrder(at, active, fed, now) && Separate(at.Keys) && AllEmpty(view)
    requires InRange(BasesOf(fed)) && InRange(Stopped(fed, once)) && ScriptOk(script) && FeedsNone(script)
    ensures StacksOk(FedBackwards(ClearedAll(view, Stopped(fed, once)), BasesOf(fed), events))
    ensures
      var s := FedBackwards(ClearedAll(view, Stopped(fed, once)), BasesOf(fed), events);
      RunsDue(Drained(s, script).trace, script, at, Range(fed))
  {
    assert view == NonePending();
    ClearedAbsent(view, Stopped(fed, once));
    var s := FedBackwards(view, BasesOf(fed), events);
    FedBackwardsOk(view, BasesOf(fed), events);
    DrainObeys(s, script);
    assert Ascending(fed, at);
    forall p | 0 <= p < NUMPRI
      ensures RunsInOrder(CalledOf(Drained(s, script).trace, p), at, Range(fed))
      ensures forall w | w in fed && w.base.priority == p ::
        w.base in CalledOf(Drained(s, script).trace, p) || Clear(w.base) in Drained(s, script).trace
    {
      FedRunInOrder(at, fed, events, script, p);
    }
    forall w | w in Range(fed)
      ensures w.base in CalledOf(Drained(s, script).trace, w.base.priority) || Clear(w.base) in Drained(s, script).trace
    {
      var i :| 0 <= i < |fed| && fed[i] == w;
      assert BasesOf(fed)[i] == w.base;
    }
  }

  class TimerLoop {
    const timers: TimeHeap
    var mnNow: real
    var activecnt: int
    const queues: Queues

    ghost predicate TimersOk()
      reads this, timers, timers.heap, timers.ws
    {
      timers.Valid() && forall w | w in timers.ws :: w.repeat >= 0.0
    }

    ghost predicate QueuesOk()
      reads queues, queues.ws, queues.pendingW
    {
      queues.Valid() && BasesOk()
    }

    /** The pending parts of the timers are watchers of the program, each the part of one timer. */
    ghost predicate BasesOk()
    {
      Separate(timers.ws) && forall w | w in timers.ws :: w.base in queues.ws
    }

    ghost predicate Valid()
      reads this, timers, timers.heap, timers.ws, queues, queues.ws, queues.pendingW
    {
      TimersOk() && QueuesOk()
    }

    constructor (heap: TimeHeap, pending: Queues)
      requires heap.Valid() && pending.Valid() && forall w | w in heap.ws :: w.base in pending.ws && w.repeat >= 0.0
      requires Separate(heap.ws)
      ensures Valid() && timers == heap && queues == pending
    {
      timers, queues, mnNow, activecnt := heap, pending, 0.0, 0;
    }

    /** ev_timer_start */
    method TimerStart(w: TimeWatcher)
      requires TimersOk() && w in timers.ws
      modifies this`activecnt, timers, timers.heap, timers.ws`active, w`at
      ensures TimersOk() && (timers.heap == old(timers.heap) || fresh(timers.heap))
      ensures timers.Active() == old(timers.Active()) + {w}
      ensures w.at == if old(w.active) != 0 then old(w.at) else old(w.at) + mnNow
      ensures activecnt == old(activecnt) + if old(w.active) != 0 then 0 else 1
    {
      if w.active != 0 {
        return;
      }
      w.at := w.at + mnNow;
      activecnt := activecnt + 1;
      timers.Start(w);
    }

    /** The part of ev_timer_stop that follows clear_pending. */
    method Unlink(w: TimeWatcher)
      requires TimersOk() && w in timers.ws
      modifies this`activecnt, timers, timers.heap, timers.ws`active, w`at
      ensures TimersOk() && timers.heap == old(timers.heap)
      ensures timers.Active() == old(timers.Active()) - {w}
      ensures w.at == if old(w.active) != 0 then old(w.at) - mnNow else old(w.at)
      ensures activecnt == old(activecnt) - if old(w.active) != 0 then 1 else 0
    {
      if w.active == 0 {
        return;
      }
      timers.Stop(w);
      w.at := w.at - mnNow;
      activecnt := activecnt - 1;
    }

    /** ev_timer_stop */
    method TimerStop(w: TimeWatcher)
      requires Valid() && w in timers.ws
      modifies this`activecnt, timers, timers.heap, timers.ws`active, w`at, queues`pendings, w.base
      ensures Valid() && timers.heap == old(timers.heap)
      ensures timers.Active() == old(timers.Active()) - {w}
      ensures w.at == if old(w.active) != 0 then old(w.at) - mnNow else old(w.at)
      ensures activecnt == old(activecnt) - if old(w.active) != 0 then 1 else 0
      ensures queues.View() == After(old(queues.View()), Clear(w.base)) && w.base.pending == 0
    {
      var _ := queues.ClearPending(w.base);
      Unlink(w);
    }

    /** The part of ev_timer_again that follows clear_pending. */
    method Restart(w: TimeWatcher)
      requires TimersOk() && w in timers.ws
      modifies this`activecnt, timers, timers.heap, timers.ws`active, w`at
      ensures TimersOk() && (timers.heap == old(timers.heap) || fresh(timers.heap))
      ensures timers.Active() == if w.repeat != 0.0 then old(timers.Active()) + {w} else old(timers.Active()) - {w}
      ensures w.at == if w.repeat != 0.0 then mnNow + w.repeat
                      else if old(w.active) != 0 then old(w.at) - mnNow else old(w.at)
    {
      if w.active != 0 {
        if w.repeat != 0.0 {
          timers.Reschedule(w, mnNow + w.repeat);
        } else {
          Unlink(w);
        }
      } else if w.repeat != 0.0 {
        w.at := w.repeat;
        TimerStart(w);
      }
    }

    /** ev_timer_again */
    method TimerAgain(w: TimeWatcher)
      requires Valid() && w in timers.ws
      modifies this`activecnt, timers, timers.heap, timers.ws`active, w`at, queues`pendings, w.base
      ensures Valid() && (timers.heap == old(timers.heap) || fresh(timers.heap))
      ensures timers.Active() == if w.repeat != 0.0 then old(timers.Active()) + {w} else old(timers.Active()) - {w}
      ensures w.at == if w.repeat != 0.0 then mnNow + w.repeat
                      else if old(w.active) != 0 then old(w.at) - mnNow else old(w.at)
      ensures queues.View() == After(old(queues.View()), Clear(w.base)) && w.base.pending == 0
    {
      var _ := queues.ClearPending(w.base);
      Restart(w);
    }

    // ---------- Expiry ----------

    ghost function TheBook(): (b: Book)
      reads timers.ws
      ensures b.Ok()
    {
      Book(map w | w in timers.ws :: w.at, map w | w in timers.ws :: w.repeat, timers.Active())
    }

    /** A repeating timer is rescheduled, not earlier than now. */
    method Advance(w: TimeWatcher)
      requires TimersOk() && w in timers.Active() && w.repeat != 0.0
      modifies timers.heap, timers.ws`active, w`at
      ensures TimersOk() && timers.Active() == old(timers.Active())
      ensures w.at == NextAt(old(w.at), w.repeat, mnNow)
    {
      var at := w.at + w.repeat;
      if at < mnNow {
        at := mnNow;
      }
      timers.Reschedule(w, at);
    }

    /** The heap part of a round of timers_reify: the root is due; it is rescheduled or stopped. */
    method ExpireRoot(ghost book: Book, w: TimeWatcher)
      requires TimersOk() && timers.cnt > 0 && timers.heap[HEAP0].at < mnNow
      requires w == timers.heap[HEAP0].w && Records(book)
      modifies this`activecnt, timers, timers.heap, timers.ws`active, timers.ws`at
      ensures TimersOk() && timers.heap == old(timers.heap)
      ensures w in book.active && book.at[w] < mnNow && forall v | v in book.active :: book.at[w] <= book.at[v]
      ensures timers.Active() == if w.repeat != 0.0 then book.active else book.active - {w}
      ensures w.at == NextAt(book.at[w], w.repeat, mnNow) && forall v | v in timers.ws && v != w :: v.at == book.at[v]
    {
      timers.RootFirst();
      if w.repeat != 0.0 {
        Advance(w);
      } else {
        Unlink(w);
      }
    }

    /** Its pending part: stopping a timer clears its event. */
    method ClearStopped(w: TimeWatcher, ghost fed: seq<TimeWatcher>, ghost view: Stacks, ghost once: set<TimeWatcher>)
      requires QueuesOk() && w in timers.ws && ClearedOnly(queues, fed, view, once) && (w in once <==> w.repeat == 0.0)
      modifies queues`pendings, w.base
      ensures QueuesOk() && ClearedOnly(queues, fed + [w], view, once)
    {
      ClearedStep(fed, view, once, w);
      if w.repeat == 0.0 {
        var _ := queues.ClearPending(w.base);
      }
    }

    /** The book agrees with the timers. */
    ghost predicate Records(book: Book)
      reads timers.ws
    {
      && book.Ok() && book.at.Keys == timers.ws && book.active == timers.Active()
      && (forall v | v in timers.ws :: book.repeat[v] == v.repeat >= 0.0 && book.at[v] == v.at)
    }

    lemma Recorded(before: Book, fed: seq<TimeWatcher>, book: Book, w: TimeWatcher)
      requires Fired(before, fed, book, mnNow) && book.at.Keys == timers.ws
      requires forall v | v in timers.ws :: book.repeat[v] == v.repeat >= 0.0
      requires w in book.active && book.at[w] < mnNow && forall v | v in book.active :: book.at[w] <= book.at[v]
      requires timers.Active() == if w.repeat != 0.0 then book.active else book.active - {w}
      requires w.at == NextAt(book.at[w], w.repeat, mnNow) && forall v | v in timers.ws && v != w :: v.at == book.at[v]
      ensures w !in fed && w in before.active && Fired(before, fed + [w], TheBook(), mnNow)
    {
      var next := book.Expired(w, mnNow);
      assert next.at == TheBook().at && next.repeat == TheBook().repeat;
      FiredStep(before, fed, book, mnNow, w);
    }

    /** Since the book was `before`, exactly the timers in `fed` have been taken. */
    ghost predicate Taken(before: Book, fed: seq<TimeWatcher>)
      reads this, timers.ws
    {
      Fired(before, fed, TheBook(), mnNow)
    }

    /** The heap part of the round, in terms of the whole book. */
    method TakeRoot(w: TimeWatcher, ghost before: Book, ghost fed: seq<TimeWatcher>)
      requires TimersOk() && timers.cnt > 0 && timers.heap[HEAP0].at < mnNow && w == timers.heap[HEAP0].w
      requires Taken(before, fed)
      modifies this`activecnt, timers, timers.heap, timers.ws`active, timers.ws`at
      ensures TimersOk() && timers.heap == old(timers.heap)
      ensures w !in fed && w in before.active && Taken(before, fed + [w])
    {
      ghost var book := TheBook();
      ExpireRoot(book, w);
      Recorded(before, fed, book, w);
    }

    /** The round of timers_reify, with what it adds to rfeeds. */
    method Expire(ghost before: Book, fed: seq<TimeWatcher>, ghost view: Stacks)
      returns (w: TimeWatcher)
      requires Valid() && timers.cnt > 0 && timers.heap[HEAP0].at < mnNow
      requires Taken(before, fed) && ClearedOnly(queues, fed, view, before.Once())
      modifies this`activecnt, timers, timers.heap, timers.ws`active, timers.ws`at, queues`pendings, queues.ws
      ensures Valid() && timers.heap == old(timers.heap)
      ensures w !in fed && w in before.active
      ensures Taken(before, fed + [w]) && ClearedOnly(queues, fed + [w], view, before.Once())
    {
      timers.RootFirst();
      w := timers.heap[HEAP0].w;
      ClearStopped(w, fed, view, before.Once());
      label Cleared:
      TakeRoot(w, before, fed);
      assert queues.Valid() && old@Cleared(queues.Valid());
    }

    /** The loop of timers_reify, which fills rfeeds. */
    method Collect() returns (fed: seq<TimeWatcher>)
      requires Valid()
      modifies this`activecnt, timers, timers.heap, timers.ws`active, timers.ws`at, queues`pendings, queues.ws
      ensures Valid()
      ensures Taken(old(TheBook()), fed) && ClearedOnly(queues, fed, old(queues.View()), old(TheBook()).Once())
      ensures timers.cnt == 0 || timers.heap[HEAP0].at >= mnNow
    {
      fed := [];
      ghost var before, view := TheBook(), queues.View();
      while timers.cnt > 0 && timers.heap[HEAP0].at < mnNow
        invariant Valid() && timers.heap == old(timers.heap)
        invariant Taken(before, fed) && ClearedOnly(queues, fed, view, before.Once())
        decreases before.active - Range(fed)
      {
        var w := Expire(before, fed, view);
        RangeStep(before.active, fed, w);
        fed := fed + [w];
      }
    }

    /** feed_reverse_done for the timers of rfeeds; the timers themselves stay. */
    method FeedAll(fed: seq<TimeWatcher>)
      requires Valid() && forall i | 0 <= i < |fed| :: fed[i] in timers.ws
      modifies queues, queues.ws
      ensures Valid() && InRange(BasesOf(fed)) && TheBook() == old(TheBook())
      ensures queues.View() == FedBackwards(old(queues.View()), BasesOf(fed), EV_TIMER)
    {
      if fed != [] {
        queues.FeedReverseDone(BasesOf(fed), EV_TIMER);
      }
    }

    /** timers_reify: the due timers are fed, each once and none other, in expiry order; none
        stays due. The non-repeating ones are stopped, which clears an event they had pending. */
    method TimersReify() returns (fed: seq<TimeWatcher>)
      requires Valid()
      modifies this`activecnt, timers, timers.heap, timers.ws`active, timers.ws`at, queues, queues.ws
      ensures Valid()
      ensures Fired(old(TheBook()), fed, TheBook(), mnNow)
      ensures old(TheBook().Due(mnNow)) == Range(fed) && TheBook().Due(mnNow) == {}
      ensures InRange(BasesOf(fed)) && InRange(Stopped(fed, old(TheBook().Once())))
      ensures
        var cleared := ClearedAll(old(queues.View()), Stopped(fed, old(TheBook().Once())));
        queues.View() == FedBackwards(cleared, BasesOf(fed), EV_TIMER)
    {
      ghost var before := TheBook();
      fed := Collect();
      timers.NoneBefore(mnNow);
      FiredAll(before, fed, TheBook(), mnNow);
      assert forall i | 0 <= i < |fed| :: fed[i] in Range(fed);
      FeedAll(fed);
    }

    /** timers_reify and then ev_invoke_pending, when nothing was pending: the callbacks of each
        priority, which may do anything but feed, are those of its due timers, each at most
        once, in nondecreasing order of expiry; only those of cleared events are missing. */
    method RunDue(script: seq<seq<Act>>) returns (ghost trace: seq<Step>)
      requires Valid() && AllEmpty(queues.View()) && queues.Knows(script) && FeedsNone(script)
      modifies this`activecnt, timers, timers.heap, timers.ws`active, timers.ws`at, queues, queues.ws, queues.pendingW
      ensures Valid() && AllEmpty(queues.View()) && TheBook().Due(mnNow) == {}
      ensures RunsDue(trace, script, old(TheBook().at), old(TheBook().Due(mnNow)))
    {
      ghost var book, view := TheBook(), queues.View();
      var fed := TimersReify();
      queues.KnownOk(script);
      ExpiredRunInOrder(book.at, book.active, fed, mnNow, book.Once(), view, EV_TIMER, script);
      var rest;
      rest, trace := queues.InvokePending(script);
      queues.NothingPending();
    }
  }
}
