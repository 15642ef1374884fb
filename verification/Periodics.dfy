/** Absolute timers in exact arithmetic: when a periodic expires next, and
    `periodics_reify`, which makes every due periodic pending. */
module Periodics {
  import opened TimerHeap
  import opened Dispatch
  import opened Timers

  const MIN_INTERVAL: real := 0.0001220703125
  const SHIFT: real := 18446744073709551616.0
  const EV_PERIODIC: Events := {9}   // the mask 0x200

  lemma FloorUnique(v: real, n: int)
    requires n as real <= v < n as real + 1.0
    ensures v.Floor == n
  {
  }

  /** ev_floor where no floor function is used: conversion to unsigned long truncates, so
      large and negative arguments are brought into its range. */
  function EvFloor(v: real): (f: real)
    ensures f == v.Floor as real
    decreases v < 0.0, if v < 0.0 then 0 else v.Floor
  {
    if v >= SHIFT then
      ScaledDown(v);
      var f := SHIFT * EvFloor(v * (1.0 / SHIFT));
      f + EvFloor(v - f)
    else if v < 0.0 then
      var f := -EvFloor(-v);
      NegatedFloor(v);
      f - (if f == v then 0.0 else 1.0)
    else
      v.Floor as real
  }

  lemma NegatedFloor(v: real)
    ensures var f := -((-v).Floor as real); v.Floor as real == f - (if f == v then 0.0 else 1.0)
  {
    var n := (-v).Floor;
    if -(n as real) == v { FloorUnique(v, -n); } else { FloorUnique(v, -n - 1); }
  }

  lemma ScaledDown(v: real)
    requires v >= SHIFT
    ensures
      var n := (v * (1.0 / SHIFT)).Floor;
      var f := SHIFT * n as real;
      && v * (1.0 / SHIFT) >= 0.0 && n < v.Floor
      && 0.0 <= v - f < SHIFT && (v - f).Floor < v.Floor
      && f + (v - f).Floor as real == v.Floor as real
  {
    var x := v * (1.0 / SHIFT);
    assert x * SHIFT == v && x >= 1.0;
    var n := x.Floor;
    var m := 18446744073709551616 * n;
    assert m as real == SHIFT * n as real;
    FloorUnique(v - m as real, v.Floor - m);
  }

  // ---------- periodic_recalc ----------

  /** The k-th time of a periodic. */
  ghost function Tick(offset: real, interval: real, k: int): real { offset + interval * k as real }

  /** at is a proper next time: after now, by no more than the interval, and one of the times
      of the periodic, if its interval is not tiny. */
  ghost predicate NextTime(offset: real, interval: real, now: real, at: real)
  {
    && now < at <= now + interval
    && (interval >= MIN_INTERVAL ==> exists k :: at == Tick(offset, interval, k))
  }

  lemma Less(d: real, x: real, y: real)
    requires d > 0.0
    ensures x < y ==> d * x < d * y
    ensures x <= y ==> d * x <= d * y
  {
    if x < y { assert d * (y - x) > 0.0; }
  }

  /** Such a time is the first one of the periodic after now. */
  lemma NextTimeIsFirst(offset: real, interval: real, now: real, at: real, k: int)
    requires interval >= MIN_INTERVAL && NextTime(offset, interval, now, at)
    requires now < Tick(offset, interval, k)
    ensures at <= Tick(offset, interval, k)
  {
    var j :| at == Tick(offset, interval, j);
    if k < j {
      Less(interval, k as real, j as real - 1.0);
    }
  }

  lemma DivExact(a: real, d: real, x: real)
    requires d > 0.0 && a == d * x
    ensures a / d == x
  {
    assert d * (a / d) == a;
    Less(d, a / d, x);
    Less(d, x, a / d);
  }

  lemma Fraction(d: real, f: real)
    requires d > 0.0 && 0.0 <= f < 1.0
    ensures 0.0 <= d * f < d
  {
    assert d * (1.0 - f) > 0.0;
  }

  lemma Distribute(d: real, n: real, f: real)
    ensures d * (n + f) == d * n + d * f
  {
  }

  lemma Quotient(d: real, a: real)
    requires d > 0.0
    ensures d * (a / d) == a
  {
  }

  lemma Between(dq: real, dn: real, df: real, d: real)
    requires dq == dn + df && 0.0 <= df < d
    ensures dn <= dq < dn + d
  {
  }

  /** The last time of the periodic up to now. */
  lemma LastTick(offset: real, d: real, now: real)
    requires d > 0.0
    ensures
      var k := ((now - offset) / d).Floor;
      Tick(offset, d, k) <= now && now - d < Tick(offset, d, k)
  {
    var q := (now - offset) / d;
    var n, f := q.Floor as real, q - q.Floor as real;
    Quotient(d, now - offset);
    Distribute(d, n, f);
    Fraction(d, f);
    Between(d * q, d * n, d * f, d);
  }

  /** Steps of length d that fit between at and now. */
  ghost function StepsLeft(at: real, d: real, now: real): int
    requires d > 0.0
  {
    ((now - at) / d).Floor
  }

  lemma OneStep(at: real, d: real, now: real)
    requires d > 0.0 && at <= now
    ensures StepsLeft(at + d, d, now) == StepsLeft(at, d, now) - 1 && StepsLeft(at, d, now) >= 0
  {
    var q := (now - at) / d;
    assert d * q == now - at;
    if q < 0.0 { Less(d, q, 0.0); }
    assert d * (q - 1.0) == now - (at + d);
    DivExact(now - (at + d), d, q - 1.0);
  }

  /** periodic_recalc, without the branch for a time that the addition does not change. */
  method PeriodicRecalc(offset: real, every: real, now: real) returns (at: real)
    requires every > 0.0
    ensures NextTime(offset, every, now, at)
  {
    var interval := if every > MIN_INTERVAL then every else MIN_INTERVAL;
    at := offset + interval * EvFloor((now - offset) / interval);
    LastTick(offset, interval, now);
    ghost var k := ((now - offset) / interval).Floor;
    assert at == Tick(offset, interval, k);
    while at <= now
      invariant at <= now + every
      invariant every >= MIN_INTERVAL ==> at == Tick(offset, every, k)
      decreases StepsLeft(at, every, now)
    {
      OneStep(at, every, now);
      NextTick(offset, every, k);
      at, k := at + every, k + 1;
    }
  }

  lemma NextTick(offset: real, d: real, k: int)
    ensures Tick(offset, d, k + 1) == Tick(offset, d, k) + d
  {
    assert d * (k + 1) as real == d * k as real + d;
  }

  // ---------- The periodics of a loop ----------

  /** The time and state of a periodic after it was made pending at `now`; reschedule callbacks
      give the answers. */
  ghost predicate Renewed(w: TimeWatcher, at: real, now: real, answers: map<TimeWatcher, real>)
    reads w
  {
    if w.hasCallback then w.active != 0 && w in answers && w.at == answers[w] >= now
    else if w.interval != 0.0 then w.active != 0 && NextTime(w.offset, w.interval, now, w.at)
    else w.active == 0 && w.at == at
  }

  class PeriodicLoop {
    const periodics: TimeHeap
    var rtNow: real
    var answers: map<TimeWatcher, real>   // what the reschedule callbacks give in periodics_reify
    var activecnt: int
    const queues: Queues

    ghost predicate PeriodicsOk()
      reads this, periodics, periodics.heap, periodics.ws
    {
      periodics.Valid() && forall w | w in periodics.ws :: w.interval >= 0.0
    }

    ghost predicate QueuesOk()
      reads queues, queues.ws, queues.pendingW
    {
      queues.Valid() && Separate(periodics.ws) && forall w | w in periodics.ws :: w.base in queues.ws
    }

    ghost predicate Valid()
      reads this, periodics, periodics.heap, periodics.ws, queues, queues.ws, queues.pendingW
    {
      PeriodicsOk() && QueuesOk()
    }

    constructor (heap: TimeHeap, pending: Queues)
      requires heap.Valid() && pending.Valid() && forall w | w in heap.ws :: w.base in pending.ws && w.interval >= 0.0
      requires Separate(heap.ws)
      ensures Valid() && periodics == heap && queues == pending
    {
      periodics, queues, rtNow, answers, activecnt := heap, pending, 0.0, map[], 0;
    }

    /** What periodics_reify asserts of its reschedule callbacks: no answer is in the past. */
    ghost predicate AnswersOk()
      reads this, periodics.ws
    {
      forall w | w in periodics.ws && w.hasCallback :: w in answers && answers[w] >= rtNow
    }

    /** The next time that periodics_reify gives to a periodic with a callback or an interval. */
    method NextAt(w: TimeWatcher) returns (at: real)
      requires w.hasCallback ==> w in answers
      requires w.hasCallback || w.interval > 0.0
      ensures if w.hasCallback then at == answers[w] else NextTime(w.offset, w.interval, rtNow, at)
    {
      if w.hasCallback {
        at := answers[w];
      } else {
        at := PeriodicRecalc(w.offset, w.interval, rtNow);
      }
    }

    /** ev_periodic_start; `answer` is the time that a reschedule callback gives here, which
        may be any. */
    method PeriodicStart(w: TimeWatcher, answer: real)
      requires PeriodicsOk() && w in periodics.ws
      modifies this`activecnt, periodics, periodics.heap, periodics.ws`active, w`at
      ensures PeriodicsOk() && (periodics.heap == old(periodics.heap) || fresh(periodics.heap))
      ensures periodics.Active() == old(periodics.Active()) + {w}
      ensures old(w.active) != 0 ==> w.at == old(w.at)
      ensures old(w.active) == 0 ==>
        if w.hasCallback then w.at == answer
        else if w.interval != 0.0 then NextTime(w.offset, w.interval, rtNow, w.at)
        else w.at == w.offset
    {
      if w.active != 0 {
        return;
      }
      var at := w.offset;
      if w.hasCallback {
        at := answer;
      } else if w.interval != 0.0 {
        at := PeriodicRecalc(w.offset, w.interval, rtNow);
      }
      w.at := at;
      activecnt := activecnt + 1;
      periodics.Start(w);
    }

    /** The part of ev_periodic_stop that follows clear_pending. */
    method Unlink(w: TimeWatcher)
      requires PeriodicsOk() && w in periodics.ws
      modifies this`activecnt, periodics, periodics.heap, periodics.ws`active
      ensures PeriodicsOk() && periodics.heap == old(periodics.heap)
      ensures periodics.Active() == old(periodics.Active()) - {w}
    {
      if w.active == 0 {
        return;
      }
      periodics.Stop(w);
      activecnt := activecnt - 1;
    }

    /** ev_periodic_stop */
    method PeriodicStop(w: TimeWatcher)
      requires Valid() && w in periodics.ws
      modifies this`activecnt, periodics, periodics.heap, periodics.ws`active, queues`pendings, w.base
      ensures Valid() && periodics.heap == old(periodics.heap)
      ensures periodics.Active() == old(periodics.Active()) - {w}
      ensures queues.View() == After(old(queues.View()), Clear(w.base)) && w.base.pending == 0
    {
      var _ := queues.ClearPending(w.base);
      Unlink(w);
    }

    // ---------- periodics_reify ----------

    ghost function Times(): (m: map<TimeWatcher, real>)
      reads periodics.ws
      ensures m.Keys == periodics.ws
    {
      map w | w in periodics.ws :: w.at
    }

    /** The periodics in `fed` were taken, the earliest first, and renewed; the others are as
        they were when their times were `at` and the started ones `active`. */
    ghost predicate Taken(at: map<TimeWatcher, real>, active: set<TimeWatcher>, fed: seq<TimeWatcher>)
      reads this, periodics.ws
    {
      && at.Keys == periodics.ws && InExpiryOrder(at, active, fed, rtNow)
      && (forall w | w in periodics.ws && w !in fed :: w.at == at[w] && (w.active != 0 <==> w in active))
      && (forall w | w in periodics.ws && w in fed :: Renewed(w, at[w], rtNow, answers))
    }

    /** A periodic that repeats gets its next time. */
    method Advance(w: TimeWatcher)
      requires AnswersOk()
      requires PeriodicsOk() && w in periodics.Active() && (w.hasCallback || w.interval != 0.0)
      modifies periodics.heap, periodics.ws`active, w`at
      ensures PeriodicsOk() && periodics.Active() == old(periodics.Active())
      ensures Renewed(w, old(w.at), rtNow, answers)
    {
      var at := NextAt(w);
      periodics.Reschedule(w, at);
      assert w in periodics.Active();
    }

    /** The heap part of a round of the inner loop: the root is due; it is renewed. */
    method ExpireRoot(w: TimeWatcher, ghost at: map<TimeWatcher, real>)
      requires AnswersOk()
      requires PeriodicsOk() && periodics.cnt > 0 && periodics.heap[HEAP0].at < rtNow && w == periodics.heap[HEAP0].w
      requires at == Times()
      modifies this`activecnt, periodics, periodics.heap, periodics.ws`active, periodics.ws`at
      ensures PeriodicsOk() && periodics.heap == old(periodics.heap)
      ensures w in old(periodics.Active()) && at[w] < rtNow && forall v | v in old(periodics.Active()) :: at[w] <= at[v]
      ensures periodics.Active()
           == if w.hasCallback || w.interval != 0.0 then old(periodics.Active()) else old(periodics.Active()) - {w}
      ensures Renewed(w, at[w], rtNow, answers) && forall v | v in periodics.ws && v != w :: v.at == at[v]
    {
      periodics.RootFirst();
      if w.hasCallback || w.interval != 0.0 {
        Advance(w);
      } else {
        Unlink(w);
        assert w !in periodics.Active();
      }
    }

    /** The periodics that stop when they expire. */
    ghost function Once(): set<TimeWatcher>
    {
      set w | w in periodics.ws && !w.hasCallback && w.interval == 0.0
    }

    /** Its pending part: stopping a periodic clears its event. */
    method ClearStopped(w: TimeWatcher, ghost fed: seq<TimeWatcher>, ghost view: Stacks)
      requires QueuesOk() && w in periodics.ws && ClearedOnly(queues, fed, view, Once())
      modifies queues`pendings, w.base
      ensures QueuesOk() && ClearedOnly(queues, fed + [w], view, Once())
    {
      ClearedStep(fed, view, Once(), w);
      if !(w.hasCallback || w.interval != 0.0) {
        var _ := queues.ClearPending(w.base);
      }
    }

    lemma TakenStep(at: map<TimeWatcher, real>, active: set<TimeWatcher>, fed: seq<TimeWatcher>,
                    now: map<TimeWatcher, real>, started: set<TimeWatcher>, w: TimeWatcher)
      requires at.Keys == now.Keys == periodics.ws && InExpiryOrder(at, active, fed, rtNow)
      requires forall v | v in periodics.ws && v !in fed :: now[v] == at[v] && (v in started <==> v in active)
      requires forall v | v in fed && v in started :: now[v] >= rtNow
      requires w in periodics.ws && w in started && now[w] < rtNow
      requires forall v | v in started :: v in now && now[w] <= now[v]
      ensures w !in fed && w in active && InExpiryOrder(at, active, fed + [w], rtNow)
    {
      assert w !in fed;
    }

    /** The same, for the state of the loop. */
    lemma TakenNext(at: map<TimeWatcher, real>, active: set<TimeWatcher>, fed: seq<TimeWatcher>,
                    now: map<TimeWatcher, real>, started: set<TimeWatcher>, w: TimeWatcher)
      requires at.Keys == now.Keys == periodics.ws && InExpiryOrder(at, active, fed, rtNow)
      requires forall v | v in periodics.ws && v !in fed :: now[v] == at[v] && (v in started <==> v in active)
      requires forall v | v in fed && v in started :: now[v] >= rtNow
      requires w in periodics.ws && w in started && now[w] < rtNow
      requires forall v | v in started :: v in now && now[w] <= now[v]
      requires Renewed(w, now[w], rtNow, answers)
      requires forall v | v in fed && v in periodics.ws && v != w :: Renewed(v, at[v], rtNow, answers)
      requires forall v | v in periodics.ws && v != w :: v.at == now[v] && (v.active != 0 <==> v in started)
      ensures w !in fed && w in active && Taken(at, active, fed + [w])
    {
      TakenStep(at, active, fed, now, started, w);
    }

    /** The heap part of the round, in terms of all periodics. */
    method TakeRoot(w: TimeWatcher, ghost at: map<TimeWatcher, real>, ghost active: set<TimeWatcher>,
                    ghost fed: seq<TimeWatcher>)
      requires AnswersOk()
      requires PeriodicsOk() && periodics.cnt > 0 && periodics.heap[HEAP0].at < rtNow && w == periodics.heap[HEAP0].w
      requires Taken(at, active, fed)
      modifies this`activecnt, periodics, periodics.heap, periodics.ws`active, periodics.ws`at
      ensures PeriodicsOk() && periodics.heap == old(periodics.heap)
      ensures w !in fed && w in active && Taken(at, active, fed + [w])
    {
      ghost var now, started := Times(), periodics.Active();
      ExpireRoot(w, now);
      assert forall v | v in periodics.ws :: v in periodics.Active() <==> v.active != 0;
      TakenNext(at, active, fed, now, started, w);
    }

    /** The round of the inner loop, with what it adds to rfeeds. */
    method Expire(ghost at: map<TimeWatcher, real>, ghost active: set<TimeWatcher>, fed: seq<TimeWatcher>,
                  ghost view: Stacks)
      returns (w: TimeWatcher)
      requires AnswersOk()
      requires Valid() && periodics.cnt > 0 && periodics.heap[HEAP0].at < rtNow
      requires Taken(at, active, fed) && ClearedOnly(queues, fed, view, Once())
      modifies this`activecnt, periodics, periodics.heap, periodics.ws`active
      modifies periodics.ws`at, queues`pendings, queues.ws
      ensures Valid() && periodics.heap == old(periodics.heap)
      ensures w !in fed && w in active && Taken(at, active, fed + [w]) && ClearedOnly(queues, fed + [w], view, Once())
    {
      periodics.RootFirst();
      w := periodics.heap[HEAP0].w;
      ClearStopped(w, fed, view);
      TakeRoot(w, at, active, fed);
    }

    /** The inner loop of periodics_reify. */
    method Collect(ghost at: map<TimeWatcher, real>, ghost active: set<TimeWatcher>)
      returns (fed: seq<TimeWatcher>)
      requires AnswersOk()
      requires Valid() && at == Times() && active == periodics.Active()
      modifies this`activecnt, periodics, periodics.heap, periodics.ws`active
      modifies periodics.ws`at, queues`pendings, queues.ws
      ensures Valid() && Taken(at, active, fed) && ClearedOnly(queues, fed, old(queues.View()), Once())
      ensures periodics.cnt == 0 || periodics.heap[HEAP0].at >= rtNow
    {
      fed := [];
      ghost var view := queues.View();
      while periodics.cnt > 0 && periodics.heap[HEAP0].at < rtNow
        invariant Valid() && periodics.heap == old(periodics.heap)
        invariant Taken(at, active, fed) && ClearedOnly(queues, fed, view, Once())
        decreases active - Range(fed)
      {
        var w := Expire(at, active, fed, view);
        RangeStep(active, fed, w);
        fed := fed + [w];
      }
    }

    /** The inner loop leaves no periodic due. */
    method CollectDue(ghost at: map<TimeWatcher, real>, ghost active: set<TimeWatcher>) returns (fed: seq<TimeWatcher>)
      requires AnswersOk()
      requires Valid() && at == Times() && active == periodics.Active()
      modifies this`activecnt, periodics, periodics.heap, periodics.ws`active
      modifies periodics.ws`at, queues`pendings, queues.ws
      ensures Valid() && Taken(at, active, fed) && ClearedOnly(queues, fed, old(queues.View()), Once())
      ensures ExactlyDue(at, active, fed) && forall i | 0 <= i < |fed| :: fed[i] in periodics.ws
      ensures forall w | w in periodics.Active() :: w.at >= rtNow
    {
      fed := Collect(at, active);
      periodics.NoneBefore(rtNow);
      AllTaken(at, active, fed);
    }

    /** feed_reverse_done for the periodics of rfeeds; the periodics themselves stay. */
    method FeedAll(fed: seq<TimeWatcher>)
      requires Valid() && forall i | 0 <= i < |fed| :: fed[i] in periodics.ws
      modifies queues, queues.ws
      ensures Valid() && InRange(BasesOf(fed))
      ensures queues.View() == FedBackwards(old(queues.View()), BasesOf(fed), EV_PERIODIC)
    {
      queues.FeedReverseDone(BasesOf(fed), EV_PERIODIC);
    }

    ghost function Due(at: map<TimeWatcher, real>, active: set<TimeWatcher>): set<TimeWatcher>
      requires active <= at.Keys
      reads this
    {
      set w | w in active && at[w] < rtNow
    }

    /** The periodics in `fed` are exactly the due ones. */
    ghost predicate ExactlyDue(at: map<TimeWatcher, real>, active: set<TimeWatcher>, fed: seq<TimeWatcher>)
      requires active <= at.Keys
      reads this
    {
      Range(fed) == Due(at, active)
    }

    lemma AllTaken(at: map<TimeWatcher, real>, active: set<TimeWatcher>, fed: seq<TimeWatcher>)
      requires Taken(at, active, fed) && forall w | w in periodics.Active() :: w.at >= rtNow
      ensures ExactlyDue(at, active, fed) && forall i | 0 <= i < |fed| :: fed[i] in periodics.ws
    {
      assert forall w | w in active && w !in fed :: w in periodics.Active() && w.at == at[w];
      assert forall i | 0 <= i < |fed| :: fed[i] in active;
    }

    /** periodics_reify: the due periodics are fed, each once and none other, in expiry order;
        each gets its next time, which is not before now, or is stopped, and none stays due. (The outer loop of
        the source runs its body at most once.) */
    method PeriodicsReify(ghost at: map<TimeWatcher, real>, ghost active: set<TimeWatcher>)
      returns (fed: seq<TimeWatcher>)
      requires AnswersOk()
      requires Valid() && at == Times() && active == periodics.Active()
      modifies this`activecnt, periodics, periodics.heap, periodics.ws`active, periodics.ws`at, queues, queues.ws
      ensures Valid() && Taken(at, active, fed) && ExactlyDue(at, active, fed)
      ensures forall w | w in periodics.Active() :: w.at >= rtNow
      ensures InRange(BasesOf(fed)) && InRange(Stopped(fed, Once()))
      ensures queues.View()
           == FedBackwards(ClearedAll(old(queues.View()), Stopped(fed, Once())), BasesOf(fed), EV_PERIODIC)
    {
      fed := CollectDue(at, active);
      FeedAll(fed);
    }

    /** ev_invoke_pending; the periodics themselves stay. */
    method RunPending(script: seq<seq<Act>>) returns (ghost trace: seq<Step>)
      requires Valid() && queues.Knows(script)
      modifies queues, queues.ws, queues.pendingW
      ensures Valid() && AllEmpty(queues.View()) && StacksOk(old(queues.View())) && ScriptOk(script)
      ensures trace == Drained(old(queues.View()), script).trace
    {
      var rest;
      rest, trace := queues.InvokePending(script);
      queues.NothingPending();
    }

    /** periodics_reify and then ev_invoke_pending, when nothing was pending and the callbacks
        feed nothing. */
    method RunDue(script: seq<seq<Act>>, ghost at: map<TimeWatcher, real>, ghost active: set<TimeWatcher>)
      returns (ghost trace: seq<Step>)
      requires AnswersOk()
      requires Valid() && AllEmpty(queues.View()) && at == Times() && active == periodics.Active()
      requires queues.Knows(script) && FeedsNone(script)
      modifies this`activecnt, periodics, periodics.heap, periodics.ws`active, periodics.ws`at
      modifies queues, queues.ws, queues.pendingW
      ensures Valid() && AllEmpty(queues.View()) && forall w | w in periodics.Active() :: w.at >= rtNow
      ensures RunsDue(trace, script, at, Due(at, active))
    {
      ghost var view := queues.View();
      var fed := PeriodicsReify(at, active);
      queues.KnownOk(script);
      ExpiredRunInOrder(at, active, fed, rtNow, Once(), view, EV_PERIODIC, script);
      trace := RunPending(script);
    }
  }
}
