/** Pending events in libev: one array of slots per priority, back-pointers from the
    watchers to their slots, and a dummy watcher that takes over the slots of watchers
    whose event is cleared. They implement one stack of distinct watchers per priority,
    of which `ev_invoke_pending` always calls the top of the highest non-empty one. */
module Dispatch {
  import opened Sequences

  const NUMPRI: nat := 5   // EV_MAXPRI - EV_MINPRI + 1

  type Events = set<nat>   // an event mask, as the set of its bits

  class Watcher {
    const priority: nat   // ABSPRI
    var pending: nat      // 0, or 1 + the index of the watcher's slot

    constructor (pri: nat)
      ensures priority == pri && pending == 0
    {
      priority, pending := pri, 0;
    }
  }

  /** A slot, ANPENDING. */
  datatype Slot = Slot(w: Watcher, events: Events)

  // ---------- The simple form: stacks ----------

  ghost function IndexOf(s: seq<Slot>, w: Watcher): (i: nat)
    ensures i <= |s| && (i < |s| ==> s[i].w == w)
    ensures forall k | 0 <= k < i :: s[k].w != w
  {
    if s == [] || s[0].w == w then 0 else 1 + IndexOf(s[1..], w)
  }

  /** Feeding a pending watcher adds to its events; any other one is pushed. */
  ghost function Fed(s: seq<Slot>, w: Watcher, events: Events): seq<Slot>
  {
    var i := IndexOf(s, w);
    if i < |s| then s[i := Slot(w, s[i].events + events)] else s + [Slot(w, events)]
  }

  ghost function Cleared(s: seq<Slot>, w: Watcher): seq<Slot>
  {
    var i := IndexOf(s, w);
    if i < |s| then s[..i] + s[i + 1..] else s
  }

  type Stacks = s: seq<seq<Slot>> | |s| == NUMPRI witness seq(NUMPRI, _ => [])

  datatype Step = Feed(w: Watcher, events: Events) | Clear(w: Watcher) | Call(w: Watcher, events: Events)

  /** The call of the top of the highest non-empty stack. */
  ghost predicate CanCall(s: Stacks, w: Watcher, events: Events)
  {
    && w.priority < NUMPRI && s[w.priority] != []
    && s[w.priority][|s[w.priority]| - 1] == Slot(w, events)
    && forall p | w.priority < p < NUMPRI :: s[p] == []
  }

  ghost predicate Allowed(s: Stacks, step: Step)
  {
    match step
    case Feed(w, _) => w.priority < NUMPRI
    case Clear(w) => w.priority < NUMPRI
    case Call(w, events) => CanCall(s, w, events)
  }

  ghost function After(s: Stacks, step: Step): Stacks
    requires Allowed(s, step)
  {
    var p := step.w.priority;
    match step
    case Feed(w, events) => s[p := Fed(s[p], w, events)]
    case Clear(w) => s[p := Cleared(s[p], w)]
    case Call(_, _) => s[p := s[p][..|s[p]| - 1]]
  }

  /** `steps` leads from the stacks s to the stacks t, each step allowed where it happens. */
  ghost predicate Leads(s: Stacks, steps: seq<Step>, t: Stacks)
    decreases |steps|
  {
    if steps == [] then s == t else Allowed(s, steps[0]) && Leads(After(s, steps[0]), steps[1..], t)
  }

  lemma {:induction false} LeadsAppend(s: Stacks, steps: seq<Step>, t: Stacks, more: seq<Step>, u: Stacks)
    requires Leads(s, steps, t) && Leads(t, more, u)
    ensures Leads(s, steps + more, u)
    decreases |steps|
  {
    if steps == [] {
      assert steps + more == more;
    } else {
      LeadsAppend(After(s, steps[0]), steps[1..], t, more, u);
      assert (steps + more)[1..] == steps[1..] + more;
    }
  }

  lemma LeadsStep(s: Stacks, steps: seq<Step>, t: Stacks, step: Step)
    requires Leads(s, steps, t) && Allowed(t, step)
    ensures Leads(s, steps + [step], After(t, step))
  {
    assert Leads(After(t, step), [step][1..], After(t, step));
    LeadsAppend(s, steps, t, [step], After(t, step));
  }

  // ---------- Slots with tombstones represent stacks ----------

  /** The slots that are not taken over by the dummy. */
  ghost function Live(s: seq<Slot>, dummy: Watcher): seq<Slot>
  {
    if s == [] then []
    else
      var last := s[|s| - 1];
      Live(s[..|s| - 1], dummy) + if last.w == dummy then [] else [last]
  }

  lemma LiveLast(s: seq<Slot>, front: seq<Slot>, last: Slot, dummy: Watcher)
    requires s == front + [last]
    ensures Live(s, dummy) == Live(front, dummy) + if last.w == dummy then [] else [last]
  {
    assert s[..|s| - 1] == front;
  }

  lemma {:induction false} LiveAppend(s: seq<Slot>, t: seq<Slot>, dummy: Watcher)
    ensures Live(s + t, dummy) == Live(s, dummy) + Live(t, dummy)
  {
    if t == [] {
      assert s + t == s;
    } else {
      var front, last := t[..|t| - 1], t[|t| - 1];
      LiveAppend(s, front, dummy);
      LiveLast(s + t, s + front, last, dummy);
      LiveLast(t, front, last, dummy);
    }
  }

  lemma {:induction false} LiveWithout(s: seq<Slot>, dummy: Watcher, w: Watcher)
    requires forall i | 0 <= i < |s| :: s[i].w != w
    ensures forall i | 0 <= i < |Live(s, dummy)| :: Live(s, dummy)[i].w != w
  {
    if s != [] { LiveWithout(s[..|s| - 1], dummy, w); }
  }

  /** Where the only slot of w is, among the live ones. */
  lemma LiveAt(s: seq<Slot>, dummy: Watcher, i: nat)
    requires i < |s| && s[i].w != dummy
    requires forall k | 0 <= k < |s| && k != i :: s[k].w != s[i].w
    ensures
      var front, back := Live(s[..i], dummy), Live(s[i + 1..], dummy);
      Live(s, dummy) == front + [s[i]] + back && IndexOf(Live(s, dummy), s[i].w) == |front|
  {
    assert s == s[..i] + [s[i]] + s[i + 1..];
    LiveAppend(s[..i] + [s[i]], s[i + 1..], dummy);
    LiveAppend(s[..i], [s[i]], dummy);
    assert Live([s[i]], dummy) == Live([s[i]][..0], dummy) + [s[i]];
    LiveWithout(s[..i], dummy, s[i].w);
    var front := Live(s[..i], dummy);
    assert Live(s, dummy)[|front|] == s[i] && forall k | 0 <= k < |front| :: Live(s, dummy)[k] == front[k];
  }

  /** i is the only slot of a watcher, which is not the dummy. */
  ghost predicate OnlySlot(s: seq<Slot>, dummy: Watcher, i: nat)
  {
    i < |s| && s[i].w != dummy && forall k | 0 <= k < |s| && k != i :: s[k].w != s[i].w
  }

  lemma LiveWrite(s: seq<Slot>, dummy: Watcher, i: nat, slot: Slot)
    requires OnlySlot(s, dummy, i)
    ensures Live(s[i := slot], dummy)
         == Live(s[..i], dummy) + (if slot.w == dummy then [] else [slot]) + Live(s[i + 1..], dummy)
  {
    assert s[i := slot] == s[..i] + [slot] + s[i + 1..];
    LiveAppend(s[..i] + [slot], s[i + 1..], dummy);
    LiveAppend(s[..i], [slot], dummy);
    assert Live([slot], dummy) == Live([slot][..0], dummy) + if slot.w == dummy then [] else [slot];
  }

  /** The dummy takes over the slot of a watcher. */
  lemma LiveClear(s: seq<Slot>, dummy: Watcher, i: nat, events: Events)
    requires OnlySlot(s, dummy, i)
    ensures Live(s[i := Slot(dummy, events)], dummy) == Cleared(Live(s, dummy), s[i].w)
  {
    LiveAt(s, dummy, i);
    LiveWrite(s, dummy, i, Slot(dummy, events));
  }

  /** A pending watcher is fed again. */
  lemma LiveFeed(s: seq<Slot>, dummy: Watcher, i: nat, events: Events)
    requires OnlySlot(s, dummy, i)
    ensures Live(s[i := Slot(s[i].w, s[i].events + events)], dummy) == Fed(Live(s, dummy), s[i].w, events)
  {
    LiveAt(s, dummy, i);
    LiveWrite(s, dummy, i, Slot(s[i].w, s[i].events + events));
  }

  /** A watcher that is not pending is fed. */
  lemma LivePush(s: seq<Slot>, dummy: Watcher, w: Watcher, events: Events)
    requires w != dummy && forall k | 0 <= k < |s| :: s[k].w != w
    ensures Live(s + [Slot(w, events)], dummy) == Fed(Live(s, dummy), w, events)
  {
    LiveWithout(s, dummy, w);
    assert (s + [Slot(w, events)])[..|s|] == s;
  }

  ghost function Lives(q: seq<seq<Slot>>, dummy: Watcher): Stacks
    requires |q| == NUMPRI
  {
    seq(NUMPRI, p requires 0 <= p < NUMPRI => Live(q[p], dummy))
  }

  lemma LivesUpdate(q: seq<seq<Slot>>, dummy: Watcher, p: nat, s: seq<Slot>)
    requires |q| == NUMPRI && p < NUMPRI
    ensures Lives(q[p := s], dummy) == Lives(q, dummy)[p := Live(s, dummy)]
  {
  }

  // ---------- Draining the stacks ----------

  /** What a callback of a watcher does to the queues: it feeds or clears watchers (stopping
      a watcher clears it), or runs ev_invoke_pending itself. */
  datatype Act = ActFeed(w: Watcher, events: Events) | ActClear(w: Watcher) | ActInvoke

  /** What a drain does: its feeds, clears and calls in order, the stacks after it, and the
      rest of the script. */
  datatype Drain = Drain(trace: seq<Step>, stacks: Stacks, rest: seq<seq<Act>>)

  ghost predicate ActsOk(acts: seq<Act>)
  {
    forall i | 0 <= i < |acts| && !acts[i].ActInvoke? :: acts[i].w.priority < NUMPRI
  }

  ghost predicate ScriptOk(script: seq<seq<Act>>) { forall i | 0 <= i < |script| :: ActsOk(script[i]) }

  ghost function Height(s: seq<seq<Slot>>): nat
  {
    if s == [] then 0 else |s[0]| + Height(s[1..])
  }

  lemma {:induction false} HeightUpdate(q: seq<seq<Slot>>, p: nat, s: seq<Slot>)
    requires p < |q|
    ensures Height(q[p := s]) == Height(q) - |q[p]| + |s|
  {
    if p > 0 {
      HeightUpdate(q[1..], p - 1, s);
      assert q[p := s][1..] == q[1..][p - 1 := s];
    } else {
      assert q[p := s][1..] == q[1..];
    }
  }

  ghost predicate AllEmpty(s: Stacks) { forall p | 0 <= p < NUMPRI :: s[p] == [] }

  /** The highest priority below n that is not empty. */
  ghost function Highest(s: Stacks, n: nat): (p: nat)
    requires n <= NUMPRI && exists q :: 0 <= q < n && s[q] != []
    ensures p < n && s[p] != [] && forall q | p < q < n :: s[q] == []
  {
    if s[n - 1] != [] then n - 1 else Highest(s, n - 1)
  }

  /** The call of the top of the highest stack. */
  ghost function TopCall(s: Stacks): (step: Step)
    requires StacksOk(s) && !AllEmpty(s)
    ensures step.Call? && CanCall(s, step.w, step.events) && Height(After(s, step)) < Height(s)
  {
    var p := Highest(s, NUMPRI);
    var top := s[p][|s[p]| - 1];
    HeightUpdate(s, p, s[p][..|s[p]| - 1]);
    Call(top.w, top.events)
  }

  /** A watcher is on the stack of its priority. */
  ghost predicate StacksOk(s: Stacks)
  {
    forall p, i | 0 <= p < NUMPRI && 0 <= i < |s[p]| :: s[p][i].w.priority == p
  }

  /** Calls the top of the highest stack until all are empty. A call runs the next entry of
      the script, which may feed and clear, and drain the stacks itself. */
  ghost function Drained(s: Stacks, script: seq<seq<Act>>): (d: Drain)
    requires StacksOk(s) && ScriptOk(script)
    ensures StacksOk(d.stacks) && AllEmpty(d.stacks) && ScriptOk(d.rest) && |d.rest| <= |script|
    decreases |script|, 0, Height(s)
  {
    if AllEmpty(s) then Drain([], s, script) else
      var step := TopCall(s);
      var called := if script == [] then Drain([], After(s, step), []) else Ran(After(s, step), script[0], script[1..]);
      var later := Drained(called.stacks, called.rest);
      Drain([step] + called.trace + later.trace, later.stacks, later.rest)
  }

  /** One callback. */
  ghost function Ran(s: Stacks, acts: seq<Act>, script: seq<seq<Act>>): (d: Drain)
    requires StacksOk(s) && ActsOk(acts) && ScriptOk(script)
    ensures StacksOk(d.stacks) && ScriptOk(d.rest) && |d.rest| <= |script|
    decreases |script|, 2, |acts|
  {
    if acts == [] then Drain([], s, script) else
      var front := acts[..|acts| - 1];
      var d := Ran(s, front, script);
      var e := Acted(d.stacks, acts[|acts| - 1], d.rest);
      Drain(d.trace + e.trace, e.stacks, e.rest)
  }

  ghost function Acted(s: Stacks, act: Act, script: seq<seq<Act>>): (d: Drain)
    requires StacksOk(s) && ActsOk([act]) && ScriptOk(script)
    ensures StacksOk(d.stacks) && ScriptOk(d.rest) && |d.rest| <= |script|
    decreases |script|, 1
  {
    assert act == [act][0];
    match act
    case ActFeed(w, events) => Drain([Feed(w, events)], After(s, Feed(w, events)), script)
    case ActClear(w) => Drain([Clear(w)], After(s, Clear(w)), script)
    case ActInvoke => Drained(s, script)
  }

  /** Every call of a drain is of the top of the highest stack at that moment. */
  lemma {:induction false} DrainedLeads(s: Stacks, script: seq<seq<Act>>)
    requires StacksOk(s) && ScriptOk(script)
    ensures Leads(s, Drained(s, script).trace, Drained(s, script).stacks)
    decreases |script|, 0, Height(s)
  {
    if !AllEmpty(s) {
      var step := TopCall(s);
      var t := After(s, step);
      var called := if script == [] then Drain([], t, []) else Ran(t, script[0], script[1..]);
      if script != [] { RanLeads(t, script[0], script[1..]); }
      DrainedLeads(called.stacks, called.rest);
      var later := Drained(called.stacks, called.rest);
      LeadsThree(s, step, called.trace, called.stacks, later.trace, later.stacks);
    }
  }

  lemma LeadsThree(s: Stacks, step: Step, mid: seq<Step>, t: Stacks, later: seq<Step>, u: Stacks)
    requires Allowed(s, step) && Leads(After(s, step), mid, t) && Leads(t, later, u)
    ensures Leads(s, [step] + mid + later, u)
  {
    LeadsAppend(After(s, step), mid, t, later, u);
    assert ([step] + mid + later)[1..] == mid + later;
  }

  lemma {:induction false} RanLeads(s: Stacks, acts: seq<Act>, script: seq<seq<Act>>)
    requires StacksOk(s) && ActsOk(acts) && ScriptOk(script)
    ensures Leads(s, Ran(s, acts, script).trace, Ran(s, acts, script).stacks)
    decreases |script|, 2, |acts|
  {
    if acts != [] {
      var front, act := acts[..|acts| - 1], acts[|acts| - 1];
      var d := Ran(s, front, script);
      RanLeads(s, front, script);
      var e := Acted(d.stacks, act, d.rest);
      if act.ActInvoke? {
        DrainedLeads(d.stacks, d.rest);
      } else {
        LeadsStep(d.stacks, [], d.stacks, e.trace[0]);
        assert [] + [e.trace[0]] == e.trace;
      }
      LeadsAppend(s, d.trace, d.stacks, e.trace, e.stacks);
    }
  }

  ghost predicate FeedsNone(script: seq<seq<Act>>)
  {
    forall i, j | 0 <= i < |script| && 0 <= j < |script[i]| :: !script[i][j].ActFeed?
  }

  ghost predicate ClearsNone(script: seq<seq<Act>>)
  {
    forall i, j | 0 <= i < |script| && 0 <= j < |script[i]| :: !script[i][j].ActClear?
  }

  ghost predicate NoFeeds(steps: seq<Step>) { forall i | 0 <= i < |steps| :: !steps[i].Feed? }

  ghost predicate NoClears(steps: seq<Step>) { forall i | 0 <= i < |steps| :: !steps[i].Clear? }

  /** What the callbacks do not do is not done in the drain. */
  ghost predicate Obeys(script: seq<seq<Act>>, d: Drain)
  {
    && (FeedsNone(script) ==> NoFeeds(d.trace) && FeedsNone(d.rest))
    && (ClearsNone(script) ==> NoClears(d.trace) && ClearsNone(d.rest))
  }

  lemma {:induction false} DrainObeys(s: Stacks, script: seq<seq<Act>>)
    requires StacksOk(s) && ScriptOk(script)
    ensures Obeys(script, Drained(s, script))
    decreases |script|, 0, Height(s)
  {
    if !AllEmpty(s) {
      var t := After(s, TopCall(s));
      var called := if script == [] then Drain([], t, []) else Ran(t, script[0], script[1..]);
      if script != [] {
        assert script == [script[0]] + script[1..];
        CallObeys(t, script[0], script[1..]);
      }
      DrainObeys(called.stacks, called.rest);
    }
  }

  lemma {:induction false} CallObeys(s: Stacks, acts: seq<Act>, script: seq<seq<Act>>)
    requires StacksOk(s) && ActsOk(acts) && ScriptOk(script)
    ensures Obeys([acts] + script, Ran(s, acts, script))
    decreases |script|, 2, |acts|
  {
    assert ([acts] + script)[0] == acts && ([acts] + script)[1..] == script;
    if acts != [] {
      var front, act := acts[..|acts| - 1], acts[|acts| - 1];
      var d := Ran(s, front, script);
      assert ([front] + script)[0] == front && ([front] + script)[1..] == script;
      CallObeys(s, front, script);
      if act.ActInvoke? { DrainObeys(d.stacks, d.rest); }
    }
  }

  class Queues {
    var pendings: seq<seq<Slot>>
    var pendingpri: nat
    const pendingW: Watcher
    ghost const ws: set<Watcher>   // the watchers of the program

    /** The assertions of verify_watcher, and their converse: the slots of a queue belong to
        the dummy, or to watchers of its priority that point back at them. */
    ghost predicate Valid()
      reads this, ws, pendingW
    {
      && |pendings| == NUMPRI && pendingpri <= NUMPRI
      && pendingW !in ws && pendingW.pending == 0
      && (forall w | w in ws :: w.priority < NUMPRI && Placed(w, pendings[w.priority]))
      && (forall p | 0 <= p < NUMPRI :: QueueOk(pendings[p], p))
    }

    ghost predicate Placed(w: Watcher, q: seq<Slot>)
      reads w
    {
      w.pending > 0 ==> w.pending <= |q| && q[w.pending - 1].w == w
    }

    ghost predicate QueueOk(q: seq<Slot>, p: nat)
      reads ws
    {
      forall i | 0 <= i < |q| && q[i].w != pendingW :: q[i].w in ws && q[i].w.priority == p && q[i].w.pending == i + 1
    }

    /** The stacks that the slots represent. */
    ghost function View(): Stacks
      requires |pendings| == NUMPRI
      reads this`pendings
    {
      Lives(pendings, pendingW)
    }

    constructor (dummy: Watcher, ghost watchers: set<Watcher>)
      requires dummy.pending == 0 && dummy !in watchers
      requires forall w | w in watchers :: w.priority < NUMPRI && w.pending == 0
      ensures Valid() && View() == seq(NUMPRI, _ => []) && ws == watchers && pendingW == dummy
    {
      pendings, pendingpri := seq(NUMPRI, _ => []), 0;
      pendingW, ws := dummy, watchers;
    }

    /** Writes the slot of a pending watcher: more events, or the dummy, which unlinks it. */
    method WriteSlot(w: Watcher, slot: Slot)
      requires Valid() && w in ws && w.pending > 0 && (slot.w == w || slot.w == pendingW)
      modifies this`pendings, w
      ensures Valid()
      ensures pendings == old(pendings[w.priority := pendings[w.priority][w.pending - 1 := slot]])
      ensures w.pending == if slot.w == w then old(w.pending) else 0
    {
      var pri, i := w.priority, w.pending - 1;
      assert Placed(w, pendings[pri]) && QueueOk(pendings[pri], pri);
      pendings := pendings[pri := pendings[pri][i := slot]];
      if slot.w != w {
        w.pending := 0;
      }
      forall v | v in ws ensures v.priority < NUMPRI && Placed(v, pendings[v.priority]) {
        assert old(Placed(v, pendings[v.priority]));
      }
      forall p | 0 <= p < NUMPRI ensures QueueOk(pendings[p], p) {
        assert old(QueueOk(pendings[p], p));
      }
    }

    /** A slot for a watcher that is not pending. */
    method PushSlot(w: Watcher, revents: Events)
      requires Valid() && w in ws && w.pending == 0
      modifies this`pendings, w
      ensures Valid()
      ensures pendings == old(pendings[w.priority := pendings[w.priority] + [Slot(w, revents)]])
      ensures w.pending > 0
    {
      var pri := w.priority;
      w.pending := |pendings[pri]| + 1;
      pendings := pendings[pri := pendings[pri] + [Slot(w, revents)]];
      forall v | v in ws ensures v.priority < NUMPRI && Placed(v, pendings[v.priority]) {
        assert old(Placed(v, pendings[v.priority]));
      }
      forall p | 0 <= p < NUMPRI ensures QueueOk(pendings[p], p) {
        assert old(QueueOk(pendings[p], p));
      }
    }

    /** A pending watcher has only one slot, and one that is not pending has none. */
    lemma SlotsOf(w: Watcher)
      requires Valid() && w in ws
      ensures w.pending > 0 ==>
        && OnlySlot(pendings[w.priority], pendingW, w.pending - 1)
        && pendings[w.priority][w.pending - 1].w == w
      ensures w.pending == 0 ==> forall k | 0 <= k < |pendings[w.priority]| :: pendings[w.priority][k].w != w
    {
      assert Placed(w, pendings[w.priority]) && QueueOk(pendings[w.priority], w.priority);
    }

    lemma Priorities()
      requires Valid()
      ensures forall w | w in ws :: w.priority < NUMPRI
    {
    }

    /** ev_feed_event */
    method FeedEvent(w: Watcher, revents: Events)
      requires Valid() && w in ws
      modifies this, w
      ensures Valid()
      ensures View() == After(old(View()), Feed(w, revents))
      ensures pendingpri == NUMPRI - 1 && w.pending > 0
    {
      ghost var was, view := pendings[w.priority], View();
      SlotsOf(w);
      if w.pending > 0 {
        var i := w.pending - 1;
        ghost var now := was[i := Slot(w, was[i].events + revents)];
        LiveFeed(was, pendingW, i, revents);
        LivesUpdate(pendings, pendingW, w.priority, now);
        WriteSlot(w, Slot(w, pendings[w.priority][i].events + revents));
        AfterFeed(view, w, revents, Live(now, pendingW));
      } else {
        LivePush(was, pendingW, w, revents);
        LivesUpdate(pendings, pendingW, w.priority, was + [Slot(w, revents)]);
        PushSlot(w, revents);
        AfterFeed(view, w, revents, Live(was + [Slot(w, revents)], pendingW));
      }
      pendingpri := NUMPRI - 1;
    }

    /** ev_clear_pending, and clear_pending, which ignores the result. */
    method ClearPending(w: Watcher) returns (events: Events)
      requires Valid() && w in ws
      modifies this`pendings, w
      ensures Valid()
      ensures View() == After(old(View()), Clear(w))
      ensures w.pending == 0 && forall p | 0 <= p < NUMPRI :: |pendings[p]| == old(|pendings[p]|)
      ensures events == if old(w.pending) > 0 then old(pendings[w.priority][w.pending - 1].events) else {}
    {
      events := {};
      if w.pending > 0 {
        events := UnlinkSlot(w);
      } else {
        SlotsOf(w);
        LiveWithout(pendings[w.priority], pendingW, w);
        AfterClearAbsent(View(), w);
      }
    }

    /** The body of the conditional of ev_clear_pending. */
    method UnlinkSlot(w: Watcher) returns (events: Events)
      requires Valid() && w in ws && w.pending > 0
      modifies this`pendings, w
      ensures Valid() && w.pending == 0 && events == old(pendings[w.priority][w.pending - 1].events)
      ensures View() == After(old(View()), Clear(w))
      ensures forall p | 0 <= p < NUMPRI :: |pendings[p]| == old(|pendings[p]|)
    {
      ghost var was, view := pendings[w.priority], View();
      var i := w.pending - 1;
      SlotsOf(w);
      events := pendings[w.priority][i].events;
      LiveClear(was, pendingW, i, events);
      LivesUpdate(pendings, pendingW, w.priority, was[i := Slot(pendingW, events)]);
      AfterClear(view, w, Live(was[i := Slot(pendingW, events)], pendingW));
      WriteSlot(w, Slot(pendingW, events));
    }

    /** The top slot of a queue, as ev_invoke_pending takes it before the callback. */
    method PopSlot(pri: nat) returns (slot: Slot)
      requires Valid() && pri < NUMPRI && pendings[pri] != []
      modifies this`pendings, ws, pendingW
      ensures Valid()
      ensures slot == old(pendings[pri][|pendings[pri]| - 1]) && (slot.w == pendingW || slot.w in ws)
      ensures pendings == old(pendings[pri := pendings[pri][..|pendings[pri]| - 1]])
      ensures slot.w != pendingW ==> slot.w.priority == pri && slot.w.pending == 0
      ensures View() == old(View()[pri := Live(pendings[pri][..|pendings[pri]| - 1], pendingW)])
    {
      var q := pendings[pri];
      assert QueueOk(q, pri);
      slot := q[|q| - 1];
      LivesUpdate(pendings, pendingW, pri, q[..|q| - 1]);
      pendings := pendings[pri := q[..|q| - 1]];
      slot.w.pending := 0;
      forall v | v in ws ensures v.priority < NUMPRI && Placed(v, pendings[v.priority]) {
        assert old(Placed(v, pendings[v.priority]));
      }
      forall p | 0 <= p < NUMPRI ensures QueueOk(pendings[p], p) {
        assert old(QueueOk(pendings[p], p));
      }
    }

    /** feed_reverse_done: the watchers collected by feed_reverse are fed from the last on. */
    method FeedReverseDone(rfeeds: seq<Watcher>, revents: Events)
      requires Valid() && InRange(rfeeds) && forall i | 0 <= i < |rfeeds| :: rfeeds[i] in ws
      modifies this, ws
      ensures Valid()
      ensures View() == FedBackwards(old(View()), rfeeds, revents)
    {
      var rfeedcnt := |rfeeds|;
      ghost var total := FedBackwards(View(), rfeeds, revents);
      assert rfeeds[..rfeedcnt] == rfeeds;
      while rfeedcnt > 0
        invariant Valid() && 0 <= rfeedcnt <= |rfeeds|
        invariant FedBackwards(View(), rfeeds[..rfeedcnt], revents) == total
      {
        rfeedcnt := rfeedcnt - 1;
        FedBackwardsStep(View(), rfeeds, rfeedcnt, revents);
        FeedEvent(rfeeds[rfeedcnt], revents);
      }
    }

    /** All queues above pendingpri are empty. */
    ghost predicate EmptyAbove()
      requires |pendings| == NUMPRI
      reads this
    {
      forall p | pendingpri < p < NUMPRI :: pendings[p] == []
    }

    ghost predicate Knows(script: seq<seq<Act>>)
    {
      forall i | 0 <= i < |script| :: KnowsAll(script[i])
    }

    ghost predicate KnowsAll(acts: seq<Act>)
    {
      forall i | 0 <= i < |acts| && !acts[i].ActInvoke? :: acts[i].w in ws
    }

    /** The slots of a queue are of its priority, and so are the stacks. */
    lemma ViewOk()
      requires Valid()
      ensures StacksOk(View())
    {
      forall p, i | 0 <= p < NUMPRI && 0 <= i < |View()[p]| ensures View()[p][i].w.priority == p {
        LiveMember(pendings[p], pendingW, i);
      }
    }

    lemma KnownOk(script: seq<seq<Act>>)
      requires Valid() && Knows(script)
      ensures ScriptOk(script)
    {
      forall i | 0 <= i < |script| ensures ActsOk(script[i]) { assert KnowsAll(script[i]); }
    }

    /** ev_invoke_pending drains the stacks. The callbacks do what the script says, each call
        taking its next entry; the callbacks after the script do nothing. */
    method InvokePending(script: seq<seq<Act>>) returns (rest: seq<seq<Act>>, ghost trace: seq<Step>)
      requires Valid() && Knows(script)
      modifies this, ws, pendingW
      ensures Valid() && Knows(rest) && |rest| <= |script|
      ensures StacksOk(old(View())) && ScriptOk(script) && Drain(trace, View(), rest) == Drained(old(View()), script)
      ensures pendingpri == 0 && forall p | 0 <= p < NUMPRI :: pendings[p] == []
      decreases |script|, 2
    {
      rest, trace := script, [];
      ViewOk();
      KnownOk(script);
      ghost var total := Drained(View(), script);
      Starts(View(), script);
      pendingpri := NUMPRI;
      while pendingpri > 0
        invariant Valid() && Knows(rest) && |rest| <= |script|
        invariant Continues(trace, View(), rest, total)
        invariant forall p | pendingpri <= p < NUMPRI :: pendings[p] == []
        decreases |rest|, Height(pendings), pendingpri
      {
        Descend();
        rest, trace := EmptyQueue(rest, trace, total);
      }
      NothingPending();
      Ends(trace, View(), rest, total);
    }

    /** --pendingpri */
    method Descend()
      requires Valid() && pendingpri > 0
      modifies this`pendingpri
      ensures Valid() && pendingpri == old(pendingpri) - 1
    {
      pendingpri := pendingpri - 1;
    }

    lemma NothingPending()
      requires Valid() && forall p | 0 <= p < NUMPRI :: pendings[p] == []
      ensures AllEmpty(View())
    {
    }

    /** The inner loop, until the current queue is empty. */
    method EmptyQueue(script: seq<seq<Act>>, ghost before: seq<Step>, ghost total: Drain)
      returns (rest: seq<seq<Act>>, ghost trace: seq<Step>)
      requires Valid() && Knows(script) && pendingpri < NUMPRI
      requires EmptyAbove() && Continues(before, View(), script, total)
      modifies this, ws, pendingW
      ensures Valid() && pendingpri < NUMPRI && Knows(rest) && EmptyAbove() && pendings[pendingpri] == []
      ensures Continues(trace, View(), rest, total)
      ensures |rest| < |script|
        || (rest == script && Height(pendings) <= old(Height(pendings)) && pendingpri == old(pendingpri))
      decreases |script|, 1
    {
      rest, trace := script, before;
      while pendings[pendingpri] != []
        invariant Valid() && pendingpri < NUMPRI && Knows(rest) && EmptyAbove() && Continues(trace, View(), rest, total)
        invariant |rest| < |script|
          || (rest == script && Height(pendings) <= old(Height(pendings)) && pendingpri == old(pendingpri))
        decreases |rest|, Height(pendings)
      {
        rest, trace := CallTop(rest, trace, total);
      }
    }

    /** One round of the inner loop: the last slot of the current queue is taken off, and the
        callback of its watcher runs; the callback of the dummy does nothing. */
    method CallTop(script: seq<seq<Act>>, ghost before: seq<Step>, ghost total: Drain)
      returns (rest: seq<seq<Act>>, ghost trace: seq<Step>)
      requires Valid() && Knows(script) && pendingpri < NUMPRI && pendings[pendingpri] != [] && EmptyAbove()
      requires Continues(before, View(), script, total)
      modifies this, ws, pendingW
      ensures Valid() && pendingpri < NUMPRI && EmptyAbove() && Knows(rest)
      ensures Continues(trace, View(), rest, total)
      ensures |rest| < |script|
        || (rest == script && Height(pendings) < old(Height(pendings)) && pendingpri == old(pendingpri))
      decreases |script|, 0
    {
      ghost var view := View();
      var slot := PopTop();
      rest, trace := script, before;
      if slot.w != pendingW {
        ghost var own: seq<Step> := [];
        if script != [] {
          rest, own := RunCallback(script[0], script[1..]);
        }
        ViewOk();
        KnownOk(rest);
        trace := before + ([Call(slot.w, slot.events)] + own);
        OneCall(before, view, script, total, Drain(own, View(), rest));
      }
    }

    /** The last slot of the current queue is taken off: it is the dummy's, or the top of the
        highest stack. */
    method PopTop() returns (slot: Slot)
      requires Valid() && pendingpri < NUMPRI && pendings[pendingpri] != [] && EmptyAbove()
      modifies this`pendings, ws, pendingW
      ensures Valid() && EmptyAbove() && Height(pendings) < old(Height(pendings))
      ensures slot.w == pendingW ==> View() == old(View())
      ensures StacksOk(old(View())) && StacksOk(View())
      ensures slot.w != pendingW ==> slot.w.pending == 0 && !AllEmpty(old(View()))
      ensures slot.w != pendingW ==>
        && TopCall(old(View())) == Call(slot.w, slot.events)
        && View() == After(old(View()), Call(slot.w, slot.events))
    {
      ghost var view, q := View(), pendings[pendingpri];
      ViewOk();
      HeightUpdate(pendings, pendingpri, q[..|q| - 1]);
      slot := PopSlot(pendingpri);
      ViewOk();
      if slot.w != pendingW {
        assert view[pendingpri] == Live(q[..|q| - 1], pendingW) + [slot];
        HighestIs(view, NUMPRI, pendingpri);
      } else {
        assert view[pendingpri] == Live(q, pendingW) == Live(q[..|q| - 1], pendingW);
        assert View() == view;
      }
    }

    /** What a callback does, in order. */
    method RunCallback(acts: seq<Act>, script: seq<seq<Act>>) returns (rest: seq<seq<Act>>, ghost trace: seq<Step>)
      requires Valid() && Knows(script) && KnowsAll(acts) && pendingpri < NUMPRI && EmptyAbove()
      modifies this, ws, pendingW
      ensures Valid() && pendingpri < NUMPRI && EmptyAbove() && Knows(rest) && |rest| <= |script|
      ensures StacksOk(old(View())) && ActsOk(acts) && ScriptOk(script)
      ensures Drain(trace, View(), rest) == Ran(old(View()), acts, script)
      decreases |script|, 4
    {
      rest, trace := script, [];
      ghost var view := View();
      ViewOk();
      KnownOk(script);
      for i := 0 to |acts|
        invariant Valid() && pendingpri < NUMPRI && EmptyAbove() && Knows(rest) && |rest| <= |script|
        invariant Drain(trace, View(), rest) == Ran(view, acts[..i], script)
      {
        assert acts[..i + 1][..i] == acts[..i];
        ghost var own;
        rest, own := RunAct(acts[i], rest);
        trace := trace + own;
      }
      assert acts[..|acts|] == acts;
    }

    method RunAct(act: Act, script: seq<seq<Act>>) returns (rest: seq<seq<Act>>, ghost trace: seq<Step>)
      requires Valid() && Knows(script) && KnowsAll([act]) && pendingpri < NUMPRI && EmptyAbove()
      modifies this, ws, pendingW
      ensures Valid() && pendingpri < NUMPRI && EmptyAbove() && Knows(rest) && |rest| <= |script|
      ensures StacksOk(old(View())) && ActsOk([act]) && ScriptOk(script)
      ensures Drain(trace, View(), rest) == Acted(old(View()), act, script)
      decreases |script|, 3
    {
      ViewOk();
      KnownOk(script);
      rest, trace := script, [];
      assert act == [act][0];
      match act
      case ActFeed(w, events) =>
        FeedEvent(w, events);
        trace := [Feed(w, events)];
      case ActClear(w) =>
        var _ := ClearPending(w);
        trace := [Clear(w)];
      case ActInvoke =>
        rest, trace := InvokePending(script);
    }
  }

  lemma AfterFeed(s: Stacks, w: Watcher, events: Events, fed: seq<Slot>)
    requires w.priority < NUMPRI && fed == Fed(s[w.priority], w, events)
    ensures After(s, Feed(w, events)) == s[w.priority := fed]
  {
  }

  lemma AfterClear(s: Stacks, w: Watcher, cleared: seq<Slot>)
    requires w.priority < NUMPRI && cleared == Cleared(s[w.priority], w)
    ensures After(s, Clear(w)) == s[w.priority := cleared]
  {
  }

  lemma AfterClearAbsent(s: Stacks, w: Watcher)
    requires Absent(s, w)
    ensures After(s, Clear(w)) == s
  {
  }

  /** What has been done so far, and the drain of what is left, are the whole drain. */
  ghost predicate Continues(trace: seq<Step>, s: Stacks, script: seq<seq<Act>>, total: Drain)
  {
    && StacksOk(s) && ScriptOk(script)
    && var d := Drained(s, script); Drain(trace + d.trace, d.stacks, d.rest) == total
  }

  lemma Starts(s: Stacks, script: seq<seq<Act>>)
    requires StacksOk(s) && ScriptOk(script)
    ensures Continues([], s, script, Drained(s, script))
  {
    assert [] + Drained(s, script).trace == Drained(s, script).trace;
  }

  lemma Ends(trace: seq<Step>, s: Stacks, rest: seq<seq<Act>>, total: Drain)
    requires Continues(trace, s, rest, total) && AllEmpty(s)
    ensures Drain(trace, s, rest) == total
  {
    assert trace + [] == trace;
  }

  /** One call of a drain. */
  lemma OneCall(before: seq<Step>, s: Stacks, script: seq<seq<Act>>, total: Drain, called: Drain)
    requires Continues(before, s, script, total) && !AllEmpty(s)
    requires
      var t := After(s, TopCall(s));
      called == if script == [] then Drain([], t, []) else Ran(t, script[0], script[1..])
    ensures Continues(before + ([TopCall(s)] + called.trace), called.stacks, called.rest, total)
  {
    var later := Drained(called.stacks, called.rest).trace;
    assert before + ([TopCall(s)] + called.trace + later) == before + ([TopCall(s)] + called.trace) + later;
  }

  lemma {:induction false} HighestIs(s: Stacks, n: nat, p: nat)
    requires p < n <= NUMPRI && s[p] != [] && forall q | p < q < n :: s[q] == []
    ensures Highest(s, n) == p
  {
    if p < n - 1 { HighestIs(s, n - 1, p); }
  }

  lemma {:induction false} LiveMember(s: seq<Slot>, dummy: Watcher, i: nat)
    requires i < |Live(s, dummy)|
    ensures Live(s, dummy)[i] in s && Live(s, dummy)[i].w != dummy
  {
    var front, last := s[..|s| - 1], s[|s| - 1];
    if i < |Live(front, dummy)| { LiveMember(front, dummy, i); }
  }

  // ---------- The double reversal of feed_reverse_done and the LIFO queues ----------

  ghost function OfPriority(ws: seq<Watcher>, p: nat): seq<Watcher>
  {
    if ws == [] then []
    else (if ws[0].priority == p then [ws[0]] else []) + OfPriority(ws[1..], p)
  }

  ghost function SlotOwners(s: seq<Slot>): (r: seq<Watcher>)
    ensures |r| == |s| && forall i | 0 <= i < |s| :: r[i] == s[i].w
  {
    seq(|s|, i requires 0 <= i < |s| => s[i].w)
  }

  ghost function CalledBy(step: Step, p: nat): seq<Watcher>
  {
    if step.Call? && step.w.priority == p then [step.w] else []
  }

  /** The watchers called by the steps, of one priority, in order. */
  ghost function CalledOf(steps: seq<Step>, p: nat): seq<Watcher>
  {
    if steps == [] then [] else CalledBy(steps[0], p) + CalledOf(steps[1..], p)
  }

  lemma CallPops(s: Stacks, step: Step)
    requires step.Call? && Allowed(s, step)
    ensures SlotOwners(s[step.w.priority]) == SlotOwners(After(s, step)[step.w.priority]) + [step.w]
  {
  }

  /** Top first: the watchers of a stack that the steps call, and those that are left. */
  ghost function CalledAndLeft(steps: seq<Step>, t: Stacks, p: nat): seq<Watcher>
    requires p < NUMPRI
  {
    CalledOf(steps, p) + Reverse(SlotOwners(t[p]))
  }

  lemma CalledFirst(steps: seq<Step>, t: Stacks, p: nat)
    requires steps != [] && p < NUMPRI
    ensures CalledAndLeft(steps, t, p) == CalledBy(steps[0], p) + CalledAndLeft(steps[1..], t, p)
  {
    var called, later, rest := CalledBy(steps[0], p), CalledOf(steps[1..], p), Reverse(SlotOwners(t[p]));
    assert called + later + rest == called + (later + rest);
  }

  /** While callbacks feed nothing, the calls unwind each stack from its top, and pass over
      nothing but what they clear. */
  lemma {:induction false} CallsUnwind(s: Stacks, steps: seq<Step>, t: Stacks, p: nat)
    requires Leads(s, steps, t) && p < NUMPRI && NoFeeds(steps)
    ensures Subsequence(CalledAndLeft(steps, t, p), Reverse(SlotOwners(s[p])))
    ensures NoClears(steps) ==> CalledAndLeft(steps, t, p) == Reverse(SlotOwners(s[p]))
    decreases |steps|
  {
    if steps == [] {
      assert CalledAndLeft([], s, p) == Reverse(SlotOwners(s[p]));
      SubsequenceSelf(Reverse(SlotOwners(s[p])));
    } else {
      CallsUnwind(After(s, steps[0]), steps[1..], t, p);
      CalledFirst(steps, t, p);
      StepUnwinds(s, steps[0], CalledAndLeft(steps[1..], t, p), p);
    }
  }

  /** One step of the unwinding of a stack. */
  lemma StepUnwinds(s: Stacks, step: Step, left: seq<Watcher>, p: nat)
    requires Allowed(s, step) && !step.Feed? && p < NUMPRI
    requires Subsequence(left, Reverse(SlotOwners(After(s, step)[p])))
    ensures
      var done := CalledBy(step, p) + left;
      && Subsequence(done, Reverse(SlotOwners(s[p])))
      && (step.Call? && left == Reverse(SlotOwners(After(s, step)[p])) ==> done == Reverse(SlotOwners(s[p])))
  {
    assert [] + left == left;
    if step.w.priority == p {
      if step.Call? {
        CallPops(s, step);
        ReverseAppend(SlotOwners(After(s, step)[p]), [step.w]);
        assert Reverse([step.w]) == [step.w] && ([step.w] + left)[1..] == left;
        assert Reverse(SlotOwners(s[p]))[1..] == Reverse(SlotOwners(After(s, step)[p]));
      } else {
        ClearTakesOut(s[p], step.w, left);
      }
    }
  }

  lemma ClearTakesOut(s: seq<Slot>, w: Watcher, left: seq<Watcher>)
    requires Subsequence(left, Reverse(SlotOwners(Cleared(s, w))))
    ensures Subsequence(left, Reverse(SlotOwners(s)))
  {
    var i := IndexOf(s, w);
    if i < |s| {
      var x, y := SlotOwners(s[..i]), SlotOwners(s[i + 1..]);
      assert SlotOwners(Cleared(s, w)) == x + y && SlotOwners(s) == x + ([w] + y);
      ReverseAppend(x, y);
      ReverseAppend(x, [w] + y);
      ReverseAppend([w], y);
      assert Reverse([w]) == [w];
      assert Reverse(y) + [w] + Reverse(x) == Reverse(y) + ([w] + Reverse(x));
      SubsequenceInsert(left, Reverse(y), w, Reverse(x));
    }
  }

  /** A watcher that is on a stack is called, or cleared, or still there. */
  lemma {:induction false} CalledOrCleared(s: Stacks, steps: seq<Step>, t: Stacks, w: Watcher)
    requires Leads(s, steps, t) && w.priority < NUMPRI && w in SlotOwners(s[w.priority])
    ensures w in CalledOf(steps, w.priority) || Clear(w) in steps || w in SlotOwners(t[w.priority])
    decreases |steps|
  {
    if steps != [] {
      var step, q := steps[0], s[w.priority];
      assert steps == [step] + steps[1..];
      if !(step.w == w && !step.Feed?) {
        StaysOn(s, step, w);
        CalledOrCleared(After(s, step), steps[1..], t, w);
      }
    }
  }

  /** Only its own call or clear takes a watcher off its stack. */
  lemma StaysOn(s: Stacks, step: Step, w: Watcher)
    requires Allowed(s, step) && w.priority < NUMPRI && w in SlotOwners(s[w.priority])
    requires step.Feed? || step.w != w
    ensures w in SlotOwners(After(s, step)[w.priority])
  {
    var p := w.priority;
    var i :| 0 <= i < |s[p]| && s[p][i].w == w;
    if step.w.priority == p {
      var r := After(s, step)[p];
      match step
      case Feed(v, _) =>
        assert SlotOwners(r)[i] == w;
      case Clear(v) =>
        var k := IndexOf(s[p], v);
        assert SlotOwners(r)[if i < k || k == |s[p]| then i else i - 1] == w;
      case Call(_, _) =>
        assert SlotOwners(r)[i] == w;
    } else {
      assert SlotOwners(s[p])[i] == w;
    }
  }

  ghost predicate InRange(ws: seq<Watcher>) { forall i | 0 <= i < |ws| :: ws[i].priority < NUMPRI }

  lemma FedBackwardsStep(s: Stacks, ws: seq<Watcher>, k: nat, events: Events)
    requires InRange(ws) && k < |ws|
    ensures FedBackwards(s, ws[..k + 1], events) == FedBackwards(After(s, Feed(ws[k], events)), ws[..k], events)
  {
    assert ws[..k + 1][..k] == ws[..k];
  }

  /** feed_reverse_done: the watchers of rfeeds are fed from the last to the first. */
  ghost function FedBackwards(s: Stacks, ws: seq<Watcher>, events: Events): Stacks
    requires InRange(ws)
    decreases |ws|
  {
    if ws == [] then s
    else FedBackwards(After(s, Feed(ws[|ws| - 1], events)), ws[..|ws| - 1], events)
  }

  ghost predicate Absent(s: Stacks, w: Watcher)
  {
    w.priority < NUMPRI && forall i | 0 <= i < |s[w.priority]| :: s[w.priority][i].w != w
  }

  lemma {:induction false} OfPriorityAppend(ws: seq<Watcher>, vs: seq<Watcher>, p: nat)
    ensures OfPriority(ws + vs, p) == OfPriority(ws, p) + OfPriority(vs, p)
  {
    if ws == [] {
      assert ws + vs == vs;
    } else {
      OfPriorityAppend(ws[1..], vs, p);
      assert (ws + vs)[1..] == ws[1..] + vs && (ws + vs)[0] == ws[0];
    }
  }

  ghost function IfPriority(w: Watcher, p: nat): seq<Watcher> { if w.priority == p then [w] else [] }

  lemma OfPriorityLast(front: seq<Watcher>, w: Watcher, p: nat)
    ensures Reverse(OfPriority(front + [w], p)) == IfPriority(w, p) + Reverse(OfPriority(front, p))
  {
    OfPriorityAppend(front, [w], p);
    assert [w][1..] == [] && OfPriority([w], p) == IfPriority(w, p);
    ReverseAppend(OfPriority(front, p), IfPriority(w, p));
    assert Reverse(IfPriority(w, p)) == IfPriority(w, p);
  }

  /** A watcher that is not pending is pushed. */
  lemma FeedAbsent(s: Stacks, w: Watcher, events: Events, p: nat)
    requires Absent(s, w) && p < NUMPRI
    ensures SlotOwners(After(s, Feed(w, events))[p]) == SlotOwners(s[p]) + IfPriority(w, p)
    ensures forall v | v != w && Absent(s, v) :: Absent(After(s, Feed(w, events)), v)
  {
    assert After(s, Feed(w, events))[w.priority] == s[w.priority] + [Slot(w, events)];
  }

  lemma {:induction false} FedBackwardsStacks(s: Stacks, ws: seq<Watcher>, events: Events, p: nat)
    requires AllDifferent(ws) && p < NUMPRI
    requires InRange(ws) && forall i | 0 <= i < |ws| :: Absent(s, ws[i])
    ensures SlotOwners(FedBackwards(s, ws, events)[p]) == SlotOwners(s[p]) + Reverse(OfPriority(ws, p))
    decreases |ws|
  {
    if ws != [] {
      var front, w := ws[..|ws| - 1], ws[|ws| - 1];
      FeedAbsent(s, w, events, p);
      FedBackwardsStacks(After(s, Feed(w, events)), front, events, p);
      assert ws == front + [w];
      OfPriorityLast(front, w, p);
      var owners, listed := SlotOwners(s[p]), Reverse(OfPriority(front, p));
      assert owners + IfPriority(w, p) + listed == owners + (IfPriority(w, p) + listed);
    }
  }

  lemma {:induction false} FedBackwardsOk(s: Stacks, ws: seq<Watcher>, events: Events)
    requires StacksOk(s) && InRange(ws)
    ensures StacksOk(FedBackwards(s, ws, events))
    decreases |ws|
  {
    if ws != [] { FedBackwardsOk(After(s, Feed(ws[|ws| - 1], events)), ws[..|ws| - 1], events); }
  }

  /** Nothing is pending. */
  ghost function NonePending(): (s: Stacks)
    ensures StacksOk(s) && AllEmpty(s)
  {
    seq(NUMPRI, _ => [])
  }

  /** Watchers fed backwards when nothing else is pending are called forwards by a drain whose
      callbacks feed nothing: those of one priority in the order of the list, and all of them
      but those that are cleared. */
  lemma FedBackwardsCalledForwards(ws: seq<Watcher>, events: Events, script: seq<seq<Act>>, p: nat)
    requires AllDifferent(ws) && p < NUMPRI && InRange(ws) && ScriptOk(script) && FeedsNone(script)
    ensures StacksOk(FedBackwards(NonePending(), ws, events))
    ensures
      var trace := Drained(FedBackwards(NonePending(), ws, events), script).trace;
      && Subsequence(CalledOf(trace, p), OfPriority(ws, p))
      && (forall w | w in OfPriority(ws, p) :: w in CalledOf(trace, p) || Clear(w) in trace)
      && (ClearsNone(script) ==> CalledOf(trace, p) == OfPriority(ws, p))
  {
    var none := NonePending();
    var s := FedBackwards(none, ws, events);
    FedBackwardsOk(none, ws, events);
    var d := Drained(s, script);
    DrainedLeads(s, script);
    DrainObeys(s, script);
    forall i | 0 <= i < |ws| ensures Absent(none, ws[i]) {}
    FedBackwardsStacks(none, ws, events, p);
    CallsUnwind(s, d.trace, d.stacks, p);
    var called, listed := CalledOf(d.trace, p), Reverse(OfPriority(ws, p));
    assert SlotOwners(none[p]) == [] && SlotOwners(d.stacks[p]) == [] && called + [] == called && [] + listed == listed;
    ReverseTwice(OfPriority(ws, p));
    forall w | w in OfPriority(ws, p) ensures w in called || Clear(w) in d.trace {
      OfPriorityMembers(ws, p, w);
      ReverseMembers(OfPriority(ws, p), w);
      CalledOrCleared(s, d.trace, d.stacks, w);
    }
  }

  lemma {:induction false} OfPriorityMembers(ws: seq<Watcher>, p: nat, w: Watcher)
    requires w in OfPriority(ws, p)
    ensures w in ws && w.priority == p
  {
    if ws[0] != w || w.priority != p { OfPriorityMembers(ws[1..], p, w); }
  }

  /** The watchers are cleared, from the first to the last. */
  ghost function ClearedAll(s: Stacks, ws: seq<Watcher>): Stacks
    requires InRange(ws)
  {
    if ws == [] then s else After(ClearedAll(s, ws[..|ws| - 1]), Clear(ws[|ws| - 1]))
  }

  lemma {:induction false} ClearedAbsent(s: Stacks, ws: seq<Watcher>)
    requires InRange(ws) && forall i | 0 <= i < |ws| :: Absent(s, ws[i])
    ensures ClearedAll(s, ws) == s
  {
    if ws != [] { ClearedAbsent(s, ws[..|ws| - 1]); }
  }
}
