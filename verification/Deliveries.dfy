/** What callbacks are told: a call of a watcher delivers what was fed to it since it was called
    or cleared last. */
module Deliveries {
  import opened Dispatch

  /** Whether a watcher is pending, and with which events. */
  datatype Want = Want(pending: bool, events: Events)

  const Nothing: Want := Want(false, {})

  /** By what has happened to it. */
  ghost function WantStep(want: Want, step: Step, w: Watcher): Want
  {
    if step.w != w then want else if step.Feed? then Want(true, want.events + step.events) else Nothing
  }

  ghost function WantAfter(want: Want, steps: seq<Step>, w: Watcher): Want
    decreases |steps|
  {
    if steps == [] then want else WantAfter(WantStep(want, steps[0], w), steps[1..], w)
  }

  /** By the stacks. */
  ghost function WantOf(s: Stacks, w: Watcher): Want
    requires w.priority < NUMPRI
  {
    var i := IndexOf(s[w.priority], w);
    if i < |s[w.priority]| then Want(true, s[w.priority][i].events) else Nothing
  }

  /** A watcher is on one stack, once. */
  ghost predicate EachOnce(s: Stacks)
  {
    StacksOk(s) && forall p, i, j | 0 <= p < NUMPRI && 0 <= i < j < |s[p]| :: s[p][i].w != s[p][j].w
  }

  ghost predicate StackOnce(s: seq<Slot>) { forall i, j | 0 <= i < j < |s| :: s[i].w != s[j].w }

  lemma {:induction false} IndexIs(s: seq<Slot>, w: Watcher, i: nat)
    requires StackOnce(s) && i < |s| && s[i].w == w
    ensures IndexOf(s, w) == i
  {
  }

  lemma {:induction false} Absent(s: seq<Slot>, w: Watcher)
    requires forall i | 0 <= i < |s| :: s[i].w != w
    ensures IndexOf(s, w) == |s|
  {
  }

  lemma FedWants(s: seq<Slot>, v: Watcher, events: Events, w: Watcher)
    requires StackOnce(s)
    ensures
      var t := Fed(s, v, events);
      var i, j := IndexOf(s, w), IndexOf(t, w);
      && StackOnce(t)
      && (v != w ==> (j < |t| <==> i < |s|) && (i < |s| ==> t[j].events == s[i].events))
      && (v == w ==> j < |t| && t[j].events == if i < |s| then s[i].events + events else events)
  {
    var t := Fed(s, v, events);
    var i := IndexOf(s, w);
    if i < |s| {
      assert t[i].w == w;
      IndexIs(t, w, i);
    } else if v == w {
      IndexIs(t, w, |s|);
    } else {
      Absent(t, w);
    }
  }

  lemma TakenOut(s: seq<Slot>, k: nat, w: Watcher)
    requires StackOnce(s) && k < |s|
    ensures
      var t := s[..k] + s[k + 1..];
      var i, j := IndexOf(s, w), IndexOf(t, w);
      && StackOnce(t)
      && (s[k].w != w ==> (j < |t| <==> i < |s|) && (i < |s| ==> t[j].events == s[i].events))
      && (s[k].w == w ==> j == |t|)
  {
    var t := s[..k] + s[k + 1..];
    var i := IndexOf(s, w);
    if s[k].w == w || i == |s| {
      Absent(t, w);
    } else {
      IndexIs(t, w, if i < k then i else i - 1);
    }
  }

  /** Only the stack of its priority changes. */
  lemma StackChanged(s: Stacks, p: nat, t: seq<Slot>, w: Watcher)
    requires EachOnce(s) && p < NUMPRI && w.priority < NUMPRI && StackOnce(t)
    requires forall i | 0 <= i < |t| :: t[i].w.priority == p
    ensures EachOnce(s[p := t]) && (w.priority != p ==> WantOf(s[p := t], w) == WantOf(s, w))
  {
  }

  lemma FeedWants(s: Stacks, v: Watcher, events: Events, w: Watcher)
    requires EachOnce(s) && v.priority < NUMPRI && w.priority < NUMPRI
    ensures var t := After(s, Feed(v, events));
      EachOnce(t) && WantOf(t, w) == WantStep(WantOf(s, w), Feed(v, events), w)
  {
    var p := v.priority;
    FedWants(s[p], v, events, w);
    StackChanged(s, p, Fed(s[p], v, events), w);
  }

  lemma TakeWants(s: Stacks, p: nat, k: nat, w: Watcher)
    requires EachOnce(s) && p < NUMPRI && k < |s[p]| && w.priority < NUMPRI
    ensures var t := s[p := s[p][..k] + s[p][k + 1..]];
      EachOnce(t) && WantOf(t, w) == if s[p][k].w == w then Nothing else WantOf(s, w)
  {
    TakenOut(s[p], k, w);
    StackChanged(s, p, s[p][..k] + s[p][k + 1..], w);
  }

  /** The stacks agree with the history, step by step. */
  lemma StepWants(s: Stacks, step: Step, w: Watcher)
    requires EachOnce(s) && Allowed(s, step) && w.priority < NUMPRI
    ensures EachOnce(After(s, step)) && WantOf(After(s, step), w) == WantStep(WantOf(s, w), step, w)
    ensures step.Call? && step.w == w ==> WantOf(s, w) == Want(true, step.events)
  {
    var p := step.w.priority;
    match step
    case Feed(v, events) => FeedWants(s, v, events, w);
    case Clear(v) =>
      var i := IndexOf(s[p], v);
      if i < |s[p]| { TakeWants(s, p, i, w); } else { assert s[p := s[p]] == s; }
    case Call(v, events) =>
      var last := |s[p]| - 1;
      assert s[p][..last] + s[p][last + 1..] == s[p][..last];
      TakeWants(s, p, last, w);
      IndexIs(s[p], v, last);
  }

  /** In every run a watcher is pending exactly with what was fed to it since its last call or
      clear, and every call delivers just that. */
  lemma {:induction false} CallsDeliver(s: Stacks, steps: seq<Step>, t: Stacks, w: Watcher)
    requires EachOnce(s) && Leads(s, steps, t) && w.priority < NUMPRI
    ensures EachOnce(t) && WantOf(t, w) == WantAfter(WantOf(s, w), steps, w)
    ensures forall k | 0 <= k < |steps| && steps[k].Call? && steps[k].w == w ::
      WantAfter(WantOf(s, w), steps[..k], w) == Want(true, steps[k].events)
    decreases |steps|
  {
    if steps != [] {
      var u := After(s, steps[0]);
      StepWants(s, steps[0], w);
      CallsDeliver(u, steps[1..], t, w);
      forall k | 0 <= k < |steps| && steps[k].Call? && steps[k].w == w
        ensures WantAfter(WantOf(s, w), steps[..k], w) == Want(true, steps[k].events)
      {
        if k > 0 { assert steps[..k][1..] == steps[1..][..k - 1] && steps[1..][k - 1] == steps[k]; }
      }
    }
  }

  /** The calls of ev_invoke_pending, whatever its callbacks do. */
  lemma DrainDelivers(s: Stacks, script: seq<seq<Act>>, w: Watcher)
    requires EachOnce(s) && ScriptOk(script) && w.priority < NUMPRI
    ensures
      var trace := Drained(s, script).trace;
      && WantAfter(WantOf(s, w), trace, w) == Nothing
      && forall k | 0 <= k < |trace| && trace[k].Call? && trace[k].w == w ::
        WantAfter(WantOf(s, w), trace[..k], w) == Want(true, trace[k].events)
  {
    DrainedLeads(s, script);
    CallsDeliver(s, Drained(s, script).trace, Drained(s, script).stacks, w);
  }

  // ---------- the effects of callbacks ----------

  /** What the callbacks of a script feed and clear. */
  ghost function ActEffect(act: Act): multiset<Step>
  {
    match act
    case ActFeed(w, events) => multiset{Feed(w, events)}
    case ActClear(w) => multiset{Clear(w)}
    case ActInvoke => multiset{}
  }

  ghost function ActEffects(acts: seq<Act>): multiset<Step>
  {
    if acts == [] then multiset{} else ActEffects(acts[..|acts| - 1]) + ActEffect(acts[|acts| - 1])
  }

  ghost function ScriptEffects(script: seq<seq<Act>>): multiset<Step>
  {
    if script == [] then multiset{} else ActEffects(script[0]) + ScriptEffects(script[1..])
  }

  /** What a run feeds and clears. */
  ghost function Effects(steps: seq<Step>): multiset<Step>
  {
    if steps == [] then multiset{} else
      (if steps[0].Call? then multiset{} else multiset{steps[0]}) + Effects(steps[1..])
  }

  lemma {:induction false} EffectsConcat(a: seq<Step>, b: seq<Step>)
    ensures Effects(a + b) == Effects(a) + Effects(b)
  {
    if a == [] {
      assert a + b == b;
    } else {
      assert (a + b)[1..] == a[1..] + b;
      EffectsConcat(a[1..], b);
    }
  }

  lemma CallIsNoEffect(step: Step, steps: seq<Step>)
    requires step.Call?
    ensures Effects([step] + steps) == Effects(steps)
  {
    assert ([step] + steps)[1..] == steps;
  }

  /** A drain feeds and clears exactly what the callbacks that ran feed and clear. */
  lemma {:induction false} DrainDoes(s: Stacks, script: seq<seq<Act>>)
    requires StacksOk(s) && ScriptOk(script)
    ensures var d := Drained(s, script); Effects(d.trace) + ScriptEffects(d.rest) == ScriptEffects(script)
    decreases |script|, 0, Height(s)
  {
    if !AllEmpty(s) {
      var step := TopCall(s);
      var t := After(s, step);
      var called := if script == [] then Drain([], t, []) else Ran(t, script[0], script[1..]);
      if script != [] { CallDoes(t, script[0], script[1..]); }
      DrainDoes(called.stacks, called.rest);
      var later := Drained(called.stacks, called.rest);
      EffectsConcat([step] + called.trace, later.trace);
      CallIsNoEffect(step, called.trace);
      Balance(Effects(called.trace), ScriptEffects(called.rest), multiset{}, ScriptEffects(script),
              Effects(later.trace), ScriptEffects(later.rest), multiset{});
    }
  }

  lemma {:induction false} CallDoes(s: Stacks, acts: seq<Act>, script: seq<seq<Act>>)
    requires StacksOk(s) && ActsOk(acts) && ScriptOk(script)
    ensures
      var d := Ran(s, acts, script);
      Effects(d.trace) + ScriptEffects(d.rest) == ActEffects(acts) + ScriptEffects(script)
    decreases |script|, 2, |acts|
  {
    if acts != [] {
      var front, act := acts[..|acts| - 1], acts[|acts| - 1];
      var d := Ran(s, front, script);
      var e := Acted(d.stacks, act, d.rest);
      CallDoes(s, front, script);
      if act.ActInvoke? { DrainDoes(d.stacks, d.rest); } else { ActDoes(d.stacks, act, d.rest); }
      EffectsConcat(d.trace, e.trace);
      Balance(Effects(d.trace), ScriptEffects(d.rest), ActEffects(front), ScriptEffects(script),
              Effects(e.trace), ScriptEffects(e.rest), ActEffect(act));
    }
  }

  lemma ActDoes(s: Stacks, act: Act, script: seq<seq<Act>>)
    requires StacksOk(s) && ActsOk([act]) && ScriptOk(script) && !act.ActInvoke?
    ensures var e := Acted(s, act, script); e.rest == script && Effects(e.trace) == ActEffect(act)
  {
    assert Acted(s, act, script).trace[1..] == [];
  }

  lemma Balance(a: multiset<Step>, rest: multiset<Step>, front: multiset<Step>, script: multiset<Step>,
                b: multiset<Step>, left: multiset<Step>, act: multiset<Step>)
    requires a + rest == front + script && b + left == act + rest
    ensures (a + b) + left == (front + act) + script
  {
    assert (a + b) + left == a + (act + rest) == (a + rest) + act;
  }
}
