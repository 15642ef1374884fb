/** hmgev's event loop over libev: callers on any thread queue operations and write a byte to a
    wake-up pipe; the loop thread drains the queue and runs callbacks. What runs under the
    loop's lock is one step. */
module Gev {
  import opened Sequences

  /** Bits of an event mask, EVENTS_MASK. */
  type Mask = set<nat>

  datatype Kind = Add | Remove | Modify

  /** GLoopOps */
  datatype Op = Op(event: nat, kind: Kind)

  /** GEvent. `handles` counts the references that callers hold; `changing` the callers that
      have changed the mask and are about to queue a modification. */
  datatype Event = Event(
    refs: int, handles: nat, attached: bool, inLoop: bool, fd: int, timeout: int, events: Mask,
    ioActive: bool, ioMask: Mask, ioPending: bool, timerActive: bool, timerPending: bool, changing: nat)

  /** What the loop thread does: it polls; it has run an operation and is about to release the
      operation's event, or to take the lock again; or it is in a callback for an event. */
  datatype Phase = Idle | Release(op: nat) | Relock | Callback(event: nat, io: bool)

  /** GEventLoop and its events. `log` and `ran` are the operations that were ever queued and
      ever run. */
  datatype State = State(
    evs: seq<Event>, list: seq<nat>, queue: seq<Op>, requestPending: bool, pipe: nat, quited: bool,
    phase: Phase, log: seq<Op>, ran: seq<Op>)

  const Init: State := State([], [], [], false, 0, false, Idle, [], [])

  // ---------- parts of the steps ----------

  /** g_event_block_wakup */
  function WokenUp(s: State): State
  {
    if s.requestPending then s else s.(requestPending := true, pipe := s.pipe + 1)
  }

  /** An operation is queued, with a reference to its event, and the loop is woken up. */
  function Pushed(s: State, op: Op): State
    requires op.event < |s.evs|
  {
    var e := s.evs[op.event];
    WokenUp(s.(evs := s.evs[op.event := e.(refs := e.refs + 1)], queue := s.queue + [op], log := s.log + [op]))
  }

  /** ev_io_stop of the event's watcher, if it has a descriptor */
  function IoStopped(e: Event): Event
  {
    if e.fd >= 0 then e.(ioActive := false, ioPending := false) else e
  }

  /** ev_io_init, and ev_io_start for a mask that is not empty */
  function IoStarted(e: Event): Event
  {
    if e.fd >= 0 then e.(ioPending := false, ioActive := e.events != {}, ioMask := e.events) else e
  }

  /** g_event_loop_sync_add */
  function SyncAdded(e: Event): Event
  {
    var f := IoStarted(e);
    (if e.timeout > 0 then f.(timerActive := true, timerPending := false) else f).(inLoop := true)
  }

  /** g_event_loop_sync_remove */
  function SyncRemoved(e: Event): Event
  {
    var f := IoStopped(e);
    (if e.timeout >= 0 then f.(timerActive := false, timerPending := false) else f).(inLoop := false)
  }

  /** g_event_loop_sync_io_modified */
  function SyncModified(e: Event): Event
  {
    if !e.inLoop then e else IoStarted(IoStopped(e))
  }

  /** g_list_delete_link of the first link with the event */
  function Deleted(list: seq<nat>, e: nat): seq<nat>
  {
    if list == [] then [] else if list[0] == e then list[1..] else [list[0]] + Deleted(list[1..], e)
  }

  /** A listed event is taken off the list and its watchers are stopped. */
  function Unlisted(s: State, e: nat): State
    requires e < |s.evs|
  {
    if e !in s.list then s else
      var f := SyncRemoved(s.evs[e]);
      s.(list := Deleted(s.list, e), evs := s.evs[e := f.(refs := f.refs - 1)])
  }

  /** One of the three functions of operations. */
  function Executed(s: State, op: Op): State
    requires op.event < |s.evs|
  {
    var e := s.evs[op.event];
    match op.kind
    case Add => s.(list := [op.event] + s.list, evs := s.evs[op.event := SyncAdded(e).(refs := e.refs + 1)])
    case Remove => Unlisted(s, op.event)
    case Modify => s.(evs := s.evs[op.event := SyncModified(e)])
  }

  /** g_event_loop_exec_operations, from one g_queue_pop_head to the next unlock. */
  function Drained(s: State): State
    requires s.queue != [] ==> s.queue[0].event < |s.evs|
  {
    if s.queue == [] then s.(phase := Idle) else
      var op := s.queue[0];
      Executed(s.(queue := s.queue[1..], ran := s.ran + [op]), op).(phase := Release(op.event))
  }

  /** ev_timer_again with a positive repeat value */
  function TimerAgain(e: Event): Event { e.(timerActive := true, timerPending := false) }

  // ---------- the steps ----------

  datatype Step =
    // any thread
    | NewEvent(fd: int, events: Mask)
    | Ref(e: nat) | Unref(e: nat)
    | SetTimeout(e: nat, timeout: int)
    | Attach(e: nat) | RemoveEvent(e: nat)
    | ChangeMask(e: nat, mask: Mask) | QueueModify(e: nat)
    | Quit
    // the loop thread in a callback
    | ModTimerSync(e: nat, millis: int) | ChangeMaskSync(e: nat, mask: Mask)
    | Return(keep: bool)
    // the loop thread
    | WakeUp | ReleaseOp | LockAgain
    | PollIo(e: nat) | Expire(e: nat)
    | DispatchIo(e: nat) | DispatchTimer(e: nat)

  /** A caller may use an event while it holds a reference, or in a callback for it. */
  predicate MayUse(s: State, e: nat)
  {
    e < |s.evs| && (s.evs[e].handles > 0 || InCallback(s, e))
  }

  predicate InCallback(s: State, e: nat) { s.phase.Callback? && s.phase.event == e }

  /** The functions whose names end in _sync may only be called in the callback of the event
      itself, where it is listed. The model allows them for every listed event. */
  predicate MaySync(s: State, e: nat) { s.phase.Callback? && e in s.list && e < |s.evs| }

  /** References, and a callback, that no unfinished call of g_event_add_events or
      g_event_remove_events uses. */
  function Spare(s: State, e: nat): int
    requires e < |s.evs|
  {
    s.evs[e].handles + (if InCallback(s, e) then 1 else 0) - s.evs[e].changing
  }

  predicate Enabled(s: State, step: Step)
  {
    match step
    case NewEvent(_, _) => true
    case Ref(e) => MayUse(s, e)
    case Unref(e) => e < |s.evs| && s.evs[e].handles > 0 && Spare(s, e) > 0
    case SetTimeout(e, _) => MayUse(s, e) && !s.evs[e].attached
    case Attach(e) => MayUse(s, e)
    case RemoveEvent(e) => MayUse(s, e)
    case ChangeMask(e, mask) => MayUse(s, e) && Spare(s, e) > 0 && mask != s.evs[e].events
    case QueueModify(e) => e < |s.evs| && s.evs[e].changing > 0
    case Quit => true
    case ModTimerSync(e, millis) => MaySync(s, e) && millis > 0
    case ChangeMaskSync(e, mask) => MaySync(s, e) && mask != s.evs[e].events
    case Return(_) => s.phase.Callback? && s.phase.event < |s.evs| && Spare(s, s.phase.event) > 0
    case WakeUp => s.phase == Idle && s.pipe > 0 && (s.queue != [] ==> s.queue[0].event < |s.evs|)
    case ReleaseOp => s.phase.Release? && s.phase.op < |s.evs|
    case LockAgain => s.phase == Relock && (s.queue != [] ==> s.queue[0].event < |s.evs|)
    case PollIo(e) => s.phase == Idle && e < |s.evs| && s.evs[e].ioActive
    case Expire(e) => s.phase == Idle && e < |s.evs| && s.evs[e].timerActive
    case DispatchIo(e) => s.phase == Idle && e < |s.evs| && s.evs[e].ioPending
    case DispatchTimer(e) => s.phase == Idle && e < |s.evs| && s.evs[e].timerPending
  }

  function Next(s: State, step: Step): State
    requires Enabled(s, step)
  {
    match step
    case NewEvent(fd, events) =>
      s.(evs := s.evs + [Event(1, 1, false, false, fd, -1, events, false, {}, false, false, false, 0)])
    case Ref(e) => s.(evs := s.evs[e := s.evs[e].(refs := s.evs[e].refs + 1, handles := s.evs[e].handles + 1)])
    case Unref(e) => s.(evs := s.evs[e := s.evs[e].(refs := s.evs[e].refs - 1, handles := s.evs[e].handles - 1)])
    case SetTimeout(e, timeout) => s.(evs := s.evs[e := s.evs[e].(timeout := timeout)])
    case Attach(e) =>
      if s.evs[e].attached then s else
        var t := s.(evs := s.evs[e := s.evs[e].(attached := true)]);
        if s.quited then t else Pushed(t, Op(e, Add))
    case RemoveEvent(e) => if s.evs[e].attached && !s.quited then Pushed(s, Op(e, Remove)) else s
    case ChangeMask(e, mask) => s.(evs := s.evs[e := s.evs[e].(events := mask, changing := s.evs[e].changing + 1)])
    case QueueModify(e) =>
      var t := s.(evs := s.evs[e := s.evs[e].(changing := s.evs[e].changing - 1)]);
      if s.evs[e].attached && !s.quited then Pushed(t, Op(e, Modify)) else t
    case Quit => if s.quited then s else WokenUp(s.(quited := true))
    case ModTimerSync(e, millis) => s.(evs := s.evs[e := TimerAgain(s.evs[e].(timeout := millis))])
    case ChangeMaskSync(e, mask) => s.(evs := s.evs[e := SyncModified(s.evs[e].(events := mask))])
    case Return(keep) =>
      var e := s.phase.event;
      var t := s.(phase := Idle);
      if !keep then Unlisted(t, e)
      else if s.phase.io && s.evs[e].timeout > 0 then t.(evs := t.evs[e := TimerAgain(t.evs[e])])
      else t
    case WakeUp => Drained(s.(requestPending := false, pipe := s.pipe - 1))
    case ReleaseOp =>
      var e := s.phase.op;
      s.(evs := s.evs[e := s.evs[e].(refs := s.evs[e].refs - 1)], phase := Relock)
    case LockAgain => Drained(s)
    case PollIo(e) => s.(evs := s.evs[e := s.evs[e].(ioPending := true)])
    case Expire(e) => s.(evs := s.evs[e := s.evs[e].(timerPending := true)])
    case DispatchIo(e) => s.(evs := s.evs[e := s.evs[e].(ioPending := false)], phase := Callback(e, true))
    case DispatchTimer(e) => s.(evs := s.evs[e := s.evs[e].(timerPending := false)], phase := Callback(e, false))
  }

  // ---------- the invariant ----------

  function Count(q: seq<Op>, e: nat): nat
  {
    if q == [] then 0 else (if q[0].event == e then 1 else 0) + Count(q[1..], e)
  }

  function Adds(q: seq<Op>, e: nat): nat
  {
    if q == [] then 0 else (if q[0] == Op(e, Add) then 1 else 0) + Adds(q[1..], e)
  }

  lemma {:induction false} CountConcat(a: seq<Op>, b: seq<Op>, e: nat)
    ensures Count(a + b, e) == Count(a, e) + Count(b, e) && Adds(a + b, e) == Adds(a, e) + Adds(b, e)
  {
    if a == [] {
      assert a + b == b;
    } else {
      CountConcat(a[1..], b, e);
      assert (a + b)[1..] == a[1..] + b;
    }
  }

  lemma {:induction false} CountMember(q: seq<Op>, op: Op)
    requires op in q
    ensures Count(q, op.event) > 0 && (op.kind == Add ==> Adds(q, op.event) > 0)
  {
    if q[0] != op { CountMember(q[1..], op); }
  }

  /** A byte is in the pipe exactly while a request is pending, and a queue that is not being
      drained has one. */
  ghost predicate WakeInv(s: State)
  {
    && s.pipe == (if s.requestPending then 1 else 0)
    && (s.queue != [] && (s.phase == Idle || s.phase.Callback?) ==> s.requestPending)
  }

  /** The operations have run in the order of the queue, and none is lost. */
  ghost predicate LogInv(s: State)
  {
    && s.log == s.ran + s.queue
    && (forall i | 0 <= i < |s.queue| :: s.queue[i].event < |s.evs|)
    && (s.phase.Release? ==> s.phase.op < |s.evs|)
  }

  /** The references of an event that the loop holds. */
  function LoopRefs(s: State, e: nat): nat
  {
    (if e in s.list then 1 else 0) + Count(s.queue, e) + (if s.phase == Release(e) then 1 else 0)
  }

  ghost predicate RefsOk(s: State, e: nat)
    requires e < |s.evs|
  {
    s.evs[e].refs == s.evs[e].handles + LoopRefs(s, e) && Spare(s, e) >= 0
  }

  /** An event is added once: while it is listed its operation has run. */
  ghost predicate ListOk(s: State, e: nat)
    requires e < |s.evs|
  {
    && Adds(s.log, e) <= (if s.evs[e].attached then 1 else 0)
    && (e in s.list ==> Adds(s.ran, e) == 1)
    && (s.evs[e].inLoop <==> e in s.list)
  }

  ghost predicate Quiet(e: Event) { !e.ioActive && !e.ioPending && !e.timerActive && !e.timerPending }

  /** Watchers are active or pending for listed events only. */
  ghost predicate WatchOk(s: State, e: nat)
    requires e < |s.evs|
  {
    var f := s.evs[e];
    && (e !in s.list ==> Quiet(f))
    && (f.ioActive || f.ioPending ==> f.fd >= 0)
    && (f.timerActive || f.timerPending ==> f.timeout > 0)
  }

  /** The mask that is watched for. */
  function Watched(e: Event): Mask { if e.ioActive then e.ioMask else {} }

  /** Before quit, a listed event is watched with its mask, unless a modification of it is
      queued, or about to be. */
  ghost predicate MaskOk(s: State, e: nat)
    requires e < |s.evs|
  {
    var f := s.evs[e];
    e in s.list && f.fd >= 0 && !s.quited ==> Watched(f) == f.events || Op(e, Modify) in s.queue || f.changing > 0
  }

  ghost predicate EventOk(s: State, e: nat)
    requires e < |s.evs|
  {
    RefsOk(s, e) && ListOk(s, e) && WatchOk(s, e) && MaskOk(s, e)
  }

  ghost predicate Inv(s: State)
  {
    && WakeInv(s) && Consistent(s)
    && (s.phase.Callback? ==> s.phase.event in s.list)
  }

  ghost predicate Consistent(s: State)
  {
    && LogInv(s) && AllDifferent(s.list)
    && (forall i | 0 <= i < |s.list| :: s.list[i] < |s.evs|)
    && (forall e: nat | e >= |s.evs| :: Adds(s.log, e) == 0)
    && (forall e: nat | e < |s.evs| :: EventOk(s, e))
  }

  lemma InitInv()
    ensures Inv(Init)
  {
  }

  // ---------- every step keeps it ----------

  /** Only one event has changed, and the loop's lists have not. */
  ghost predicate OnlyEvent(s: State, t: State, e: nat)
  {
    && e < |s.evs| == |t.evs| && (forall f | 0 <= f < |s.evs| && f != e :: t.evs[f] == s.evs[f])
    && t == s.(evs := t.evs)
  }

  lemma OnlyEventKeeps(s: State, t: State, e: nat)
    requires Inv(s) && OnlyEvent(s, t, e) && EventOk(t, e)
    ensures Inv(t)
  {
    forall f: nat | f < |t.evs| ensures EventOk(t, f) {
      assert EventOk(s, f);
    }
  }

  /** Queuing an operation. */
  lemma PushedKeeps(s: State, op: Op)
    requires Inv(s) && op.event < |s.evs| && (op.kind == Add ==> s.evs[op.event].attached && Adds(s.log, op.event) == 0)
    ensures Inv(Pushed(s, op))
  {
    var t := Pushed(s, op);
    assert t.log == s.ran + t.queue;
    forall f: nat ensures Count(t.queue, f) == Count(s.queue, f) + (if f == op.event then 1 else 0)
      ensures Adds(t.log, f) == Adds(s.log, f) + if op == Op(f, Add) then 1 else 0
    {
      CountConcat(s.queue, [op], f);
      CountConcat(s.log, [op], f);
      assert [op][1..] == [];
    }
    forall f: nat | f < |t.evs| ensures EventOk(t, f) {
      assert EventOk(s, f);
      assert Op(f, Modify) in s.queue ==> Op(f, Modify) in t.queue;
    }
  }

  lemma {:induction false} DeletedIs(list: seq<nat>, e: nat)
    requires AllDifferent(list)
    ensures AllDifferent(Deleted(list, e))
    ensures forall x :: x in Deleted(list, e) <==> x in list && x != e
  {
    if list != [] {
      DeletedIs(list[1..], e);
      var rest := Deleted(list[1..], e);
      assert list == [list[0]] + list[1..];
      assert forall x :: x in list <==> x == list[0] || x in list[1..];
      assert list[0] !in list[1..];
      if list[0] != e { assert forall j | 0 < j < |[list[0]] + rest| :: ([list[0]] + rest)[j] in rest; }
    }
  }

  /** Taking an event off the list. */
  lemma UnlistedKeeps(s: State, e: nat)
    requires Consistent(s) && e < |s.evs| && (InCallback(s, e) ==> Spare(s, e) > 0)
    ensures Consistent(Unlisted(s, e)) && e !in Unlisted(s, e).list
  {
    var t := Unlisted(s, e);
    DeletedIs(s.list, e);
    if e in s.list {
      forall f: nat | f < |t.evs| ensures EventOk(t, f) {
        assert EventOk(s, f);
      }
      assert forall i | 0 <= i < |t.list| :: t.list[i] in t.list;
    }
  }

  /** The counts after the first operation has been taken from the queue. */
  lemma PoppedCounts(s: State, op: Op, f: nat)
    requires s.queue != [] && s.queue[0] == op && s.log == s.ran + s.queue
    ensures Adds(s.ran + [op], f) == Adds(s.ran, f) + (if op == Op(f, Add) then 1 else 0)
    ensures Adds(s.log, f) == Adds(s.ran, f) + Adds(s.queue, f)
    ensures Count(s.queue, f) == Count(s.queue[1..], f) + (if op.event == f then 1 else 0)
    ensures Op(f, Modify) in s.queue <==> Op(f, Modify) == op || Op(f, Modify) in s.queue[1..]
  {
    CountConcat(s.ran, [op], f);
    CountConcat(s.ran, s.queue, f);
    assert [op][1..] == [];
    assert s.queue == [op] + s.queue[1..];
  }

  /** What an operation does to the list. */
  lemma ExecutedList(s: State, op: Op)
    requires AllDifferent(s.list) && op.event < |s.evs| && (op.kind == Add ==> op.event !in s.list)
    ensures var t := Executed(s, op);
      && AllDifferent(t.list)
      && (forall x :: x in t.list <==> if x == op.event && op.kind != Modify then op.kind == Add else x in s.list)
  {
    DeletedIs(s.list, op.event);
    var added := [op.event] + s.list;
    assert forall x :: x in added <==> x == op.event || x in s.list;
    if op.kind == Add { assert forall j | 0 < j < |added| :: added[j] == s.list[j - 1] && added[j] in s.list; }
  }

  lemma ExecutedEvent(s: State, op: Op)
    requires Consistent(s) && (s.phase == Idle || s.phase == Relock) && s.queue != [] && s.queue[0] == op
    requires op.kind == Add ==> op.event !in s.list
    ensures EventOk(Drained(s), op.event)
  {
    var e := op.event;
    PoppedCounts(s, op, e);
    ExecutedList(s, op);
    assert EventOk(s, e);
    match op.kind
    case Add =>
    case Remove =>
    case Modify =>
  }

  lemma OtherEvent(s: State, op: Op, f: nat)
    requires LogInv(s) && (s.phase == Idle || s.phase == Relock) && s.queue != [] && s.queue[0] == op
    requires AllDifferent(s.list) && (op.kind == Add ==> op.event !in s.list)
    requires f < |s.evs| && f != op.event && EventOk(s, f)
    ensures |Drained(s).evs| == |s.evs| && EventOk(Drained(s), f)
  {
    PoppedCounts(s, op, f);
    ExecutedList(s, op);
    assert Drained(s).evs[f] == s.evs[f];
  }

  /** The log and the list after it. */
  lemma PoppedLists(s: State, op: Op)
    requires Consistent(s) && s.queue != [] && s.queue[0] == op && (op.kind == Add ==> op.event !in s.list)
    ensures var t := Drained(s);
      LogInv(t) && AllDifferent(t.list) && |t.evs| == |s.evs| && forall i | 0 <= i < |t.list| :: t.list[i] < |t.evs|
    ensures Drained(s).log == s.log
  {
    var t := Drained(s);
    assert t.log == t.ran + t.queue;
    ExecutedList(s, op);
    assert forall i | 0 <= i < |t.list| :: t.list[i] in t.list;
  }

  /** An operation that has been taken from the queue has run; the loop still holds its
      reference. */
  lemma ExecutedKeeps(s: State, op: Op)
    requires Consistent(s) && (s.phase == Idle || s.phase == Relock) && s.queue != [] && s.queue[0] == op
    ensures Consistent(Drained(s))
  {
    var t := Drained(s);
    PoppedCounts(s, op, op.event);
    assert EventOk(s, op.event);
    assert op.kind == Add ==> op.event !in s.list;
    PoppedLists(s, op);
    ExecutedEvent(s, op);
    forall f: nat | f < |t.evs| && f != op.event ensures EventOk(t, f) { OtherEvent(s, op, f); }
  }

  lemma DrainedKeeps(s: State)
    requires Consistent(s) && (s.phase == Idle || s.phase == Relock) && s.pipe == (if s.requestPending then 1 else 0)
    ensures Inv(Drained(s))
  {
    if s.queue == [] {
      forall f: nat | f < |s.evs| ensures EventOk(Drained(s), f) { assert EventOk(s, f); }
    } else {
      ExecutedKeeps(s, s.queue[0]);
    }
  }

  lemma NewEventKeeps(s: State, fd: int, events: Mask)
    requires Inv(s)
    ensures Inv(Next(s, NewEvent(fd, events)))
  {
    var t := Next(s, NewEvent(fd, events));
    var e := |s.evs|;
    forall f: nat | f < |t.evs| ensures EventOk(t, f) {
      if f < e {
        assert EventOk(s, f) && t.evs[f] == s.evs[f];
      } else {
        NoneQueued(s.queue, e);
        assert Adds(s.log, e) == 0;
      }
    }
  }

  lemma {:induction false} NoneQueued(q: seq<Op>, e: nat)
    requires forall i | 0 <= i < |q| :: q[i].event < e
    ensures Count(q, e) == 0 && Op(e, Modify) !in q
  {
    if q != [] { NoneQueued(q[1..], e); }
  }

  lemma AttachKeeps(s: State, e: nat)
    requires Inv(s) && Enabled(s, Attach(e))
    ensures Inv(Next(s, Attach(e)))
  {
    if !s.evs[e].attached {
      var t := s.(evs := s.evs[e := s.evs[e].(attached := true)]);
      assert EventOk(s, e);
      OnlyEventKeeps(s, t, e);
      if !s.quited { PushedKeeps(t, Op(e, Add)); }
    }
  }

  lemma InvEvent(s: State, e: nat)
    requires Inv(s) && e < |s.evs|
    ensures EventOk(s, e)
  {
  }

  lemma PushedQueue(s: State, op: Op)
    requires op.event < |s.evs|
    ensures Pushed(s, op).queue == s.queue + [op] && op in Pushed(s, op).queue
  {
  }

  lemma ModifyQueued(s: State, e: nat)
    requires Inv(s) && Enabled(s, QueueModify(e)) && s.evs[e].attached && !s.quited
    ensures Inv(Next(s, QueueModify(e)))
  {
    var t, u := Next(s, QueueModify(e)), Pushed(s, Op(e, Modify));
    PushedKeeps(s, Op(e, Modify));
    PushedQueue(s, Op(e, Modify));
    InvEvent(u, e);
    assert t.evs == u.evs[e := u.evs[e].(changing := u.evs[e].changing - 1)];
    OnlyEventKeeps(u, t, e);
  }

  /** The second part of a change of the mask. */
  lemma QueueModifyKeeps(s: State, e: nat)
    requires Inv(s) && Enabled(s, QueueModify(e))
    ensures Inv(Next(s, QueueModify(e)))
  {
    if s.evs[e].attached && !s.quited {
      ModifyQueued(s, e);
    } else {
      InvEvent(s, e);
      CountConcat(s.ran, s.queue, e);
      OnlyEventKeeps(s, Next(s, QueueModify(e)), e);
    }
  }

  /** The callback ends. */
  lemma ReturnKeeps(s: State, keep: bool)
    requires Inv(s) && Enabled(s, Return(keep))
    ensures Inv(Next(s, Return(keep)))
  {
    var e, t := s.phase.event, s.(phase := Idle);
    assert EventOk(s, e);
    forall f: nat | f < |t.evs| ensures EventOk(t, f) { assert EventOk(s, f); }
    assert Inv(t);
    if !keep {
      UnlistedKeeps(t, e);
    } else if s.phase.io && s.evs[e].timeout > 0 {
      assert EventOk(t, e);
      OnlyEventKeeps(t, Next(s, Return(keep)), e);
    }
  }

  /** The steps of callers that change no more than one event. */
  predicate ByCaller(step: Step) { step.Ref? || step.Unref? || step.SetTimeout? || step.ChangeMask? }

  lemma CallerKeeps(s: State, step: Step)
    requires Inv(s) && Enabled(s, step) && ByCaller(step)
    ensures Inv(Next(s, step))
  {
    assert EventOk(s, step.e);
    CountConcat(s.ran, s.queue, step.e);
    OnlyEventKeeps(s, Next(s, step), step.e);
  }

  /** The steps that start or trigger a watcher of an event. */
  predicate ByWatcher(step: Step) { step.ModTimerSync? || step.ChangeMaskSync? || step.PollIo? || step.Expire? }

  lemma WatcherKeeps(s: State, step: Step)
    requires Inv(s) && Enabled(s, step) && ByWatcher(step)
    ensures Inv(Next(s, step))
  {
    assert EventOk(s, step.e);
    OnlyEventKeeps(s, Next(s, step), step.e);
  }

  /** The steps of the loop thread that move on. */
  lemma LoopKeeps(s: State, step: Step)
    requires Inv(s) && Enabled(s, step) && (step.ReleaseOp? || step.DispatchIo? || step.DispatchTimer?)
    ensures Inv(Next(s, step))
  {
    var t := Next(s, step);
    var e := if step.ReleaseOp? then s.phase.op else step.e;
    assert EventOk(s, e);
    forall f: nat | f < |t.evs| ensures EventOk(t, f) { assert EventOk(s, f); }
  }

  lemma WokenKeeps(s: State)
    requires Inv(s) && !s.quited
    ensures Inv(WokenUp(s.(quited := true)))
  {
    var t := WokenUp(s.(quited := true));
    forall f: nat | f < |t.evs| ensures EventOk(t, f) { assert EventOk(s, f); }
  }

  /** Every step keeps the invariant. */
  lemma StepKeepsInv(s: State, step: Step)
    requires Inv(s) && Enabled(s, step)
    ensures Inv(Next(s, step))
  {
    match step
    case NewEvent(fd, events) => NewEventKeeps(s, fd, events);
    case Attach(e) => AttachKeeps(s, e);
    case RemoveEvent(e) => if s.evs[e].attached && !s.quited { PushedKeeps(s, Op(e, Remove)); }
    case QueueModify(e) => QueueModifyKeeps(s, e);
    case Quit => if !s.quited { WokenKeeps(s); }
    case Return(keep) => ReturnKeeps(s, keep);
    case WakeUp => WakeUpKeeps(s);
    case LockAgain => DrainedKeeps(s);
    case ReleaseOp => LoopKeeps(s, step);
    case DispatchIo(_) => LoopKeeps(s, step);
    case DispatchTimer(_) => LoopKeeps(s, step);
    case _ => if ByCaller(step) { CallerKeeps(s, step); } else { WatcherKeeps(s, step); }
  }

  lemma WakeUpKeeps(s: State)
    requires Inv(s) && Enabled(s, WakeUp)
    ensures Inv(Next(s, WakeUp))
  {
    var t := s.(requestPending := false, pipe := s.pipe - 1);
    forall f: nat | f < |t.evs| ensures EventOk(t, f) { assert EventOk(s, f); }
    DrainedKeeps(t);
  }

  // ---------- runs ----------

  /** The steps lead from s to t. */
  ghost predicate Run(s: State, steps: seq<Step>, t: State)
    decreases |steps|
  {
    if steps == [] then t == s else Enabled(s, steps[0]) && Run(Next(s, steps[0]), steps[1..], t)
  }

  lemma {:induction false} RunKeepsInv(s: State, steps: seq<Step>, t: State)
    requires Inv(s) && Run(s, steps, t)
    ensures Inv(t)
    decreases |steps|
  {
    if steps != [] {
      StepKeepsInv(s, steps[0]);
      RunKeepsInv(Next(s, steps[0]), steps[1..], t);
    }
  }

  lemma ReachableInv(steps: seq<Step>, t: State)
    requires Run(Init, steps, t)
    ensures Inv(t)
  {
    InitInv();
    RunKeepsInv(Init, steps, t);
  }

  // ---------- operations ----------

  predicate LoopStep(step: Step)
  {
    step.Return? || step.WakeUp? || step.ReleaseOp? || step.LockAgain? || step.DispatchIo? || step.DispatchTimer?
  }

  /** The other steps leave the loop thread where it is, and only add to the queue. */
  lemma OthersOnlyQueue(s: State, step: Step)
    requires Inv(s) && Enabled(s, step) && !LoopStep(step)
    ensures var t := Next(s, step); t.phase == s.phase && t.ran == s.ran && t.list == s.list && s.queue <= t.queue
  {
  }

  /** An operation that waits while the loop thread is not in a callback is run by its next
      steps: a byte is in the pipe, or the queue is being drained already. */
  lemma NextOperationRuns(s: State) returns (steps: seq<Step>, t: State)
    requires Inv(s) && s.queue != [] && !s.phase.Callback?
    ensures Run(s, steps, t) && |steps| <= 2 && t.ran == s.ran + [s.queue[0]]
    ensures forall i | 0 <= i < |steps| :: LoopStep(steps[i])
  {
    match s.phase
    case Idle =>
      steps, t := [WakeUp], Next(s, WakeUp);
      assert Run(t, steps[1..], t);
    case Relock =>
      steps, t := [LockAgain], Next(s, LockAgain);
      assert Run(t, steps[1..], t);
    case Release(e) =>
      var u := Next(s, ReleaseOp);
      steps, t := [ReleaseOp, LockAgain], Next(u, LockAgain);
      assert steps[1..] == [LockAgain] && steps[1..][1..] == [];
      assert Run(t, [], t);
      assert Run(u, [LockAgain], t);
  }

  /** The steps of the loop thread that drain the queue. */
  predicate DrainStep(step: Step) { step.WakeUp? || step.ReleaseOp? || step.LockAgain? }

  ghost function DrainSteps(steps: seq<Step>): nat
  {
    if steps == [] then 0 else (if DrainStep(steps[0]) then 1 else 0) + DrainSteps(steps[1..])
  }

  /** Twice the operations that have run, less one while the last one is not released. */
  function Progress(s: State): int { 2 * |s.ran| - (if s.phase.Release? then 1 else 0) }

  /** While operations wait, every such step is progress, and nothing undoes it. */
  lemma StepProgress(s: State, step: Step)
    requires Inv(s) && Enabled(s, step) && s.queue != []
    ensures Progress(Next(s, step)) == Progress(s) + if DrainStep(step) then 1 else 0
  {
  }

  /** In every run, whatever other threads do in between, the first k waiting operations have
      run after 2k steps that drain the queue. */
  lemma {:induction false} WaitingHaveRun(s: State, steps: seq<Step>, t: State, k: nat)
    requires Inv(s) && Run(s, steps, t) && k <= |s.queue| && DrainSteps(steps) >= 2 * k
    ensures s.ran + s.queue[..k] <= t.ran
  {
    OperationsInOrder(s, steps, t);
    RunKeepsInv(s, steps, t);
    RunProgress(s, steps, t, |s.ran| + k);
    assert s.log == s.ran + s.queue && s.log <= t.log && t.ran <= t.log;
    assert t.log[..|s.ran| + k] == s.ran + s.queue[..k];
  }

  /** Until `goal` operations have run, the steps add up. */
  lemma {:induction false} RunProgress(s: State, steps: seq<Step>, t: State, goal: nat)
    requires Inv(s) && Run(s, steps, t) && goal <= |s.log|
    ensures |t.ran| >= goal || Progress(t) >= Progress(s) + DrainSteps(steps)
    decreases |steps|
  {
    if steps != [] && |s.ran| < goal {
      var u := Next(s, steps[0]);
      StepProgress(s, steps[0]);
      StepKeepsInv(s, steps[0]);
      LogsGrow(s, steps[0]);
      RunProgress(u, steps[1..], t, goal);
    } else if |s.ran| >= goal {
      OperationsInOrder(s, steps, t);
    }
  }

  /** Operations run in the order in which they were queued, each once. */
  lemma {:induction false} OperationsInOrder(s: State, steps: seq<Step>, t: State)
    requires Inv(s) && Run(s, steps, t)
    ensures s.log <= t.log && s.ran <= t.ran <= t.log
    decreases |steps|
  {
    if steps != [] {
      StepKeepsInv(s, steps[0]);
      LogsGrow(s, steps[0]);
      OperationsInOrder(Next(s, steps[0]), steps[1..], t);
    }
  }

  lemma LogsGrow(s: State, step: Step)
    requires Enabled(s, step)
    ensures s.log <= Next(s, step).log && s.ran <= Next(s, step).ran
  {
  }

  // ---------- references ----------

  /** The events whose memory a step reads or writes. */
  function Touched(s: State, step: Step): set<nat>
  {
    match step
    case NewEvent(_, _) => {}
    case Quit => {}
    case Return(_) => if s.phase.Callback? then {s.phase.event} else {}
    case ReleaseOp => if s.phase.Release? then {s.phase.op} else {}
    case WakeUp => if s.queue != [] then {s.queue[0].event} else {}
    case LockAgain => if s.queue != [] then {s.queue[0].event} else {}
    case _ => {step.e}
  }

  /** No step touches an event that has been freed. */
  lemma NoUseAfterFree(steps: seq<Step>, s: State, step: Step, e: nat)
    requires Run(Init, steps, s) && Enabled(s, step) && e in Touched(s, step)
    ensures e < |s.evs| && s.evs[e].refs > 0
  {
    ReachableInv(steps, s);
    if step.QueueModify? || s.queue == [] {
      assert EventOk(s, e);
    } else {
      CountMember(s.queue, s.queue[0]);
      assert EventOk(s, e);
    }
  }

  /** An event is freed exactly when no caller and no part of the loop holds it: nothing is
      leaked, and what is freed is not listed, queued or watched. */
  lemma FreedExactly(steps: seq<Step>, s: State, e: nat)
    requires Run(Init, steps, s) && e < |s.evs|
    ensures s.evs[e].refs >= 0
    ensures s.evs[e].refs == 0 <==>
      s.evs[e].handles == 0 && e !in s.list && Count(s.queue, e) == 0 && s.phase != Release(e)
    ensures s.evs[e].refs == 0 ==>
      && Quiet(s.evs[e]) && s.evs[e].changing == 0
      && forall i | 0 <= i < |s.queue| :: s.queue[i].event != e
  {
    ReachableInv(steps, s);
    assert EventOk(s, e);
    forall i | 0 <= i < |s.queue| && s.queue[i].event == e ensures Count(s.queue, e) > 0 {
      CountMember(s.queue, s.queue[i]);
    }
  }

  // ---------- removal ----------

  /** The event was listed, and is no more. */
  ghost predicate Removed(s: State, e: nat) { Adds(s.ran, e) == 1 && e !in s.list }

  /** An operation that is not the first for its event does not list a removed one again. */
  lemma RemovedInDrain(s: State, e: nat)
    requires LogInv(s) && s.queue != [] && e < |s.evs| && Removed(s, e)
    requires AllDifferent(s.list) && ListOk(s, e) && ListOk(s, s.queue[0].event)
    ensures Removed(Drained(s), e)
  {
    var op := s.queue[0];
    PoppedCounts(s, op, e);
    CountConcat(s.ran, s.queue, op.event);
    if op.kind == Add { CountMember(s.queue, op); }
    ExecutedList(s, op);
  }

  lemma RemovedInReturn(s: State, keep: bool, e: nat)
    requires Inv(s) && Enabled(s, Return(keep)) && Removed(s, e)
    ensures Removed(Next(s, Return(keep)), e)
  {
    DeletedIs(s.list, s.phase.event);
  }

  predicate Dispatches(step: Step, e: nat) { step == DispatchIo(e) || step == DispatchTimer(e) }

  lemma EventsGrow(s: State, step: Step)
    requires Enabled(s, step)
    ensures |s.evs| <= |Next(s, step).evs|
  {
  }

  lemma NotDispatched(s: State, step: Step, e: nat)
    requires Inv(s) && Enabled(s, step) && e < |s.evs| && e !in s.list
    ensures !Dispatches(step, e)
  {
    InvEvent(s, e);
  }

  /** What one step leaves of a removed event. */
  lemma RemovedStays(s: State, step: Step, e: nat)
    requires Inv(s) && Enabled(s, step) && e < |s.evs| && Removed(s, e)
    ensures Removed(Next(s, step), e)
  {
    InvEvent(s, e);
    if (step.WakeUp? || step.LockAgain?) && s.queue != [] {
      assert EventOk(s, s.queue[0].event);
      RemovedInDrain(if step.WakeUp? then s.(requestPending := false, pipe := s.pipe - 1) else s, e);
    } else if step.Return? {
      RemovedInReturn(s, step.keep, e);
    }
  }

  /** A removed event is not dispatched any more, by either of its watchers. */
  lemma {:induction false} NoDispatchAfterRemoval(s: State, steps: seq<Step>, t: State, e: nat)
    requires Inv(s) && Run(s, steps, t) && e < |s.evs| && Removed(s, e)
    ensures Removed(t, e) && forall i | 0 <= i < |steps| :: !Dispatches(steps[i], e)
    decreases |steps|
  {
    if steps != [] {
      StepKeepsInv(s, steps[0]);
      EventsGrow(s, steps[0]);
      NotDispatched(s, steps[0], e);
      RemovedStays(s, steps[0], e);
      NoDispatchAfterRemoval(Next(s, steps[0]), steps[1..], t, e);
      assert forall i | 0 < i < |steps| :: steps[i] == steps[1..][i - 1];
    }
  }

  /** A callback that returns FALSE removes its event, even if the event's other watcher is
      pending; and so does the operation. */
  lemma RemovalRemoves(s: State, step: Step, e: nat)
    requires Inv(s) && Enabled(s, step) && e in s.list
    requires (step == Return(false) && s.phase.event == e)
             || ((step == WakeUp || step == LockAgain) && s.queue != [] && s.queue[0] == Op(e, Remove))
    ensures Removed(Next(s, step), e) && Quiet(Next(s, step).evs[e])
  {
    assert e < |s.evs| && EventOk(s, e);
    DeletedIs(s.list, e);
    StepKeepsInv(s, step);
    assert EventOk(Next(s, step), e);
    if s.queue != [] { PoppedCounts(s, s.queue[0], e); }
  }

  /** A callback runs for a listed event only; and before quit a listed event with a descriptor
      is watched with its mask, unless a modification is on its way. */
  lemma ListedIsWatched(steps: seq<Step>, s: State, e: nat)
    requires Run(Init, steps, s) && e < |s.evs|
    ensures InCallback(s, e) || !Quiet(s.evs[e]) ==> e in s.list
    ensures e in s.list && s.evs[e].fd >= 0 && !s.quited && Op(e, Modify) !in s.queue && s.evs[e].changing == 0
            ==> Watched(s.evs[e]) == s.evs[e].events
  {
    ReachableInv(steps, s);
    assert EventOk(s, e);
  }

  // ---------- what the calls do ----------

  /** The operations of an event come behind its being added. */
  ghost predicate Ordered(log: seq<Op>)
  {
    forall i | 0 <= i < |log| :: Adds(log[..i + 1], log[i].event) == 1
  }

  /** An attached event has been queued to be added; once a remove operation has run the event
      is off the list; and while it is on the list its timer is active if it has a timeout. */
  ghost predicate TiedEvent(s: State, e: nat)
    requires e < |s.evs|
  {
    && (s.evs[e].attached && !s.quited ==> Adds(s.log, e) == 1)
    && (Op(e, Remove) in s.ran ==> e !in s.list)
    && (e in s.list && s.evs[e].timeout > 0 ==> s.evs[e].timerActive)
  }

  ghost predicate Tied(s: State)
  {
    Ordered(s.log) && forall e: nat | e < |s.evs| :: TiedEvent(s, e)
  }

  lemma AddedFirst(log: seq<Op>, ran: seq<Op>, op: Op)
    requires Ordered(log) && ran <= log && op in ran
    ensures Adds(ran, op.event) >= 1
  {
    var i :| 0 <= i < |ran| && ran[i] == op;
    assert log[..i + 1] + ran[i + 1..] == ran;
    CountConcat(log[..i + 1], ran[i + 1..], op.event);
  }

  /** An operation is queued behind the one that adds its event. */
  lemma PushedTied(s: State, op: Op)
    requires Tied(s) && op.event < |s.evs| && !s.quited
    requires Adds(s.log, op.event) == if op.kind == Add then 0 else 1
    ensures Ordered(s.log + [op])
    ensures forall e :: Adds(s.log + [op], e) == Adds(s.log, e) + if op == Op(e, Add) then 1 else 0
  {
    var log := s.log + [op];
    forall e ensures Adds(log, e) == Adds(s.log, e) + if op == Op(e, Add) then 1 else 0 {
      CountConcat(s.log, [op], e);
      assert [op][1..] == [];
    }
    forall i | 0 <= i < |log| ensures Adds(log[..i + 1], log[i].event) == 1 {
      if i < |s.log| { assert log[..i + 1] == s.log[..i + 1]; } else { assert log[..i + 1] == log; }
    }
  }

  lemma CallTied(s: State, step: Step)
    requires Inv(s) && Tied(s) && Enabled(s, step) && (step.Attach? || step.RemoveEvent? || step.QueueModify?)
    ensures Tied(Next(s, step))
  {
    var e, t := step.e, Next(s, step);
    assert EventOk(s, e) && TiedEvent(s, e);
    if t.log != s.log {
      PushedTied(s, t.log[|s.log|]);
    }
    forall f: nat | f < |t.evs| ensures TiedEvent(t, f) { assert TiedEvent(s, f); }
  }

  lemma DrainTied(s: State)
    requires Consistent(s) && Tied(s)
    ensures Tied(Drained(s))
  {
    var t := Drained(s);
    if s.queue == [] {
      assert forall f: nat | f < |t.evs| :: TiedEvent(s, f) ==> TiedEvent(t, f);
    } else {
      var op := s.queue[0];
      assert EventOk(s, op.event);
      PoppedCounts(s, op, op.event);
      if op.kind == Add && Op(op.event, Remove) in s.ran { AddedFirst(s.log, s.ran, Op(op.event, Remove)); }
      if op.kind == Add { CountMember(s.queue, op); }
      ExecutedList(s, op);
      forall f: nat | f < |t.evs| ensures TiedEvent(t, f) { assert TiedEvent(s, f); }
    }
  }

  lemma ReturnTied(s: State, keep: bool)
    requires Inv(s) && Tied(s) && Enabled(s, Return(keep))
    ensures Tied(Next(s, Return(keep)))
  {
    var t := Next(s, Return(keep));
    DeletedIs(s.list, s.phase.event);
    forall f: nat | f < |t.evs| ensures TiedEvent(t, f) { assert TiedEvent(s, f); }
  }

  lemma OtherTied(s: State, step: Step)
    requires Inv(s) && Tied(s) && Enabled(s, step)
    requires !step.Attach? && !step.RemoveEvent? && !step.QueueModify? && !step.Return?
    requires !step.WakeUp? && !step.LockAgain?
    ensures Tied(Next(s, step))
  {
    var t := Next(s, step);
    forall f: nat | f < |t.evs| ensures TiedEvent(t, f) {
      if f < |s.evs| {
        assert TiedEvent(s, f) && EventOk(s, f);
        CountConcat(s.ran, s.queue, f);
      }
    }
  }

  lemma StepTied(s: State, step: Step)
    requires Inv(s) && Tied(s) && Enabled(s, step)
    ensures Tied(Next(s, step))
  {
    if step.Attach? || step.RemoveEvent? || step.QueueModify? {
      CallTied(s, step);
    } else if step.Return? {
      ReturnTied(s, step.keep);
    } else if step.WakeUp? {
      var t := s.(requestPending := false, pipe := s.pipe - 1);
      forall f: nat | f < |t.evs| ensures EventOk(t, f) && TiedEvent(t, f) { assert EventOk(s, f) && TiedEvent(s, f); }
      DrainTied(t);
    } else if step.LockAgain? {
      DrainTied(s);
    } else {
      OtherTied(s, step);
    }
  }

  lemma {:induction false} RunTied(s: State, steps: seq<Step>, t: State)
    requires Inv(s) && Tied(s) && Run(s, steps, t)
    ensures Tied(t)
    decreases |steps|
  {
    if steps != [] {
      StepKeepsInv(s, steps[0]);
      StepTied(s, steps[0]);
      RunTied(Next(s, steps[0]), steps[1..], t);
    }
  }

  lemma ReachableTied(steps: seq<Step>, t: State)
    requires Run(Init, steps, t)
    ensures Inv(t) && Tied(t)
  {
    ReachableInv(steps, t);
    RunTied(Init, steps, t);
  }

  lemma {:induction false} RunGrows(s: State, steps: seq<Step>, t: State)
    requires Run(s, steps, t)
    ensures |s.evs| <= |t.evs|
    decreases |steps|
  {
    if steps != [] {
      EventsGrow(s, steps[0]);
      RunGrows(Next(s, steps[0]), steps[1..], t);
    }
  }

  /** What has been queued when a call returns has run after enough steps. */
  lemma QueuedHaveRun(s: State, steps: seq<Step>, t: State)
    requires Inv(s) && Run(s, steps, t) && DrainSteps(steps) >= 2 * |s.queue|
    ensures s.log <= t.ran
  {
    WaitingHaveRun(s, steps, t, |s.queue|);
    assert s.queue[..|s.queue|] == s.queue;
  }

  /** g_event_remove of an attached event, before quit: after enough steps of the loop thread,
      whatever other threads do, the event is off the list and quiet, and it stays removed. */
  lemma RemoveTakesEffect(before: seq<Step>, s: State, e: nat, steps: seq<Step>, t: State)
    requires Run(Init, before, s) && Enabled(s, RemoveEvent(e)) && s.evs[e].attached && !s.quited
    requires Run(Next(s, RemoveEvent(e)), steps, t) && DrainSteps(steps) >= 2 * (|s.queue| + 1)
    ensures e < |t.evs| && e !in t.list && Quiet(t.evs[e]) && Removed(t, e)
  {
    var u, op := Next(s, RemoveEvent(e)), Op(e, Remove);
    ReachableTied(before, s);
    StepKeepsInv(s, RemoveEvent(e));
    StepTied(s, RemoveEvent(e));
    QueuedHaveRun(u, steps, t);
    RunKeepsInv(u, steps, t);
    RunTied(u, steps, t);
    RunGrows(u, steps, t);
    assert u.log[|s.log|] == op && t.ran[|s.log|] == op;
    assert EventOk(t, e) && TiedEvent(t, e);
    AddedFirst(t.log, t.ran, op);
    CountConcat(t.ran, t.queue, e);
  }

  /** No step removes the event: no g_event_remove, and no callback for it returns FALSE. */
  ghost predicate NotRemoved(s: State, steps: seq<Step>, e: nat)
    decreases |steps|
  {
    steps == [] || (
      && steps[0] != RemoveEvent(e) && !(steps[0] == Return(false) && InCallback(s, e))
      && Enabled(s, steps[0]) && NotRemoved(Next(s, steps[0]), steps[1..], e))
  }

  /** The event is on the list or about to be, and nothing waits to remove it. */
  ghost predicate Staying(s: State, e: nat)
  {
    (e in s.list || Op(e, Add) in s.queue) && Op(e, Remove) !in s.queue
  }

  lemma DrainStaying(s: State, e: nat)
    requires s.queue != [] && Staying(s, e) && AllDifferent(s.list)
    requires var f := s.queue[0].event; f < |s.evs| && ListOk(s, f) && s.log == s.ran + s.queue
    ensures Staying(Drained(s), e)
  {
    var op := s.queue[0];
    PoppedCounts(s, op, op.event);
    if op.kind == Add { CountMember(s.queue, op); }
    ExecutedList(s, op);
    assert s.queue == [op] + s.queue[1..] && Drained(s).queue == s.queue[1..];
  }

  lemma StepStaying(s: State, step: Step, e: nat)
    requires Inv(s) && Enabled(s, step) && Staying(s, e) && step != RemoveEvent(e)
    requires !(step == Return(false) && InCallback(s, e))
    ensures Staying(Next(s, step), e)
  {
    if step.Return? {
      DeletedIs(s.list, s.phase.event);
    } else if (step.WakeUp? || step.LockAgain?) && s.queue != [] {
      assert EventOk(s, s.queue[0].event);
      DrainStaying(if step.WakeUp? then s.(requestPending := false, pipe := s.pipe - 1) else s, e);
    }
  }

  lemma {:induction false} RunStaying(s: State, steps: seq<Step>, t: State, e: nat)
    requires Inv(s) && Run(s, steps, t) && Staying(s, e) && NotRemoved(s, steps, e)
    ensures Staying(t, e)
    decreases |steps|
  {
    if steps != [] {
      StepKeepsInv(s, steps[0]);
      StepStaying(s, steps[0], e);
      RunStaying(Next(s, steps[0]), steps[1..], t, e);
    }
  }

  lemma NotYetQueued(log: seq<Op>, e: nat)
    requires Ordered(log) && Adds(log, e) == 0
    ensures forall op | op in log :: op.event != e
  {
    forall i | 0 <= i < |log| ensures log[i].event != e {
      assert log[..i + 1] + log[i + 1..] == log;
      CountConcat(log[..i + 1], log[i + 1..], e);
    }
  }

  /** g_event_loop_attach of a new event, before quit: after enough steps of the loop thread the
      event is on the list, unless it has been removed, and has an active timer if it has a
      timeout. */
  lemma AttachTakesEffect(before: seq<Step>, s: State, e: nat, steps: seq<Step>, t: State)
    requires Run(Init, before, s) && Enabled(s, Attach(e)) && !s.evs[e].attached && !s.quited
    requires Run(Next(s, Attach(e)), steps, t) && DrainSteps(steps) >= 2 * (|s.queue| + 1)
    requires NotRemoved(Next(s, Attach(e)), steps, e)
    ensures e < |t.evs| && e in t.list && (t.evs[e].timerActive <==> t.evs[e].timeout > 0)
  {
    var u, op := Next(s, Attach(e)), Op(e, Add);
    ReachableTied(before, s);
    assert EventOk(s, e);
    NotYetQueued(s.log, e);
    StepKeepsInv(s, Attach(e));
    StepTied(s, Attach(e));
    assert u.log[|s.log|] == op && op in u.queue;
    assert Staying(u, e);
    RunStaying(u, steps, t, e);
    QueuedHaveRun(u, steps, t);
    RunKeepsInv(u, steps, t);
    RunTied(u, steps, t);
    RunGrows(u, steps, t);
    assert t.ran[|s.log|] == op;
    CountMember(t.ran, op);
    CountConcat(t.ran, t.queue, e);
    assert EventOk(t, e) && TiedEvent(t, e);
    if op in t.queue { CountMember(t.queue, op); }
  }

  // ---------- changing the mask ----------

  predicate ChangesMask(step: Step, e: nat) { (step.ChangeMask? || step.ChangeMaskSync?) && step.e == e }

  ghost predicate NoMaskChange(steps: seq<Step>, e: nat) { forall i | 0 <= i < |steps| :: !ChangesMask(steps[i], e) }

  /** The mask has been changed; the caller still has to queue the modification. */
  ghost predicate Changing(s: State, e: nat, mask: Mask)
  {
    e < |s.evs| && s.evs[e].events == mask && s.evs[e].changing <= 1
  }

  /** The loop thread does not change what callers decide. */
  predicate SameForCallers(a: Event, b: Event)
  {
    && a.handles == b.handles && a.attached == b.attached && a.fd == b.fd && a.timeout == b.timeout
    && a.events == b.events && a.changing == b.changing
  }

  lemma ExecutedLeaves(s: State, op: Op, e: nat)
    requires op.event < |s.evs| && e < |s.evs|
    ensures |Executed(s, op).evs| == |s.evs| && SameForCallers(Executed(s, op).evs[e], s.evs[e])
  {
    match op.kind
    case Add =>
    case Remove => UnlistedLeaves(s, op.event, e);
    case Modify =>
  }

  lemma UnlistedLeaves(s: State, f: nat, e: nat)
    requires f < |s.evs| && e < |s.evs|
    ensures |Unlisted(s, f).evs| == |s.evs| && SameForCallers(Unlisted(s, f).evs[e], s.evs[e])
  {
  }

  lemma DrainedLeaves(s: State, e: nat)
    requires (s.queue != [] ==> s.queue[0].event < |s.evs|) && e < |s.evs|
    ensures |Drained(s).evs| == |s.evs| && SameForCallers(Drained(s).evs[e], s.evs[e])
  {
    if s.queue != [] {
      var op := s.queue[0];
      ExecutedLeaves(s.(queue := s.queue[1..], ran := s.ran + [op]), op, e);
    }
  }

  predicate ByLoop(step: Step) { step.WakeUp? || step.LockAgain? || step.ReleaseOp? || step.Return? }

  lemma LoopLeaves(s: State, step: Step, e: nat)
    requires Enabled(s, step) && e < |s.evs| && ByLoop(step)
    ensures |Next(s, step).evs| == |s.evs| && SameForCallers(Next(s, step).evs[e], s.evs[e])
  {
    if step.WakeUp? {
      DrainedLeaves(s.(requestPending := false, pipe := s.pipe - 1), e);
    } else if step.LockAgain? {
      DrainedLeaves(s, e);
    } else if step.Return? {
      UnlistedLeaves(s.(phase := Idle), s.phase.event, e);
    }
  }

  lemma StepChanging(s: State, step: Step, e: nat, mask: Mask)
    requires Inv(s) && Enabled(s, step) && Changing(s, e, mask) && !ChangesMask(step, e)
    ensures Changing(Next(s, step), e, mask)
    ensures Next(s, step).evs[e].fd == s.evs[e].fd
  {
    if ByLoop(step) { LoopLeaves(s, step, e); }
  }

  lemma {:induction false} RunChanging(s: State, steps: seq<Step>, t: State, e: nat, mask: Mask)
    requires Inv(s) && Run(s, steps, t) && Changing(s, e, mask) && NoMaskChange(steps, e)
    ensures Inv(t) && Changing(t, e, mask) && t.evs[e].fd == s.evs[e].fd
    decreases |steps|
  {
    if steps != [] {
      assert !ChangesMask(steps[0], e);
      assert forall i | 0 <= i < |steps[1..]| :: steps[1..][i] == steps[i + 1];
      StepKeepsInv(s, steps[0]);
      StepChanging(s, steps[0], e, mask);
      RunChanging(Next(s, steps[0]), steps[1..], t, e, mask);
    }
  }

  /** The modification is among the first `limit` operations; when they have run the mask is
      the one that is watched for. */
  ghost predicate Settling(s: State, e: nat, mask: Mask, limit: nat)
  {
    && e < |s.evs| && s.evs[e].events == mask && s.evs[e].changing == 0
    && (forall i | limit <= i < |s.log| :: s.log[i] != Op(e, Modify))
    && (e in s.list && s.evs[e].fd >= 0 ==> Watched(s.evs[e]) == mask || Op(e, Modify) in s.queue)
  }

  lemma DrainSettling(s: State, e: nat, mask: Mask, limit: nat)
    requires Consistent(s) && s.queue != [] && Settling(s, e, mask, limit)
    ensures Settling(Drained(s), e, mask, limit)
  {
    var t, op := Drained(s), s.queue[0];
    assert EventOk(s, e) && EventOk(s, op.event);
    PoppedCounts(s, op, op.event);
    if op.kind == Add { CountMember(s.queue, op); }
    ExecutedList(s, op);
    DrainedLeaves(s, e);
    assert s.queue == [op] + s.queue[1..] && t.queue == s.queue[1..] && t.log == s.log;
    if op.event == e && s.evs[e].fd >= 0 { DrainedMask(s, e); }
  }

  /** After an operation of its own, a listed event is watched with its mask. */
  lemma DrainedMask(s: State, e: nat)
    requires s.queue != [] && s.queue[0].event == e < |s.evs| && s.evs[e].fd >= 0
    requires s.evs[e].inLoop <==> e in s.list
    requires s.queue[0].kind == Remove ==> AllDifferent(s.list)
    ensures e in Drained(s).list ==> Watched(Drained(s).evs[e]) == s.evs[e].events
  {
    match s.queue[0].kind
    case Add =>
    case Remove => DeletedIs(s.list, e);
    case Modify =>
  }

  lemma LoopSettling(s: State, step: Step, e: nat, mask: Mask, limit: nat)
    requires Inv(s) && Enabled(s, step) && Settling(s, e, mask, limit) && ByLoop(step)
    ensures Settling(Next(s, step), e, mask, limit)
  {
    InvEvent(s, e);
    match step
    case Return(_) => DeletedIs(s.list, s.phase.event);
    case ReleaseOp =>
    case WakeUp =>
      var t := s.(requestPending := false, pipe := s.pipe - 1);
      forall f: nat | f < |t.evs| ensures EventOk(t, f) { InvEvent(s, f); }
      if s.queue != [] { DrainSettling(t, e, mask, limit); }
    case LockAgain => if s.queue != [] { DrainSettling(s, e, mask, limit); }
  }

  lemma QueueSettling(s: State, step: Step, e: nat, mask: Mask, limit: nat)
    requires Inv(s) && Enabled(s, step) && Settling(s, e, mask, limit)
    requires step.Attach? || step.RemoveEvent? || step.QueueModify?
    ensures Settling(Next(s, step), e, mask, limit)
  {
    var t := Next(s, step);
    assert t.log == s.log || (t.log == s.log + [t.log[|s.log|]] && t.log[|s.log|] != Op(e, Modify));
    assert Op(e, Modify) in s.queue ==> Op(e, Modify) in t.queue;
  }

  lemma StepSettling(s: State, step: Step, e: nat, mask: Mask, limit: nat)
    requires Inv(s) && Enabled(s, step) && Settling(s, e, mask, limit) && !ChangesMask(step, e)
    ensures Settling(Next(s, step), e, mask, limit)
  {
    if ByLoop(step) {
      LoopSettling(s, step, e, mask, limit);
    } else if step.Attach? || step.RemoveEvent? || step.QueueModify? {
      QueueSettling(s, step, e, mask, limit);
    }
  }

  lemma {:induction false} RunSettling(s: State, steps: seq<Step>, t: State, e: nat, mask: Mask, limit: nat)
    requires Inv(s) && Run(s, steps, t) && Settling(s, e, mask, limit) && NoMaskChange(steps, e)
    ensures Settling(t, e, mask, limit)
    decreases |steps|
  {
    if steps != [] {
      assert !ChangesMask(steps[0], e);
      assert forall i | 0 <= i < |steps[1..]| :: steps[1..][i] == steps[i + 1];
      StepKeepsInv(s, steps[0]);
      StepSettling(s, steps[0], e, mask, limit);
      RunSettling(Next(s, steps[0]), steps[1..], t, e, mask, limit);
    }
  }

  lemma ModifySettling(m: State, e: nat, mask: Mask)
    requires Inv(m) && Enabled(m, QueueModify(e)) && Changing(m, e, mask) && m.evs[e].attached && !m.quited
    ensures var u := Next(m, QueueModify(e)); u.queue == m.queue + [Op(e, Modify)] && Settling(u, e, mask, |u.log|)
  {
    var u := Next(m, QueueModify(e));
    assert u.queue[|m.queue|] == Op(e, Modify);
  }

  lemma SettledMask(t: State, e: nat, mask: Mask, limit: nat)
    requires LogInv(t) && Settling(t, e, mask, limit) && |t.ran| >= limit
    ensures e in t.list && t.evs[e].fd >= 0 ==> Watched(t.evs[e]) == mask
  {
    forall i | 0 <= i < |t.queue| ensures t.queue[i] != Op(e, Modify) {
      assert t.log[|t.ran| + i] == t.queue[i];
    }
  }

  /** g_event_add_events or g_event_remove_events of an attached event, before quit: after
      enough steps of the loop thread behind the call, what is watched for is the new mask,
      unless the event is off the list or the mask has been changed again. */
  lemma ModifyTakesEffect(before: seq<Step>, s: State, e: nat, mask: Mask, amid: seq<Step>, m: State,
                          steps: seq<Step>, t: State)
    requires Run(Init, before, s) && Enabled(s, ChangeMask(e, mask)) && s.evs[e].changing == 0
    requires Run(Next(s, ChangeMask(e, mask)), amid, m) && NoMaskChange(amid, e)
    requires Enabled(m, QueueModify(e)) && m.evs[e].attached && !m.quited
    requires Run(Next(m, QueueModify(e)), steps, t) && NoMaskChange(steps, e)
    requires DrainSteps(steps) >= 2 * (|m.queue| + 1)
    ensures e < |t.evs| && t.evs[e].events == mask
    ensures e in t.list && t.evs[e].fd >= 0 ==> Watched(t.evs[e]) == mask
  {
    var a, u := Next(s, ChangeMask(e, mask)), Next(m, QueueModify(e));
    ReachableInv(before, s);
    StepKeepsInv(s, ChangeMask(e, mask));
    assert Changing(a, e, mask);
    RunChanging(a, amid, m, e, mask);
    StepKeepsInv(m, QueueModify(e));
    ModifySettling(m, e, mask);
    RunSettling(u, steps, t, e, mask, |u.log|);
    RunKeepsInv(u, steps, t);
    QueuedHaveRun(u, steps, t);
    SettledMask(t, e, mask, |u.log|);
  }

  /** g_event_add_events_sync and g_event_remove_events_sync take effect at once. */
  lemma SyncTakesEffect(before: seq<Step>, s: State, e: nat, mask: Mask)
    requires Run(Init, before, s) && Enabled(s, ChangeMaskSync(e, mask)) && s.evs[e].fd >= 0
    ensures Watched(Next(s, ChangeMaskSync(e, mask)).evs[e]) == mask
  {
    ReachableInv(before, s);
    InvEvent(s, e);
  }

  // ---------- what callers have set ----------

  /** The references that callers hold after the steps. */
  function HandlesAfter(steps: seq<Step>, e: nat, n: int): int
    decreases |steps|
  {
    if steps == [] then n
    else HandlesAfter(steps[1..], e, if steps[0] == Ref(e) then n + 1 else if steps[0] == Unref(e) then n - 1 else n)
  }

  /** The timeout that was set last. */
  function TimeoutAfter(steps: seq<Step>, e: nat, timeout: int): int
    decreases |steps|
  {
    if steps == [] then timeout else
      TimeoutAfter(steps[1..], e, match steps[0]
        case SetTimeout(f, value) => if f == e then value else timeout
        case ModTimerSync(f, value) => if f == e then value else timeout
        case _ => timeout)
  }

  /** The mask that was set last. */
  function MaskAfter(steps: seq<Step>, e: nat, mask: Mask): Mask
    decreases |steps|
  {
    if steps == [] then mask else
      MaskAfter(steps[1..], e, match steps[0]
        case ChangeMask(f, value) => if f == e then value else mask
        case ChangeMaskSync(f, value) => if f == e then value else mask
        case _ => mask)
  }

  /** The references, the timeout and the mask of an event are what callers have made them, and
      an event that was attached once stays so. */
  lemma {:induction false} CallersDecide(s: State, steps: seq<Step>, t: State, e: nat)
    requires Inv(s) && Run(s, steps, t) && e < |s.evs|
    ensures e < |t.evs|
    ensures t.evs[e].handles == HandlesAfter(steps, e, s.evs[e].handles)
    ensures t.evs[e].timeout == TimeoutAfter(steps, e, s.evs[e].timeout)
    ensures t.evs[e].events == MaskAfter(steps, e, s.evs[e].events)
    ensures t.evs[e].attached <==> s.evs[e].attached || Attach(e) in steps
    decreases |steps|
  {
    if steps != [] {
      assert steps == [steps[0]] + steps[1..];
      StepKeepsInv(s, steps[0]);
      CallerDecides(s, steps[0], e);
      CallersDecide(Next(s, steps[0]), steps[1..], t, e);
    }
  }

  lemma CallerDecides(s: State, step: Step, e: nat)
    requires Inv(s) && Enabled(s, step) && e < |s.evs|
    ensures
      var t := Next(s, step);
      && e < |t.evs| && t.evs[e].handles == HandlesAfter([step], e, s.evs[e].handles)
      && t.evs[e].timeout == TimeoutAfter([step], e, s.evs[e].timeout)
      && t.evs[e].events == MaskAfter([step], e, s.evs[e].events)
      && (t.evs[e].attached <==> s.evs[e].attached || step == Attach(e))
  {
    assert [step][1..] == [];
    if ByLoop(step) { LoopLeaves(s, step, e); }
  }

  /** After g_event_loop_quit nothing is queued any more. */
  lemma QuitEndsQueuing(s: State, steps: seq<Step>, t: State)
    requires Run(Next(s, Quit), steps, t)
    ensures t.quited && t.log == s.log
  {
    NothingQueued(Next(s, Quit), steps, t);
  }

  lemma {:induction false} NothingQueued(s: State, steps: seq<Step>, t: State)
    requires s.quited && Run(s, steps, t)
    ensures t.quited && t.log == s.log
    decreases |steps|
  {
    if steps != [] { NothingQueued(Next(s, steps[0]), steps[1..], t); }
  }

  // ---------- input and timeouts ----------

  /** Input, or a timeout, of an event is pending. */
  predicate Awaits(e: Event, io: bool) { if io then e.ioPending else e.timerPending }

  function Arrival(e: nat, io: bool): Step { if io then PollIo(e) else Expire(e) }

  function Dispatch(e: nat, io: bool): Step { if io then DispatchIo(e) else DispatchTimer(e) }

  lemma DrainArrives(s: State, e: nat, io: bool)
    requires (s.queue != [] ==> s.queue[0].event < |s.evs|) && e < |s.evs| && !Awaits(s.evs[e], io)
    ensures e < |Drained(s).evs| && !Awaits(Drained(s).evs[e], io)
  {
    if s.queue != [] {
      match s.queue[0].kind
      case Add =>
      case Remove =>
      case Modify =>
    }
  }

  lemma LoopArrives(s: State, step: Step, e: nat, io: bool)
    requires Enabled(s, step) && e < |s.evs| && !Awaits(s.evs[e], io) && ByLoop(step)
    ensures e < |Next(s, step).evs| && !Awaits(Next(s, step).evs[e], io)
  {
    match step
    case WakeUp => DrainArrives(s.(requestPending := false, pipe := s.pipe - 1), e, io);
    case LockAgain => DrainArrives(s, e, io);
    case Return(_) =>
    case ReleaseOp =>
  }

  /** Nothing else makes it pending. */
  lemma StepArrives(s: State, step: Step, e: nat, io: bool)
    requires Enabled(s, step) && e < |s.evs| && !Awaits(s.evs[e], io) && step != Arrival(e, io)
    ensures e < |Next(s, step).evs| && !Awaits(Next(s, step).evs[e], io)
  {
    if ByLoop(step) { LoopArrives(s, step, e, io); }
  }

  lemma {:induction false} NothingArrives(s: State, steps: seq<Step>, t: State, e: nat, io: bool)
    requires Run(s, steps, t) && e < |s.evs| && !Awaits(s.evs[e], io) && Arrival(e, io) !in steps
    ensures e < |t.evs| && !Awaits(t.evs[e], io)
    decreases |steps|
  {
    if steps != [] {
      assert steps == [steps[0]] + steps[1..];
      StepArrives(s, steps[0], e, io);
      NothingArrives(Next(s, steps[0]), steps[1..], t, e, io);
    }
  }

  /** What drops the pending input or timeout of an event: dispatching it; for input, a new mask
      of a listed event; for a timeout, a new timeout, or input that the callback has taken
      without giving up the event. */
  predicate Drops(s: State, step: Step, e: nat, io: bool)
  {
    e < |s.evs| && (
    || step == Dispatch(e, io)
    || (io && step.ChangeMaskSync? && step.e == e && s.evs[e].inLoop && s.evs[e].fd >= 0)
    || (!io && step.ModTimerSync? && step.e == e)
    || (!io && step == Return(true) && s.phase == Callback(e, true) && s.evs[e].timeout > 0))
  }

  /** Behind it, only input or a timeout that arrives anew is dispatched. */
  lemma DispatchedAnew(s: State, step: Step, e: nat, io: bool, steps: seq<Step>, t: State)
    requires Enabled(s, step) && Drops(s, step, e, io) && Run(Next(s, step), steps, t) && Enabled(t, Dispatch(e, io))
    ensures Arrival(e, io) in steps
  {
    if Arrival(e, io) !in steps { NothingArrives(Next(s, step), steps, t, e, io); }
  }
}
