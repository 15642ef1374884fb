/** The cross-thread wake-up protocol of libev: `evpipe_write` runs in any number of
    sender threads, while the loop thread runs the blocking section of `ev_run` and the
    pipe callback `pipecb`. One action is one access to shared memory, so a run is an
    arbitrary interleaving of such accesses (the fences of the source make the memory
    sequentially consistent). */
module Wakeup {

  /** Which of the two flags passed to `evpipe_write` a sender raises. */
  datatype Kind = Sig | Async

  /** A signal number or an async watcher; `signals[id].pending` or `asyncs[id]->sent`. */
  datatype Source = Source(kind: Kind, id: nat)

  datatype Config = Config(signals: nat, asyncs: nat, pipeRoom: nat, eventfd: bool) {
    function Count(k: Kind): nat { if k == Sig then signals else asyncs }

    predicate Known(w: Source) { w.id < Count(w.kind) }
  }

  /** The statement a sender executes next. */
  datatype SenderPc = Idle | TestFlag | SetFlag | SetSkipped | TestWanted | ClearSkipped | WritePipe

  /** `since` is the length of the feed log when the source was marked. */
  datatype Send = Send(src: Source, since: nat)

  datatype Sender = Sender(pc: SenderPc, send: Send)

  /** The statement the loop executes next. `CbTestMark(k, i)` has still to test the
      sources of kind k numbered below i, `CbClearMark(k, i)` found number i - 1 marked. */
  datatype LoopPc =
    | Outside
    | TestSkipped
    | Poll(block: bool)
    | ClearWanted
    | TestSkippedAfter
    | Invoke
    | CbRead
    | CbClearSkipped
    | CbTestFlag(k: Kind)
    | CbClearFlag(k: Kind)
    | CbTestMark(k: Kind, i: nat)
    | CbClearMark(k: Kind, i: nat)

  datatype State = State(
    senders: seq<Sender>,
    loop: LoopPc,
    wanted: bool,            // pipe_write_wanted
    skipped: bool,           // pipe_write_skipped
    pipe: nat,               // bytes in the pipe, or the eventfd counter
    flags: set<Kind>,        // sig_pending, async_pending
    marks: set<Source>,      // signals[].pending, asyncs[]->sent
    readEvent: bool,         // pipe_w is pending with EV_READ
    customEvent: bool,       // pipe_w is pending with EV_CUSTOM
    log: seq<Source>,        // watchers fed so far, in order
    completed: set<Send>)    // calls of evpipe_write that have returned

  /** One step of a sender thread, or one step of the loop thread. */
  datatype Action = SenderStep(t: nat, src: Source) | LoopStep(mayBlock: bool)

  predicate Enabled(c: Config, s: State, a: Action)
  {
    a.SenderStep? ==> a.t < |s.senders| && c.Known(a.src)
  }

  /** Where a sender goes from its next statement of `ev_async_send` or `ev_feed_signal`,
      and then of `evpipe_write`; Idle is the return from the call. */
  function SenderAfter(s: State, x: Sender, src: Source): Sender
  {
    match x.pc
    case Idle => Sender(TestFlag, Send(src, |s.log|))
    case TestFlag => x.(pc := if x.send.src.kind in s.flags then Idle else SetFlag)
    case SetFlag => x.(pc := SetSkipped)
    case SetSkipped => x.(pc := TestWanted)
    case TestWanted => x.(pc := if s.wanted then ClearSkipped else Idle)
    case ClearSkipped => x.(pc := WritePipe)
    case WritePipe => x.(pc := Idle)
  }

  /** What that statement does to the shared memory. */
  function MemoryAfter(c: Config, s: State, x: Sender, src: Source): State
  {
    match x.pc
    case Idle => s.(marks := s.marks + {src})
    case TestFlag => s
    case SetFlag => s.(flags := s.flags + {x.send.src.kind})
    case SetSkipped => s.(skipped := true)
    case TestWanted => s
    case ClearSkipped => s.(skipped := false)
    case WritePipe => s.(pipe := if c.eventfd || s.pipe <= c.pipeRoom then s.pipe + 1 else s.pipe)
  }

  function DoSender(c: Config, s: State, t: nat, src: Source): State
    requires t < |s.senders|
  {
    var x, x' := s.senders[t], SenderAfter(s, s.senders[t], src);
    MemoryAfter(c, s, x, src).(
      senders := s.senders[t := x'],
      completed := if x.pc != Idle && x'.pc == Idle then s.completed + {x.send} else s.completed)
  }

  /** The next statement of the blocking section of `ev_run` or of `pipecb`. A poll that
      may block and finds the pipe empty returns for another reason, such as a timeout. */
  function DoLoop(c: Config, s: State, mayBlock: bool): State
  {
    match s.loop
    case Outside => s.(wanted := true, loop := TestSkipped)
    case TestSkipped => s.(loop := Poll(mayBlock && !s.skipped))
    case Poll(_) => s.(readEvent := s.pipe > 0, loop := ClearWanted)
    case ClearWanted => s.(wanted := false, loop := TestSkippedAfter)
    case TestSkippedAfter => s.(customEvent := s.customEvent || s.skipped, loop := Invoke)
    case Invoke =>
      s.(readEvent := false, customEvent := false,
         loop := if s.readEvent then CbRead else if s.customEvent then CbClearSkipped else Outside)
    case CbRead => s.(pipe := if c.eventfd || s.pipe <= 4 then 0 else s.pipe - 4, loop := CbClearSkipped)
    case CbClearSkipped => s.(skipped := false, loop := CbTestFlag(Sig))
    case CbTestFlag(k) => s.(loop := if k in s.flags then CbClearFlag(k) else AfterScan(k))
    case CbClearFlag(k) => s.(flags := s.flags - {k}, loop := CbTestMark(k, c.Count(k)))
    case CbTestMark(k, i) =>
      s.(loop := if i == 0 then AfterScan(k)
                 else if Source(k, i - 1) in s.marks then CbClearMark(k, i) else CbTestMark(k, i - 1))
    case CbClearMark(k, i) =>
      var w := Source(k, if i == 0 then 0 else i - 1);
      s.(marks := s.marks - {w}, log := s.log + [w], loop := CbTestMark(k, w.id))
  }

  function AfterScan(k: Kind): LoopPc { if k == Sig then CbTestFlag(Async) else Outside }

  function Do(c: Config, s: State, a: Action): State
    requires Enabled(c, s, a)
  {
    match a
    case SenderStep(t, src) => DoSender(c, s, t, src)
    case LoopStep(mayBlock) => DoLoop(c, s, mayBlock)
  }

  function Init(threads: nat): State
  {
    State(seq(threads, _ => Sender(Idle, Send(Source(Sig, 0), 0))),
          Outside, false, false, 0, {}, {}, false, false, [], {})
  }

  // ---------- What the protocol is meant to keep ----------

  /** The scan of pipecb has still to test the mark of w. */
  predicate ScanAhead(s: State, w: Source)
  {
    (s.loop.CbTestMark? || s.loop.CbClearMark?) && s.loop.k == w.kind && w.id < s.loop.i
  }

  /** pipecb is running and has still to test the flag of kind k. */
  predicate TestAhead(s: State, k: Kind)
  {
    match s.loop
    case CbRead => true
    case CbClearSkipped => true
    case CbTestFlag(j) => k == Async || j == Sig
    case CbClearFlag(j) => k == Async || j == Sig
    case CbTestMark(j, _) => k == Async && j == Sig
    case CbClearMark(j, _) => k == Async && j == Sig
    case _ => false
  }

  /** w is marked and the loop has still to look at its mark. */
  predicate Owed(s: State, w: Source)
  {
    w in s.marks && (w.kind in s.flags || ScanAhead(s, w))
  }

  predicate FedSince(s: State, m: Send)
  {
    m.since <= |s.log| && m.src in s.log[m.since..]
  }

  /** The source has been fed since it was marked, or the loop still owes it the feed. */
  predicate Kept(s: State, m: Send)
  {
    m.since <= |s.log| && (Owed(s, m.src) || FedSince(s, m))
  }

  /** The sender has raised its flag and has not finished its pipe write. */
  predicate Midway(x: Sender)
  {
    x.pc.SetSkipped? || x.pc.TestWanted? || x.pc.ClearSkipped? || x.pc.WritePipe?
  }

  predicate Quiet(s: State)
  {
    forall t | 0 <= t < |s.senders| :: !Midway(s.senders[t])
  }

  /** A sender that will leave pipe_write_skipped set or the pipe readable, or knows that
      another one does. */
  predicate Arming(x: Sender) { x.pc.SetSkipped? || x.pc.ClearSkipped? || x.pc.WritePipe? }

  predicate SomeArming(s: State) { exists t :: 0 <= t < |s.senders| && Arming(s.senders[t]) }

  /** A sender that will write the pipe if pipe_write_wanted stays set. */
  predicate Writing(x: Sender) { x.pc.TestWanted? || x.pc.ClearSkipped? || x.pc.WritePipe? }

  predicate SomeWriting(s: State) { exists t :: 0 <= t < |s.senders| && Writing(s.senders[t]) }

  predicate Armed(s: State, k: Kind)
  {
    k in s.flags ==>
      s.skipped || s.pipe > 0 || TestAhead(s, k) || SomeArming(s)
  }

  predicate SenderOk(c: Config, s: State, x: Sender)
  {
    x.pc != Idle ==>
      && c.Known(x.send.src)
      && x.send.since <= |s.log|
      && (x.send.src in s.marks || FedSince(s, x.send))
      && (Midway(x) ==> Kept(s, x.send))
  }

  predicate LoopOk(c: Config, s: State)
  {
    && (s.wanted <==> s.loop.TestSkipped? || s.loop.Poll? || s.loop.ClearWanted?)
    && (s.readEvent || s.customEvent ==> s.loop.ClearWanted? || s.loop.TestSkippedAfter? || s.loop.Invoke?)
    && (s.loop == Poll(true) && s.skipped ==> s.pipe > 0 || SomeWriting(s))
    && (s.loop.CbClearFlag? ==> s.loop.k in s.flags)
    && (s.loop.CbTestMark? ==> s.loop.i <= c.Count(s.loop.k))
    && (s.loop.CbClearMark? ==> 0 < s.loop.i <= c.Count(s.loop.k) && Source(s.loop.k, s.loop.i - 1) in s.marks)
  }

  ghost predicate Inv(c: Config, s: State)
  {
    && LoopOk(c, s)
    && (forall k: Kind :: Armed(s, k))
    && (forall t | 0 <= t < |s.senders| :: SenderOk(c, s, s.senders[t]))
    && (forall w | w in s.marks :: c.Known(w))
    && (forall m | m in s.completed :: c.Known(m.src) && Kept(s, m))
  }

  lemma InitInv(c: Config, threads: nat)
    ensures Inv(c, Init(threads))
  {
  }

  /** A step of the loop loses no obligation: a marked source it stops owing has been fed. */
  lemma LoopKeepsOwed(c: Config, s: State, mayBlock: bool, w: Source)
    requires LoopOk(c, s) && Owed(s, w) && c.Known(w)
    ensures Owed(DoLoop(c, s, mayBlock), w) || DoLoop(c, s, mayBlock).log == s.log + [w]
  {
  }

  lemma FedStays(s: State, s': State, m: Send)
    requires FedSince(s, m) && s.log <= s'.log
    ensures FedSince(s', m)
  {
    var k :| m.since <= k < |s.log| && s.log[k] == m.src;
    assert s'.log[m.since..][k - m.since] == m.src;
  }

  lemma FedNow(s: State, s': State, m: Send)
    requires m.since <= |s.log| && s'.log == s.log + [m.src]
    ensures FedSince(s', m)
  {
    assert s'.log[m.since..][|s.log| - m.since] == m.src;
  }

  lemma LoopKeepsKept(c: Config, s: State, mayBlock: bool, m: Send)
    requires LoopOk(c, s) && c.Known(m.src) && Kept(s, m)
    ensures Kept(DoLoop(c, s, mayBlock), m)
  {
    var s' := DoLoop(c, s, mayBlock);
    if Owed(s, m.src) {
      LoopKeepsOwed(c, s, mayBlock, m.src);
      if !Owed(s', m.src) { FedNow(s, s', m); }
    } else {
      FedStays(s, s', m);
    }
  }

  lemma LoopKeepsSender(c: Config, s: State, mayBlock: bool, x: Sender)
    requires LoopOk(c, s) && SenderOk(c, s, x)
    ensures SenderOk(c, DoLoop(c, s, mayBlock), x)
  {
    var s' := DoLoop(c, s, mayBlock);
    if x.pc != Idle {
      if Midway(x) { LoopKeepsKept(c, s, mayBlock, x.send); }
      if FedSince(s, x.send) {
        FedStays(s, s', x.send);
      } else if x.send.src !in s'.marks {
        FedNow(s, s', x.send);
      }
    }
  }

  lemma LoopKeepsArmed(c: Config, s: State, mayBlock: bool, k: Kind)
    requires LoopOk(c, s) && Armed(s, k)
    ensures Armed(DoLoop(c, s, mayBlock), k)
  {
    assert SomeArming(s) ==> SomeArming(DoLoop(c, s, mayBlock));
  }

  lemma LoopKeepsInv(c: Config, s: State, mayBlock: bool)
    requires Inv(c, s)
    ensures Inv(c, DoLoop(c, s, mayBlock))
  {
    var s' := DoLoop(c, s, mayBlock);
    forall m | m in s'.completed ensures Kept(s', m) { LoopKeepsKept(c, s, mayBlock, m); }
    forall t | 0 <= t < |s'.senders| ensures SenderOk(c, s', s'.senders[t]) {
      LoopKeepsSender(c, s, mayBlock, s.senders[t]);
    }
    forall k ensures Armed(s', k) { LoopKeepsArmed(c, s, mayBlock, k); }
  }

  lemma SenderKeepsArmed(c: Config, s: State, t: nat, src: Source, k: Kind)
    requires Armed(s, k) && t < |s.senders|
    ensures Armed(DoSender(c, s, t, src), k)
  {
    var s' := DoSender(c, s, t, src);
    assert Arming(s'.senders[t]) ==> SomeArming(s');
    if SomeArming(s) {
      var u :| 0 <= u < |s.senders| && Arming(s.senders[u]);
      assert u == t || s'.senders[u] == s.senders[u];
    }
  }

  lemma SenderKeepsLoopOk(c: Config, s: State, t: nat, src: Source)
    requires LoopOk(c, s) && t < |s.senders|
    ensures LoopOk(c, DoSender(c, s, t, src))
  {
    var s' := DoSender(c, s, t, src);
    assert s'.loop == s.loop && s'.wanted == s.wanted;
    if s.loop == Poll(true) && s'.skipped && s'.pipe == 0 {
      if Writing(s'.senders[t]) {
        assert SomeWriting(s');
      } else {
        assert s.skipped && s.pipe == 0 && !Writing(s.senders[t]);
        var u :| 0 <= u < |s.senders| && Writing(s.senders[u]);
        assert s'.senders[u] == s.senders[u];
      }
    }
  }

  lemma SenderKeepsKept(c: Config, s: State, t: nat, src: Source, m: Send)
    requires t < |s.senders| && Kept(s, m)
    ensures Kept(DoSender(c, s, t, src), m)
  {
    var s' := DoSender(c, s, t, src);
    assert s'.log == s.log && s.marks <= s'.marks && s.flags <= s'.flags && s'.loop == s.loop;
  }

  lemma SenderKeepsSender(c: Config, s: State, t: nat, src: Source, x: Sender)
    requires t < |s.senders| && SenderOk(c, s, x)
    ensures SenderOk(c, DoSender(c, s, t, src), x)
  {
    var s' := DoSender(c, s, t, src);
    if Midway(x) { SenderKeepsKept(c, s, t, src, x.send); }
    if x.pc != Idle && FedSince(s, x.send) { FedStays(s, s', x.send); }
  }

  lemma SenderStaysOk(c: Config, s: State, t: nat, src: Source)
    requires t < |s.senders| && SenderOk(c, s, s.senders[t]) && c.Known(src)
    ensures SenderOk(c, DoSender(c, s, t, src), DoSender(c, s, t, src).senders[t])
  {
    var s', x := DoSender(c, s, t, src), s.senders[t];
    SenderKeepsSender(c, s, t, src, x);
    assert x.pc != Idle ==> s'.senders[t].send == x.send;
  }

  lemma SenderKeepsInv(c: Config, s: State, t: nat, src: Source)
    requires Inv(c, s) && t < |s.senders| && c.Known(src)
    ensures Inv(c, DoSender(c, s, t, src))
  {
    var s' := DoSender(c, s, t, src);
    forall k ensures Armed(s', k) { SenderKeepsArmed(c, s, t, src, k); }
    SenderKeepsLoopOk(c, s, t, src);
    forall u | 0 <= u < |s'.senders| ensures SenderOk(c, s', s'.senders[u]) {
      if u == t { SenderStaysOk(c, s, t, src); } else { SenderKeepsSender(c, s, t, src, s.senders[u]); }
    }
    forall m | m in s'.completed ensures Kept(s', m) {
      if m in s.completed {
        SenderKeepsKept(c, s, t, src, m);
      } else {
        assert SenderOk(c, s, s.senders[t]) && m == s.senders[t].send;
      }
    }
  }

  // ---------- All runs ----------

  /** run[0], run[1], ... is a run of the system under the given actions. */
  ghost predicate IsRun(c: Config, run: seq<State>, actions: seq<Action>)
  {
    && |run| == |actions| + 1
    && forall i | 0 <= i < |actions| :: Enabled(c, run[i], actions[i]) && run[i + 1] == Do(c, run[i], actions[i])
  }

  ghost predicate Reachable(c: Config, s: State)
  {
    exists run: seq<State>, actions: seq<Action> ::
      IsRun(c, run, actions) && run[0] == Init(|run[0].senders|) && run[|actions|] == s
  }

  lemma {:induction false} RunKeepsInv(c: Config, run: seq<State>, actions: seq<Action>, n: nat)
    requires IsRun(c, run, actions) && n <= |actions| && Inv(c, run[0])
    ensures Inv(c, run[n])
  {
    if n > 0 {
      RunKeepsInv(c, run, actions, n - 1);
      match actions[n - 1]
      case SenderStep(t, src) => SenderKeepsInv(c, run[n - 1], t, src);
      case LoopStep(mayBlock) => LoopKeepsInv(c, run[n - 1], mayBlock);
    }
  }

  lemma ReachableInv(c: Config, s: State)
    requires Reachable(c, s)
    ensures Inv(c, s)
  {
    var run: seq<State>, actions: seq<Action> :|
      IsRun(c, run, actions) && run[0] == Init(|run[0].senders|) && run[|actions|] == s;
    InitInv(c, |run[0].senders|);
    RunKeepsInv(c, run, actions, |actions|);
  }

  /** Every completed send has been fed after it began, or the loop still owes it the feed. */
  lemma CompletedSendsAreFedOrOwed(c: Config, s: State, m: Send)
    requires Reachable(c, s) && m in s.completed
    ensures FedSince(s, m) || Owed(s, m.src)
  {
    ReachableInv(c, s);
  }

  /** A loop that blocks in its poll, having read pipe_write_skipped as 0, with a flag
      raised and no sender still to write the pipe, has a readable pipe. */
  lemma NoLostWakeup(c: Config, s: State)
    requires Reachable(c, s)
    requires s.loop == Poll(true) && s.flags != {} && Quiet(s)
    ensures s.pipe > 0
  {
    ReachableInv(c, s);
    assert !SomeArming(s) && !SomeWriting(s);
    var k :| k in s.flags;
    assert Armed(s, k);
  }

  // ---------- No source is fed without a send ----------

  /** How often w is in the feed log. */
  function Feeds(log: seq<Source>, w: Source): nat
  {
    if log == [] then 0 else Feeds(log[..|log| - 1], w) + if log[|log| - 1] == w then 1 else 0
  }

  /** A send of w begins: a sender that is idle marks w. */
  predicate Begins(s: State, a: Action, w: Source)
  {
    a.SenderStep? && a.src == w && a.t < |s.senders| && s.senders[a.t].pc == Idle
  }

  /** How many sends of w begin between the states numbered `from` and n. */
  function Begun(run: seq<State>, actions: seq<Action>, w: Source, from: nat, n: nat): nat
    requires from <= n <= |actions| <= |run|
  {
    if n == from then 0
    else Begun(run, actions, w, from, n - 1) + if Begins(run[n - 1], actions[n - 1], w) then 1 else 0
  }

  /** 1 for a marked source, which may be fed once without a further send. */
  function Credit(s: State, w: Source): nat { if w in s.marks then 1 else 0 }

  lemma SenderLog(c: Config, s: State, t: nat, src: Source)
    requires t < |s.senders|
    ensures DoSender(c, s, t, src).log == s.log
    ensures DoSender(c, s, t, src).marks == if s.senders[t].pc == Idle then s.marks + {src} else s.marks
  {
  }

  /** What a step of the loop does to log and marks: it feeds a marked source, and clears its
      mark, or nothing. */
  lemma LoopLog(c: Config, s: State, mayBlock: bool)
    requires LoopOk(c, s)
    ensures
      var s' := DoLoop(c, s, mayBlock);
      || (s'.log == s.log && s'.marks == s.marks)
      || exists w | w in s.marks :: s'.log == s.log + [w] && s'.marks == s.marks - {w}
  {
  }

  lemma FeedsAppend(log: seq<Source>, fed: Source, w: Source)
    ensures Feeds(log + [fed], w) == Feeds(log, w) + if fed == w then 1 else 0
  {
    assert (log + [fed])[..|log|] == log;
  }

  /** One step: a feed uses up the mark, and only the beginning of a send sets it. */
  lemma StepCredit(c: Config, s: State, a: Action, w: Source)
    requires LoopOk(c, s) && Enabled(c, s, a)
    ensures
      var s' := Do(c, s, a);
      Feeds(s'.log, w) + Credit(s', w) <= Feeds(s.log, w) + Credit(s, w) + if Begins(s, a, w) then 1 else 0
  {
    match a
    case SenderStep(t, src) => SenderLog(c, s, t, src);
    case LoopStep(mayBlock) =>
      LoopLog(c, s, mayBlock);
      var s' := DoLoop(c, s, mayBlock);
      if s'.log != s.log {
        var fed :| fed in s.marks && s'.log == s.log + [fed] && s'.marks == s.marks - {fed};
        FeedsAppend(s.log, fed, w);
      }
  }

  /** In every run, between any two of its states, a source is fed at most once for each send
      of it that begins there, and once more if it was marked at the start. */
  lemma {:induction false} FeedsNeedSends(c: Config, run: seq<State>, actions: seq<Action>, w: Source, from: nat,
                                          n: nat)
    requires IsRun(c, run, actions) && Inv(c, run[0]) && from <= n <= |actions|
    ensures Feeds(run[n].log, w) + Credit(run[n], w)
         <= Feeds(run[from].log, w) + Credit(run[from], w) + Begun(run, actions, w, from, n)
    decreases n
  {
    if n > from {
      FeedsNeedSends(c, run, actions, w, from, n - 1);
      RunKeepsInv(c, run, actions, n - 1);
      StepCredit(c, run[n - 1], actions[n - 1], w);
    }
  }

  /** In every run from the start, a source has been fed at most as often as sends of it have
      begun. */
  lemma NoFeedWithoutSend(c: Config, run: seq<State>, actions: seq<Action>, w: Source, n: nat)
    requires IsRun(c, run, actions) && run[0] == Init(|run[0].senders|) && n <= |actions|
    ensures Feeds(run[n].log, w) <= Begun(run, actions, w, 0, n)
  {
    InitInv(c, |run[0].senders|);
    FeedsNeedSends(c, run, actions, w, 0, n);
  }

  /** Between two feeds of a source a send of it begins: the first one, by step i, takes its
      mark, and n is after the second one. */
  lemma SendBetweenFeeds(c: Config, run: seq<State>, actions: seq<Action>, w: Source, i: nat, n: nat)
    requires IsRun(c, run, actions) && run[0] == Init(|run[0].senders|) && i < n <= |actions|
    requires run[i + 1].log == run[i].log + [w] && Feeds(run[n].log, w) > Feeds(run[i + 1].log, w)
    ensures Begun(run, actions, w, i + 1, n) > 0
  {
    InitInv(c, |run[0].senders|);
    RunKeepsInv(c, run, actions, i);
    FedUnmarks(c, run[i], actions[i], w);
    FeedsNeedSends(c, run, actions, w, i + 1, n);
  }

  lemma FedUnmarks(c: Config, s: State, a: Action, w: Source)
    requires Inv(c, s) && Enabled(c, s, a) && Do(c, s, a).log == s.log + [w]
    ensures w !in Do(c, s, a).marks
  {
    if a.SenderStep? {
      SenderLog(c, s, a.t, a.src);
    } else {
      LoopLog(c, s, a.mayBlock);
      var fed :| fed in s.marks && s.log + [fed] == s.log + [w] && Do(c, s, a).marks == s.marks - {fed};
      assert (s.log + [fed])[|s.log|] == (s.log + [w])[|s.log|];
    }
  }

  // ---------- The callback does not run without cause ----------

  /** The callback begins: the loop invokes the pending event of the pipe. */
  predicate Calls(s: State, a: Action) { a.LoopStep? && s.loop.Invoke? && (s.readEvent || s.customEvent) }

  /** A sender writes to the pipe, or leaves a request for a loop that does not wait. */
  predicate Requests(s: State, a: Action)
  {
    a.SenderStep? && a.t < |s.senders| && (s.senders[a.t].pc == WritePipe || s.senders[a.t].pc == SetSkipped)
  }

  function CountCalls(run: seq<State>, actions: seq<Action>, n: nat): nat
    requires n <= |actions| <= |run|
  {
    if n == 0 then 0 else CountCalls(run, actions, n - 1) + if Calls(run[n - 1], actions[n - 1]) then 1 else 0
  }

  function CountRequests(run: seq<State>, actions: seq<Action>, n: nat): nat
    requires n <= |actions| <= |run|
  {
    if n == 0 then 0 else CountRequests(run, actions, n - 1) + if Requests(run[n - 1], actions[n - 1]) then 1 else 0
  }

  /** A pipe that the poll has found readable stays so until the callback reads it. */
  predicate StaysReadable(s: State)
  {
    && (s.loop.CbRead? || s.readEvent ==> s.pipe > 0)
    && (s.readEvent || s.customEvent ==> s.loop.ClearWanted? || s.loop.TestSkippedAfter? || s.loop.Invoke?)
  }

  /** The calls that the requests so far may still lead to: one for each byte in the pipe, of
      which a call that has begun takes one, and one for the request that is left. */
  function Pending(s: State): int
  {
    (if s.loop.CbRead? then s.pipe - 1 else s.pipe)
    + if (s.skipped || s.customEvent) && !s.loop.CbRead? && !s.loop.CbClearSkipped? then 1 else 0
  }

  lemma StepCalls(c: Config, s: State, a: Action)
    requires Enabled(c, s, a) && StaysReadable(s)
    ensures var s' := Do(c, s, a);
      && StaysReadable(s')
      && Pending(s') + (if Calls(s, a) then 1 else 0) <= Pending(s) + (if Requests(s, a) then 1 else 0)
  {
  }

  /** In every run from the start, the callback of the pipe begins at most as often as senders
      have written to the pipe or left a request: the loop does not spin. */
  lemma {:induction false} CallsNeedRequests(c: Config, run: seq<State>, actions: seq<Action>, n: nat)
    requires IsRun(c, run, actions) && run[0] == Init(|run[0].senders|) && n <= |actions|
    ensures CountCalls(run, actions, n) + Pending(run[n]) <= CountRequests(run, actions, n)
    ensures StaysReadable(run[n]) && Pending(run[n]) >= 0
  {
    if n > 0 {
      CallsNeedRequests(c, run, actions, n - 1);
      StepCalls(c, run[n - 1], actions[n - 1]);
    }
  }

  /** The statement that a sender thread executes in a step. */
  predicate SenderAt(s: State, a: Action, t: nat, pc: SenderPc)
  {
    a.SenderStep? && a.t == t && t < |s.senders| && s.senders[t].pc == pc
  }

  function CountAt(run: seq<State>, actions: seq<Action>, t: nat, pc: SenderPc, wanted: bool, n: nat): nat
    requires n <= |actions| <= |run|
  {
    if n == 0 then 0 else
      var (s, a) := (run[n - 1], actions[n - 1]);
      CountAt(run, actions, t, pc, wanted, n - 1) + if SenderAt(s, a, t, pc) && (wanted ==> s.wanted) then 1 else 0
  }

  /** A sender writes to the pipe at most once for each time that it has found the loop
      waiting. */
  lemma {:induction false} WritesWereWanted(c: Config, run: seq<State>, actions: seq<Action>, t: nat, n: nat)
    requires IsRun(c, run, actions) && run[0] == Init(|run[0].senders|) && n <= |actions| && t < |run[0].senders|
    ensures |run[n].senders| == |run[0].senders|
    ensures CountAt(run, actions, t, WritePipe, false, n)
         + (if run[n].senders[t].pc in {ClearSkipped, WritePipe} then 1 else 0)
         <= CountAt(run, actions, t, TestWanted, true, n)
  {
    if n > 0 {
      WritesWereWanted(c, run, actions, t, n - 1);
      StepWrites(c, run[n - 1], actions[n - 1], t);
    }
  }

  lemma StepWrites(c: Config, s: State, a: Action, t: nat)
    requires Enabled(c, s, a) && t < |s.senders|
    ensures var s' := Do(c, s, a);
      && |s'.senders| == |s.senders|
      && (s'.senders[t].pc in {ClearSkipped, WritePipe} ==>
            s.senders[t].pc == ClearSkipped || (s.senders[t].pc == WritePipe && !SenderAt(s, a, t, WritePipe))
            || (SenderAt(s, a, t, TestWanted) && s.wanted))
      && (SenderAt(s, a, t, WritePipe) ==> s'.senders[t].pc == Idle)
  {
  }

  /** A sender that is going to write, or the callback, takes the request back: it stays so until
      a sender leaves a new one. */
  lemma {:induction false} RequestTakenBack(c: Config, run: seq<State>, actions: seq<Action>, i: nat, n: nat)
    requires IsRun(c, run, actions) && i < n <= |actions|
    requires (exists t :: SenderAt(run[i], actions[i], t, ClearSkipped))
             || (actions[i].LoopStep? && run[i].loop.CbClearSkipped?)
    requires forall j, t | i < j < n :: !SenderAt(run[j], actions[j], t, SetSkipped)
    ensures !run[n].skipped
    decreases n
  {
    if n > i + 1 {
      RequestTakenBack(c, run, actions, i, n - 1);
      var a := actions[n - 1];
      if a.SenderStep? { assert !SenderAt(run[n - 1], a, a.t, SetSkipped); }
    }
  }

  // ---------- Every completed send is delivered ----------

  /** The loop is outside pipecb and has no event pending that will call it. */
  predicate Waiting(s: State)
  {
    && (s.loop.Outside? || s.loop.TestSkipped? || s.loop.Poll? || s.loop.ClearWanted? || s.loop.TestSkippedAfter?
        || s.loop.Invoke?)
    && !s.readEvent && !s.customEvent
  }

  /** The steps a fair scheduler cannot put off for ever: a step of the loop, unless it waits
      for a sender that is midway, and then a step of such a sender. */
  predicate Productive(s: State, a: Action)
  {
    match a
    case LoopStep(_) => Quiet(s) || !Waiting(s)
    case SenderStep(t, _) => Waiting(s) && t < |s.senders| && Midway(s.senders[t])
  }

  function Other(k: Kind): Kind { if k == Sig then Async else Sig }

  /** How many steps a sender can take that move skipped or the pipe, while the flag of the
      owed source stays raised; `open` says that the other flag can still be raised. */
  function Potential(x: Sender, k: Kind, open: bool): nat
  {
    var base := if open then 6 else 0;
    match x.pc
    case SetFlag => if x.send.src.kind == k then base + 5 else 5
    case SetSkipped => base + 4
    case TestWanted => base + 3
    case ClearSkipped => base + 2
    case WritePipe => base + 1
    case _ => base
  }

  function TotalPotential(xs: seq<Sender>, k: Kind, open: bool): nat
  {
    if xs == [] then 0 else Potential(xs[0], k, open) + TotalPotential(xs[1..], k, open)
  }

  lemma {:induction false} PotentialUpdate(xs: seq<Sender>, t: nat, x: Sender, k: Kind, open: bool)
    requires t < |xs|
    ensures TotalPotential(xs[t := x], k, open) + Potential(xs[t], k, open)
        == TotalPotential(xs, k, open) + Potential(x, k, open)
  {
    if t > 0 {
      PotentialUpdate(xs[1..], t - 1, x, k, open);
      assert xs[t := x][1..] == xs[1..][t - 1 := x];
    } else {
      assert xs[t := x][1..] == xs[1..];
    }
  }

  lemma {:induction false} PotentialBounds(xs: seq<Sender>, k: Kind, open: bool)
    ensures TotalPotential(xs, k, false) <= TotalPotential(xs, k, open) <= 11 * |xs|
  {
    if xs != [] { PotentialBounds(xs[1..], k, open); }
  }

  /** Loop steps until pipecb returns, at most. */
  function CallbackDistance(c: Config, s: State): nat
  {
    var scans := 2 * c.signals + 2 * c.asyncs;
    match s.loop
    case CbTestMark(Async, i) => 2 * i
    case CbClearMark(Async, i) => if i == 0 then 0 else 2 * i - 1
    case CbClearFlag(Async) => 2 * c.asyncs + 1
    case CbTestFlag(Async) => 2 * c.asyncs + 2
    case CbTestMark(Sig, i) => 2 * c.asyncs + 3 + 2 * i
    case CbClearMark(Sig, i) => 2 * c.asyncs + 2 + 2 * i
    case CbClearFlag(Sig) => scans + 4
    case CbTestFlag(Sig) => scans + 5
    case CbClearSkipped => scans + 6
    case CbRead => scans + 7
    case Invoke => scans + 8
    case TestSkippedAfter => scans + 9
    case _ => scans + 10
  }

  /** Loop steps until pipecb is called, at most, when no sender is midway. */
  function WaitDistance(s: State): nat
  {
    if !Quiet(s) then 7
    else if s.pipe > 0 then
      match s.loop
      case Poll(_) => 1
      case TestSkipped => 2
      case Outside => 3
      case Invoke => 4
      case TestSkippedAfter => 5
      case _ => 6
    else
      match s.loop
      case TestSkippedAfter => 1
      case ClearWanted => 2
      case Poll(_) => 3
      case TestSkipped => 4
      case Outside => 5
      case _ => 6
  }

  /** A bound on the productive steps before w is fed. Its three ranges are: pipecb will
      come to the mark of w, it has to be called first, it must first return. */
  function Measure(c: Config, s: State, w: Source): nat
  {
    var called := 2 * c.signals + 2 * c.asyncs + 11;
    if Waiting(s) then
      called + 8 * TotalPotential(s.senders, w.kind, Other(w.kind) !in s.flags) + WaitDistance(s)
    else if ScanAhead(s, w) || TestAhead(s, w.kind) || s.readEvent || s.customEvent then
      CallbackDistance(c, s)
    else
      called + 88 * |s.senders| + 8 + CallbackDistance(c, s)
  }

  function Bound(c: Config, threads: nat): nat
  {
    4 * c.signals + 4 * c.asyncs + 88 * threads + 30
  }

  /** What the steps from s to s' do to the obligation towards w. */
  predicate Advances(c: Config, s: State, s': State, w: Source, productive: bool)
  {
    && Owed(s', w)
    && Measure(c, s', w) <= Measure(c, s, w)
    && (productive ==> Measure(c, s', w) < Measure(c, s, w))
  }

  lemma WaitingLoopMeasure(c: Config, s: State, mayBlock: bool, w: Source)
    requires Armed(s, w.kind) && Owed(s, w) && Waiting(s)
    ensures Advances(c, s, DoLoop(c, s, mayBlock), w, Quiet(s))
  {
    var s' := DoLoop(c, s, mayBlock);
    assert Quiet(s') <==> Quiet(s);
    assert Quiet(s) ==> !SomeArming(s);
  }

  lemma CallbackLoopDistance(c: Config, s: State, mayBlock: bool)
    requires LoopOk(c, s) && !Waiting(s)
    ensures
      var s' := DoLoop(c, s, mayBlock);
      if Waiting(s') then s'.loop == Outside && (s.loop == CbTestFlag(Async) || s.loop == CbTestMark(Async, 0))
      else CallbackDistance(c, s') < CallbackDistance(c, s)
  {
  }

  lemma CallbackLoopMeasure(c: Config, s: State, mayBlock: bool, w: Source)
    requires LoopOk(c, s) && Owed(s, w) && c.Known(w) && !Waiting(s)
    ensures DoLoop(c, s, mayBlock).log == s.log + [w] || Advances(c, s, DoLoop(c, s, mayBlock), w, true)
  {
    var s' := DoLoop(c, s, mayBlock);
    LoopKeepsOwed(c, s, mayBlock, w);
    CallbackLoopDistance(c, s, mayBlock);
    if Waiting(s') {
      PotentialBounds(s.senders, w.kind, Other(w.kind) !in s.flags);
    }
  }

  lemma OneStepPotential(c: Config, s: State, t: nat, src: Source, k: Kind)
    requires t < |s.senders| && k in s.flags
    ensures
      var s', x := DoSender(c, s, t, src), s.senders[t];
      var open' := Other(k) !in s'.flags;
      && s'.senders == s.senders[t := s'.senders[t]] && (open' ==> Other(k) !in s.flags)
      && Potential(s'.senders[t], k, open') <= Potential(x, k, open')
      && (x.pc == SetFlag || Midway(x) ==> Potential(s'.senders[t], k, open') < Potential(x, k, open'))
  {
    assert s.senders[t].send.src.kind == k || s.senders[t].send.src.kind == Other(k);
  }

  lemma SenderStepPotential(c: Config, s: State, t: nat, src: Source, k: Kind)
    requires t < |s.senders| && k in s.flags
    ensures
      var s', x := DoSender(c, s, t, src), s.senders[t];
      var before := TotalPotential(s.senders, k, Other(k) !in s.flags);
      var after := TotalPotential(s'.senders, k, Other(k) !in s'.flags);
      if x.pc == SetFlag || Midway(x) then after < before else after <= before
  {
    var s' := DoSender(c, s, t, src);
    OneStepPotential(c, s, t, src, k);
    PotentialUpdate(s.senders, t, s'.senders[t], k, Other(k) !in s'.flags);
    PotentialBounds(s.senders, k, Other(k) !in s.flags);
  }

  lemma SenderStepWait(c: Config, s: State, t: nat, src: Source)
    requires t < |s.senders| && s.senders[t].pc != SetFlag && !Midway(s.senders[t])
    ensures WaitDistance(DoSender(c, s, t, src)) == WaitDistance(s)
  {
    var s' := DoSender(c, s, t, src);
    assert !Midway(s'.senders[t]);
    forall u | 0 <= u < |s.senders| ensures Midway(s'.senders[u]) <==> Midway(s.senders[u]) {
      assert u == t || s'.senders[u] == s.senders[u];
    }
  }

  lemma SenderStepMeasure(c: Config, s: State, t: nat, src: Source, w: Source)
    requires Owed(s, w) && t < |s.senders|
    ensures Advances(c, s, DoSender(c, s, t, src), w, Productive(s, SenderStep(t, src)))
  {
    var s' := DoSender(c, s, t, src);
    assert s'.loop == s.loop && s'.readEvent == s.readEvent && s'.customEvent == s.customEvent;
    assert Owed(s', w) && |s'.senders| == |s.senders|;
    if Waiting(s) {
      SenderStepPotential(c, s, t, src, w.kind);
      if s.senders[t].pc != SetFlag && !Midway(s.senders[t]) { SenderStepWait(c, s, t, src); }
    }
  }

  function CountProductive(run: seq<State>, actions: seq<Action>, n: nat): nat
    requires n <= |actions| <= |run|
  {
    if n == 0 then 0
    else CountProductive(run, actions, n - 1) + if Productive(run[n - 1], actions[n - 1]) then 1 else 0
  }

  lemma StepAdvances(c: Config, s: State, a: Action, w: Source)
    requires Inv(c, s) && Owed(s, w) && Enabled(c, s, a)
    ensures Do(c, s, a).log == s.log + [w] || Advances(c, s, Do(c, s, a), w, Productive(s, a))
  {
    match a
    case SenderStep(t, src) => SenderStepMeasure(c, s, t, src, w);
    case LoopStep(mayBlock) =>
      if Waiting(s) {
        assert Armed(s, w.kind);
        WaitingLoopMeasure(c, s, mayBlock, w);
      } else {
        CallbackLoopMeasure(c, s, mayBlock, w);
      }
  }

  lemma LogGrows(c: Config, s: State, a: Action)
    requires Enabled(c, s, a)
    ensures s.log <= Do(c, s, a).log
  {
  }

  lemma {:induction false} ProductiveStepsBounded(c: Config, run: seq<State>, actions: seq<Action>, n: nat, w: Source)
    requires IsRun(c, run, actions) && n <= |actions| && Inv(c, run[0]) && Owed(run[0], w)
    ensures FedSince(run[n], Send(w, |run[0].log|))
         || (Owed(run[n], w) && Measure(c, run[n], w) + CountProductive(run, actions, n) <= Measure(c, run[0], w))
    ensures |run[0].log| <= |run[n].log|
  {
    if n > 0 {
      ProductiveStepsBounded(c, run, actions, n - 1, w);
      RunKeepsInv(c, run, actions, n - 1);
      var s, s', m := run[n - 1], run[n], Send(w, |run[0].log|);
      LogGrows(c, s, actions[n - 1]);
      if FedSince(s, m) {
        FedStays(s, s', m);
      } else {
        StepAdvances(c, s, actions[n - 1], w);
        if s'.log == s.log + [w] { FedNow(s, s', m); }
      }
    }
  }

  lemma MeasureBound(c: Config, s: State, w: Source)
    ensures Measure(c, s, w) <= Bound(c, |s.senders|)
    requires LoopOk(c, s)
  {
    PotentialBounds(s.senders, w.kind, Other(w.kind) !in s.flags);
  }

  /** Delivery: in every run from a state that owes w its feed, either w is fed or at most
      Bound productive steps happen. With OwedMakesProgress, a fair run feeds w. */
  lemma OwedSourceIsFed(c: Config, run: seq<State>, actions: seq<Action>, w: Source)
    requires IsRun(c, run, actions) && Reachable(c, run[0]) && Owed(run[0], w)
    requires CountProductive(run, actions, |actions|) > Bound(c, |run[0].senders|)
    ensures FedSince(run[|actions|], Send(w, |run[0].log|))
  {
    ReachableInv(c, run[0]);
    ProductiveStepsBounded(c, run, actions, |actions|, w);
    MeasureBound(c, run[0], w);
  }

  /** A productive step is always possible, and without a timeout, while w is owed. */
  lemma OwedMakesProgress(c: Config, s: State, w: Source)
    requires Reachable(c, s) && Owed(s, w)
    ensures if Quiet(s) || !Waiting(s) then Productive(s, LoopStep(true)) && !(s.loop == Poll(true) && s.pipe == 0)
            else exists t :: Enabled(c, s, SenderStep(t, w)) && Productive(s, SenderStep(t, w))
  {
    ReachableInv(c, s);
    if Quiet(s) || !Waiting(s) {
      if s.loop == Poll(true) {
        assert Waiting(s);
        NoLostWakeup(c, s);
      }
    } else {
      var t :| 0 <= t < |s.senders| && Midway(s.senders[t]);
      assert Productive(s, SenderStep(t, w));
    }
  }
}
