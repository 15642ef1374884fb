/** What `fd_event` feeds: every watcher of the descriptor learns exactly those of the reported
    events that it wants, and no reported event is lost. */
module FdDelivery {
  import opened FdBackends
  import opened FdLoop
  import opened Dispatch
  import opened Deliveries

  /** What a watcher that asks for some of the events is told in addition. */
  ghost function Told(want: Want, asked: Mask, revents: Mask): Want
  {
    var ev := asked * revents;
    if ev == {} then want else Want(true, want.events + BitsOf(ev))
  }

  ghost predicate EachAsksOnce(asks: seq<Ask>)
  {
    AsksOk(asks) && forall i, j | 0 <= i < j < |asks| :: asks[i].w != asks[j].w
  }

  ghost function FirstFed(s: Stacks, ask: Ask, revents: Mask): Stacks
    requires ask.w.priority < NUMPRI
  {
    var ev := ask.events * revents;
    if ev == {} then s else After(s, Feed(ask.w, BitsOf(ev)))
  }

  lemma FirstIsTold(s: Stacks, ask: Ask, revents: Mask, v: Watcher)
    requires EachOnce(s) && ask.w.priority < NUMPRI && v.priority < NUMPRI
    ensures var t := FirstFed(s, ask, revents);
      EachOnce(t) && WantOf(t, v) == if v == ask.w then Told(WantOf(s, v), ask.events, revents) else WantOf(s, v)
  {
    FeedWants(s, ask.w, BitsOf(ask.events * revents), v);
  }

  /** Other watchers are told nothing. */
  lemma {:induction false} OthersKeepWant(s: Stacks, asks: seq<Ask>, revents: Mask, v: Watcher)
    requires EachOnce(s) && EachAsksOnce(asks) && v.priority < NUMPRI && forall i | 0 <= i < |asks| :: asks[i].w != v
    ensures EachOnce(FedFor(s, asks, revents)) && WantOf(FedFor(s, asks, revents), v) == WantOf(s, v)
    decreases |asks|
  {
    if asks != [] {
      FirstIsTold(s, asks[0], revents, v);
      OthersKeepWant(FirstFed(s, asks[0], revents), asks[1..], revents, v);
    }
  }

  /** Each watcher of the list is told those of the events that it asks for. */
  lemma {:induction false} EachIsTold(s: Stacks, asks: seq<Ask>, revents: Mask, i: nat)
    requires EachOnce(s) && EachAsksOnce(asks) && i < |asks|
    ensures WantOf(FedFor(s, asks, revents), asks[i].w) == Told(WantOf(s, asks[i].w), asks[i].events, revents)
    decreases |asks|
  {
    var t := FirstFed(s, asks[0], revents);
    FirstIsTold(s, asks[0], revents, asks[i].w);
    if i == 0 {
      OthersKeepWant(t, asks[1..], revents, asks[0].w);
    } else {
      EachIsTold(t, asks[1..], revents, i - 1);
    }
  }

  /** Of a descriptor that is not marked, whatever the backend may report is told to a watcher
      that wants it. */
  lemma NothingIsLost(loop: Loop, s: Stacks, fd: nat, revents: Mask, b: Bit)
    requires loop.Valid() && fd < |loop.anfds| && loop.anfds[fd].reify == {} && EachOnce(s)
    requires EachAsksOnce(Asks(loop.anfds[fd].head)) && b in revents && revents <= loop.Told(fd)
    ensures exists w | w in loop.ws && w.active && w.fd == fd && b in w.events ::
      w.base.priority < NUMPRI && BitsOf({b}) <= WantOf(FedFor(s, Asks(loop.anfds[fd].head), revents), w.base).events
  {
    var head := loop.anfds[fd].head;
    var w := Wanter(loop, fd, b);
    var i :| 0 <= i < |head| && head[i] == w;
    EachIsTold(s, Asks(head), revents, i);
  }

  lemma Wanter(loop: Loop, fd: nat, b: Bit) returns (w: Io)
    requires loop.Valid() && fd < |loop.anfds| && loop.anfds[fd].reify == {} && b in loop.Told(fd)
    ensures w in loop.anfds[fd].head && w in loop.ws && w.active && w.fd == fd && b in w.events
  {
    var head := loop.anfds[fd].head;
    WantedMembers(head);
    assert b in Wanted(head) && loop.ListOk(head, fd);
    w :| w in head && b in w.events;
  }
}
