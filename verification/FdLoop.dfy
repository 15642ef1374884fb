/** How libev keeps a backend in step with the io watchers: starting and stopping a watcher
    only marks its descriptor as changed, and `fd_reify` brings the marked descriptors up
    to date before the loop polls. */
module FdLoop {
  import opened Sequences
  import opened FdBackends
  import Dispatch

  /** ev_io; `base` is its pending part. */
  class Io {
    const base: Dispatch.Watcher
    const fd: int
    var events: Mask
    var active: bool

    constructor (w: Dispatch.Watcher, descriptor: int, mask: Mask)
      ensures base == w && fd == descriptor && events == mask + {FdSet} && !active
    {
      base, fd, events, active := w, descriptor, mask + {FdSet}, false;
    }
  }

  /** ANFD; `head` is the list of the started watchers, the last one first. */
  datatype Anfd = Anfd(head: seq<Io>, events: Mask, reify: Mask)

  /** What the watchers of a list want, all together. */
  ghost function Wanted(head: seq<Io>): Mask
    reads head`events
  {
    if head == [] then {} else Wanted(head[..|head| - 1]) + head[|head| - 1].events
  }

  lemma {:induction false} WantedMembers(head: seq<Io>)
    ensures forall b :: b in Wanted(head) <==> exists w :: w in head && b in w.events
  {
    if head != [] {
      var front, last := head[..|head| - 1], head[|head| - 1];
      WantedMembers(front);
      assert forall w :: w in head <==> w in front || w == last;
    }
  }

  /** A watcher is cut out of a list; the others keep their order. */
  ghost predicate CutOut(rest: seq<Io>, head: seq<Io>, w: Io)
  {
    if w in head then exists i | 0 <= i < |head| && head[i] == w :: rest == head[..i] + head[i + 1..] else rest == head
  }

  lemma CutMembers(rest: seq<Io>, head: seq<Io>, w: Io)
    requires AllDifferent(head) && CutOut(rest, head, w)
    ensures AllDifferent(rest) && forall x :: x in rest <==> x in head && x != w
  {
    if w in head {
      var i :| 0 <= i < |head| && head[i] == w && rest == head[..i] + head[i + 1..];
      assert forall j | 0 <= j < |rest| :: rest[j] == head[if j < i then j else j + 1];
      forall x | x in head && x != w ensures x in rest {
        var j :| 0 <= j < |head| && head[j] == x;
        assert rest[if j < i then j else j - 1] == x;
      }
    }
  }

  /** wlist_del: the pointer to the watcher is found and cut out of the chain. */
  method Delete(head: seq<Io>, w: Io) returns (rest: seq<Io>)
    requires AllDifferent(head)
    ensures CutOut(rest, head, w)
  {
    var i := 0;
    while i < |head| && head[i] != w
      invariant i <= |head| && w !in head[..i]
    {
      i := i + 1;
    }
    if i == |head| {
      return head;
    }
    rest := head[..i] + head[i + 1..];
  }

  /** The bits EV_READ and EV_WRITE. */
  function BitsOf(m: Mask): Dispatch.Events { (if Read in m then {0} else {}) + (if Write in m then {1} else {}) }

  /** A watcher, and the events that it asks for. */
  datatype Ask = Ask(w: Dispatch.Watcher, events: Mask)

  ghost function Asks(head: seq<Io>): (asks: seq<Ask>)
    reads head`events
    ensures |asks| == |head| && forall i | 0 <= i < |head| :: asks[i] == Ask(head[i].base, head[i].events)
    decreases |head|
  {
    if head == [] then [] else [Ask(head[0].base, head[0].events)] + Asks(head[1..])
  }

  ghost predicate AsksOk(asks: seq<Ask>) { forall i | 0 <= i < |asks| :: asks[i].w.priority < Dispatch.NUMPRI }

  /** The watchers that ask for some of the events are fed just those, in the order of the
      list. */
  ghost function FedFor(s: Dispatch.Stacks, asks: seq<Ask>, revents: Mask): Dispatch.Stacks
    requires AsksOk(asks)
    decreases |asks|
  {
    if asks == [] then s else
      var ev := asks[0].events * revents;
      FedFor(if ev == {} then s else Dispatch.After(s, Dispatch.Feed(asks[0].w, BitsOf(ev))), asks[1..], revents)
  }

  class Loop {
    var anfds: seq<Anfd>
    var fdchanges: seq<nat>
    var activecnt: int
    const usePoll: bool
    const poll: PollTable
    const select: SelectTable
    const queues: Dispatch.Queues
    ghost const ws: set<Io>   // the io watchers of the program

    ghost predicate BackendOk()
      reads poll, select
    {
      poll.Valid() && select.Valid()
    }

    /** The mask that the backend gives to a descriptor. */
    ghost function Told(fd: nat): Mask
      requires BackendOk()
      reads poll, select
    {
      if usePoll then poll.Lookup(fd) else select.Lookup(fd)
    }

    ghost function Registered(fd: nat): Mask
      reads this`anfds
    {
      EventsOf(anfds, fd)
    }

    ghost function EventsOf(a: seq<Anfd>, fd: nat): Mask { if fd < |a| then a[fd].events else {} }

    ghost function Head(fd: nat): seq<Io>
      reads this`anfds
    {
      HeadOf(anfds, fd)
    }

    ghost function HeadOf(a: seq<Anfd>, fd: nat): seq<Io> { if fd < |a| then a[fd].head else [] }

    // What holds of the descriptor table is said of its value, so that it does not depend on
    // fields that have nothing to do with it.

    ghost predicate ListOk(head: seq<Io>, fd: nat)
      reads ws`active
    {
      AllDifferent(head) && forall w | w in head :: w in ws && w.fd == fd && w.active
    }

    ghost predicate Listed(a: seq<Anfd>, w: Io) { 0 <= w.fd < |a| && w in a[w.fd].head }

    /** The lists hold exactly the active watchers, each once, under its descriptor. */
    ghost predicate Lists(a: seq<Anfd>)
      reads ws`active
    {
      && (forall fd | 0 <= fd < |a| :: ListOk(a[fd].head, fd))
      && (forall w | w in ws && w.active :: Listed(a, w))
    }

    ghost predicate ListsOk()
      reads this`anfds, ws`active
    {
      Lists(anfds)
    }

    /** The same, but for one watcher, of which nothing is said. */
    ghost predicate ListsExcept(a: seq<Anfd>, w: Io)
      reads ws`active
    {
      && (forall fd | 0 <= fd < |a| :: ListExcept(a[fd].head, fd, w))
      && (forall x | x in ws && x.active && x != w :: Listed(a, x))
    }

    ghost predicate ListExcept(head: seq<Io>, fd: nat, w: Io)
      reads ws`active
    {
      AllDifferent(head) && forall x | x in head :: x in ws && x.fd == fd && (x.active || x == w)
    }

    /** An active watcher has only the io bits. */
    ghost predicate MasksOk()
      reads ws`active, ws`events
    {
      forall w | w in ws && w.active :: w.events <= IO
    }

    /** A descriptor is on the change list, exactly once, if and only if it is marked; the
        first `done` ones on the list have been brought up to date already. */
    ghost predicate Marks(a: seq<Anfd>, changes: seq<nat>, done: nat)
    {
      && done <= |changes|
      && (forall fd: nat | fd < |a| :: a[fd].reify != {} <==> fd in changes[done..])
      && (forall i | 0 <= i < |changes| :: changes[i] < |a|)
      && AllDifferent(changes)
    }

    ghost predicate ChangesOk(done: nat)
      reads this`anfds, this`fdchanges
    {
      Marks(anfds, fdchanges, done)
    }

    /** The backend knows the registered masks, which are masks for io. */
    ghost predicate Tells(a: seq<Anfd>)
      reads poll, select
    {
      BackendOk() && forall fd: nat :: Told(fd) == EventsOf(a, fd) <= IO
    }

    ghost predicate InStep()
      reads this`anfds, poll, select
    {
      Tells(anfds)
    }

    /** The lists hold watchers of the program. */
    ghost predicate Members(a: seq<Anfd>)
    {
      forall fd, w | 0 <= fd < |a| && w in a[fd].head :: w in ws
    }

    /** An unmarked descriptor, other than `except`, is registered with what its watchers
        want. */
    ghost predicate Wants(a: seq<Anfd>, except: int)
      requires Members(a)
      reads ws`events
    {
      forall fd | 0 <= fd < |a| && fd != except && a[fd].reify == {} :: a[fd].events == Wanted(a[fd].head)
    }

    ghost predicate UpToDate(except: int)
      reads this`anfds, ws`events
    {
      Members(anfds) && Wants(anfds, except)
    }

    /** A started watcher is in front of its list. */
    lemma ListedFirst(a: seq<Anfd>, w: Io)
      requires ListsExcept(a, w) && w in ws && w.active && 0 <= w.fd < |a| && w !in a[w.fd].head
      requires anfds == a[w.fd := a[w.fd].(head := [w] + a[w.fd].head)]
      ensures ListsOk()
    {
      forall fd | 0 <= fd < |anfds| ensures ListOk(anfds[fd].head, fd) {
        assert ListExcept(a[fd].head, fd, w);
        assert fd != w.fd ==> w !in a[fd].head;
      }
      forall x | x in ws && x.active ensures Listed(anfds, x) {
        assert x != w ==> Listed(a, x);
      }
    }

    /** A stopped watcher is cut out of its list. */
    lemma ListedNoMore(a: seq<Anfd>, w: Io, rest: seq<Io>)
      requires ListsExcept(a, w) && w in ws && !w.active && 0 <= w.fd < |a|
      requires CutOut(rest, a[w.fd].head, w)
      requires anfds == a[w.fd := a[w.fd].(head := rest)]
      ensures ListsOk()
    {
      assert ListExcept(a[w.fd].head, w.fd, w);
      CutMembers(rest, a[w.fd].head, w);
      forall fd | 0 <= fd < |anfds| ensures ListOk(anfds[fd].head, fd) {
        assert ListExcept(a[fd].head, fd, w);
      }
      forall x | x in ws && x.active ensures Listed(anfds, x) {
        assert Listed(a, x);
      }
    }

    /** A mark on one descriptor changes neither lists nor registrations. */
    lemma NewMark(a: seq<Anfd>, fd: nat, reify: Mask)
      requires Lists(a) && Tells(a) && Members(a) && Wants(a, fd)
      requires fd < |a| && reify != {} && anfds == a[fd := a[fd].(reify := reify)]
      ensures ListsOk() && InStep() && UpToDate(-1)
      ensures forall f: nat :: Head(f) == HeadOf(a, f) && Registered(f) == EventsOf(a, f)
    {
      forall f | 0 <= f < |a| ensures anfds[f].head == a[f].head && anfds[f].events == a[f].events {
      }
      forall f | 0 <= f < |a| ensures ListOk(anfds[f].head, f) {
        assert ListOk(a[f].head, f);
      }
      forall w | w in ws && w.active ensures Listed(anfds, w) {
        assert Listed(a, w);
      }
    }

    /** A new list for one descriptor changes no registration. */
    lemma NewList(a: seq<Anfd>, fd: nat, head: seq<Io>)
      requires Tells(a) && Marks(a, fdchanges, 0) && Members(a) && Wants(a, -1)
      requires fd < |a| && (forall w | w in head :: w in ws) && anfds == a[fd := a[fd].(head := head)]
      ensures InStep() && ChangesOk(0) && UpToDate(fd)
      ensures forall f: nat :: Registered(f) == EventsOf(a, f)
    {
      assert forall f: nat :: EventsOf(anfds, f) == EventsOf(a, f);
      assert forall f | 0 <= f < |a| && f != fd :: anfds[f] == a[f];
    }

    ghost predicate Valid()
      reads this`anfds, this`fdchanges, ws, poll, select
    {
      ListsOk() && MasksOk() && ChangesOk(0) && InStep() && UpToDate(-1)
    }

    constructor (pollBackend: bool, p: PollTable, s: SelectTable, q: Dispatch.Queues, ghost watchers: set<Io>)
      requires p.Valid() && s.Valid() && forall fd: nat :: p.Lookup(fd) == {} && s.Lookup(fd) == {}
      requires forall w | w in watchers :: !w.active
      ensures Valid() && ws == watchers && usePoll == pollBackend
      ensures poll == p && select == s && queues == q && anfds == []
    {
      anfds, fdchanges, activecnt := [], [], 0;
      usePoll, poll, select, queues, ws := pollBackend, p, s, q, watchers;
    }

    /** array_needsize with array_init_zero: new descriptors are unmarked, without watchers. */
    method NeedSize(size: nat)
      requires Valid()
      modifies this`anfds
      ensures Valid() && |anfds| >= size && |anfds| >= |old(anfds)|
      ensures forall fd: nat :: Head(fd) == old(Head(fd)) && Registered(fd) == old(Registered(fd))
    {
      if |anfds| < size {
        ghost var was := anfds;
        anfds := anfds + seq(size - |anfds|, _ => Anfd([], {}, {}));
        assert forall fd | 0 <= fd < |was| :: anfds[fd] == was[fd];
        assert forall fd | |was| <= fd < |anfds| :: anfds[fd] == Anfd([], {}, {});
      }
    }

    /** fd_change */
    method FdChange(fd: nat, flags: Mask)
      requires ChangesOk(0) && fd < |anfds|
      requires flags != {}
      modifies this`anfds, this`fdchanges
      ensures anfds == old(anfds[fd := anfds[fd].(reify := anfds[fd].reify + flags)]) && ChangesOk(0)
    {
      var reify := anfds[fd].reify;
      anfds := anfds[fd := anfds[fd].(reify := reify + flags)];
      if reify == {} {
        fdchanges := fdchanges + [fd];
      }
    }

    /** A descriptor with a new list is marked: the state is consistent again. */
    method Mark(fd: nat, flags: Mask)
      requires ListsOk() && ChangesOk(0) && InStep() && UpToDate(fd)
      requires fd < |anfds| && flags != {}
      modifies this`anfds, this`fdchanges
      ensures ListsOk() && ChangesOk(0) && InStep() && UpToDate(-1)
      ensures |anfds| == |old(anfds)| && anfds[fd].reify != {}
      ensures forall f: nat :: Head(f) == old(Head(f)) && Registered(f) == old(Registered(f))
    {
      ghost var was := anfds;
      FdChange(fd, flags);
      NewMark(was, fd, was[fd].reify + flags);
    }

    /** ev_start, and wlist_add in front of the list of the watcher's descriptor. */
    method Enlist(w: Io)
      requires Valid() && w in ws && !w.active && 0 <= w.fd < |anfds|
      modifies this, w`active
      ensures w.active && activecnt == old(activecnt) + 1
      ensures forall x | x in ws && x.active && x != w :: x.events <= IO
      ensures ListsOk() && ChangesOk(0) && InStep() && UpToDate(w.fd) && |anfds| == |old(anfds)|
      ensures forall fd: nat :: Registered(fd) == old(Registered(fd))
      ensures forall fd: nat :: Head(fd) == (if fd == w.fd then [w] else []) + old(Head(fd))
    {
      ghost var was := anfds;
      Unstarted(w);
      w.active := true;
      activecnt := activecnt + 1;
      var head := [w] + anfds[w.fd].head;
      anfds := anfds[w.fd := anfds[w.fd].(head := head)];
      ListedFirst(was, w);
      NewList(was, w.fd, head);
    }

    lemma Unstarted(w: Io)
      requires ListsOk() && w in ws
      ensures ListsExcept(anfds, w)
      ensures !w.active ==> forall fd | 0 <= fd < |anfds| :: w !in anfds[fd].head
    {
      forall fd | 0 <= fd < |anfds| ensures ListExcept(anfds[fd].head, fd, w) && (!w.active ==> w !in anfds[fd].head) {
        assert ListOk(anfds[fd].head, fd);
      }
    }

    /** The end of ev_io_start, for a watcher whose descriptor is marked. */
    method ClearFdSet(w: Io)
      requires ListsOk() && UpToDate(-1) && w in ws && w.active && anfds[w.fd].reify != {}
      requires w.events <= IO + {FdSet} && forall x | x in ws && x.active && x != w :: x.events <= IO
      modifies w`events
      ensures ListsOk() && UpToDate(-1) && MasksOk() && w.events == old(w.events) - {FdSet}
    {
      w.events := w.events - {FdSet};
      forall fd | 0 <= fd < |anfds| && anfds[fd].reify == {} ensures anfds[fd].events == Wanted(anfds[fd].head) {
        assert w !in anfds[fd].head;
        assert old(Wanted(anfds[fd].head)) == anfds[fd].events;
      }
    }

    /** ev_io_start: the watcher is listed, and its descriptor marked; the registrations stay
        what they were. */
    method IoStart(w: Io)
      requires Valid() && w in ws && w.fd >= 0 && w.events <= IO + {FdSet}
      modifies this, w
      ensures Valid() && w.active
      ensures forall fd: nat :: Registered(fd) == old(Registered(fd))
      ensures forall fd: nat :: Head(fd) == (if fd == w.fd && !old(w.active) then [w] else []) + old(Head(fd))
      ensures w.events == if old(w.active) then old(w.events) else old(w.events) - {FdSet}
      ensures activecnt == if old(w.active) then old(activecnt) else old(activecnt) + 1
    {
      if w.active {
        return;
      }
      NeedSize(w.fd + 1);
      Enlist(w);
      Mark(w.fd, w.events * {FdSet} + {Reify});
      ClearFdSet(w);
    }

    /** wlist_del, and ev_stop. */
    method Delist(w: Io)
      requires Valid() && w in ws && w.active
      modifies this, w`active
      ensures !w.active && activecnt == old(activecnt) - 1
      ensures ListsOk() && MasksOk() && ChangesOk(0) && InStep() && UpToDate(w.fd) && |anfds| == |old(anfds)|
      ensures forall fd: nat :: Registered(fd) == old(Registered(fd))
      ensures forall fd: nat :: CutOut(Head(fd), old(Head(fd)), w)
    {
      ghost var was := anfds;
      Unstarted(w);
      assert Listed(anfds, w) && ListOk(anfds[w.fd].head, w.fd);
      var rest := Delete(anfds[w.fd].head, w);
      anfds := anfds[w.fd := anfds[w.fd].(head := rest)];
      activecnt := activecnt - 1;
      w.active := false;
      ListedNoMore(was, w, rest);
      NewList(was, w.fd, rest);
    }

    /** ev_io_stop: the watcher is not pending any more, it is taken off its list, and its
        descriptor marked. */
    method IoStop(w: Io)
      requires Valid() && w in ws && queues.Valid() && w.base in queues.ws
      modifies this, w, queues`pendings, w.base
      ensures Valid() && queues.Valid() && !w.active && w.events == old(w.events)
      ensures queues.View() == Dispatch.After(old(queues.View()), Dispatch.Clear(w.base)) && w.base.pending == 0
      ensures forall fd: nat :: Registered(fd) == old(Registered(fd))
      ensures forall fd: nat :: CutOut(Head(fd), old(Head(fd)), w)
      ensures activecnt == if old(w.active) then old(activecnt) - 1 else old(activecnt)
    {
      var _ := queues.ClearPending(w.base);
      Unlink(w);
    }

    /** The part of ev_io_stop that follows clear_pending. */
    method Unlink(w: Io)
      requires Valid() && w in ws
      modifies this, w
      ensures Valid() && !w.active && w.events == old(w.events)
      ensures forall fd: nat :: Registered(fd) == old(Registered(fd))
      ensures forall fd: nat :: CutOut(Head(fd), old(Head(fd)), w)
      ensures activecnt == if old(w.active) then old(activecnt) - 1 else old(activecnt)
    {
      if !w.active {
        assert forall fd: nat :: w !in Head(fd);
        return;
      }
      Delist(w);
      Mark(w.fd, {Reify});
    }

    /** backend_modify, through the function pointer of the loop. */
    method BackendModify(fd: nat, oev: Mask, nev: Mask)
      requires BackendOk() && Told(fd) == oev && nev <= IO
      modifies poll, select
      ensures BackendOk() && Told(fd) == nev && forall f: nat | f != fd :: Told(f) == old(Told(f))
    {
      if usePoll {
        poll.Modify(fd, oev, nev);
      } else {
        select.Modify(fd, oev, nev);
      }
    }

    /** The inner loop of fd_reify. */
    method Combined(head: seq<Io>) returns (events: Mask)
      requires forall w | w in head :: w.events <= IO
      ensures events == Wanted(head) <= IO
    {
      events := {};
      for i := 0 to |head|
        invariant events == Wanted(head[..i]) <= IO
      {
        events := events + head[i].events;
        assert head[..i + 1][..i] == head[..i];
      }
      assert head[..|head|] == head;
    }

    /** The registration of one changed descriptor is computed anew. */
    method Recompute(i: nat)
      requires ListsOk() && MasksOk() && ChangesOk(i) && UpToDate(-1) && i < |fdchanges|
      modifies this`anfds
      ensures ListsOk() && ChangesOk(i + 1) && UpToDate(-1) && |anfds| == |old(anfds)|
      ensures forall fd: nat :: Head(fd) == old(Head(fd))
      ensures forall fd: nat | fd != fdchanges[i] :: EventsOf(anfds, fd) == EventsOf(old(anfds), fd)
      ensures Registered(fdchanges[i]) <= IO
    {
      var fd := fdchanges[i];
      var events := Combined(anfds[fd].head);
      anfds := anfds[fd := anfds[fd].(events := events, reify := {})];
    }

    /** The body of the outer loop of fd_reify, for one descriptor on the change list. */
    method ReifyOne(i: nat)
      requires ListsOk() && MasksOk() && ChangesOk(i) && InStep() && UpToDate(-1) && i < |fdchanges|
      modifies this`anfds, poll, select
      ensures ListsOk() && ChangesOk(i + 1) && InStep() && UpToDate(-1)
      ensures forall fd: nat :: Head(fd) == old(Head(fd))
    {
      ghost var was := anfds;
      var fd := fdchanges[i];
      var oEvents, oReify := anfds[fd].events, anfds[fd].reify;
      Recompute(i);
      TellsOthers(was, fd);
      if oEvents != anfds[fd].events {
        oReify := {FdSet};
      }
      Tell(fd, oEvents, FdSet in oReify);
    }

    /** The backend knows the registered masks of all descriptors but one. */
    ghost predicate TellsExcept(fd: nat)
      reads this`anfds, poll, select
    {
      BackendOk() && forall f: nat | f != fd :: Told(f) == EventsOf(anfds, f) <= IO
    }

    lemma TellsOthers(was: seq<Anfd>, fd: nat)
      requires Tells(was) && forall f: nat | f != fd :: EventsOf(anfds, f) == EventsOf(was, f)
      ensures TellsExcept(fd) && Told(fd) == EventsOf(was, fd)
    {
    }

    /** The end of the body of fd_reify. */
    method Tell(fd: nat, oev: Mask, changed: bool)
      requires TellsExcept(fd) && fd < |anfds| && Told(fd) == oev && anfds[fd].events <= IO
      requires !changed ==> anfds[fd].events == oev
      modifies poll, select
      ensures InStep()
    {
      if changed {
        BackendModify(fd, oev, anfds[fd].events);
      }
    }

    /** fd_reify: afterwards the backend gives to every descriptor exactly the events that
        some active watcher of it wants. */
    method FdReify()
      requires Valid()
      modifies this, poll, select
      ensures Valid() && fdchanges == [] && activecnt == old(activecnt)
      ensures forall fd: nat :: Head(fd) == old(Head(fd))
      ensures forall fd: nat, b :: b in Told(fd) <==> exists w :: w in ws && w.active && w.fd == fd && b in w.events
    {
      var i := 0;
      while i < |fdchanges|
        invariant ListsOk() && MasksOk() && ChangesOk(i) && InStep() && UpToDate(-1)
        invariant fdchanges == old(fdchanges) && activecnt == old(activecnt)
        invariant forall fd: nat :: Head(fd) == old(Head(fd))
      {
        ReifyOne(i);
        i := i + 1;
      }
      fdchanges := [];
      BackendIsExact();
    }

    /** With no descriptor marked, the backend serves exactly the active watchers. */
    lemma BackendIsExact()
      requires Valid() && fdchanges == []
      ensures forall fd: nat, b :: b in Told(fd) <==> exists w :: w in ws && w.active && w.fd == fd && b in w.events
    {
      forall fd: nat, b ensures b in Told(fd) <==> exists w :: w in ws && w.active && w.fd == fd && b in w.events {
        assert Told(fd) == Registered(fd);
        if fd < |anfds| {
          assert anfds[fd].reify == {};
          WantedMembers(anfds[fd].head);
        }
      }
    }

    /** The body of the loop of fd_event_nocheck. */
    method FeedOne(w: Io, revents: Mask)
      requires queues.Valid() && w.base in queues.ws
      modifies queues, w.base
      ensures queues.Valid() && w.base.priority < Dispatch.NUMPRI
      ensures var ev := w.events * revents;
        queues.View() == if ev == {} then old(queues.View())
                         else Dispatch.After(old(queues.View()), Dispatch.Feed(w.base, BitsOf(ev)))
    {
      queues.Priorities();
      var ev := w.events * revents;
      if ev != {} {
        queues.FeedEvent(w.base, BitsOf(ev));
      }
    }

    /** The loop of fd_event_nocheck. */
    method FeedAll(head: seq<Io>, revents: Mask)
      requires queues.Valid() && forall i | 0 <= i < |head| :: head[i].base in queues.ws
      requires AsksOk(Asks(head))
      modifies queues, queues.ws
      ensures queues.Valid() && queues.View() == FedFor(old(queues.View()), Asks(head), revents)
    {
      ghost var asks := Asks(head);
      var i := 0;
      assert asks[0..] == asks;
      while i < |head|
        invariant i <= |head| && queues.Valid() && asks == Asks(head)
        invariant FedFor(queues.View(), asks[i..], revents) == FedFor(old(queues.View()), asks, revents)
      {
        FeedOne(head[i], revents);
        assert asks[i..][1..] == asks[i + 1..];
        i := i + 1;
      }
    }

    lemma AsksKnown(head: seq<Io>)
      requires queues.Valid() && forall w | w in head :: w.base in queues.ws
      ensures AsksOk(Asks(head)) && forall i | 0 <= i < |head| :: head[i].base in queues.ws
    {
      queues.Priorities();
      assert forall i | 0 <= i < |head| :: head[i] in head;
    }

    /** fd_event: nothing is fed for a descriptor that is marked, as the events may be old. */
    method FdEvent(fd: nat, revents: Mask)
      requires queues.Valid() && fd < |anfds| && forall w | w in anfds[fd].head :: w.base in queues.ws
      modifies queues, queues.ws
      ensures queues.Valid() && AsksOk(Asks(anfds[fd].head))
      ensures queues.View()
           == if anfds[fd].reify == {} then FedFor(old(queues.View()), Asks(anfds[fd].head), revents)
              else old(queues.View())
    {
      AsksKnown(anfds[fd].head);
      if anfds[fd].reify == {} {
        FeedAll(anfds[fd].head, revents);
      }
    }
  }
}
