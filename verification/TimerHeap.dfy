/** The 4-ary heap in which libev keeps its timers and periodics: an array whose first
    element is at index HEAP0, each element caching the expiry time of its watcher, and
    each watcher knowing its own index. */
module TimerHeap {
  import Dispatch

  const DHEAP: nat := 4
  const HEAP0: nat := 3   // DHEAP - 1

  /** Division as in C: it truncates towards zero. */
  function CDiv(a: int, b: int): int
    requires b > 0
  {
    if a >= 0 then a / b else -(-a / b)
  }

  /** HPARENT; the root is its own parent because (HEAP0 - HEAP0 - 1) / DHEAP is 0 in C. */
  function Parent(k: nat): (p: nat)
    requires k >= HEAP0
    ensures HEAP0 <= p <= k && (p == k <==> k == HEAP0)
  {
    CDiv(k - HEAP0 - 1, DHEAP) + HEAP0
  }

  function FirstChild(k: nat): (c: nat)
    requires k >= HEAP0
    ensures c > k
  {
    DHEAP * (k - HEAP0) + HEAP0 + 1
  }

  lemma ChildParent(k: nat, c: nat)
    requires k >= HEAP0 && c > HEAP0
    ensures Parent(c) == k <==> FirstChild(k) <= c < FirstChild(k) + DHEAP
  {
  }

  /** ev_timer or ev_periodic: a pending part, and the common part of ev_watcher_time.
      `active` is 0 for a stopped watcher, else its heap index. */
  class TimeWatcher {
    const base: Dispatch.Watcher
    var active: nat
    var at: real
    var repeat: real             // of a timer
    const offset: real           // of a periodic
    const interval: real         // of a periodic
    const hasCallback: bool      // of a periodic: it has a reschedule callback

    constructor Timer(w: Dispatch.Watcher, after: real, again: real)
      ensures base == w && active == 0 && at == after && repeat == again
    {
      base, active, at, repeat := w, 0, after, again;
      offset, interval, hasCallback := 0.0, 0.0, false;
    }

    constructor Periodic(w: Dispatch.Watcher, first: real, every: real, callback: bool)
      ensures base == w && active == 0 && offset == first && interval == every && hasCallback == callback
    {
      base, active, at, repeat := w, 0, 0.0, 0.0;
      offset, interval, hasCallback := first, every, callback;
    }
  }

  /** A heap element, ANHE. */
  datatype Anhe = Anhe(at: real, w: TimeWatcher?)

  // ---------- The invariant of verify_heap ----------

  ghost predicate Sized(h: seq<Anhe>, n: nat)
  {
    HEAP0 + n <= |h| && forall i | HEAP0 <= i < HEAP0 + n :: h[i].w != null
  }

  ghost function Entries(h: seq<Anhe>, n: nat): multiset<Anhe>
    requires HEAP0 + n <= |h|
  {
    multiset(h[HEAP0..HEAP0 + n])
  }

  ghost function Owners(h: seq<Anhe>, n: nat): set<TimeWatcher>
    requires Sized(h, n)
  {
    set i | HEAP0 <= i < HEAP0 + n :: h[i].w
  }

  /** The watchers of the heap are all in ws. */
  ghost predicate Within(h: seq<Anhe>, n: nat, ws: set<TimeWatcher>)
    requires Sized(h, n)
  {
    forall i | HEAP0 <= i < HEAP0 + n :: h[i].w in ws
  }

  ghost predicate Distinct(h: seq<Anhe>, n: nat)
  {
    Sized(h, n) && forall i, j | HEAP0 <= i < j < HEAP0 + n :: h[i].w != h[j].w
  }

  /** Every element is at least its parent, except that element `k` may be smaller. */
  ghost predicate OrderedBut(h: seq<Anhe>, n: nat, k: nat)
    requires HEAP0 + n <= |h|
  {
    forall i | HEAP0 < i < HEAP0 + n && i != k :: h[Parent(i)].at <= h[i].at
  }

  ghost predicate Ordered(h: seq<Anhe>, n: nat)
    requires HEAP0 + n <= |h|
  {
    OrderedBut(h, n, HEAP0)
  }

  /** Every element is at least its parent, except that the children of `k` may be smaller. */
  ghost predicate OrderedAbove(h: seq<Anhe>, n: nat, k: nat)
    requires HEAP0 + n <= |h|
  {
    forall i | HEAP0 < i < HEAP0 + n && Parent(i) != k :: h[Parent(i)].at <= h[i].at
  }

  /** The children of `k` are at least the parent of `k`. */
  ghost predicate Bridged(h: seq<Anhe>, n: nat, k: nat)
    requires HEAP0 + n <= |h| && k >= HEAP0
  {
    forall i | HEAP0 < i < HEAP0 + n && Parent(i) == k && k > HEAP0 :: h[Parent(k)].at <= h[i].at
  }

  /** The watcher of every element but `k` knows its index, and all times are cached. */
  ghost predicate LinkedBut(h: seq<Anhe>, n: nat, k: nat)
    requires Sized(h, n)
    reads Owners(h, n)
  {
    && (forall i | HEAP0 <= i < HEAP0 + n && i != k :: h[i].w.active == i)
    && (forall i | HEAP0 <= i < HEAP0 + n :: h[i].w.at == h[i].at)
  }

  ghost predicate Linked(h: seq<Anhe>, n: nat)
    requires Sized(h, n)
    reads Owners(h, n)
  {
    LinkedBut(h, n, 0)
  }

  /** h with two elements exchanged. */
  ghost function Swap(h: seq<Anhe>, i: nat, j: nat): (r: seq<Anhe>)
    requires i < |h| && j < |h|
    ensures |r| == |h|
  {
    h[i := h[j]][j := h[i]]
  }

  lemma SwapMultiset(s: seq<Anhe>, i: nat, j: nat)
    requires i < |s| && j < |s|
    ensures multiset(s[i := s[j]][j := s[i]]) == multiset(s)
  {
  }

  lemma SwapEntries(h: seq<Anhe>, n: nat, i: nat, j: nat)
    requires Distinct(h, n) && HEAP0 <= i < HEAP0 + n && HEAP0 <= j < HEAP0 + n
    ensures Entries(Swap(h, i, j), n) == Entries(h, n)
    ensures Distinct(Swap(h, i, j), n)
  {
    var s := h[HEAP0..HEAP0 + n];
    assert Swap(h, i, j)[HEAP0..HEAP0 + n] == s[i - HEAP0 := s[j - HEAP0]][j - HEAP0 := s[i - HEAP0]];
    SwapMultiset(s, i - HEAP0, j - HEAP0);
  }

  /** One step of upheap: the element at k is smaller than its parent and changes places with it. */
  lemma UpStep(h: seq<Anhe>, n: nat, k: nat)
    requires HEAP0 < k < HEAP0 + n && Distinct(h, n)
    requires OrderedBut(h, n, k) && Bridged(h, n, k) && h[k].at < h[Parent(k)].at
    ensures OrderedBut(Swap(h, k, Parent(k)), n, Parent(k)) && Bridged(Swap(h, k, Parent(k)), n, Parent(k))
  {
    var p := Parent(k);
    var r := Swap(h, k, p);
    forall i | HEAP0 < i < HEAP0 + n && i != p ensures r[Parent(i)].at <= r[i].at {
      assert i != k ==> h[Parent(i)].at <= h[i].at;
    }
    forall i | HEAP0 < i < HEAP0 + n && Parent(i) == p && p > HEAP0 ensures r[Parent(p)].at <= r[i].at {
      assert h[Parent(p)].at <= h[p].at;
      assert i != k ==> h[Parent(i)].at <= h[i].at;
    }
  }

  /** The array stores the heap `h`, apart from the hole at k and the `active` of h[k]. */
  ghost predicate Stores(heap: array<Anhe>, h: seq<Anhe>, n: nat, k: nat, ws: set<TimeWatcher>)
    reads heap, ws
  {
    && HEAP0 <= k < HEAP0 + n && |h| == heap.Length
    && (forall i | 0 <= i < |h| && i != k :: heap[i] == h[i])
    && Distinct(h, n) && Within(h, n, ws)
    && (forall i | HEAP0 <= i < HEAP0 + n && i != k :: h[i].w.active == i)
    && (forall i | HEAP0 <= i < HEAP0 + n :: h[i].w.at == h[i].at)
  }

  /** The element at m moves into the hole at k, and leaves the hole at m. */
  method Shift(heap: array<Anhe>, ghost h: seq<Anhe>, ghost n: nat, k: nat, m: nat, ghost ws: set<TimeWatcher>)
    requires Stores(heap, h, n, k, ws) && HEAP0 <= m < HEAP0 + n && k != m
    modifies heap, ws`active
    ensures Stores(heap, Swap(h, k, m), n, m, ws)
    ensures Entries(Swap(h, k, m), n) == Entries(h, n)
  {
    SwapEntries(h, n, k, m);
    heap[k] := heap[m];
    heap[k].w.active := k;
  }

  /** The element in hand goes into the hole. */
  method Place(heap: array<Anhe>, ghost h: seq<Anhe>, ghost n: nat, k: nat, he: Anhe, ghost ws: set<TimeWatcher>)
    requires Stores(heap, h, n, k, ws) && h[k] == he
    modifies heap, ws`active
    ensures heap[..] == h && Linked(h, n)
  {
    heap[k] := he;
    he.w.active := k;
  }

  /** upheap: element k moves towards the root, into an otherwise ordered heap. */
  method UpHeap(heap: array<Anhe>, ghost n: nat, k: nat, ghost ws: set<TimeWatcher>)
    requires Stores(heap, heap[..], n, k, ws)
    requires OrderedBut(heap[..], n, k) && Bridged(heap[..], n, k)
    modifies heap, ws`active
    ensures Distinct(heap[..], n) && Linked(heap[..], n) && Ordered(heap[..], n)
    ensures Entries(heap[..], n) == old(Entries(heap[..], n)) && Within(heap[..], n, ws)
    ensures forall i | 0 <= i < heap.Length && !(HEAP0 <= i < HEAP0 + n) :: heap[i] == old(heap[i])
  {
    var he, k := heap[k], k;
    ghost var h := heap[..];   // the heap as if `he` were written to k
    while true
      invariant Stores(heap, h, n, k, ws) && h[k] == he
      invariant OrderedBut(h, n, k) && Bridged(h, n, k)
      invariant Entries(h, n) == old(Entries(heap[..], n))
      invariant forall i | 0 <= i < heap.Length && !(HEAP0 <= i < HEAP0 + n) :: h[i] == old(heap[i])
      decreases k
    {
      var p := Parent(k);
      if p == k || heap[p].at <= he.at {
        break;
      }
      UpStep(h, n, k);
      Shift(heap, h, n, k, p, ws);
      h := Swap(h, k, p);
      k := p;
    }
    Place(heap, h, n, k, he, ws);
  }

  /** m is a smallest child of k. */
  ghost predicate IsMinChild(h: seq<Anhe>, n: nat, k: nat, m: nat)
    requires HEAP0 + n <= |h| && k >= HEAP0
  {
    && HEAP0 < m < HEAP0 + n && Parent(m) == k
    && forall i | HEAP0 < i < HEAP0 + n && Parent(i) == k :: h[m].at <= h[i].at
  }

  /** One step of downheap: the element at k changes places with its smallest child. */
  lemma DownStep(h: seq<Anhe>, n: nat, k: nat, m: nat)
    requires HEAP0 <= k < HEAP0 + n && Distinct(h, n) && IsMinChild(h, n, k, m)
    requires OrderedAbove(h, n, k) && Bridged(h, n, k) && h[m].at < h[k].at
    ensures OrderedAbove(Swap(h, k, m), n, m) && Bridged(Swap(h, k, m), n, m)
  {
    var r := Swap(h, k, m);
    forall i | HEAP0 < i < HEAP0 + n && Parent(i) != m ensures r[Parent(i)].at <= r[i].at {
      if Parent(i) != k { assert h[Parent(i)].at <= h[i].at; }
    }
    forall i | HEAP0 < i < HEAP0 + n && Parent(i) == m ensures r[Parent(m)].at <= r[i].at {
      assert h[Parent(i)].at <= h[i].at;
    }
  }

  lemma SameMinChild(h: seq<Anhe>, h': seq<Anhe>, n: nat, k: nat, m: nat)
    requires k >= HEAP0 && HEAP0 + n <= |h| == |h'| && IsMinChild(h, n, k, m)
    requires forall i | 0 <= i < |h| && i != k :: h[i] == h'[i]
    ensures IsMinChild(h', n, k, m)
  {
  }

  lemma DownDone(h: seq<Anhe>, n: nat, k: nat)
    requires HEAP0 <= k && HEAP0 + n <= |h| && OrderedAbove(h, n, k)
    requires FirstChild(k) >= HEAP0 + n || exists m: nat :: IsMinChild(h, n, k, m) && h[k].at <= h[m].at
    ensures Ordered(h, n)
  {
    forall i | HEAP0 < i < HEAP0 + n && Parent(i) == k ensures h[k].at <= h[i].at { ChildParent(k, i); }
  }

  /** The smallest child, as downheap finds it; the fast path is for a full set of children. */
  method MinChild(heap: array<Anhe>, n: nat, k: nat) returns (minpos: nat)
    requires HEAP0 <= k && HEAP0 + n <= heap.Length && FirstChild(k) < HEAP0 + n
    ensures IsMinChild(heap[..], n, k, minpos)
  {
    var pos, end := FirstChild(k), HEAP0 + n;
    minpos := pos;
    var minat := heap[pos].at;
    if pos + DHEAP - 1 < end {
      if heap[pos + 1].at < minat { minpos, minat := pos + 1, heap[pos + 1].at; }
      if heap[pos + 2].at < minat { minpos, minat := pos + 2, heap[pos + 2].at; }
      if heap[pos + 3].at < minat { minpos, minat := pos + 3, heap[pos + 3].at; }
    } else {
      if pos + 1 < end && heap[pos + 1].at < minat { minpos, minat := pos + 1, heap[pos + 1].at; }
      if pos + 2 < end && heap[pos + 2].at < minat { minpos, minat := pos + 2, heap[pos + 2].at; }
      // the slow path of the source also tests pos + 3, which never is an element here
    }
    assert forall i | pos <= i < pos + DHEAP && i < end :: minat <= heap[i].at;
    forall i | HEAP0 < i < end && Parent(i) == k ensures minat <= heap[i].at { ChildParent(k, i); }
    ChildParent(k, minpos);
  }

  /** downheap: element k moves away from the root. */
  method DownHeap(heap: array<Anhe>, n: nat, k: nat, ghost ws: set<TimeWatcher>)
    requires Stores(heap, heap[..], n, k, ws)
    requires OrderedAbove(heap[..], n, k) && Bridged(heap[..], n, k)
    modifies heap, ws`active
    ensures Distinct(heap[..], n) && Linked(heap[..], n) && Ordered(heap[..], n)
    ensures Entries(heap[..], n) == old(Entries(heap[..], n)) && Within(heap[..], n, ws)
    ensures forall i | 0 <= i < heap.Length && !(HEAP0 <= i < HEAP0 + n) :: heap[i] == old(heap[i])
  {
    var he, k := heap[k], k;
    ghost var h := heap[..];   // the heap as if `he` were written to k
    while FirstChild(k) < HEAP0 + n
      invariant Stores(heap, h, n, k, ws) && h[k] == he
      invariant OrderedAbove(h, n, k) && Bridged(h, n, k)
      invariant Entries(h, n) == old(Entries(heap[..], n))
      invariant forall i | 0 <= i < heap.Length && !(HEAP0 <= i < HEAP0 + n) :: h[i] == old(heap[i])
      decreases HEAP0 + n - k
    {
      var minpos := MinChild(heap, n, k);
      SameMinChild(heap[..], h, n, k, minpos);
      if he.at <= heap[minpos].at {
        break;
      }
      DownStep(h, n, k, minpos);
      Shift(heap, h, n, k, minpos, ws);
      h := Swap(h, k, minpos);
      k := minpos;
    }
    DownDone(h, n, k);
    Place(heap, h, n, k, he, ws);
  }

  /** The heap is ordered apart from element `k`, which holds an arbitrary value. */
  ghost predicate OrderedAround(h: seq<Anhe>, n: nat, k: nat)
    requires HEAP0 + n <= |h| && k >= HEAP0
  {
    && (forall i | HEAP0 < i < HEAP0 + n && i != k && Parent(i) != k :: h[Parent(i)].at <= h[i].at)
    && Bridged(h, n, k)
  }

  /** Whatever element of a heap is replaced, its children are at least its parent. */
  lemma ReplacedElement(h: seq<Anhe>, n: nat, k: nat, he: Anhe)
    requires HEAP0 + n <= |h| && Ordered(h, n) && HEAP0 <= k < HEAP0 + n
    ensures OrderedAround(h[k := he], n, k)
  {
    forall i | HEAP0 < i < HEAP0 + n && Parent(i) == k && k > HEAP0 ensures h[Parent(k)].at <= h[i].at {
      assert h[Parent(k)].at <= h[k].at <= h[i].at;
    }
  }

  /** adjustheap: element k holds a new value. */
  method AdjustHeap(heap: array<Anhe>, n: nat, k: nat, ghost ws: set<TimeWatcher>)
    requires Stores(heap, heap[..], n, k, ws) && OrderedAround(heap[..], n, k)
    modifies heap, ws`active
    ensures Distinct(heap[..], n) && Linked(heap[..], n) && Ordered(heap[..], n)
    ensures Entries(heap[..], n) == old(Entries(heap[..], n)) && Within(heap[..], n, ws)
    ensures forall i | 0 <= i < heap.Length && !(HEAP0 <= i < HEAP0 + n) :: heap[i] == old(heap[i])
  {
    if k > HEAP0 && heap[k].at <= heap[Parent(k)].at {
      UpHeap(heap, n, k, ws);
    } else {
      DownHeap(heap, n, k, ws);
    }
  }

  /** Permuting the first m elements of n keeps them all. */
  lemma PermutedPrefix(h: seq<Anhe>, h': seq<Anhe>, m: nat, n: nat)
    requires Distinct(h, n) && m <= n && |h'| == |h|
    requires Distinct(h', m) && Entries(h', m) == Entries(h, m)
    requires forall i | HEAP0 + m <= i < |h| :: h'[i] == h[i]
    ensures Distinct(h', n) && Entries(h', n) == Entries(h, n)
  {
    var s, s', rest := h[HEAP0..HEAP0 + m], h'[HEAP0..HEAP0 + m], h[HEAP0 + m..HEAP0 + n];
    assert h[HEAP0..HEAP0 + n] == s + rest && h'[HEAP0..HEAP0 + n] == s' + rest;
    forall i, j | HEAP0 <= i < HEAP0 + m <= j < HEAP0 + n ensures h'[i].w != null && h'[i].w != h[j].w {
      PermutedAt(h, h', m, i);
    }
  }

  lemma PermutedAt(h: seq<Anhe>, h': seq<Anhe>, m: nat, i: nat)
    requires HEAP0 + m <= |h| == |h'| && Entries(h', m) == Entries(h, m) && HEAP0 <= i < HEAP0 + m
    ensures exists i' :: HEAP0 <= i' < HEAP0 + m && h'[i] == h[i']
  {
    var s, s' := h[HEAP0..HEAP0 + m], h'[HEAP0..HEAP0 + m];
    assert s'[i - HEAP0] in multiset(s');
    var k :| 0 <= k < m && s[k] == h'[i];
    assert h[HEAP0 + k] == h'[i];
  }

  ghost predicate Cached(h: seq<Anhe>, n: nat, ws: set<TimeWatcher>)
    requires Sized(h, n)
    reads ws
  {
    forall i | HEAP0 <= i < HEAP0 + n :: h[i].w in ws && h[i].w.at == h[i].at
  }

  lemma PermutedCached(h: seq<Anhe>, h': seq<Anhe>, n: nat, ws: set<TimeWatcher>)
    requires Sized(h, n) && Sized(h', n) && |h| == |h'|
    requires Entries(h', n) == Entries(h, n) && Cached(h, n, ws)
    ensures Cached(h', n, ws)
  {
    forall i | HEAP0 <= i < HEAP0 + n ensures h'[i].w in ws && h'[i].w.at == h'[i].at { PermutedAt(h, h', n, i); }
  }

  /** One round of reheap: element i joins the heap of the i elements before it. */
  method JoinPrefix(heap: array<Anhe>, i: nat, ghost n: nat, ghost ws: set<TimeWatcher>)
    requires i < n && Distinct(heap[..], n) && Cached(heap[..], n, ws)
    requires Linked(heap[..], i) && Ordered(heap[..], i)
    modifies heap, ws`active
    ensures Distinct(heap[..], n) && Cached(heap[..], n, ws)
    ensures Linked(heap[..], i + 1) && Ordered(heap[..], i + 1)
    ensures Entries(heap[..], n) == old(Entries(heap[..], n))
  {
    ghost var h := heap[..];
    UpHeap(heap, i + 1, HEAP0 + i, ws);
    PermutedPrefix(h, heap[..], i + 1, n);
    PermutedCached(h, heap[..], n, ws);
  }

  /** reheap: any array of distinct watchers with cached times becomes a heap. */
  method ReHeap(heap: array<Anhe>, n: nat, ghost ws: set<TimeWatcher>)
    requires Distinct(heap[..], n) && Cached(heap[..], n, ws)
    modifies heap, ws`active
    ensures Distinct(heap[..], n) && Linked(heap[..], n) && Ordered(heap[..], n)
    ensures Entries(heap[..], n) == old(Entries(heap[..], n)) && Cached(heap[..], n, ws)
  {
    for i := 0 to n
      invariant Distinct(heap[..], n) && Entries(heap[..], n) == old(Entries(heap[..], n))
      invariant Cached(heap[..], n, ws) && Linked(heap[..], i) && Ordered(heap[..], i)
    {
      JoinPrefix(heap, i, n, ws);
    }
  }

  /** The root of a heap expires first. */
  lemma {:induction false} RootIsLeast(h: seq<Anhe>, n: nat, i: nat)
    requires HEAP0 + n <= |h| && Ordered(h, n) && HEAP0 <= i < HEAP0 + n
    ensures h[HEAP0].at <= h[i].at
    decreases i
  {
    if i > HEAP0 { RootIsLeast(h, n, Parent(i)); }
  }

  // ---------- The heap part of starting, stopping and rescheduling ----------

  /** What verify_heap asserts of the n elements, whose watchers are the members. */
  ghost predicate HeapOk(h: seq<Anhe>, n: nat, members: set<TimeWatcher>)
    reads members
  {
    Distinct(h, n) && Owners(h, n) == members && Linked(h, n) && Ordered(h, n)
  }

  lemma SameEntries(h: seq<Anhe>, h': seq<Anhe>, n: nat)
    requires Sized(h, n) && Sized(h', n) && |h| == |h'| && Entries(h', n) == Entries(h, n)
    ensures Owners(h', n) == Owners(h, n)
  {
    forall w | w in Owners(h', n) ensures w in Owners(h, n) {
      var i :| HEAP0 <= i < HEAP0 + n && h'[i].w == w;
      PermutedAt(h, h', n, i);
    }
    forall w | w in Owners(h, n) ensures w in Owners(h', n) {
      var i :| HEAP0 <= i < HEAP0 + n && h[i].w == w;
      PermutedAt(h', h, n, i);
    }
  }

  lemma Appended(h: seq<Anhe>, n: nat, he: Anhe)
    requires HEAP0 + n < |h| && Distinct(h, n) && Ordered(h, n) && he.w != null && he.w !in Owners(h, n)
    ensures
      var h', k := h[HEAP0 + n := he], HEAP0 + n;
      && Distinct(h', n + 1) && Owners(h', n + 1) == Owners(h, n) + {he.w}
      && OrderedBut(h', n + 1, k) && Bridged(h', n + 1, k)
  {
    var h' := h[HEAP0 + n := he];
    forall i | HEAP0 <= i < HEAP0 + n ensures h[i].w in Owners(h, n) && h'[i] == h[i] {}
    forall v | v in Owners(h, n) + {he.w} ensures v in Owners(h', n + 1) {
      if v in Owners(h, n) {
        var i :| HEAP0 <= i < HEAP0 + n && h[i].w == v;
        assert h'[i].w == v;
      } else {
        assert h'[HEAP0 + n].w == v;
      }
    }
  }

  /** A watcher with a fresh index after the last element joins the heap. */
  method Insert(heap: array<Anhe>, ghost n: nat, w: TimeWatcher, ghost members: set<TimeWatcher>)
    requires HEAP0 + n < heap.Length && HeapOk(heap[..], n, members) && w !in members && w.active == HEAP0 + n
    modifies heap, members`active, w`active
    ensures HeapOk(heap[..], n + 1, members + {w})
  {
    ghost var h, all := heap[..], members + {w};
    Appended(h, n, Anhe(w.at, w));
    heap[w.active] := Anhe(w.at, w);
    assert heap[..] == h[HEAP0 + n := Anhe(w.at, w)];
    h := heap[..];
    assert Stores(heap, h, n + 1, w.active, all);
    UpHeap(heap, n + 1, w.active, all);
    SameEntries(h, heap[..], n + 1);
  }

  /** The last element takes the place of element k. */
  method MoveLast(heap: array<Anhe>, n: nat, k: nat, ghost rest: set<TimeWatcher>)
    requires HEAP0 <= k < HEAP0 + n < heap.Length
    requires Distinct(heap[..], n + 1) && Linked(heap[..], n + 1) && Ordered(heap[..], n + 1)
    requires rest == Owners(heap[..], n + 1) - {heap[k].w}
    modifies heap, rest`active
    ensures HeapOk(heap[..], n, rest)
  {
    ghost var h := heap[..];
    RemovedOwners(h, n + 1, k);
    ReplacedElement(h, n, k, h[HEAP0 + n]);
    heap[k] := heap[HEAP0 + n];
    ghost var h' := heap[..];
    assert h' == h[k := h[HEAP0 + n]];
    assert Stores(heap, h', n, k, rest);
    AdjustHeap(heap, n, k, rest);
    SameEntries(h', heap[..], n);
  }

  /** The element at k leaves the heap: the last one takes its place, unless it is the last. */
  method Remove(heap: array<Anhe>, n: nat, k: nat, ghost members: set<TimeWatcher>)
    requires HEAP0 <= k <= HEAP0 + n && HeapOk(heap[..], n + 1, members)
    modifies heap, (members - {heap[k].w})`active
    ensures HeapOk(heap[..], n, members - {old(heap[k].w)})
  {
    if k < HEAP0 + n {
      MoveLast(heap, n, k, members - {heap[k].w});
    } else {
      RemovedOwners(heap[..], n + 1, k);
      assert heap[..][k := heap[k]] == heap[..];
    }
  }

  lemma RemovedOwners(h: seq<Anhe>, n: nat, k: nat)
    requires n > 0 && Distinct(h, n) && HEAP0 <= k < HEAP0 + n
    ensures Distinct(h[k := h[HEAP0 + n - 1]], n - 1)
    ensures Owners(h[k := h[HEAP0 + n - 1]], n - 1) == Owners(h, n) - {h[k].w}
    ensures Within(h[k := h[HEAP0 + n - 1]], n - 1, Owners(h, n) - {h[k].w})
  {
    var last := HEAP0 + n - 1;
    var h' := h[k := h[last]];
    forall v | v in Owners(h, n) - {h[k].w} ensures v in Owners(h', n - 1) {
      var i :| HEAP0 <= i < HEAP0 + n && h[i].w == v;
      assert h'[if i == last then k else i].w == v;
    }
    forall v | v in Owners(h', n - 1) ensures v in Owners(h, n) - {h[k].w} {
      var i :| HEAP0 <= i < last && h'[i].w == v;
      assert v == h[if i == k then last else i].w;
    }
  }

  /** The element at k gets the current time of its watcher and moves where it belongs. */
  method Recache(heap: array<Anhe>, n: nat, k: nat, ghost members: set<TimeWatcher>)
    requires Distinct(heap[..], n) && Owners(heap[..], n) == members && Ordered(heap[..], n)
    requires HEAP0 <= k < HEAP0 + n
    requires forall i | HEAP0 <= i < HEAP0 + n :: heap[i].w.active == i && (i != k ==> heap[i].w.at == heap[i].at)
    modifies heap, members`active
    ensures HeapOk(heap[..], n, members)
  {
    ghost var h := heap[..];
    RecachedOwners(h, n, k, heap[k].w.at);
    ReplacedElement(h, n, k, h[k].(at := heap[k].w.at));
    heap[k] := heap[k].(at := heap[k].w.at);
    assert heap[..] == h[k := h[k].(at := heap[k].w.at)];
    h := heap[..];
    AdjustHeap(heap, n, k, members);
    SameEntries(h, heap[..], n);
  }

  lemma RecachedOwners(h: seq<Anhe>, n: nat, k: nat, at: real)
    requires Distinct(h, n) && HEAP0 <= k < HEAP0 + n
    ensures Distinct(h[k := h[k].(at := at)], n)
    ensures Owners(h[k := h[k].(at := at)], n) == Owners(h, n)
  {
    var h' := h[k := h[k].(at := at)];
    forall i | HEAP0 <= i < HEAP0 + n ensures h'[i].w == h[i].w {}
    forall v | v in Owners(h, n) ensures v in Owners(h', n) {
      var i :| HEAP0 <= i < HEAP0 + n && h[i].w == v;
      assert h'[i].w == v;
    }
  }

  /** One of the two arrays of a loop, `timers` or `periodics`, with its count. */
  class TimeHeap {
    var heap: array<Anhe>
    var cnt: nat
    ghost const ws: set<TimeWatcher>   // the watchers of this kind

    /** The watchers that were started. */
    ghost function Active(): set<TimeWatcher>
      reads ws
    {
      set w | w in ws && w.active != 0
    }

    ghost predicate Valid()
      reads this, heap, ws
    {
      HeapOk(heap[..], cnt, Active())
    }

    constructor (ghost watchers: set<TimeWatcher>)
      requires forall w | w in watchers :: w.active == 0
      ensures Valid() && Active() == {} && ws == watchers && fresh(heap)
    {
      heap, cnt, ws := new Anhe[HEAP0], 0, watchers;
    }

    /** array_needsize: the array has room for `size` elements. */
    method NeedSize(size: nat, ghost n: nat, ghost members: set<TimeWatcher>)
      requires HeapOk(heap[..], n, members)
      modifies this`heap
      ensures heap.Length >= size && (heap == old(heap) || fresh(heap))
      ensures HeapOk(heap[..], n, members)
    {
      if heap.Length < size {
        var grown, was := new Anhe[size], heap;
        for i := 0 to was.Length
          invariant forall j | 0 <= j < i :: grown[j] == was[j]
        {
          grown[i] := was[i];
        }
        heap := grown;
        assert forall j | 0 <= j < was.Length :: heap[..][j] == was[..][j];
      }
    }

    /** The members of the heap are exactly the active watchers. */
    lemma MembersActive(members: set<TimeWatcher>)
      requires HeapOk(heap[..], cnt, members) && members <= ws
      requires forall w | w in ws - members :: w.active == 0
      ensures Active() == members
    {
      forall w | w in members ensures w.active != 0 { Located(w, members); }
    }

    lemma Located(w: TimeWatcher, members: set<TimeWatcher>)
      requires HeapOk(heap[..], cnt, members) && w in members
      ensures HEAP0 <= w.active < HEAP0 + cnt && heap[w.active].w == w
    {
      assert w in Owners(heap[..], cnt);
    }

    /** A watcher joins the members, with the next free index. */
    method Join(w: TimeWatcher, ghost members: set<TimeWatcher>)
      requires HeapOk(heap[..], cnt, members) && w !in members
      modifies this, heap, members`active, w`active
      ensures HeapOk(heap[..], cnt, members + {w})
      ensures heap == old(heap) || fresh(heap)
    {
      cnt := cnt + 1;
      w.active := cnt + HEAP0 - 1;
      NeedSize(w.active + 1, cnt - 1, members);
      Insert(heap, cnt - 1, w, members);
    }

    /** The heap part of ev_timer_start and ev_periodic_start. */
    method Start(w: TimeWatcher)
      requires Valid() && w in ws && w.active == 0
      modifies this, heap, ws`active
      ensures Valid() && (heap == old(heap) || fresh(heap))
      ensures Active() == old(Active()) + {w}
    {
      ghost var members := Active();
      Join(w, members);
      MembersActive(members + {w});
    }

    /** The heap part of ev_timer_stop and ev_periodic_stop. */
    method Stop(w: TimeWatcher)
      requires Valid() && w in ws && w.active != 0
      modifies this, heap, ws`active
      ensures Valid() && heap == old(heap)
      ensures Active() == old(Active()) - {w}
    {
      ghost var members := Active();
      var active := w.active;
      Located(w, members);
      cnt := cnt - 1;
      Remove(heap, cnt, active, members);
      w.active := 0;
      MembersActive(members - {w});
    }

    /** The time of an active watcher changes, and the watcher moves in the heap. (For the
        root, adjustheap is downheap.) */
    method Reschedule(w: TimeWatcher, at: real)
      requires Valid() && w in ws && w.active != 0
      modifies heap, ws`active, w`at
      ensures Valid() && Active() == old(Active()) && w.at == at
    {
      ghost var members := Active();
      Located(w, members);
      w.at := at;
      Recache(heap, cnt, w.active, members);
      MembersActive(members);
    }

    /** The root expires first. */
    lemma RootFirst()
      requires Valid() && cnt > 0
      ensures
        var w := heap[HEAP0].w;
        w != null && w in Active() && w.at == heap[HEAP0].at && forall v | v in Active() :: w.at <= v.at
    {
      var h := heap[..];
      assert h[HEAP0].w in Owners(h, cnt);
      forall v | v in Active() ensures h[HEAP0].at <= v.at {
        Located(v, Active());
        RootIsLeast(h, cnt, v.active);
      }
    }

    lemma NoneBefore(now: real)
      requires Valid() && (cnt == 0 || heap[HEAP0].at >= now)
      ensures forall w | w in Active() :: w.at >= now
    {
      forall w | w in Active() ensures w.at >= now {
        Located(w, Active());
        RootFirst();
      }
    }
  }
}
