/** The event tables of libev's poll and select backends. Each represents a map from file
    descriptors to event masks, in which most descriptors have the empty mask. */
module FdBackends {
  /** The bits of an event mask; FdSet and Reify are internal to the loop. */
  datatype Bit = Read | Write | FdSet | Reify

  type Mask = set<Bit>

  const IO: Mask := {Read, Write}

  // ---------- poll: a dense array and its index ----------

  datatype PollFd = PollFd(fd: nat, pollin: bool, pollout: bool) {
    function Events(): Mask { (if pollin then {Read} else {}) + (if pollout then {Write} else {}) }
  }

  class PollTable {
    var pollidxs: seq<int>   // -1 for a descriptor without an element
    var polls: seq<PollFd>
    var pollcnt: nat

    /** The two tables are each other's inverses, without gaps and without empty masks. */
    ghost predicate Valid()
      reads this
    {
      && pollcnt <= |polls|
      && (forall i | 0 <= i < pollcnt ::
          polls[i].fd < |pollidxs| && pollidxs[polls[i].fd] == i && polls[i].Events() != {})
      && (forall fd | 0 <= fd < |pollidxs| :: -1 <= pollidxs[fd] < pollcnt)
      && (forall fd | 0 <= fd < |pollidxs| && pollidxs[fd] >= 0 :: polls[pollidxs[fd]].fd == fd)
    }

    /** The mask that the table gives to a descriptor. */
    ghost function Lookup(fd: nat): Mask
      requires Valid()
      reads this
    {
      if fd < |pollidxs| && pollidxs[fd] >= 0 then polls[pollidxs[fd]].Events() else {}
    }

    constructor ()
      ensures Valid() && forall fd: nat :: Lookup(fd) == {}
    {
      pollidxs, polls, pollcnt := [], [], 0;
    }

    /** The first part of poll_modify: the descriptor gets an element, if it has none. The
        new element may still have an empty mask. */
    method Allocate(fd: nat) returns (idx: nat)
      requires Valid()
      modifies this
      ensures pollcnt <= |polls| && idx < pollcnt && polls[idx].fd == fd && fd < |pollidxs| && pollidxs[fd] == idx
      ensures forall i | 0 <= i < pollcnt ::
          polls[i].fd < |pollidxs| && pollidxs[polls[i].fd] == i && (i != idx ==> polls[i].Events() != {})
      ensures forall f | 0 <= f < |pollidxs| ::
          -1 <= pollidxs[f] < pollcnt && (pollidxs[f] >= 0 ==> polls[pollidxs[f]].fd == f)
      ensures forall f: nat | f != fd ::
          old(Lookup(f)) == if f < |pollidxs| && pollidxs[f] >= 0 then polls[pollidxs[f]].Events() else {}
    {
      if |pollidxs| <= fd {
        pollidxs := pollidxs + seq(fd + 1 - |pollidxs|, _ => -1);
      }
      if pollidxs[fd] >= 0 {
        return pollidxs[fd];
      }
      idx := pollcnt;
      pollcnt := pollcnt + 1;
      pollidxs := pollidxs[fd := idx];
      if |polls| < pollcnt {
        polls := polls + [PollFd(0, false, false)];
      }
      polls := polls[idx := polls[idx].(fd := fd)];
    }

    /** The second part of poll_modify, for an empty mask: the element is replaced by the last
        one. */
    method Remove(fd: nat, idx: nat)
      requires pollcnt <= |polls| && idx < pollcnt && polls[idx].fd == fd && fd < |pollidxs| && pollidxs[fd] == idx
      requires forall i | 0 <= i < pollcnt ::
          polls[i].fd < |pollidxs| && pollidxs[polls[i].fd] == i && (i != idx ==> polls[i].Events() != {})
      requires forall f | 0 <= f < |pollidxs| ::
          -1 <= pollidxs[f] < pollcnt && (pollidxs[f] >= 0 ==> polls[pollidxs[f]].fd == f)
      modifies this
      ensures Valid() && Lookup(fd) == {}
      ensures forall f: nat | f != fd ::
          Lookup(f) == old(if f < |pollidxs| && pollidxs[f] >= 0 then polls[pollidxs[f]].Events() else {})
    {
      pollidxs := pollidxs[fd := -1];
      pollcnt := pollcnt - 1;
      if idx < pollcnt {
        polls := polls[idx := polls[pollcnt]];
        pollidxs := pollidxs[polls[idx].fd := idx];
      }
    }

    /** poll_modify: a removed element is replaced by the last one. */
    method Modify(fd: nat, oev: Mask, nev: Mask)
      requires Valid() && oev == Lookup(fd) && nev <= IO
      modifies this
      ensures Valid()
      ensures Lookup(fd) == nev && forall other: nat | other != fd :: Lookup(other) == old(Lookup(other))
    {
      if oev == nev {
        return;
      }
      var idx := Allocate(fd);
      if nev != {} {
        polls := polls[idx := polls[idx].(pollin := Read in nev, pollout := Write in nev)];
      } else {
        Remove(fd, idx);
      }
    }
  }

  // ---------- select: bit vectors ----------

  const NFDBITS: nat := 64

  /** A word of a bit vector, fd_mask. */
  type Word = nat

  /** word & (1UL << b) */
  predicate Test(w: Word, b: nat)
  {
    if b == 0 then w % 2 == 1 else Test(w / 2, b - 1)
  }

  /** word | (1UL << b) */
  function Set(w: Word, b: nat): Word
  {
    if b == 0 then w - w % 2 + 1 else 2 * Set(w / 2, b - 1) + w % 2
  }

  /** word & ~(1UL << b) */
  function Clear(w: Word, b: nat): Word
  {
    if b == 0 then w - w % 2 else 2 * Clear(w / 2, b - 1) + w % 2
  }

  /** The word fits in n bits. */
  predicate Fits(w: Word, n: nat) { if n == 0 then w == 0 else Fits(w / 2, n - 1) }

  lemma {:induction false} ZeroFits(n: nat)
    ensures Fits(0, n)
  {
    if n > 0 { ZeroFits(n - 1); }
  }

  lemma {:induction false} AssignFits(w: Word, b: nat, n: nat)
    requires b < n && Fits(w, n)
    ensures Fits(Set(w, b), n) && Fits(Clear(w, b), n)
  {
    if b > 0 {
      assert Set(w, b) / 2 == Set(w / 2, b - 1) && Clear(w, b) / 2 == Clear(w / 2, b - 1);
      AssignFits(w / 2, b - 1, n - 1);
    } else {
      assert Set(w, 0) / 2 == w / 2 == Clear(w, 0) / 2;
    }
  }

  lemma {:induction false} TestSet(w: Word, b: nat, c: nat)
    ensures Test(Set(w, b), c) <==> c == b || Test(w, c)
  {
    if b > 0 {
      assert Set(w, b) / 2 == Set(w / 2, b - 1) && Set(w, b) % 2 == w % 2;
      if c > 0 { TestSet(w / 2, b - 1, c - 1); }
    } else if c > 0 {
      assert Set(w, 0) / 2 == w / 2;
    }
  }

  lemma {:induction false} TestClear(w: Word, b: nat, c: nat)
    ensures Test(Clear(w, b), c) <==> c != b && Test(w, c)
  {
    if b > 0 {
      assert Clear(w, b) / 2 == Clear(w / 2, b - 1) && Clear(w, b) % 2 == w % 2;
      if c > 0 { TestClear(w / 2, b - 1, c - 1); }
    } else if c > 0 {
      assert Clear(w, 0) / 2 == w / 2;
    }
  }

  lemma {:induction false} ZeroBits(b: nat)
    ensures !Test(0, b)
  {
    if b > 0 { ZeroBits(b - 1); }
  }

  /** Bit fd % NFDBITS of word fd / NFDBITS. */
  predicate Has(v: seq<Word>, fd: nat)
  {
    fd / NFDBITS < |v| && Test(v[fd / NFDBITS], fd % NFDBITS)
  }

  /** The two assignments of select_modify to one of its vectors. */
  function Assign(v: seq<Word>, fd: nat, on: bool): seq<Word>
    requires fd / NFDBITS < |v|
  {
    var word := Set(v[fd / NFDBITS], fd % NFDBITS);
    v[fd / NFDBITS := if on then word else Clear(word, fd % NFDBITS)]
  }

  lemma AssignHas(v: seq<Word>, fd: nat, on: bool, other: nat)
    requires fd / NFDBITS < |v|
    ensures Has(Assign(v, fd, on), other) <==> if other == fd then on else Has(v, other)
  {
    if other / NFDBITS == fd / NFDBITS {
      var w, b, c := v[fd / NFDBITS], fd % NFDBITS, other % NFDBITS;
      TestSet(w, b, c);
      TestClear(Set(w, b), b, c);
    }
  }

  ghost predicate AllFit(v: seq<Word>) { forall i | 0 <= i < |v| :: Fits(v[i], NFDBITS) }

  lemma AssignAllFit(v: seq<Word>, fd: nat, on: bool)
    requires fd / NFDBITS < |v| && AllFit(v)
    ensures AllFit(Assign(v, fd, on))
  {
    AssignFits(v[fd / NFDBITS], fd % NFDBITS, NFDBITS);
    AssignFits(Set(v[fd / NFDBITS], fd % NFDBITS), fd % NFDBITS, NFDBITS);
  }

  /** A call of fd_event. */
  datatype FdEvent = FdEvent(fd: nat, events: Mask)

  function MaskAt(ro: seq<Word>, wo: seq<Word>, fd: nat): Mask
  {
    (if Has(ro, fd) then {Read} else {}) + (if Has(wo, fd) then {Write} else {})
  }

  function BitMask(wordR: Word, wordW: Word, bit: nat): Mask
  {
    (if Test(wordR, bit) then {Read} else {}) + (if Test(wordW, bit) then {Write} else {})
  }

  lemma WordMasks(ro: seq<Word>, wo: seq<Word>, word: nat)
    requires |ro| == |wo| && word < |ro|
    ensures word * NFDBITS + NFDBITS <= |Masks(ro, wo)|
    ensures forall b | 0 <= b < NFDBITS :: Masks(ro, wo)[word * NFDBITS + b] == BitMask(ro[word], wo[word], b)
  {
    forall b | 0 <= b < NFDBITS ensures Masks(ro, wo)[word * NFDBITS + b] == BitMask(ro[word], wo[word], b) {
      var fd := word * NFDBITS + b;
      assert fd / NFDBITS == word && fd % NFDBITS == b;
      assert Masks(ro, wo)[fd] == MaskAt(ro, wo, fd);
    }
  }

  /** The masks of all descriptors in two bit vectors. */
  function Masks(ro: seq<Word>, wo: seq<Word>): (m: seq<Mask>)
    ensures |m| == |ro| * NFDBITS && forall fd | 0 <= fd < |m| :: m[fd] == MaskAt(ro, wo, fd)
  {
    seq(|ro| * NFDBITS, fd requires 0 <= fd < |ro| * NFDBITS => MaskAt(ro, wo, fd))
  }

  function EventAt(m: seq<Mask>, fd: nat): seq<FdEvent>
    requires fd < |m|
  {
    if m[fd] == {} then [] else [FdEvent(fd, m[fd])]
  }

  /** The events of the descriptors from lo on, the highest first. */
  function Ready(m: seq<Mask>, lo: nat): seq<FdEvent>
    requires lo <= |m|
    decreases |m| - lo
  {
    if lo == |m| then [] else Ready(m, lo + 1) + EventAt(m, lo)
  }

  /** Every descriptor with an event is listed once, with exactly its events. */
  lemma {:induction false} ReadyIsComplete(m: seq<Mask>, lo: nat)
    requires lo <= |m|
    ensures var r := Ready(m, lo);
      && (forall fd | lo <= fd < |m| && m[fd] != {} :: FdEvent(fd, m[fd]) in r)
      && (forall i | 0 <= i < |r| :: lo <= r[i].fd < |m| && r[i].events == m[r[i].fd] != {})
      && (forall i, j | 0 <= i < j < |r| :: r[i].fd > r[j].fd)
    decreases |m| - lo
  {
    if lo < |m| {
      ReadyIsComplete(m, lo + 1);
      var front, last := Ready(m, lo + 1), EventAt(m, lo);
      assert forall i | 0 <= i < |front + last| :: i < |front| || (front + last)[i] == FdEvent(lo, m[lo]);
    }
  }

  lemma {:induction false} ReadyNone(m: seq<Mask>, lo: nat, mid: nat)
    requires lo <= mid <= |m| && forall fd | lo <= fd < mid :: m[fd] == {}
    ensures Ready(m, lo) == Ready(m, mid)
    decreases mid - lo
  {
    if lo < mid { ReadyNone(m, lo + 1, mid); }
  }

  class SelectTable {
    var vecRi: seq<Word>
    var vecWi: seq<Word>
    var vecMax: nat

    ghost predicate Valid()
      reads this
    {
      |vecRi| == |vecWi| == vecMax && AllFit(vecRi) && AllFit(vecWi)
    }

    ghost function Lookup(fd: nat): Mask
      reads this
    {
      MaskAt(vecRi, vecWi, fd)
    }

    constructor ()
      ensures Valid() && forall fd: nat :: Lookup(fd) == {}
    {
      vecRi, vecWi, vecMax := [], [], 0;
    }

    /** select_modify, with bit vectors of its own. */
    method Modify(fd: nat, oev: Mask, nev: Mask)
      requires Valid() && oev == Lookup(fd) && nev <= IO
      modifies this
      ensures Valid()
      ensures Lookup(fd) == nev && forall other: nat | other != fd :: Lookup(other) == old(Lookup(other))
    {
      if oev == nev {
        return;
      }
      var word := fd / NFDBITS;
      ghost var r, w := vecRi, vecWi;
      if vecMax <= word {
        var newMax := word + 1;
        while vecMax < newMax
          invariant Valid() && |r| <= vecMax <= newMax
          invariant vecRi[..|r|] == r && vecWi[..|w|] == w
          invariant forall i | |r| <= i < vecMax :: vecRi[i] == vecWi[i] == 0
        {
          ZeroFits(NFDBITS);
          vecRi, vecWi, vecMax := vecRi + [0], vecWi + [0], vecMax + 1;
        }
      }
      forall other: nat ensures (Has(vecRi, other) <==> Has(r, other)) && (Has(vecWi, other) <==> Has(w, other)) {
        ZeroBits(other % NFDBITS);
        var k := other / NFDBITS;
        if k < |r| { assert vecRi[..|r|][k] == r[k] && vecWi[..|w|][k] == w[k]; }
      }
      forall other: nat
        ensures Has(Assign(vecRi, fd, Read in nev), other) <==> if other == fd then Read in nev else Has(r, other)
        ensures Has(Assign(vecWi, fd, Write in nev), other) <==> if other == fd then Write in nev else Has(w, other)
      {
        AssignHas(vecRi, fd, Read in nev, other);
        AssignHas(vecWi, fd, Write in nev, other);
      }
      AssignAllFit(vecRi, fd, Read in nev);
      AssignAllFit(vecWi, fd, Write in nev);
      vecRi, vecWi := Assign(vecRi, fd, Read in nev), Assign(vecWi, fd, Write in nev);
    }

    /** The inner loop of select_poll: the bits of one word, the highest first; `base` is the
        descriptor of its lowest bit. */
    method ScanWord(wordR: Word, wordW: Word, base: nat, before: seq<FdEvent>, ghost m: seq<Mask>)
      returns (calls: seq<FdEvent>)
      requires base + NFDBITS <= |m| && before == Ready(m, base + NFDBITS)
      requires forall b | 0 <= b < NFDBITS :: m[base + b] == BitMask(wordR, wordW, b)
      ensures calls == Ready(m, base)
    {
      calls := before;
      var bit := NFDBITS;
      while bit > 0
        invariant 0 <= bit <= NFDBITS && calls == Ready(m, base + bit)
      {
        bit := bit - 1;
        var events := BitMask(wordR, wordW, bit);
        if events != {} {
          calls := calls + [FdEvent(base + bit, events)];
        }
      }
    }

    /** The scan of select_poll over the words and bits that the kernel left set. */
    method Scan(ro: seq<Word>, wo: seq<Word>) returns (calls: seq<FdEvent>)
      requires Valid() && |ro| == |wo| == vecMax
      ensures calls == Ready(Masks(ro, wo), 0)
    {
      calls := [];
      ghost var m := Masks(ro, wo);
      var word := vecMax;
      while word > 0
        invariant 0 <= word <= vecMax && word * NFDBITS <= |m| && calls == Ready(m, word * NFDBITS)
      {
        word := word - 1;
        if ro[word] != 0 || wo[word] != 0 {
          WordMasks(ro, wo, word);
          calls := ScanWord(ro[word], wo[word], word * NFDBITS, calls, m);
        } else {
          NoBits(ro, wo, word);
        }
      }
    }
  }

  /** An empty word has no events. */
  lemma NoBits(ro: seq<Word>, wo: seq<Word>, word: nat)
    requires |ro| == |wo| && word < |ro| && ro[word] == wo[word] == 0
    ensures (word + 1) * NFDBITS <= |Masks(ro, wo)|
    ensures Ready(Masks(ro, wo), word * NFDBITS) == Ready(Masks(ro, wo), (word + 1) * NFDBITS)
  {
    var m := Masks(ro, wo);
    forall fd | word * NFDBITS <= fd < (word + 1) * NFDBITS ensures m[fd] == {} {
      assert fd / NFDBITS == word && m[fd] == MaskAt(ro, wo, fd);
      ZeroBits(fd % NFDBITS);
    }
    ReadyNone(m, word * NFDBITS, (word + 1) * NFDBITS);
  }
}
