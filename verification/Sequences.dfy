/** Sequences: no element twice, the reverse, and what is left when elements are taken out. */
module Sequences {
  ghost predicate AllDifferent<T>(s: seq<T>) { forall i, j | 0 <= i < j < |s| :: s[i] != s[j] }

  lemma Together<T>(a: seq<T>, b: seq<T>, c: seq<T>)
    ensures a + (b + c) == a + b + c
  {
  }

  function Reverse<T>(s: seq<T>): (r: seq<T>)
    ensures |r| == |s|
  {
    if s == [] then [] else Reverse(s[1..]) + [s[0]]
  }

  lemma {:induction false} ReverseAppend<T>(s: seq<T>, t: seq<T>)
    ensures Reverse(s + t) == Reverse(t) + Reverse(s)
  {
    if s == [] {
      assert s + t == t;
    } else {
      ReverseAppend(s[1..], t);
      assert (s + t)[1..] == s[1..] + t;
    }
  }

  lemma {:induction false} ReverseTwice<T>(s: seq<T>)
    ensures Reverse(Reverse(s)) == s
  {
    if s != [] {
      ReverseAppend(Reverse(s[1..]), [s[0]]);
      ReverseTwice(s[1..]);
    }
  }

  lemma {:induction false} ReverseMembers<T>(s: seq<T>, e: T)
    requires e in s
    ensures e in Reverse(s)
  {
    if s[0] != e { ReverseMembers(s[1..], e); }
  }

  /** All elements of a are elements of b, in their order there. */
  ghost predicate Subsequence<T>(a: seq<T>, b: seq<T>)
    decreases |b|
  {
    a == [] || (b != [] && ((a[0] == b[0] && Subsequence(a[1..], b[1..])) || Subsequence(a, b[1..])))
  }

  lemma {:induction false} SubsequenceSelf<T>(a: seq<T>)
    ensures Subsequence(a, a)
  {
    if a != [] { SubsequenceSelf(a[1..]); }
  }

  /** One more element does no harm. */
  lemma {:induction false} SubsequenceInsert<T>(a: seq<T>, x: seq<T>, e: T, y: seq<T>)
    requires Subsequence(a, x + y)
    ensures Subsequence(a, x + ([e] + y))
    decreases |x|
  {
    if x == [] {
      assert x + y == y && x + ([e] + y) == [e] + y && ([e] + y)[1..] == y;
    } else if a != [] {
      assert (x + y)[1..] == x[1..] + y && (x + ([e] + y))[1..] == x[1..] + ([e] + y);
      if a[0] == x[0] && Subsequence(a[1..], x[1..] + y) {
        SubsequenceInsert(a[1..], x[1..], e, y);
      } else {
        SubsequenceInsert(a, x[1..], e, y);
      }
    }
  }
}
