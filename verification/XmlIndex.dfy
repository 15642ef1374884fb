/** Mini-XML's index of a tree: the nodes found in document order are sorted in place, and
    looked up by bisection. */
module XmlIndex {
  import opened XmlText
  import opened XmlTree
  import opened XmlWalk

  // ---------- the order ----------

  /** The sign of strcmp */
  function StrCmp(a: Text, b: Text): int
  {
    if a == [] && b == [] then 0 else if a == [] then -1 else if b == [] then 1
    else if a[0] < b[0] then -1 else if a[0] > b[0] then 1 else StrCmp(a[1..], b[1..])
  }

  lemma {:induction false} StrCmpOrder(a: Text, b: Text, c: Text)
    ensures StrCmp(a, b) == 0 <==> a == b
    ensures StrCmp(a, b) == -StrCmp(b, a) && -1 <= StrCmp(a, b) <= 1
    ensures StrCmp(a, b) <= 0 && StrCmp(b, c) <= 0 ==> StrCmp(a, c) <= 0
    ensures StrCmp(a, b) < 0 && StrCmp(b, c) <= 0 ==> StrCmp(a, c) < 0
    ensures StrCmp(a, b) <= 0 && StrCmp(b, c) < 0 ==> StrCmp(a, c) < 0
  {
    if a != [] && b != [] {
      StrCmpOrder(a[1..], b[1..], if c == [] then [] else c[1..]);
      if a[0] == b[0] && a[1..] == b[1..] { assert a == [a[0]] + a[1..] && b == [b[0]] + b[1..]; }
    }
  }

  /** The order of a dictionary: a proper prefix comes first, and otherwise the first difference
      decides. */
  ghost predicate Before(a: Text, b: Text)
  {
    (|a| < |b| && b[..|a|] == a) || exists i: nat :: Differ(a, b, i) && a[i] < b[i]
  }

  /** i is the first difference of two strings. */
  predicate Differ(a: Text, b: Text, i: nat) { i < |a| && i < |b| && a[..i] == b[..i] && a[i] != b[i] }

  lemma {:induction false} SmallerIsBefore(a: Text, b: Text)
    requires StrCmp(a, b) < 0
    ensures Before(a, b)
  {
    if a == [] {
      assert b[..0] == a;
    } else if a[0] < b[0] {
      assert Differ(a, b, 0);
    } else {
      var x, y := a[1..], b[1..];
      SmallerIsBefore(x, y);
      assert a == [a[0]] + x && b == [a[0]] + y;
      if !(|x| < |y| && y[..|x|] == x) {
        var i: nat :| Differ(x, y, i) && x[i] < y[i];
        assert a[..i + 1] == [a[0]] + x[..i] && b[..i + 1] == [a[0]] + y[..i];
        assert Differ(a, b, i + 1);
      } else {
        assert b[..|a|] == [a[0]] + y[..|x|];
      }
    }
  }

  lemma {:induction false} PrefixIsSmaller(a: Text, b: Text)
    requires |a| < |b| && b[..|a|] == a
    ensures StrCmp(a, b) < 0
  {
    if a != [] {
      assert b[..|a|][0] == b[0] && b[1..][..|a| - 1] == b[..|a|][1..];
      PrefixIsSmaller(a[1..], b[1..]);
    }
  }

  lemma {:induction false} DifferIsSmaller(a: Text, b: Text, i: nat)
    requires Differ(a, b, i) && a[i] < b[i]
    ensures StrCmp(a, b) < 0
  {
    if i > 0 {
      assert a[..i][0] == b[..i][0];
      assert a[1..][..i - 1] == a[..i][1..] && b[1..][..i - 1] == b[..i][1..];
      DifferIsSmaller(a[1..], b[1..], i - 1);
    }
  }

  /** strcmp is the order of a dictionary. */
  lemma StrCmpIsBefore(a: Text, b: Text)
    ensures StrCmp(a, b) < 0 <==> Before(a, b)
  {
    if StrCmp(a, b) < 0 {
      SmallerIsBefore(a, b);
    } else if Before(a, b) {
      if |a| < |b| && b[..|a|] == a {
        PrefixIsSmaller(a, b);
      } else {
        var i: nat :| Differ(a, b, i) && a[i] < b[i];
        DifferIsSmaller(a, b, i);
      }
    }
  }

  /** mxmlElementGetAttr, for a node that has the attribute */
  function Value(attr: Text, n: TreeNode): Text
  {
    match GetAttr(n.attrs, attr)
    case Some(v) => v
    case None => []
  }

  /** A node that can be in an index on an attribute. */
  predicate Indexed(attr: Option, n: TreeNode) { attr.Some? ==> GetAttr(n.attrs, attr.value).Some? }

  /** index_compare */
  function Compare(attr: Option, x: TreeNode, y: TreeNode): int
  {
    var diff := StrCmp(x.name, y.name);
    if diff != 0 then diff
    else if attr.Some? then StrCmp(Value(attr.value, x), Value(attr.value, y)) else 0
  }

  lemma CompareOrder(attr: Option, x: TreeNode, y: TreeNode, z: TreeNode)
    ensures Compare(attr, x, y) == -Compare(attr, y, x) && Compare(attr, x, x) == 0
    ensures Compare(attr, x, y) <= 0 && Compare(attr, y, z) <= 0 ==> Compare(attr, x, z) <= 0
  {
    StrCmpOrder(x.name, y.name, z.name);
    StrCmpOrder(x.name, x.name, x.name);
    StrCmpOrder(y.name, z.name, x.name);
    if attr.Some? {
      StrCmpOrder(Value(attr.value, x), Value(attr.value, y), Value(attr.value, z));
      StrCmpOrder(Value(attr.value, x), Value(attr.value, x), []);
    }
  }

  /** The key of x comes before that of y: the name, and then the attribute of the index. */
  ghost predicate KeyBefore(attr: Option, x: TreeNode, y: TreeNode)
  {
    || Before(x.name, y.name)
    || (x.name == y.name && attr.Some? && Before(Value(attr.value, x), Value(attr.value, y)))
  }

  lemma CompareIsKeyBefore(attr: Option, x: TreeNode, y: TreeNode)
    ensures Compare(attr, x, y) < 0 <==> KeyBefore(attr, x, y)
  {
    StrCmpIsBefore(x.name, y.name);
    StrCmpOrder(x.name, y.name, []);
    if attr.Some? { StrCmpIsBefore(Value(attr.value, x), Value(attr.value, y)); }
  }

  /** No node comes behind one with a greater key. */
  ghost predicate InKeyOrder(attr: Option, s: seq<TreeNode>)
  {
    forall i, j | 0 <= i < j < |s| :: !KeyBefore(attr, s[j], s[i])
  }

  lemma SortedInKeyOrder(attr: Option, s: seq<TreeNode>)
    ensures Sorted(attr, s) <==> InKeyOrder(attr, s)
  {
    forall i, j | 0 <= i < j < |s| ensures Le(attr, s[i], s[j]) <==> !KeyBefore(attr, s[j], s[i]) {
      CompareOrder(attr, s[i], s[j], s[i]);
      CompareIsKeyBefore(attr, s[j], s[i]);
    }
  }

  predicate Le(attr: Option, x: TreeNode, y: TreeNode) { Compare(attr, x, y) <= 0 }

  predicate Sorted(attr: Option, s: seq<TreeNode>) { forall i, j | 0 <= i < j < |s| :: Le(attr, s[i], s[j]) }

  // ---------- sorting ----------

  /** The range from left to right is split at p: what is before p is at most the element
      there, and what is behind it is more. */
  ghost predicate Split(attr: Option, s: seq<TreeNode>, left: nat, p: nat, right: nat)
  {
    && left <= p <= right < |s|
    && (forall k | left <= k < p :: Le(attr, s[k], s[p]))
    && (forall k | p < k <= right :: Le(attr, s[p], s[k]))
  }

  /** Two arrangements that differ in a range only, by a permutation. */
  ghost predicate Permuted(s: seq<TreeNode>, t: seq<TreeNode>, left: nat, end: nat)
  {
    && |s| == |t| && left <= end <= |s|
    && s[..left] == t[..left] && s[end..] == t[end..]
    && multiset(s[left..end]) == multiset(t[left..end])
  }

  lemma PermutedMembers(s: seq<TreeNode>, t: seq<TreeNode>, left: nat, end: nat)
    requires Permuted(s, t, left, end)
    ensures forall k | 0 <= k < |s| && !(left <= k < end) :: t[k] == s[k]
    ensures forall k | left <= k < end :: t[k] in s[left..end]
    ensures multiset(s) == multiset(t)
  {
    forall k | left <= k < end ensures t[k] in s[left..end] {
      assert t[left..end][k - left] in multiset(t[left..end]);
    }
    forall k | 0 <= k < |s| && !(left <= k < end) ensures t[k] == s[k] {
      if k < left { assert t[..left][k] == s[..left][k]; } else { assert t[end..][k - end] == s[end..][k - end]; }
    }
    assert s == s[..left] + s[left..end] + s[end..] && t == t[..left] + t[left..end] + t[end..];
  }

  lemma PermutedTrans(s: seq<TreeNode>, t: seq<TreeNode>, u: seq<TreeNode>, left: nat, end: nat)
    requires Permuted(s, t, left, end) && Permuted(t, u, left, end)
    ensures Permuted(s, u, left, end)
  {
  }

  /** A permutation of a part is one of the whole. */
  lemma PermutedWiden(s: seq<TreeNode>, t: seq<TreeNode>, left: nat, end: nat, from: nat, to: nat)
    requires Permuted(s, t, left, end) && from <= left && end <= to <= |s|
    ensures Permuted(s, t, from, to)
  {
    assert s[from..to] == s[from..left] + s[left..end] + s[end..to];
    assert t[from..to] == t[from..left] + t[left..end] + t[end..to];
    assert s[from..left] == s[..left][from..] && t[from..left] == t[..left][from..];
    assert s[end..to] == s[end..][..to - end] && t[end..to] == t[end..][..to - end];
    assert s[..from] == s[..left][..from] && t[..from] == t[..left][..from];
    assert s[to..] == s[end..][to - end..] && t[to..] == t[end..][to - end..];
  }

  lemma SwapPermutes(s: seq<TreeNode>, i: nat, j: nat, left: nat, end: nat)
    requires left <= i < end && left <= j < end <= |s|
    ensures Permuted(s, s[i := s[j]][j := s[i]], left, end)
  {
    var t: seq<TreeNode> := s[i := s[j]][j := s[i]];
    var a: seq<TreeNode>, b: seq<TreeNode> := s[left..end], t[left..end];
    assert b == a[i - left := a[j - left]][j - left := a[i - left]];
  }

  lemma Pivoted(attr: Option, s: seq<TreeNode>, left: nat, p: nat, right: nat, pivot: TreeNode)
    requires left <= p <= right < |s| && Le(attr, s[p], pivot) && Le(attr, pivot, s[p])
    requires forall k | left <= k < p :: Le(attr, s[k], pivot)
    requires forall k | p < k <= right :: !Le(attr, s[k], pivot)
    ensures Split(attr, s, left, p, right)
  {
    forall k | left <= k < p ensures Le(attr, s[k], s[p]) { CompareOrder(attr, s[k], pivot, s[p]); }
    forall k | p < k <= right ensures Le(attr, s[p], s[k]) {
      CompareOrder(attr, s[k], pivot, pivot);
      CompareOrder(attr, s[p], pivot, s[k]);
    }
  }

  method Swap(a: array<TreeNode>, i: nat, j: nat, ghost left: nat, ghost end: nat)
    requires left <= i < end && left <= j < end <= a.Length
    modifies a
    ensures a[i] == old(a[j]) && a[j] == old(a[i])
    ensures forall k | 0 <= k < a.Length && k != i && k != j :: a[k] == old(a[k])
    ensures Permuted(old(a[..]), a[..], left, end)
  {
    SwapPermutes(a[..], i, j, left, end);
    ghost var s := a[..];
    var temp := a[i];
    a[i] := a[j];
    a[j] := temp;
    assert a[..] == s[i := s[j]][j := s[i]];
  }

  /** What the partition knows so far: nodes up to the pivot on the left, and after it on the
      right. */
  ghost predicate Parted(attr: Option, s: seq<TreeNode>, left: nat, templ: nat, tempr: nat, right: nat, pivot: TreeNode)
  {
    && left <= templ <= right < |s| && left <= tempr <= right && s[left] == pivot
    && (forall k | left <= k < templ :: Le(attr, s[k], pivot))
    && (forall k | tempr < k <= right :: !Le(attr, s[k], pivot))
  }

  /** The two inner loops of the partition. */
  method Scan(attr: Option, a: array<TreeNode>, left: nat, right: nat, from: nat, to: nat, pivot: TreeNode)
    returns (templ: nat, tempr: nat)
    requires Parted(attr, a[..], left, from, to, right, pivot) && from < to
    requires Le(attr, a[from], pivot) && Le(attr, pivot, pivot)
    ensures from < templ && tempr <= to && Parted(attr, a[..], left, templ, tempr, right, pivot)
    ensures Le(attr, a[tempr], pivot)
    ensures templ < right ==> !Le(attr, a[templ], pivot)
  {
    templ, tempr := from, to;
    while templ < right && Compare(attr, a[templ], pivot) <= 0
      invariant from <= templ <= right && (templ == from ==> Le(attr, a[templ], pivot))
      invariant forall k | left <= k < templ :: Le(attr, a[k], pivot)
    {
      templ := templ + 1;
    }
    while tempr > left && Compare(attr, a[tempr], pivot) > 0
      invariant left <= tempr <= to
      invariant forall k | tempr < k <= right :: !Le(attr, a[k], pivot)
    {
      tempr := tempr - 1;
    }
  }

  /** The swap of the partition, of two nodes that are on the wrong sides. */
  method Exchange(attr: Option, a: array<TreeNode>, left: nat, right: nat, templ: nat, tempr: nat, pivot: TreeNode,
                  ghost was: seq<TreeNode>)
    requires Parted(attr, a[..], left, templ, tempr, right, pivot) && left < templ < tempr && Le(attr, a[tempr], pivot)
    requires Permuted(was, a[..], left, right + 1)
    modifies a
    ensures Parted(attr, a[..], left, templ, tempr, right, pivot) && Le(attr, a[templ], pivot)
    ensures Permuted(was, a[..], left, right + 1)
  {
    ghost var before := a[..];
    Swap(a, templ, tempr, left, right + 1);
    PermutedTrans(was, before, a[..], left, right + 1);
  }

  /** The partition of index_sort: the pivot stays at the left until the end. */
  method Partition(attr: Option, a: array<TreeNode>, left: nat, right: nat) returns (tempr: nat)
    requires left <= right < a.Length
    modifies a
    ensures Split(attr, a[..], left, tempr, right) && Permuted(old(a[..]), a[..], left, right + 1)
  {
    ghost var was := a[..];
    var pivot, templ := a[left], left;
    tempr := right;
    CompareOrder(attr, pivot, pivot, pivot);
    while templ < tempr
      invariant Parted(attr, a[..], left, templ, tempr, right, pivot)
      invariant Le(attr, if templ < tempr then a[templ] else a[tempr], pivot)
      invariant Permuted(was, a[..], left, right + 1)
      decreases tempr - templ
    {
      templ, tempr := Scan(attr, a, left, right, templ, tempr, pivot);
      if templ < tempr {
        Exchange(attr, a, left, right, templ, tempr, pivot, was);
      }
    }
    ghost var before := a[..];
    PlacePivot(attr, a, left, tempr, right, pivot);
    PermutedTrans(was, before, a[..], left, right + 1);
  }

  /** The end of the partition: the right node is the new position for the pivot. */
  method PlacePivot(attr: Option, a: array<TreeNode>, left: nat, tempr: nat, right: nat, pivot: TreeNode)
    requires left <= tempr <= right < a.Length && a[left] == pivot
    requires Le(attr, a[tempr], pivot) && Le(attr, pivot, pivot)
    requires forall k | left <= k < tempr :: Le(attr, a[k], pivot)
    requires forall k | tempr < k <= right :: !Le(attr, a[k], pivot)
    modifies a
    ensures Split(attr, a[..], left, tempr, right) && Permuted(old(a[..]), a[..], left, right + 1)
  {
    if Compare(attr, pivot, a[tempr]) > 0 {
      Swap(a, left, tempr, left, right + 1);
    }
    Pivoted(attr, a[..], left, tempr, right, pivot);
  }

  /** The array is sorted up to left, and what comes then up to right is not less. */
  ghost predicate SortedUpTo(attr: Option, s: seq<TreeNode>, first: nat, left: nat, right: nat)
  {
    && first <= left && right < |s|
    && forall i, j | first <= i < left && i < j <= right :: Le(attr, s[i], s[j])
  }

  /** One round of the loop of index_sort. */
  lemma Advance(attr: Option, was: seq<TreeNode>, s: seq<TreeNode>, u: seq<TreeNode>, t: seq<TreeNode>,
                first: nat, left: nat, p: nat, right: nat)
    requires SortedUpTo(attr, s, first, left, right) && Permuted(was, s, first, right + 1)
    requires Permuted(s, u, left, right + 1) && Split(attr, u, left, p, right)
    requires Permuted(u, t, left, p) && Sorted(attr, t[left..p])
    ensures Permuted(was, t, first, right + 1) && SortedUpTo(attr, t, first, p + 1, right)
  {
    PermutedWiden(u, t, left, p, left, right + 1);
    PermutedTrans(s, u, t, left, right + 1);
    SortedFurther(attr, s, u, t, first, left, p, right);
    PermutedWiden(s, t, left, right + 1, first, right + 1);
    PermutedTrans(was, s, t, first, right + 1);
  }

  lemma SortedFurther(attr: Option, s: seq<TreeNode>, u: seq<TreeNode>, t: seq<TreeNode>, first: nat, left: nat,
                      p: nat, right: nat)
    requires SortedUpTo(attr, s, first, left, right) && Permuted(s, t, left, right + 1)
    requires Split(attr, u, left, p, right) && Permuted(u, t, left, p) && Sorted(attr, t[left..p])
    ensures SortedUpTo(attr, t, first, p + 1, right)
  {
    forall i, j | first <= i < p + 1 && i < j <= right ensures Le(attr, t[i], t[j]) {
      if i < left {
        StaysAbove(attr, s, t, first, left, right, i, j);
      } else {
        SplitAbove(attr, u, t, left, p, right, i, j);
      }
    }
  }

  lemma StaysAbove(attr: Option, s: seq<TreeNode>, t: seq<TreeNode>, first: nat, left: nat, right: nat, i: nat, j: nat)
    requires SortedUpTo(attr, s, first, left, right)
    requires Permuted(s, t, left, right + 1) && first <= i < left && i < j <= right
    ensures Le(attr, t[i], t[j])
  {
    PermutedMembers(s, t, left, right + 1);
    if j >= left { assert t[j] in s[left..right + 1]; }
  }

  lemma SplitAbove(attr: Option, u: seq<TreeNode>, t: seq<TreeNode>, left: nat, p: nat, right: nat, i: nat, j: nat)
    requires Split(attr, u, left, p, right) && Permuted(u, t, left, p)
    requires Sorted(attr, t[left..p]) && left <= i <= p && i < j <= right
    ensures Le(attr, t[i], t[j])
  {
    PermutedMembers(u, t, left, p);
    if j < p {
      assert t[i] == t[left..p][i - left] && t[j] == t[left..p][j - left];
    } else if i < p {
      assert t[i] in u[left..p];
      CompareOrder(attr, t[i], u[p], t[j]);
    }
  }

  lemma AllSorted(attr: Option, s: seq<TreeNode>, first: nat, left: nat, right: nat)
    requires SortedUpTo(attr, s, first, left, right) && right <= left && first <= right
    ensures Sorted(attr, s[first..right + 1])
  {
    var t := s[first..right + 1];
    forall i, j | 0 <= i < j < |t| ensures Le(attr, t[i], t[j]) {
      assert t[i] == s[first + i] && t[j] == s[first + j];
    }
  }

  /** index_sort: the part before the pivot is sorted by recursion, the part behind it by the
      loop. */
  method IndexSort(attr: Option, a: array<TreeNode>, first: nat, right: nat)
    requires first <= right < a.Length
    modifies a
    ensures Sorted(attr, a[first..right + 1]) && Permuted(old(a[..]), a[..], first, right + 1)
    decreases right - first
  {
    var left, more := first, true;
    ghost var was := a[..];
    while more
      invariant first <= left <= right + 1 && (more ==> left <= right) && (!more ==> left >= right)
      invariant SortedUpTo(attr, a[..], first, left, right) && Permuted(was, a[..], first, right + 1)
      decreases right - left, more
    {
      ghost var s := a[..];
      var tempr := Partition(attr, a, left, right);
      ghost var u := a[..];
      if left + 1 < tempr {
        IndexSort(attr, a, left, tempr - 1);
      }
      Advance(attr, was, s, u, a[..], first, left, tempr, right);
      left := tempr + 1;
      more := right > left;
    }
    AllSorted(attr, a[..], first, left, right);
    assert a[..][first..right + 1] == a[first..right + 1];
  }

  // ---------- searching ----------

  /** index_find: how the wanted element and value compare with those of a node. */
  function FindDiff(attr: Option, element: Option, value: Option, n: TreeNode): int
    requires value.Some? ==> attr.Some?
  {
    var diff := if element.Some? then StrCmp(element.value, n.name) else 0;
    if diff != 0 then diff else if value.Some? then StrCmp(value.value, Value(attr.value, n)) else 0
  }

  /** The results of index_find along the index. */
  function Diffs(attr: Option, element: Option, value: Option, nodes: seq<TreeNode>): (d: seq<int>)
    requires value.Some? ==> attr.Some?
    ensures |d| == |nodes|
  {
    seq(|nodes|, k requires 0 <= k < |nodes| => FindDiff(attr, element, value, nodes[k]))
  }

  /** The first of the zeros that lead to a zero. */
  function BackUp(d: seq<int>, k: nat): (r: nat)
    requires k < |d| && d[k] == 0
    ensures r <= k && (forall m | r <= m <= k :: d[m] == 0) && (r > 0 ==> d[r - 1] != 0)
  {
    if k > 0 && d[k - 1] == 0 then BackUp(d, k - 1) else k
  }

  /** Where the bisection of mxmlIndexFind ends: at a match, or behind the index. */
  function Bisected(d: seq<int>, first: nat, last: nat): (r: nat)
    requires first <= last < |d|
    ensures r <= |d| && (r < |d| ==> d[r] == 0)
    decreases last - first
  {
    if last - first > 1 then
      var current := (first + last) / 2;
      if d[current] == 0 then BackUp(d, current)
      else if d[current] < 0 then Bisected(d, first, current) else Bisected(d, current, last)
    else if d[first] == 0 then first else if d[last] == 0 then last else |d|
  }

  /** The first match that mxmlIndexFind returns. */
  function FirstFound(d: seq<int>): (r: nat)
    ensures r <= |d| && (r < |d| ==> d[r] == 0)
  {
    if d == [] then 0 else Bisected(d, 0, |d| - 1)
  }

  /** Where a run of zeros ends. */
  function RunEnd(d: seq<int>, k: nat): (r: nat)
    requires k <= |d|
    ensures k <= r <= |d| && (forall m | k <= m < r :: d[m] == 0) && (r < |d| ==> d[r] != 0)
    decreases |d| - k
  {
    if k < |d| && d[k] == 0 then RunEnd(d, k + 1) else k
  }

  /** What repeated calls of mxmlIndexFind return. */
  function Found(nodes: seq<TreeNode>, d: seq<int>): seq<TreeNode>
    requires |d| == |nodes|
  {
    nodes[FirstFound(d)..RunEnd(d, FirstFound(d))]
  }

  /** What a scan along the index finds. */
  function Scanned(nodes: seq<TreeNode>, d: seq<int>): seq<TreeNode>
    requires |d| == |nodes|
  {
    if nodes == [] then [] else
      (if d[0] == 0 then [nodes[0]] else []) + Scanned(nodes[1..], d[1..])
  }

  /** A wanted key is more than some nodes, then equal, then less. */
  ghost predicate Monotone(d: seq<int>)
  {
    forall i, j | 0 <= i < j < |d| :: (d[i] <= 0 ==> d[j] <= 0) && (d[i] < 0 ==> d[j] < 0)
  }

  /** The bisection keeps all matches between its bounds. */
  lemma {:induction false} BisectedIsFirst(d: seq<int>, first: nat, last: nat)
    requires first <= last < |d| && Monotone(d)
    requires forall k | 0 <= k < |d| && d[k] == 0 :: first <= k <= last
    ensures forall k | 0 <= k < |d| && d[k] == 0 :: Bisected(d, first, last) <= k
    decreases last - first
  {
    if last - first > 1 {
      var current := (first + last) / 2;
      if d[current] < 0 {
        BisectedIsFirst(d, first, current);
      } else if d[current] > 0 {
        BisectedIsFirst(d, current, last);
      } else {
        var r := BackUp(d, current);
        assert r > 0 ==> d[r - 1] > 0;
      }
    }
  }

  lemma ScannedFirst(a: seq<TreeNode>, d: seq<int>, x: TreeNode, e: int, b: seq<TreeNode>, f: seq<int>)
    requires |d| == |a| && |f| == |b| && a == [x] + b && d == [e] + f
    ensures Scanned(a, d) == (if e == 0 then [x] else []) + Scanned(b, f)
  {
    assert a[1..] == b && d[1..] == f;
  }

  lemma {:induction false} ScannedConcat(a: seq<TreeNode>, d: seq<int>, b: seq<TreeNode>, e: seq<int>)
    requires |d| == |a| && |e| == |b|
    ensures Scanned(a + b, d + e) == Scanned(a, d) + Scanned(b, e)
  {
    if a == [] {
      assert a + b == b && d + e == e;
    } else {
      ScannedConcat(a[1..], d[1..], b, e);
      ScannedFirst(a + b, d + e, a[0], d[0], a[1..] + b, d[1..] + e);
      ScannedFirst(a, d, a[0], d[0], a[1..], d[1..]);
    }
  }

  lemma {:induction false} ScannedNone(a: seq<TreeNode>, d: seq<int>)
    requires |d| == |a| && forall k | 0 <= k < |d| :: d[k] != 0
    ensures Scanned(a, d) == []
  {
    if a != [] { ScannedNone(a[1..], d[1..]); }
  }

  lemma {:induction false} ScannedAll(a: seq<TreeNode>, d: seq<int>)
    requires |d| == |a| && forall k | 0 <= k < |d| :: d[k] == 0
    ensures Scanned(a, d) == a
  {
    if a != [] { ScannedAll(a[1..], d[1..]); }
  }

  /** The scan: what it finds before and after a run of matches, and the run. */
  lemma ScannedAround(nodes: seq<TreeNode>, d: seq<int>, f: nat, g: nat)
    requires |d| == |nodes| && f <= g <= |d| && forall k | f <= k < g :: d[k] == 0
    ensures Scanned(nodes, d) == Scanned(nodes[..f], d[..f]) + nodes[f..g] + Scanned(nodes[g..], d[g..])
  {
    ThreeParts(nodes, f, g);
    ThreeParts(d, f, g);
    ScannedAll(nodes[f..g], d[f..g]);
    ScannedThree(nodes[..f], d[..f], nodes[f..g], d[f..g], nodes[g..], d[g..]);
  }

  lemma ThreeParts<T>(s: seq<T>, f: nat, g: nat)
    requires f <= g <= |s|
    ensures s == s[..f] + s[f..g] + s[g..]
  {
  }

  lemma ScannedThree(a: seq<TreeNode>, d: seq<int>, b: seq<TreeNode>, e: seq<int>, c: seq<TreeNode>, f: seq<int>)
    requires |d| == |a| && |e| == |b| && |f| == |c|
    ensures Scanned(a + b + c, d + e + f) == Scanned(a, d) + Scanned(b, e) + Scanned(c, f)
  {
    ScannedConcat(a + b, d + e, c, f);
    ScannedConcat(a, d, b, e);
  }

  /** If the comparisons are monotone, repeated searches agree with a scan. */
  lemma MonotoneFinds(nodes: seq<TreeNode>, d: seq<int>)
    requires |d| == |nodes| && Monotone(d)
    ensures Found(nodes, d) == Scanned(nodes, d)
  {
    var f := FirstFound(d);
    var g := RunEnd(d, f);
    NoneBefore(d);
    AfterRun(d, f, g);
    RunOnly(nodes, d, f, g);
  }

  lemma NoneBefore(d: seq<int>)
    requires Monotone(d)
    ensures forall k | 0 <= k < FirstFound(d) :: d[k] != 0
  {
    if d != [] { BisectedIsFirst(d, 0, |d| - 1); }
  }

  lemma RunOnly(nodes: seq<TreeNode>, d: seq<int>, f: nat, g: nat)
    requires |d| == |nodes| && f <= g <= |d| && forall k | 0 <= k < |d| :: d[k] == 0 <==> f <= k < g
    ensures Scanned(nodes, d) == nodes[f..g]
  {
    ScannedAround(nodes, d, f, g);
    ScannedNone(nodes[..f], d[..f]);
    ScannedNone(nodes[g..], d[g..]);
    Trimmed(nodes[f..g]);
  }

  lemma Trimmed<T>(s: seq<T>)
    ensures [] + s + [] == s
  {
  }

  lemma AfterRun(d: seq<int>, f: nat, g: nat)
    requires Monotone(d) && f <= g <= |d| && (f < |d| ==> d[f] == 0 && f < g) && (g < |d| ==> d[g] != 0)
    ensures forall k | g <= k < |d| :: d[k] != 0
  {
    forall k | g <= k < |d| ensures d[k] != 0 {
      assert d[g] < 0;
    }
  }

  /** A match outside of the run is missed. */
  lemma MissedMatch(nodes: seq<TreeNode>, d: seq<int>, k: nat)
    requires |d| == |nodes| && k < |d| && d[k] == 0 && !(FirstFound(d) <= k < RunEnd(d, FirstFound(d)))
    ensures Found(nodes, d) != Scanned(nodes, d)
  {
    var f := FirstFound(d);
    var g := RunEnd(d, f);
    ScannedAround(nodes, d, f, g);
    var (a, e, j) := if k < f then (nodes[..f], d[..f], k) else (nodes[g..], d[g..], k - g);
    ScannedSome(a, e, j);
  }

  lemma {:induction false} ScannedSome(a: seq<TreeNode>, d: seq<int>, k: nat)
    requires |d| == |a| && k < |d| && d[k] == 0
    ensures Scanned(a, d) != []
  {
    if k > 0 { ScannedSome(a[1..], d[1..], k - 1); }
  }

  // ---------- when searching agrees with scanning ----------

  ghost predicate ValuesSorted(attr: Text, nodes: seq<TreeNode>)
  {
    forall i, j | 0 <= i < j < |nodes| :: StrCmp(Value(attr, nodes[i]), Value(attr, nodes[j])) <= 0
  }

  ghost predicate OneName(nodes: seq<TreeNode>) { forall i, j | 0 <= i < j < |nodes| :: nodes[i].name == nodes[j].name }

  /** Later nodes compare with a wanted key as less or equal. */
  lemma SearchOrder(attr: Option, element: Option, value: Option, x: TreeNode, y: TreeNode)
    requires value.Some? ==> attr.Some?
    requires
      if element.Some? then Le(attr, x, y)
      else value.Some? && StrCmp(Value(attr.value, x), Value(attr.value, y)) <= 0
    ensures FindDiff(attr, element, value, x) <= 0 ==> FindDiff(attr, element, value, y) <= 0
    ensures FindDiff(attr, element, value, x) < 0 ==> FindDiff(attr, element, value, y) < 0
  {
    StrCmpOrder(x.name, y.name, []);
    if element.Some? { StrCmpOrder(element.value, x.name, y.name); }
    if value.Some? { StrCmpOrder(value.value, Value(attr.value, x), Value(attr.value, y)); }
  }

  /** A search by element name, with or without a value, agrees with a scan of the index. */
  lemma ElementSearch(attr: Option, element: Option, value: Option, nodes: seq<TreeNode>)
    requires Sorted(attr, nodes) && element.Some? && (value.Some? ==> attr.Some?)
    ensures Found(nodes, Diffs(attr, element, value, nodes)) == Scanned(nodes, Diffs(attr, element, value, nodes))
  {
    var d := Diffs(attr, element, value, nodes);
    forall i, j | 0 <= i < j < |d| ensures (d[i] <= 0 ==> d[j] <= 0) && (d[i] < 0 ==> d[j] < 0) {
      SearchOrder(attr, element, value, nodes[i], nodes[j]);
    }
    MonotoneFinds(nodes, d);
  }

  /** The results of a search by value only. */
  function ValueDiffs(attr: Text, v: Text, nodes: seq<TreeNode>): (d: seq<int>)
    ensures |d| == |nodes|
  {
    Diffs(Some(attr), None, Some(v), nodes)
  }

  ghost predicate ValueSearchWorks(attr: Text, v: Text, nodes: seq<TreeNode>)
  {
    Found(nodes, ValueDiffs(attr, v, nodes)) == Scanned(nodes, ValueDiffs(attr, v, nodes))
  }

  lemma ValuesSearch(attr: Text, v: Text, nodes: seq<TreeNode>)
    requires ValuesSorted(attr, nodes) || |nodes| <= 2
    ensures ValueSearchWorks(attr, v, nodes)
  {
    var d := ValueDiffs(attr, v, nodes);
    if ValuesSorted(attr, nodes) {
      forall i, j | 0 <= i < j < |d| ensures (d[i] <= 0 ==> d[j] <= 0) && (d[i] < 0 ==> d[j] < 0) {
        SearchOrder(Some(attr), None, Some(v), nodes[i], nodes[j]);
      }
      MonotoneFinds(nodes, d);
    } else {
      ShortSearch(nodes, d);
    }
  }

  /** An index of at most two nodes is scanned anyway. */
  lemma ShortSearch(nodes: seq<TreeNode>, d: seq<int>)
    requires |d| == |nodes| <= 2
    ensures Found(nodes, d) == Scanned(nodes, d)
  {
    var f := FirstFound(d);
    ShortRun(d, f, RunEnd(d, f));
    ScannedAround(nodes, d, f, RunEnd(d, f));
    ScannedNone(nodes[..f], d[..f]);
    ScannedNone(nodes[RunEnd(d, f)..], d[RunEnd(d, f)..]);
  }

  lemma ShortRun(d: seq<int>, f: nat, g: nat)
    requires |d| <= 2 && f == FirstFound(d) && g == RunEnd(d, f)
    ensures forall k | 0 <= k < |d[..f]| :: d[..f][k] != 0
    ensures forall k | 0 <= k < |d[g..]| :: d[g..][k] != 0
  {
    assert forall k | 0 <= k < |d| && (k < f || g <= k) :: d[k] != 0;
  }

  /** In a sorted index of nodes with one name, the values are sorted. */
  lemma OneNameSorts(attr: Text, nodes: seq<TreeNode>)
    requires Sorted(Some(attr), nodes) && OneName(nodes)
    ensures ValuesSorted(attr, nodes)
  {
    forall i, j | 0 <= i < j < |nodes| ensures StrCmp(Value(attr, nodes[i]), Value(attr, nodes[j])) <= 0 {
      assert Le(Some(attr), nodes[i], nodes[j]);
      StrCmpOrder(nodes[i].name, nodes[j].name, []);
    }
  }

  /** The bisection stays in its range, or in matches that lead out of it. */
  lemma {:induction false} BisectedRange(d: seq<int>, first: nat, last: nat)
    requires first <= last < |d|
    ensures var r := Bisected(d, first, last);
      r < |d| ==> r <= last && (r >= first || forall k | r <= k <= first :: d[k] == 0)
    decreases last - first
  {
    if last - first > 1 {
      var current := (first + last) / 2;
      if d[current] < 0 {
        BisectedRange(d, first, current);
      } else if d[current] > 0 {
        BisectedRange(d, current, last);
      }
    }
  }

  /** Two values that stand side by side in the wrong order cannot both be found: the searches
      for them part at a node that sends one of them to the wrong side. */
  lemma {:induction false} WrongOrder(dx: seq<int>, dy: seq<int>, i: nat, first: nat, last: nat)
    requires |dx| == |dy| && first <= i && i + 1 <= last < |dx| && last - first > 1
    requires dx[i + 1] == 0 && dy[i] == 0 && dx[i] < 0 && dy[i + 1] > 0
    requires forall k | 0 <= k < |dx| :: (dx[k] >= 0 ==> dy[k] > 0) && (dy[k] <= 0 ==> dx[k] < 0)
    ensures Bisected(dx, first, last) != i + 1
            || !(Bisected(dy, first, last) <= i && forall k | Bisected(dy, first, last) <= k <= i :: dy[k] == 0)
    decreases last - first
  {
    var current := (first + last) / 2;
    if current <= i {
      if dx[current] < 0 {
        BisectedRange(dx, first, current);
      } else if dx[current] > 0 {
        WrongOrder(dx, dy, i, current, last);
      }
    } else {
      if dy[current] > 0 {
        BisectedRange(dy, current, last);
      } else if dy[current] < 0 {
        WrongOrder(dx, dy, i, first, current);
      }
    }
  }

  /** Values that are not sorted have two neighbours in the wrong order. */
  lemma {:induction false} NeighboursWrong(attr: Text, nodes: seq<TreeNode>, n: nat) returns (i: nat)
    requires n <= |nodes| && !ValuesSorted(attr, nodes[..n])
    ensures i + 1 < n && StrCmp(Value(attr, nodes[i]), Value(attr, nodes[i + 1])) > 0
  {
    var front := nodes[..n - 1];
    if !ValuesSorted(attr, front) {
      i := NeighboursWrong(attr, nodes, n - 1);
    } else {
      i := n - 2;
      if StrCmp(Value(attr, nodes[i]), Value(attr, nodes[i + 1])) <= 0 {
        forall a, b | 0 <= a < b < n ensures StrCmp(Value(attr, nodes[..n][a]), Value(attr, nodes[..n][b])) <= 0 {
          if b < n - 1 {
            assert nodes[..n][a] == front[a] && nodes[..n][b] == front[b];
          } else {
            assert a < i ==> StrCmp(Value(attr, front[a]), Value(attr, front[i])) <= 0;
            StrCmpOrder(Value(attr, nodes[a]), Value(attr, nodes[i]), Value(attr, nodes[n - 1]));
          }
        }
      }
    }
  }

  lemma BetweenKeys(x: Text, y: Text, z: Text)
    requires StrCmp(x, y) < 0
    ensures (StrCmp(x, z) >= 0 ==> StrCmp(y, z) > 0) && (StrCmp(y, z) <= 0 ==> StrCmp(x, z) < 0)
  {
    StrCmpOrder(x, y, z);
    StrCmpOrder(z, x, y);
    StrCmpOrder(y, z, x);
  }

  /** The results of two searches, for a smaller and a greater value. */
  lemma DiffsOfTwo(attr: Text, x: Text, y: Text, nodes: seq<TreeNode>)
    requires StrCmp(x, y) < 0
    ensures
      var dx, dy := ValueDiffs(attr, x, nodes), ValueDiffs(attr, y, nodes);
      forall k | 0 <= k < |nodes| :: (dx[k] >= 0 ==> dy[k] > 0) && (dy[k] <= 0 ==> dx[k] < 0)
  {
    var dx, dy := ValueDiffs(attr, x, nodes), ValueDiffs(attr, y, nodes);
    forall k | 0 <= k < |nodes| ensures (dx[k] >= 0 ==> dy[k] > 0) && (dy[k] <= 0 ==> dx[k] < 0) {
      BetweenKeys(x, y, Value(attr, nodes[k]));
    }
  }

  /** Where the two values themselves are, side by side in the wrong order. */
  lemma DiffsAtTwo(attr: Text, nodes: seq<TreeNode>, i: nat)
    requires i + 1 < |nodes| && StrCmp(Value(attr, nodes[i]), Value(attr, nodes[i + 1])) > 0
    ensures
      var x, y := Value(attr, nodes[i + 1]), Value(attr, nodes[i]);
      var dx, dy := ValueDiffs(attr, x, nodes), ValueDiffs(attr, y, nodes);
      StrCmp(x, y) < 0 && dx[i + 1] == 0 && dy[i] == 0 && dx[i] < 0 && dy[i + 1] > 0
  {
    var x, y := Value(attr, nodes[i + 1]), Value(attr, nodes[i]);
    StrCmpOrder(x, y, x);
    StrCmpOrder(x, x, y);
    StrCmpOrder(y, y, x);
  }

  /** Then one of these two values is not found where it is. */
  lemma WrongOrderFails(attr: Text, nodes: seq<TreeNode>, i: nat)
    requires |nodes| > 2 && i + 1 < |nodes| && StrCmp(Value(attr, nodes[i]), Value(attr, nodes[i + 1])) > 0
    ensures
      || !ValueSearchWorks(attr, Value(attr, nodes[i]), nodes)
      || !ValueSearchWorks(attr, Value(attr, nodes[i + 1]), nodes)
  {
    var x, y := Value(attr, nodes[i + 1]), Value(attr, nodes[i]);
    var dx, dy := ValueDiffs(attr, x, nodes), ValueDiffs(attr, y, nodes);
    DiffsAtTwo(attr, nodes, i);
    DiffsOfTwo(attr, x, y, nodes);
    WrongOrder(dx, dy, i, 0, |nodes| - 1);
    if FirstFound(dx) <= i + 1 < RunEnd(dx, FirstFound(dx)) {
      if FirstFound(dy) <= i < RunEnd(dy, FirstFound(dy)) {
        assert false;
      } else {
        MissedMatch(nodes, dy, i);
      }
    } else {
      MissedMatch(nodes, dx, i + 1);
    }
  }

  /** A search by value only agrees with a scan, for every value, exactly if the values are
      sorted along the index, or there are at most two nodes. */
  lemma ValueSearchExact(attr: Text, nodes: seq<TreeNode>)
    ensures (forall v :: ValueSearchWorks(attr, v, nodes)) <==> |nodes| <= 2 || ValuesSorted(attr, nodes)
  {
    if |nodes| <= 2 || ValuesSorted(attr, nodes) {
      forall v ensures ValueSearchWorks(attr, v, nodes) { ValuesSearch(attr, v, nodes); }
    } else {
      assert nodes[..|nodes|] == nodes;
      var i := NeighboursWrong(attr, nodes, |nodes|);
      WrongOrderFails(attr, nodes, i);
    }
  }

  /** For example, three elements A, B and C with the values c, a and b are in order, but c is
      not found. */
  lemma ValueSearchFails(attr: Text, a: TreeNode, b: TreeNode, c: TreeNode)
    requires a.name == [65] && b.name == [66] && c.name == [67]
    requires Value(attr, a) == [99] && Value(attr, b) == [97] && Value(attr, c) == [98]
    ensures Sorted(Some(attr), [a, b, c]) && !ValueSearchWorks(attr, [99], [a, b, c])
  {
    var nodes := [a, b, c];
    var d := ValueDiffs(attr, [99], nodes);
    StrCmpOrder([99], [99], []);
    assert d[0] == 0 && d[1] == 1 && d[2] == 1;
    assert Bisected(d, 1, 2) == 3 && FirstFound(d) == 3;
    MissedMatch(nodes, d, 0);
  }

  // ---------- the index ----------

  /** mxml_index_t */
  class Index {
    const attr: Option
    const nodes: array<TreeNode>
    var curNode: nat

    ghost predicate Valid()
      reads this, nodes
    {
      curNode <= nodes.Length && Sorted(attr, nodes[..]) && forall n | n in nodes[..] :: Indexed(attr, n)
    }

    constructor (a: Option, list: array<TreeNode>)
      ensures attr == a && nodes == list && curNode == 0
    {
      attr, nodes, curNode := a, list, 0;
    }

    /** mxmlIndexReset */
    method Reset() returns (r: TreeNode?)
      requires Valid()
      modifies this`curNode
      ensures Valid() && curNode == 0 && r == At(nodes[..], 0)
    {
      curNode := 0;
      r := if nodes.Length > 0 then nodes[0] else null;
    }

    /** mxmlIndexEnum */
    method Enum() returns (r: TreeNode?)
      requires Valid()
      modifies this`curNode
      ensures Valid() && r == At(nodes[..], old(curNode))
      ensures curNode == if old(curNode) < nodes.Length then old(curNode) + 1 else old(curNode)
    {
      if curNode < nodes.Length {
        r := nodes[curNode];
        curNode := curNode + 1;
      } else {
        r := null;
      }
    }

    /** A find for something: not an enumeration, and not for a value without an attribute. */
    ghost predicate Searches(element: Option, value: Option)
    {
      (element.Some? || value.Some?) && (value.Some? ==> attr.Some?)
    }

    /** What one mxmlIndexFind does: after a reset the first match, later the next one. */
    ghost function Hit(d: seq<int>): (i: nat)
      reads this`curNode
      ensures i <= |d|
    {
      if curNode == 0 then FirstFound(d) else if curNode < |d| && d[curNode] == 0 then curNode else |d|
    }

    /** mxmlIndexFind */
    method Find(element: Option, value: Option) returns (r: TreeNode?)
      requires Valid()
      modifies this`curNode
      ensures Valid()
      ensures attr.None? && value.Some? ==> r == null && curNode == old(curNode)
      ensures element.None? && value.None? ==> r == At(nodes[..], old(curNode))
      ensures element.None? && value.None? ==> curNode == if r != null then old(curNode) + 1 else old(curNode)
      ensures Searches(element, value) ==>
        var i := old(Hit(Diffs(attr, element, value, nodes[..])));
        r == At(nodes[..], i) && curNode == if i < nodes.Length then i + 1 else i
    {
      if attr.None? && value.Some? {
        return null;
      }
      if element.None? && value.None? {
        r := Enum();
        return;
      }
      if nodes.Length == 0 {
        return null;
      }
      ghost var d := Diffs(attr, element, value, nodes[..]);
      if curNode == 0 {
        var i := FindFirst(element, value, d);
        if i < nodes.Length {
          curNode := i + 1;
          return nodes[i];
        }
      } else if curNode < nodes.Length && FindDiff(attr, element, value, nodes[curNode]) == 0 {
        r := nodes[curNode];
        curNode := curNode + 1;
        return;
      }
      curNode := nodes.Length;
      r := null;
    }

    /** The inner loop of the bisection: from a match back to the first one. */
    method MoveBack(element: Option, value: Option, ghost d: seq<int>, match0: nat) returns (current: nat)
      requires value.Some? ==> attr.Some?
      requires d == Diffs(attr, element, value, nodes[..]) && match0 < |d| && d[match0] == 0
      ensures current == BackUp(d, match0)
    {
      current := match0;
      while current > 0 && FindDiff(attr, element, value, nodes[current - 1]) == 0
        invariant current < |d| && d[current] == 0 && BackUp(d, match0) == BackUp(d, current)
      {
        assert d[current - 1] == 0;
        current := current - 1;
      }
      assert current > 0 ==> d[current - 1] != 0;
    }

    /** The bisection of mxmlIndexFind, which moves back from a match to the first one. */
    method FindFirst(element: Option, value: Option, ghost d: seq<int>) returns (current: nat)
      requires nodes.Length > 0 && (value.Some? ==> attr.Some?) && d == Diffs(attr, element, value, nodes[..])
      ensures current == FirstFound(d)
    {
      var first, last := 0, nodes.Length - 1;
      while last - first > 1
        invariant 0 <= first <= last < nodes.Length && FirstFound(d) == Bisected(d, first, last)
        decreases last - first
      {
        current := (first + last) / 2;
        var diff := FindDiff(attr, element, value, nodes[current]);
        assert diff == d[current];
        if diff == 0 {
          current := MoveBack(element, value, d, current);
          return;
        } else if diff < 0 {
          last := current;
        } else {
          first := current;
        }
      }
      current := ScanLast(element, value, d, first, last);
    }

    /** The loop of mxmlIndexFind over what the bisection leaves. */
    method ScanLast(element: Option, value: Option, ghost d: seq<int>, first: nat, last: nat) returns (current: nat)
      requires (value.Some? ==> attr.Some?) && d == Diffs(attr, element, value, nodes[..])
      requires first <= last < nodes.Length && last - first <= 1
      ensures current == Bisected(d, first, last)
    {
      current := first;
      while current <= last
        invariant first <= current <= last + 1 && forall k | first <= k < current :: d[k] != 0
      {
        assert FindDiff(attr, element, value, nodes[current]) == d[current];
        if FindDiff(attr, element, value, nodes[current]) == 0 {
          return;
        }
        current := current + 1;
      }
      current := nodes.Length;
    }

    /** mxmlIndexFind, in a search with the results d. */
    method FindMatch(element: Option, value: Option, ghost d: seq<int>) returns (r: TreeNode?)
      requires Valid() && Searches(element, value) && d == Diffs(attr, element, value, nodes[..])
      modifies this`curNode
      ensures Valid()
      ensures
        var i := old(Hit(d));
        r == (if i < nodes.Length then nodes[i] else null) && curNode == if i < nodes.Length then i + 1 else i
    {
      r := Find(element, value);
    }

    /** A reset, and mxmlIndexFind until it returns NULL. */
    method FindAll(element: Option, value: Option) returns (found: seq<TreeNode>)
      requires Valid() && Searches(element, value)
      modifies this`curNode
      ensures Valid() && found == Found(nodes[..], Diffs(attr, element, value, nodes[..]))
      ensures curNode == nodes.Length
    {
      ghost var s := nodes[..];
      ghost var d := Diffs(attr, element, value, s);
      ghost var f := FirstFound(d);
      var node := Reset();
      node := FindMatch(element, value, d);
      found := [];
      ghost var k := f;
      while node != null
        invariant Valid() && nodes[..] == s && Finding(found, s, d, f, k, node, curNode)
        decreases |d| - k
      {
        FoundNext(found, s, d, f, k, node, curNode);
        found := found + [node];
        node := FindMatch(element, value, d);
        k := k + 1;
      }
      FoundAll(found, s, d, k, curNode);
    }
  }

  lemma FoundAll(found: seq<TreeNode>, s: seq<TreeNode>, d: seq<int>, k: nat, cur: nat)
    requires Finding(found, s, d, FirstFound(d), k, null, cur)
    ensures |d| == |s| && found == Found(s, d) && cur == |d|
  {
  }

  /** The matches from the first one up to k have been found, and `node` is the one at k. */
  ghost predicate Finding(found: seq<TreeNode>, s: seq<TreeNode>, d: seq<int>, f: nat, k: nat, node: TreeNode?,
                          cur: nat)
  {
    && |d| == |s| && f <= k <= |d| && found == s[f..k] && RunEnd(d, f) == RunEnd(d, k)
    && if k < |d| && d[k] == 0 then node == s[k] && cur == k + 1 else node == null && cur == |d|
  }

  lemma FoundNext(found: seq<TreeNode>, s: seq<TreeNode>, d: seq<int>, f: nat, k: nat, node: TreeNode, cur: nat)
    requires Finding(found, s, d, f, k, node, cur)
    ensures
      var more := k + 1 < |d| && d[k + 1] == 0;
      && k < |d| && cur == k + 1
      && Finding(found + [node], s, d, f, k + 1, if more then s[k + 1] else null, if more then k + 2 else |d|)
  {
  }

  /** What is searched: the name, if one is given, and the value, if one is given. */
  predicate Wanted(attr: Option, element: Option, value: Option, n: TreeNode)
  {
    && (element.Some? ==> n.name == element.value)
    && (value.Some? ==> attr.Some? && GetAttr(n.attrs, attr.value) == value)
  }

  function Filter(attr: Option, element: Option, value: Option, nodes: seq<TreeNode>): seq<TreeNode>
  {
    if nodes == [] then [] else
      (if Wanted(attr, element, value, nodes[0]) then [nodes[0]] else []) + Filter(attr, element, value, nodes[1..])
  }

  /** The comparison of mxmlIndexFind finds just the wanted nodes. */
  lemma FindDiffIsWanted(attr: Option, element: Option, value: Option, n: TreeNode)
    requires Indexed(attr, n) && (value.Some? ==> attr.Some?)
    ensures FindDiff(attr, element, value, n) == 0 <==> Wanted(attr, element, value, n)
  {
    if element.Some? { StrCmpOrder(element.value, n.name, []); }
    if value.Some? { StrCmpOrder(value.value, Value(attr.value, n), []); }
  }

  lemma {:induction false} ScannedIsFilter(attr: Option, element: Option, value: Option, nodes: seq<TreeNode>)
    requires (value.Some? ==> attr.Some?) && forall n | n in nodes :: Indexed(attr, n)
    ensures Scanned(nodes, Diffs(attr, element, value, nodes)) == Filter(attr, element, value, nodes)
  {
    if nodes != [] {
      FindDiffIsWanted(attr, element, value, nodes[0]);
      assert Diffs(attr, element, value, nodes)[1..] == Diffs(attr, element, value, nodes[1..]);
      ScannedIsFilter(attr, element, value, nodes[1..]);
    }
  }

  /** Repeated finds after a reset return the wanted nodes of the index, in its order. */
  method Lookup(ind: Index, element: Option, value: Option) returns (found: seq<TreeNode>)
    requires ind.Valid() && ind.Searches(element, value)
    requires element.Some? || ind.nodes.Length <= 2 || ValuesSorted(ind.attr.value, ind.nodes[..])
    modifies ind`curNode
    ensures ind.Valid() && found == Filter(ind.attr, element, value, ind.nodes[..])
  {
    ScannedIsFilter(ind.attr, element, value, ind.nodes[..]);
    found := ind.FindAll(element, value);
    if element.Some? {
      ElementSearch(ind.attr, element, value, ind.nodes[..]);
    } else {
      ValuesSearch(ind.attr.value, value.value, ind.nodes[..]);
    }
  }

  // ---------- building the index ----------

  /** The nodes that match, in the order of the list. */
  function Chosen(list: seq<TreeNode>, element: Option, attr: Option): seq<TreeNode>
  {
    if list == [] then [] else
      var (front, last) := (list[..|list| - 1], list[|list| - 1]);
      Chosen(front, element, attr) + if Matches(last, element, attr, None) then [last] else []
  }

  lemma {:induction false} ChosenNone(list: seq<TreeNode>, from: nat, to: nat, element: Option, attr: Option)
    requires from <= to <= |list| && forall j | from <= j < to :: !Matches(list[j], element, attr, None)
    ensures Chosen(list[..to], element, attr) == Chosen(list[..from], element, attr)
  {
    if from < to {
      assert list[..to][..to - 1] == list[..to - 1];
      ChosenNone(list, from, to - 1, element, attr);
    }
  }

  /** What mxmlIndexNew collects from a node at an index: the matching elements behind it, and
      without a name and an attribute the node itself. */
  ghost function Collected(all: seq<TreeNode>, i: nat, element: Option, attr: Option): seq<TreeNode>
    requires i < |all|
  {
    (if element.None? && attr.None? then [all[i]] else []) + Chosen(all[i + 1..], element, attr)
  }

  /** The search goes from one chosen node to the next. */
  lemma ChosenNext(all: seq<TreeNode>, from: nat, i: nat, element: Option, attr: Option)
    requires from <= i <= |all|
    ensures var at := FirstMatch(all, i, element, attr, None);
      i <= at <= |all| && Chosen(all[from..at], element, attr) == Chosen(all[from..i], element, attr)
  {
    FirstMatchIs(all, i, element, attr, None);
    var at, list := FirstMatch(all, i, element, attr, None), all[from..];
    assert all[from..i] == list[..i - from] && all[from..at] == list[..at - from];
    ChosenNone(list, i - from, at - from, element, attr);
  }

  lemma ChosenMatch(all: seq<TreeNode>, from: nat, at: nat, element: Option, attr: Option)
    requires from <= at < |all| && Matches(all[at], element, attr, None)
    ensures Chosen(all[from..at + 1], element, attr) == Chosen(all[from..at], element, attr) + [all[at]]
  {
    assert all[from..at + 1][..at - from] == all[from..at];
  }

  /** The nodes up to an index have been searched, and `current` is the match there. */
  ghost predicate Searched(found: seq<TreeNode>, first: seq<TreeNode>, all: seq<TreeNode>, from: nat, at: nat,
                           current: TreeNode?, element: Option, attr: Option)
  {
    && from <= at <= |all| && found == first + Chosen(all[from..at], element, attr) && current == At(all, at)
    && (current != null ==> Matches(current, element, attr, None))
  }

  lemma SearchedNext(found: seq<TreeNode>, first: seq<TreeNode>, all: seq<TreeNode>, from: nat, at: nat,
                     current: TreeNode, element: Option, attr: Option) returns (next: nat)
    requires Searched(found, first, all, from, at, current, element, attr)
    ensures at < |all| && all[at] == current && at < next <= |all|
    ensures next == FirstMatch(all, at + 1, element, attr, None)
    ensures Searched(found + [current], first, all, from, next, At(all, next), element, attr)
  {
    next := FirstMatch(all, at + 1, element, attr, None);
    ChosenMatch(all, from, at, element, attr);
    ChosenNext(all, from, at + 1, element, attr);
    FirstMatchIs(all, at + 1, element, attr, None);
  }

  lemma SearchedFirst(first: seq<TreeNode>, all: seq<TreeNode>, from: nat, element: Option, attr: Option)
    returns (at: nat)
    requires from <= |all|
    ensures at == FirstMatch(all, from, element, attr, None)
    ensures Searched(first, first, all, from, at, At(all, at), element, attr)
  {
    at := FirstMatch(all, from, element, attr, None);
    assert all[from..from] == [];
    ChosenNext(all, from, from, element, attr);
    FirstMatchIs(all, from, element, attr, None);
  }

  lemma SearchedAll(found: seq<TreeNode>, first: seq<TreeNode>, all: seq<TreeNode>, from: nat, at: nat,
                    element: Option, attr: Option)
    requires Searched(found, first, all, from, at, null, element, attr)
    ensures found == first + Chosen(all[from..], element, attr)
  {
    assert all[from..at] == all[from..];
  }

  /** The next node of the loop of mxmlIndexNew. */
  method NextChosen(current: TreeNode, node: TreeNode, element: Option, attr: Option,
                    ghost all: seq<TreeNode>, ghost i: nat, ghost tree: TreeNode, ghost ns: set<TreeNode>)
    returns (r: TreeNode?)
    requires Ground(all, tree, node, ns) && i < |all| && all[i] == current
    ensures Ground(all, tree, node, ns) && r == At(all, FirstMatch(all, i + 1, element, attr, None))
  {
    GroundMember(all, tree, node, i, ns);
    r := FindElement(current, node, element, attr, None, Descend, all, i, tree, ns);
  }

  lemma GroundMember(all: seq<TreeNode>, tree: TreeNode, node: TreeNode, i: nat, ns: set<TreeNode>)
    requires Ground(all, tree, node, ns) && i < |all|
    ensures all[i] in ns
  {
    BelowTop(tree, i, all[i], ns);
  }

  /** The loop of mxmlIndexNew: the nodes in document order. */
  method Collect(node: TreeNode, element: Option, attr: Option, ghost all: seq<TreeNode>, ghost i: nat,
                 ghost tree: TreeNode, ghost ns: set<TreeNode>)
    returns (found: seq<TreeNode>)
    requires Ground(all, tree, node, ns) && i < |all| && all[i] == node
    ensures found == Collected(all, i, element, attr)
  {
    found := [];
    if element.None? && attr.None? {
      found := [node];
    }
    ghost var first := found;
    ghost var at := SearchedFirst(first, all, i + 1, element, attr);
    var current := NextChosen(node, node, element, attr, all, i, tree, ns);
    while current != null
      invariant Ground(all, tree, node, ns) && Searched(found, first, all, i + 1, at, current, element, attr)
      decreases |all| - at
    {
      ghost var next := SearchedNext(found, first, all, i + 1, at, current, element, attr);
      found := found + [current];
      current := NextChosen(current, node, element, attr, all, at, tree, ns);
      at := next;
    }
    SearchedAll(found, first, all, i + 1, at, element, attr);
  }

  /** The end of mxmlIndexNew: the nodes are sorted. */
  method SortedIndex(found: seq<TreeNode>, attr: Option) returns (ind: Index)
    requires forall n | n in found :: Indexed(attr, n)
    ensures ind.Valid() && ind.curNode == 0 && ind.attr == attr && fresh(ind) && fresh(ind.nodes)
    ensures multiset(ind.nodes[..]) == multiset(found)
  {
    var a := new TreeNode[|found|](i requires 0 <= i < |found| => found[i]);
    assert a[..] == found;
    if a.Length > 1 {
      IndexSort(attr, a, 0, a.Length - 1);
      assert a[0..a.Length] == a[..];
      PermutedMembers(found, a[..], 0, a.Length);
    }
    forall n | n in a[..] ensures Indexed(attr, n) {
      assert n in multiset(a[..]);
      assert n in found;
    }
    ind := new Index(attr, a);
  }

  /** mxmlIndexNew: the matching nodes, sorted. The index has the nodes below `node`; but if it
      is childless and no root, those that follow it in the whole tree. */
  method New(node: TreeNode, element: Option, attr: Option, ghost tree: TreeNode, ghost ns: set<TreeNode>)
    returns (ind: Index)
    requires Valid(ns) && tree in ns && Ground(Preorder(tree, ns), tree, node, ns)
    requires element.None? && attr.None? ==> node.element
    ensures ind.Valid() && ind.curNode == 0 && ind.attr == attr && fresh(ind) && fresh(ind.nodes)
    ensures multiset(ind.nodes[..]) == old(multiset(Collected(Preorder(tree, ns), Pos(tree, node, ns), element, attr)))
    ensures InKeyOrder(attr, ind.nodes[..])
  {
    ghost var all, i := Preorder(tree, ns), Pos(tree, node, ns);
    PosIsIndex(tree, node, ns);
    var found := Collect(node, element, attr, all, i, tree, ns);
    CollectedIndexed(all, i, element, attr);
    ind := SortedIndex(found, attr);
    SortedInKeyOrder(attr, ind.nodes[..]);
  }

  lemma CollectedIndexed(all: seq<TreeNode>, i: nat, element: Option, attr: Option)
    requires i < |all|
    ensures forall n | n in Collected(all, i, element, attr) :: Indexed(attr, n)
  {
    ChosenIndexed(all[i + 1..], element, attr);
  }

  lemma {:induction false} ChosenIndexed(list: seq<TreeNode>, element: Option, attr: Option)
    ensures forall n | n in Chosen(list, element, attr) :: Indexed(attr, n)
  {
    if list != [] { ChosenIndexed(list[..|list| - 1], element, attr); }
  }
}
