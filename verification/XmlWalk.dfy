/** Mini-XML's walk through a tree without a stack, and the search for elements. */
module XmlWalk {
  import opened Sequences
  import opened XmlText
  import opened XmlTree

  /** How many nodes the children before one of them have. */
  ghost function Offset(p: TreeNode, k: nat, ns: set<TreeNode>): int
    requires Valid(ns) && p in ns && k <= |p.kids|
    reads ns
  {
    |PreorderAll(p, 0, ns)| - |PreorderAll(p, k, ns)|
  }

  /** The trees at the children of a node follow each other. */
  lemma {:induction false} OffsetIs(p: TreeNode, k: nat, ns: set<TreeNode>)
    requires Valid(ns) && p in ns && k <= |p.kids|
    ensures Offset(p, k, ns) >= 0 && PreorderAll(p, 0, ns)[Offset(p, k, ns)..] == PreorderAll(p, k, ns)
  {
    if k > 0 {
      OffsetIs(p, k - 1, ns);
      assert p.kids[k - 1] in p.kids;
      Behind(PreorderAll(p, 0, ns), Offset(p, k - 1, ns), Preorder(p.kids[k - 1], ns), PreorderAll(p, k, ns));
    }
  }

  lemma Behind<T>(all: seq<T>, o: nat, first: seq<T>, rest: seq<T>)
    requires o <= |all| && all[o..] == first + rest
    ensures o + |first| <= |all| && all[o + |first|..] == rest && |all| - |rest| == o + |first|
  {
    assert |all[o..]| == |all| - o;
    assert all[o..][|first|..] == all[o + |first|..];
  }

  /** The tree at n is the part of the tree at top that starts at an index. */
  ghost predicate Sits(top: TreeNode, i: nat, n: TreeNode, ns: set<TreeNode>)
    requires Valid(ns) && top in ns && n in ns
    reads ns
  {
    var (all, part) := (Preorder(top, ns), Preorder(n, ns));
    i + |part| <= |all| && all[i..i + |part|] == part
  }

  lemma KidSits(top: TreeNode, i: nat, p: TreeNode, k: nat, ns: set<TreeNode>)
    requires Valid(ns) && top in ns && p in ns && k < |p.kids| && Sits(top, i, p, ns)
    ensures p.kids[k] in ns && Offset(p, k, ns) >= 0 && Sits(top, i + 1 + Offset(p, k, ns), p.kids[k], ns)
  {
    OffsetIs(p, k, ns);
    assert p.kids[k] in p.kids && NodeOk(p, ns);
    var all, part, kid, o := Preorder(top, ns), Preorder(p, ns), Preorder(p.kids[k], ns), Offset(p, k, ns);
    var list, rest := PreorderAll(p, 0, ns), PreorderAll(p, k + 1, ns);
    assert list[o..] == kid + rest && part == [p] + list;
    assert part[1 + o..] == list[o..];
    SliceStart(part, 1 + o, kid, rest);
    SliceWithin(all, i, part, 1 + o, kid);
  }

  lemma SliceStart<T>(s: seq<T>, o: nat, first: seq<T>, rest: seq<T>)
    requires o <= |s| && s[o..] == first + rest
    ensures o + |first| <= |s| && s[o..o + |first|] == first
  {
    assert |s[o..]| == |s| - o;
    forall k | 0 <= k < |first| ensures s[o..o + |first|][k] == first[k] {
      assert s[o..][k] == (first + rest)[k];
    }
  }

  lemma SliceWithin<T>(all: seq<T>, i: nat, part: seq<T>, o: nat, inner: seq<T>)
    requires i + |part| <= |all| && all[i..i + |part|] == part
    requires o + |inner| <= |part| && part[o..o + |inner|] == inner
    ensures all[i + o..i + o + |inner|] == inner
  {
    forall k | 0 <= k < |inner| ensures all[i + o..i + o + |inner|][k] == inner[k] {
      assert part[o..o + |inner|][k] == part[o + k] == all[i..i + |part|][o + k];
    }
  }

  /** The index of a node in the tree at top. */
  ghost function Pos(top: TreeNode, x: TreeNode, ns: set<TreeNode>): (i: nat)
    requires Valid(ns) && top in ns && x in Preorder(top, ns)
    reads ns
    ensures x in ns && Sits(top, i, x, ns) && i < |Preorder(top, ns)|
    decreases top.rank - x.rank
  {
    PreorderClosed(top, ns);
    if x == top then 0 else
      Inside(top, x, ns);
      assert NodeOk(x, ns) && x.rank < x.parent.rank;
      var k := IndexOf(x.parent.kids, x);
      var i := Pos(top, x.parent, ns);
      KidSits(top, i, x.parent, k, ns);
      i + 1 + Offset(x.parent, k, ns)
  }

  /** Positions add up along a path. */
  lemma {:induction false} PosThrough(top: TreeNode, n: TreeNode, x: TreeNode, ns: set<TreeNode>)
    requires Valid(ns) && top in ns && n in Preorder(top, ns) && n in ns && x in Preorder(n, ns)
    ensures x in Preorder(top, ns) && Pos(top, x, ns) == Pos(top, n, ns) + Pos(n, x, ns)
    decreases n.rank - x.rank
  {
    var i, all := Pos(top, n, ns), Preorder(top, ns);
    PreorderClosed(n, ns);
    PreorderClosed(top, ns);
    assert x in all[i..i + |Preorder(n, ns)|];
    if x != n {
      Inside(n, x, ns);
      assert NodeOk(x, ns) && x.rank < x.parent.rank;
      PosThrough(top, n, x.parent, ns);
    }
  }

  lemma KidPos(top: TreeNode, k: nat, ns: set<TreeNode>)
    requires Valid(ns) && top in ns && k < |top.kids|
    ensures top.kids[k] in Preorder(top, ns) && Pos(top, top.kids[k], ns) == 1 + Offset(top, k, ns)
  {
    PreorderClosed(top, ns);
    assert NodeOk(top, ns) && top.kids[k] in top.kids;
    assert top.kids[k].rank < top.rank;
  }

  /** A node of the tree is at its position only. */
  lemma {:induction false} IndexIsPos(top: TreeNode, i: nat, ns: set<TreeNode>)
    requires Valid(ns) && top in ns && i < |Preorder(top, ns)|
    ensures Preorder(top, ns)[i] in Preorder(top, ns) && Pos(top, Preorder(top, ns)[i], ns) == i
    decreases top.rank, 1, 0
  {
    if i > 0 { IndexInAll(top, 0, i - 1, ns); }
  }

  lemma {:induction false} IndexInAll(top: TreeNode, k: nat, j: nat, ns: set<TreeNode>)
    requires Valid(ns) && top in ns && k <= |top.kids| && j < |PreorderAll(top, k, ns)|
    ensures var x := PreorderAll(top, k, ns)[j]; x in Preorder(top, ns) && Pos(top, x, ns) == 1 + Offset(top, k, ns) + j
    decreases top.rank, 0, |top.kids| - k
  {
    var kid := top.kids[k];
    assert kid in top.kids && NodeOk(top, ns) && kid.rank < top.rank;
    if j < |Preorder(kid, ns)| {
      KidPos(top, k, ns);
      IndexIsPos(kid, j, ns);
      PosThrough(top, kid, Preorder(kid, ns)[j], ns);
    } else {
      IndexInAll(top, k + 1, j - |Preorder(kid, ns)|, ns);
    }
  }

  /** The walk meets every node once. */
  lemma PreorderDistinct(top: TreeNode, ns: set<TreeNode>)
    requires Valid(ns) && top in ns
    ensures AllDifferent(Preorder(top, ns))
  {
    forall i, j | 0 <= i < j < |Preorder(top, ns)| ensures Preorder(top, ns)[i] != Preorder(top, ns)[j] {
      IndexIsPos(top, i, ns);
      IndexIsPos(top, j, ns);
    }
  }

  // ---------- the walk ----------

  /** The node after the tree at a child, in the tree at top. */
  lemma AfterTree(top: TreeNode, p: TreeNode, k: nat, ns: set<TreeNode>)
    requires Valid(ns) && top in ns && p in Preorder(top, ns) && p in ns && k < |p.kids|
    ensures p.kids[k] in Preorder(top, ns)
    ensures var end := Pos(top, p.kids[k], ns) + |Preorder(p.kids[k], ns)|;
      if k + 1 < |p.kids| then p.kids[k + 1] in Preorder(top, ns) && Pos(top, p.kids[k + 1], ns) == end
      else Pos(top, p, ns) + |Preorder(p, ns)| == end
  {
    KidPos(p, k, ns);
    PosThrough(top, p, p.kids[k], ns);
    assert PreorderAll(p, k, ns) == Preorder(p.kids[k], ns) + PreorderAll(p, k + 1, ns);
    if k + 1 < |p.kids| {
      KidPos(p, k + 1, ns);
      PosThrough(top, p, p.kids[k + 1], ns);
    } else {
      assert PreorderAll(p, k + 1, ns) == [];
    }
  }

  lemma {:induction false} AllShrinks(p: TreeNode, i: nat, j: nat, ns: set<TreeNode>)
    requires Valid(ns) && p in ns && i <= j <= |p.kids|
    ensures |PreorderAll(p, j, ns)| <= |PreorderAll(p, i, ns)|
    decreases j - i
  {
    if i < j { AllShrinks(p, i + 1, j, ns); }
  }

  /** Where what is below a child stands in the tree at its parent. */
  lemma BelowKid(p: TreeNode, i: nat, x: TreeNode, ns: set<TreeNode>)
    requires Valid(ns) && p in ns && i < |p.kids| && p.kids[i] in ns && x in Preorder(p.kids[i], ns)
    ensures x in Preorder(p, ns)
    ensures Offset(p, i, ns) < Pos(p, x, ns) <= |PreorderAll(p, 0, ns)| - |PreorderAll(p, i + 1, ns)|
  {
    KidPos(p, i, ns);
    PosThrough(p, p.kids[i], x, ns);
  }

  /** Document order: a node stands before the nodes below it. */
  lemma BelowComesLater(top: TreeNode, p: TreeNode, i: nat, x: TreeNode, ns: set<TreeNode>)
    requires Valid(ns) && top in ns && p in Preorder(top, ns) && p in ns && i < |p.kids|
    requires p.kids[i] in ns && x in Preorder(p.kids[i], ns)
    ensures x in Preorder(top, ns) && Pos(top, p, ns) < Pos(top, x, ns)
  {
    OffsetIs(p, i, ns);
    BelowKid(p, i, x, ns);
    PosThrough(top, p, x, ns);
  }

  /** What is below an earlier child stands before what is below a later one. */
  lemma EarlierComesFirst(top: TreeNode, p: TreeNode, i: nat, x: TreeNode, j: nat, y: TreeNode, ns: set<TreeNode>)
    requires Valid(ns) && top in ns && p in Preorder(top, ns) && p in ns && i < j < |p.kids|
    requires p.kids[i] in ns && x in Preorder(p.kids[i], ns) && p.kids[j] in ns && y in Preorder(p.kids[j], ns)
    ensures x in Preorder(top, ns) && y in Preorder(top, ns) && Pos(top, x, ns) < Pos(top, y, ns)
  {
    BelowKid(p, i, x, ns);
    BelowKid(p, j, y, ns);
    AllShrinks(p, i + 1, j, ns);
    PosThrough(top, p, x, ns);
    PosThrough(top, p, y, ns);
  }

  /** A node has its neighbours among the children of its parent. */
  lemma Neighbours(n: TreeNode, ns: set<TreeNode>) returns (k: nat)
    requires Valid(ns) && n in ns && n.parent != null
    ensures n.parent in ns && k < |n.parent.kids| && n.parent.kids[k] == n
    ensures n.prev == At(n.parent.kids, k - 1) && n.next == At(n.parent.kids, k + 1)
  {
    assert NodeOk(n, ns) && NodeOk(n.parent, ns);
    k := IndexOf(n.parent.kids, n);
    assert Linked(n.parent, n.parent.kids, k);
  }

  /** What the walk comes to at an index: a node of the tree, or nothing after the last one. */
  ghost function NodeAt(top: TreeNode, i: nat, ns: set<TreeNode>): TreeNode?
    requires Valid(ns) && top in ns
    reads ns
  {
    if i < |Preorder(top, ns)| then Preorder(top, ns)[i] else null
  }

  /** The index after the tree at a node. */
  ghost function EndOf(tree: TreeNode, n: TreeNode, ns: set<TreeNode>): nat
    requires Valid(ns) && tree in ns && n in ns && n in Preorder(tree, ns)
    reads ns
  {
    Pos(tree, n, ns) + |Preorder(n, ns)|
  }

  lemma PosIsIndex(top: TreeNode, n: TreeNode, ns: set<TreeNode>)
    requires Valid(ns) && top in ns && n in Preorder(top, ns)
    ensures NodeAt(top, Pos(top, n, ns), ns) == n
  {
    var i := Pos(top, n, ns);
    assert Preorder(n, ns)[0] == n;
    assert Preorder(top, ns)[i..i + |Preorder(n, ns)|][0] == Preorder(top, ns)[i];
  }

  /** The walk from n never meets top as a parent. */
  ghost predicate Free(n: TreeNode, top: TreeNode, ns: set<TreeNode>)
    requires Valid(ns) && top in ns
    reads ns, n
  {
    n.parent == null || n.parent !in Preorder(top, ns)
  }

  /** The walk stays below top. */
  ghost predicate Confined(tree: TreeNode, n: TreeNode, top: TreeNode) { tree == top && n != top }

  /** Where the walk stays: in the tree at top if it is below top; otherwise, unless it goes
      down, in the whole tree, because it never comes to top again. */
  ghost predicate Within(tree: TreeNode, n: TreeNode, top: TreeNode, down: bool, ns: set<TreeNode>)
    requires Valid(ns) && top in ns
    reads ns, n
  {
    && tree in ns && n in ns && n in Preorder(tree, ns)
    && (down || Confined(tree, n, top) || (tree.parent == null && Free(n, top, ns)))
  }

  /** A node that is not below top is free of it, and so is top itself. */
  lemma OutsideFree(n: TreeNode, top: TreeNode, ns: set<TreeNode>)
    requires Valid(ns) && top in ns && n in ns && (n == top || n !in Preorder(top, ns))
    ensures Free(n, top, ns)
    ensures n.parent != null ==> n.parent in ns && n.parent != top && n.parent !in Preorder(top, ns)
  {
    PreorderClosed(top, ns);
    assert NodeOk(n, ns);
    if n.parent != null { assert n in n.parent.kids && n.rank < n.parent.rank; }
  }

  /** mxmlWalkNext: the next node in document order; without descending, the next one that is
      not below the node. */
  method WalkNext(start: TreeNode, top: TreeNode, descend: bool, ghost tree: TreeNode, ghost ns: set<TreeNode>)
    returns (r: TreeNode?)
    requires Valid(ns) && top in ns && Within(tree, start, top, start.child != null && descend, ns)
    ensures r == NodeAt(tree, if descend then Pos(tree, start, ns) + 1 else EndOf(tree, start, ns), ns)
  {
    if start.child != null && descend {
      FirstChild(tree, start, ns);
      return start.child;
    }
    ghost var end := EndOf(tree, start, ns);
    if descend { LeafEnd(tree, start, ns); }
    assert end == if descend then Pos(tree, start, ns) + 1 else EndOf(tree, start, ns);
    if start.next != null {
      RootAlone(tree, start, top, ns);
      NextSibling(tree, start, end, ns);
      return start.next;
    } else if start.parent != null && start.parent != top {
      RootAlone(tree, start, top, ns);
      r := Climb(start, top, end, tree, ns);
    } else {
      r := null;
      NothingLeft(tree, start, top, end, ns);
    }
  }

  /** A last child whose parent is top, or a root, has nothing behind it. */
  lemma NothingLeft(tree: TreeNode, n: TreeNode, top: TreeNode, end: nat, ns: set<TreeNode>)
    requires Valid(ns) && top in ns && Within(tree, n, top, false, ns) && end == EndOf(tree, n, ns)
    requires n.next == null && (n.parent == null || n.parent == top)
    ensures NodeAt(tree, end, ns) == null
  {
    PreorderClosed(top, ns);
    if n == tree {
      PosIsIndex(tree, tree, ns);
    } else {
      LastSibling(tree, n, end, ns);
    }
  }

  lemma LeafEnd(tree: TreeNode, n: TreeNode, ns: set<TreeNode>)
    requires Valid(ns) && tree in ns && n in ns && n in Preorder(tree, ns) && n.child == null
    ensures EndOf(tree, n, ns) == Pos(tree, n, ns) + 1
  {
    assert NodeOk(n, ns) && n.kids == [] && PreorderAll(n, 0, ns) == [];
  }

  /** A tree that the walk does not leave has no neighbours to walk to. */
  lemma RootAlone(tree: TreeNode, n: TreeNode, top: TreeNode, ns: set<TreeNode>)
    requires Valid(ns) && tree in ns && n in ns && (tree.parent == null || (tree == top && n != top))
    ensures n.next != null || n.parent != null ==> n != tree
  {
    assert NodeOk(n, ns);
  }

  lemma FirstChild(tree: TreeNode, n: TreeNode, ns: set<TreeNode>)
    requires Valid(ns) && tree in ns && n in ns && n in Preorder(tree, ns) && n.child != null
    ensures n.child in ns && n.child == NodeAt(tree, Pos(tree, n, ns) + 1, ns)
  {
    assert NodeOk(n, ns);
    KidPos(n, 0, ns);
    PosThrough(tree, n, n.kids[0], ns);
    PosIsIndex(tree, n.kids[0], ns);
  }

  /** The sibling after a node is the next node that is not below it. */
  lemma NextSibling(tree: TreeNode, n: TreeNode, end: nat, ns: set<TreeNode>)
    requires Valid(ns) && tree in ns && n in ns && n in Preorder(tree, ns) && n.next != null && n != tree
    requires end == EndOf(tree, n, ns)
    ensures n.next in ns && n.next == NodeAt(tree, end, ns)
  {
    Inside(tree, n, ns);
    var k := Neighbours(n, ns);
    assert k + 1 < |n.parent.kids| && n.parent.kids[k + 1] == n.next;
    AfterTree(tree, n.parent, k, ns);
    assert end == Pos(tree, n.next, ns);
    PosIsIndex(tree, n.next, ns);
  }

  /** The tree at a last child ends where that of its parent ends. */
  lemma LastSibling(tree: TreeNode, n: TreeNode, end: nat, ns: set<TreeNode>)
    requires Valid(ns) && tree in ns && n in ns && n in Preorder(tree, ns) && n.next == null && n != tree
    requires end == EndOf(tree, n, ns)
    ensures n.parent != null && n.parent in ns && n.parent in Preorder(tree, ns) && end == EndOf(tree, n.parent, ns)
    ensures n.rank < n.parent.rank <= tree.rank && (n.parent == tree ==> NodeAt(tree, end, ns) == null)
  {
    Inside(tree, n, ns);
    PreorderClosed(tree, ns);
    assert NodeOk(n, ns);
    var k := Neighbours(n, ns);
    AfterTree(tree, n.parent, k, ns);
  }

  /** The loop of mxmlWalkNext that looks for the next sibling of an ancestor. */
  method Climb(start: TreeNode, top: TreeNode, ghost end: nat, ghost tree: TreeNode, ghost ns: set<TreeNode>)
    returns (r: TreeNode?)
    requires Valid(ns) && start in ns && top in ns && tree in ns && start in Preorder(tree, ns) && start != tree
    requires start.next == null && start.parent != null && start.parent != top && end == EndOf(tree, start, ns)
    requires tree == top || (tree.parent == null && Free(start, top, ns))
    ensures r == NodeAt(tree, end, ns)
  {
    LastSibling(tree, start, end, ns);
    var node := start.parent;
    while node.next == null
      invariant node in ns && node in Preorder(tree, ns) && end == EndOf(tree, node, ns)
      invariant start.rank < node.rank <= tree.rank
      invariant Confined(tree, node, top) || (tree.parent == null && node !in Preorder(top, ns))
      invariant node == tree ==> NodeAt(tree, end, ns) == null
      decreases tree.rank - node.rank
    {
      if node != tree { LastSibling(tree, node, end, ns); }
      if !Confined(tree, node, top) { OutsideFree(node, top, ns); }
      if node.parent == top || node.parent == null {
        return null;
      } else {
        RootAlone(tree, node, top, ns);
        node := node.parent;
      }
    }
    RootAlone(tree, node, top, ns);
    NextSibling(tree, node, end, ns);
    return node.next;
  }

  // ---------- backwards ----------

  /** A last child ends where its parent ends. */
  lemma LastChildEnd(tree: TreeNode, n: TreeNode, ns: set<TreeNode>)
    requires Valid(ns) && tree in ns && n in ns && n in Preorder(tree, ns) && n.lastChild != null
    ensures n.lastChild in ns && n.lastChild in Preorder(tree, ns) && n.lastChild.rank < n.rank
    ensures EndOf(tree, n.lastChild, ns) == EndOf(tree, n, ns)
  {
    assert NodeOk(n, ns);
    AfterTree(tree, n, |n.kids| - 1, ns);
    assert n.kids[|n.kids| - 1] in n.kids;
  }

  /** The sibling before a node ends where the node starts; a first child follows its parent. */
  lemma StartOf(tree: TreeNode, n: TreeNode, ns: set<TreeNode>)
    requires Valid(ns) && tree in ns && n in ns && n in Preorder(tree, ns) && n != tree
    ensures n.parent != null && n.parent in ns && n.parent in Preorder(tree, ns)
    ensures n.prev != null ==>
      n.prev in ns && n.prev in Preorder(tree, ns) && EndOf(tree, n.prev, ns) == Pos(tree, n, ns)
    ensures n.prev == null ==> Pos(tree, n, ns) == Pos(tree, n.parent, ns) + 1
  {
    Inside(tree, n, ns);
    var k := Neighbours(n, ns);
    if k > 0 {
      AfterTree(tree, n.parent, k - 1, ns);
      assert n.prev in n.parent.kids && NodeOk(n.parent, ns);
    } else {
      KidPos(n.parent, 0, ns);
      PosThrough(tree, n.parent, n, ns);
    }
  }

  /** The node before an index; top itself does not count for a node below it. */
  ghost function NodeBefore(tree: TreeNode, i: nat, below: bool, ns: set<TreeNode>): TreeNode?
    requires Valid(ns) && tree in ns
    reads ns
  {
    if i > (if below then 1 else 0) then NodeAt(tree, i - 1, ns) else null
  }

  /** The child of n's parent before n; for a first child the parent, if that is not top. */
  ghost predicate StepBack(n: TreeNode, top: TreeNode, r: TreeNode?)
    reads n, n.parent
  {
    if n.parent == null then r == null else exists k | 0 <= k < |n.parent.kids| :: BackFrom(n.parent, k, n, top, r)
  }

  ghost predicate BackFrom(p: TreeNode, k: nat, n: TreeNode, top: TreeNode, r: TreeNode?)
    requires k < |p.kids|
    reads p
  {
    p.kids[k] == n && r == if k > 0 then p.kids[k - 1] else if p != top then p else null
  }

  lemma StepsBack(n: TreeNode, top: TreeNode, ns: set<TreeNode>)
    requires Valid(ns) && n in ns
    ensures StepBack(n, top, if n.prev != null then n.prev else if n.parent != top then n.parent else null)
  {
    assert NodeOk(n, ns);
    if n.parent != null {
      var k := Neighbours(n, ns);
      var r := if n.prev != null then n.prev else if n.parent != top then n.parent else null;
      assert BackFrom(n.parent, k, n, top, r);
    }
  }

  /** mxmlWalkPrev: the node before in document order, below top if the walk is there; without
      descending, the one before it on the same level or above. */
  method WalkPrev(node: TreeNode, top: TreeNode, descend: bool, ghost tree: TreeNode, ghost ns: set<TreeNode>)
    returns (r: TreeNode?)
    requires Valid(ns) && top in ns && Within(tree, node, top, false, ns)
    ensures descend ==> r == NodeBefore(tree, Pos(tree, node, ns), Confined(tree, node, top), ns)
    ensures !descend ==> StepBack(node, top, r)
  {
    StepsBack(node, top, ns);
    RootAlone(tree, node, top, ns);
    if node != tree { StartOf(tree, node, ns); }
    assert NodeOk(node, ns);
    if node.prev != null {
      if node.prev.lastChild != null && descend {
        r := LastBelow(node.prev, tree, ns);
      } else {
        r := node.prev;
      }
      LastIsBefore(tree, node, r, descend, ns);
    } else if node.parent != top {
      r := node.parent;
      if r != null { ParentIsBefore(tree, node, top, ns); }
    } else {
      r := null;
      PreorderClosed(top, ns);
      PosIsIndex(top, top, ns);
    }
  }

  /** A first child comes right behind its parent. */
  lemma ParentIsBefore(tree: TreeNode, n: TreeNode, top: TreeNode, ns: set<TreeNode>)
    requires Valid(ns) && tree in ns && n in ns && n in Preorder(tree, ns)
    requires n != tree && n.prev == null && n.parent != top
    ensures n.parent == NodeBefore(tree, Pos(tree, n, ns), Confined(tree, n, top), ns)
  {
    StartOf(tree, n, ns);
    PosIsIndex(tree, n.parent, ns);
    if tree == top { LaterThanTop(top, n.parent, ns); }
  }

  /** The loop of mxmlWalkPrev. */
  method LastBelow(start: TreeNode, ghost tree: TreeNode, ghost ns: set<TreeNode>) returns (r: TreeNode)
    requires Valid(ns) && start in ns && tree in ns && start in Preorder(tree, ns) && start.lastChild != null
    ensures r in ns && r in Preorder(tree, ns) && r.lastChild == null && EndOf(tree, r, ns) == EndOf(tree, start, ns)
  {
    LastChildEnd(tree, start, ns);
    r := start.lastChild;
    while r.lastChild != null
      invariant r in ns && r in Preorder(tree, ns) && EndOf(tree, r, ns) == EndOf(tree, start, ns)
      decreases r.rank
    {
      LastChildEnd(tree, r, ns);
      r := r.lastChild;
    }
  }

  lemma LaterThanTop(top: TreeNode, n: TreeNode, ns: set<TreeNode>)
    requires Valid(ns) && top in ns && n in ns && n in Preorder(top, ns) && n != top
    ensures Pos(top, n, ns) > 0
  {
    PosIsIndex(top, n, ns);
  }

  lemma LastIsBefore(top: TreeNode, n: TreeNode, r: TreeNode, descend: bool, ns: set<TreeNode>)
    requires Valid(ns) && top in ns && n in ns && n in Preorder(top, ns) && n != top && n.prev != null
    requires r in ns && r in Preorder(top, ns) && EndOf(top, r, ns) == Pos(top, n, ns)
    requires descend ==> r.lastChild == null
    ensures descend ==> forall below :: r == NodeBefore(top, Pos(top, n, ns), below, ns)
  {
    if descend {
      assert NodeOk(r, ns);
      LeafEnd(top, r, ns);
      PosIsIndex(top, r, ns);
      StartOf(top, n, ns);
      var k := Neighbours(n, ns);
      if r == top { AfterParent(top, n, ns); }
      LaterThanTop(top, r, ns);
    }
  }

  lemma AfterParent(top: TreeNode, n: TreeNode, ns: set<TreeNode>)
    requires Valid(ns) && top in ns && n in ns && n in Preorder(top, ns) && n != top
    ensures NodeOk(top, ns) && top.kids != []
  {
    PreorderAllClosed(top, 0, ns);
    assert NodeOk(top, ns) && n in PreorderAll(top, 0, ns);
  }

  /** mxmlWalkPrev undoes mxmlWalkNext between the nodes below top. */
  method NextThenPrev(node: TreeNode, top: TreeNode, ghost ns: set<TreeNode>) returns (next: TreeNode?, back: TreeNode?)
    requires Valid(ns) && node in ns && top in ns && node in Preorder(top, ns) && node != top
    ensures next != null ==> back == node
    ensures next == null <==> Pos(top, node, ns) + 1 == |Preorder(top, ns)|
  {
    back := null;
    next := WalkNext(node, top, true, top, ns);
    if next != null {
      NextPos(next, node, top, ns);
      back := WalkPrev(next, top, true, top, ns);
    }
  }

  lemma NextPos(next: TreeNode, node: TreeNode, top: TreeNode, ns: set<TreeNode>)
    requires Valid(ns) && node in ns && top in ns && node in Preorder(top, ns) && node != top
    requires next == NodeAt(top, Pos(top, node, ns) + 1, ns)
    ensures next in ns && next in Preorder(top, ns) && next != top
    ensures NodeBefore(top, Pos(top, next, ns), true, ns) == node
  {
    var i := Pos(top, node, ns);
    BelowTop(top, i + 1, next, ns);
    LaterThanTop(top, node, ns);
    PosIsIndex(top, node, ns);
  }

  // ---------- whole walks ----------

  /** A walk from top stays below top if top has a child, or is a root. */
  ghost predicate Startable(top: TreeNode) reads top { top.child != null || top.parent == null }

  /** The nodes, in document order, among which a walk from top stays: those of the tree at top;
      but if top is childless and no root, those of the whole tree. */
  ghost predicate Ground(all: seq<TreeNode>, tree: TreeNode, top: TreeNode, ns: set<TreeNode>)
    reads ns, top
  {
    && Valid(ns) && top in ns && tree in ns && top in Preorder(tree, ns) && all == Preorder(tree, ns)
    && if Startable(top) then tree == top else tree.parent == null
  }

  lemma BelowTop(top: TreeNode, i: nat, n: TreeNode, ns: set<TreeNode>)
    requires Valid(ns) && top in ns && NodeAt(top, i, ns) == n
    ensures n in ns && n in Preorder(top, ns) && Pos(top, n, ns) == i < |Preorder(top, ns)| && (n == top <==> i == 0)
  {
    PreorderClosed(top, ns);
    IndexIsPos(top, i, ns);
    PosIsIndex(top, top, ns);
  }

  /** One step of a walk that started at top. */
  method Step(node: TreeNode, top: TreeNode, ghost tree: TreeNode, ghost all: seq<TreeNode>, ghost i: nat,
              ghost ns: set<TreeNode>)
    returns (r: TreeNode?)
    requires Ground(all, tree, top, ns) && i < |all| && all[i] == node
    ensures Ground(all, tree, top, ns) && r == At(all, i + 1)
  {
    OnGround(node, top, tree, all, i, ns);
    r := WalkNext(node, top, true, tree, ns);
  }

  lemma OnGround(node: TreeNode, top: TreeNode, tree: TreeNode, all: seq<TreeNode>, i: nat, ns: set<TreeNode>)
    requires Ground(all, tree, top, ns) && i < |all| && all[i] == node
    ensures Within(tree, node, top, node.child != null, ns)
    ensures NodeAt(tree, Pos(tree, node, ns) + 1, ns) == At(all, i + 1)
  {
    BelowTop(tree, i, node, ns);
    if !Startable(top) || node == top { NotUnder(node, top, ns); }
  }

  /** A childless node is nobody's parent, and no node is its own descendant. */
  lemma NotUnder(n: TreeNode, top: TreeNode, ns: set<TreeNode>)
    requires Valid(ns) && top in ns && n in ns && (n == top || top.child == null)
    ensures Free(n, top, ns)
  {
    if n == top {
      OutsideFree(n, top, ns);
    } else {
      assert NodeOk(n, ns) && NodeOk(top, ns) && PreorderAll(top, 0, ns) == [];
    }
  }

  /** Stepping with mxmlWalkNext from top visits all nodes that follow top in the tree where the
      walk stays, each once, in document order, and ends. */
  method Walk(top: TreeNode, ghost tree: TreeNode, ghost all: seq<TreeNode>, ghost ns: set<TreeNode>)
    returns (visited: seq<TreeNode>)
    requires Ground(all, tree, top, ns)
    ensures AllDifferent(visited) && all[..Pos(tree, top, ns) + 1] + visited == all
  {
    ghost var start := Pos(tree, top, ns);
    PosIsIndex(tree, top, ns);
    PreorderDistinct(tree, ns);
    var node := Step(top, top, tree, all, start, ns);
    visited := Visit(node, top, tree, all, start + 1, ns);
    SeenAll(visited, all, start + 1, |all|);
  }

  /** The loop of a walk, from its first step on. */
  method Visit(first: TreeNode?, top: TreeNode, ghost tree: TreeNode, ghost all: seq<TreeNode>, ghost from: nat,
               ghost ns: set<TreeNode>)
    returns (visited: seq<TreeNode>)
    requires Ground(all, tree, top, ns) && from <= |all| && first == At(all, from)
    ensures Seen(visited, all, from, |all|, null)
  {
    visited := [];
    ghost var i := from;
    var node := first;
    while node != null
      invariant Ground(all, tree, top, ns) && Seen(visited, all, from, i, node)
      decreases |all| - i
    {
      var n: TreeNode := node;
      SeenNext(visited, all, from, i, n);
      visited := visited + [n];
      node := Step(n, top, tree, all, i, ns);
      i := i + 1;
    }
  }

  /** The nodes up to an index have been visited, and `next` is the one there. */
  ghost predicate Seen(visited: seq<TreeNode>, all: seq<TreeNode>, from: nat, to: nat, next: TreeNode?)
  {
    from <= to <= |all| && visited == all[from..to] && next == At(all, to)
  }

  lemma SeenNext(visited: seq<TreeNode>, all: seq<TreeNode>, from: nat, to: nat, next: TreeNode)
    requires Seen(visited, all, from, to, next)
    ensures to < |all| && all[to] == next && Seen(visited + [next], all, from, to + 1, At(all, to + 1))
  {
  }

  lemma SeenAll(visited: seq<TreeNode>, all: seq<TreeNode>, from: nat, to: nat)
    requires Seen(visited, all, from, to, null) && AllDifferent(all)
    ensures AllDifferent(visited) && all[..from] + visited == all
  {
  }

  /** The walk visits the strict descendants of top and nothing else, exactly if top has a
      child, is a root, or nothing follows it. */
  lemma WalkStaysBelow(top: TreeNode, tree: TreeNode, all: seq<TreeNode>, visited: seq<TreeNode>, ns: set<TreeNode>)
    requires Ground(all, tree, top, ns) && all[..Pos(tree, top, ns) + 1] + visited == all
    ensures visited == Preorder(top, ns)[1..] <==> Startable(top) || Pos(tree, top, ns) + 1 == |all|
  {
    var before := all[..Pos(tree, top, ns) + 1];
    PosIsIndex(top, top, ns);
    assert visited == all[|before|..];
    if !Startable(top) {
      LeafEnd(tree, top, ns);
      assert |Preorder(top, ns)| == 1;
    }
  }

  /** It does leave the tree: of a root with two childless children, the walk from the first
      child visits the second. */
  method WalkLeaves(root: TreeNode, a: TreeNode, b: TreeNode, ghost ns: set<TreeNode>) returns (visited: seq<TreeNode>)
    requires Valid(ns) && root in ns && root.parent == null && root.kids == [a, b]
    requires a in ns && b in ns && a.kids == b.kids == []
    ensures visited == [b] && Preorder(a, ns)[1..] == []
  {
    Small(root, a, b, ns);
    visited := Walk(a, root, Preorder(root, ns), ns);
    assert [root, a, b][..2] + visited == [root, a] + visited;
  }

  lemma Alone(n: TreeNode, ns: set<TreeNode>)
    requires Valid(ns) && n in ns && n.kids == []
    ensures Preorder(n, ns) == [n]
  {
    assert PreorderAll(n, 0, ns) == [];
  }

  lemma Small(root: TreeNode, a: TreeNode, b: TreeNode, ns: set<TreeNode>)
    requires Valid(ns) && root in ns && root.parent == null && root.kids == [a, b]
    requires a in ns && b in ns && a.kids == b.kids == []
    ensures Preorder(root, ns) == [root, a, b] && Preorder(a, ns) == [a]
    ensures Ground([root, a, b], root, a, ns) && Pos(root, a, ns) == 1
  {
    assert NodeOk(root, ns) && NodeOk(a, ns) && a in root.kids;
    Alone(a, ns);
    Alone(b, ns);
    assert PreorderAll(root, 2, ns) == [] && PreorderAll(root, 1, ns) == [b] + []
        && PreorderAll(root, 0, ns) == [a] + [b];
    IndexIsPos(root, 1, ns);
  }

  // ---------- searches ----------

  /** MXML_DESCEND, MXML_NO_DESCEND and MXML_DESCEND_FIRST */
  datatype Mode = Descend | NoDescend | DescendFirst

  /** A node and the siblings that follow it. */
  ghost function SiblingsFrom(n: TreeNode?, ns: set<TreeNode>): seq<TreeNode>
    requires Valid(ns) && (n != null ==> n in ns)
    reads ns
  {
    if n == null then [] else if n.parent == null then [n] else
      assert NodeOk(n, ns);
      n.parent.kids[IndexOf(n.parent.kids, n)..]
  }

  /** The nodes that mxmlFindElement looks at when it starts at all[i] are those behind it in
      `all`: those of a walk, or one node, which a step goes to, and its later siblings. */
  ghost predicate Candidates(all: seq<TreeNode>, i: nat, start: TreeNode, top: TreeNode, mode: Mode, tree: TreeNode,
                             ns: set<TreeNode>)
    reads ns, start, top
  {
    && Valid(ns) && top in ns && i < |all| && all[i] == start && tree in ns && start in ns
    && if mode.Descend? then Ground(all, tree, top, ns)
       else
         && Within(tree, start, top, start.child != null && mode.DescendFirst?, ns)
         && all[i + 1..] == SiblingsFrom(SteppedTo(tree, start, mode, ns), ns)
  }

  /** Where one step goes. */
  ghost function SteppedTo(tree: TreeNode, start: TreeNode, mode: Mode, ns: set<TreeNode>): (r: TreeNode?)
    requires Valid(ns) && tree in ns && start in ns && start in Preorder(tree, ns)
    reads ns
    ensures r != null ==> r in ns
  {
    PreorderClosed(tree, ns);
    NodeAt(tree, if mode.NoDescend? then EndOf(tree, start, ns) else Pos(tree, start, ns) + 1, ns)
  }

  lemma SiblingNext(s: seq<TreeNode>, first: TreeNode, k: nat, ns: set<TreeNode>)
    requires Valid(ns) && first in ns && s == SiblingsFrom(first, ns) && k < |s|
    ensures s[k].next == At(s, k + 1)
  {
    assert NodeOk(first, ns);
    if first.parent != null {
      assert NodeOk(first.parent, ns);
      assert Linked(first.parent, first.parent.kids, IndexOf(first.parent.kids, first) + k);
    }
  }

  /** What mxmlFindElement looks for; an attribute value needs an attribute name. */
  predicate Matches(n: TreeNode, name: Option, attr: Option, value: Option)
  {
    && n.element && (name.None? || n.name == name.value)
    && (attr.None? || (GetAttr(n.attrs, attr.value).Some? && (value.None? || GetAttr(n.attrs, attr.value) == value)))
  }

  /** The first index from one on at which a node matches, or the end of the list. */
  ghost function FirstMatch(all: seq<TreeNode>, from: nat, name: Option, attr: Option, value: Option): nat
    requires from <= |all|
    decreases |all| - from
  {
    if from == |all| || Matches(all[from], name, attr, value) then from
    else FirstMatch(all, from + 1, name, attr, value)
  }

  /** The search from `i` on has come to r, and no match has been passed. */
  ghost predicate Searching(all: seq<TreeNode>, i: nat, at: nat, r: TreeNode?, name: Option, attr: Option,
                            value: Option)
  {
    && i < at <= |all| && r == At(all, at)
    && FirstMatch(all, at, name, attr, value) == FirstMatch(all, i + 1, name, attr, value)
  }

  lemma SearchOn(all: seq<TreeNode>, i: nat, at: nat, r: TreeNode, name: Option, attr: Option, value: Option)
    requires Searching(all, i, at, r, name, attr, value)
    ensures at < |all|
    ensures Matches(r, name, attr, value) ==> r == At(all, FirstMatch(all, i + 1, name, attr, value))
    ensures !Matches(r, name, attr, value) ==> Searching(all, i, at + 1, At(all, at + 1), name, attr, value)
  {
  }

  lemma {:induction false} FirstMatchIs(all: seq<TreeNode>, from: nat, name: Option, attr: Option, value: Option)
    requires from <= |all|
    ensures var at := FirstMatch(all, from, name, attr, value);
      && from <= at <= |all| && (at < |all| ==> Matches(all[at], name, attr, value))
      && forall j | from <= j < at :: !Matches(all[j], name, attr, value)
    decreases |all| - from
  {
    if from < |all| && !Matches(all[from], name, attr, value) { FirstMatchIs(all, from + 1, name, attr, value); }
  }

  /** The first node that is looked at. */
  method FirstCandidate(start: TreeNode, top: TreeNode, mode: Mode, ghost all: seq<TreeNode>, ghost i: nat,
                        ghost tree: TreeNode, ghost ns: set<TreeNode>)
    returns (r: TreeNode?)
    requires Candidates(all, i, start, top, mode, tree, ns)
    ensures Candidates(all, i, start, top, mode, tree, ns) && r == At(all, i + 1)
  {
    if mode.Descend? {
      r := Step(start, top, tree, all, i, ns);
    } else {
      r := WalkNext(start, top, mode.DescendFirst?, tree, ns);
      assert r == SteppedTo(tree, start, mode, ns);
      FirstOfSiblings(r, ns);
      assert |all[i + 1..]| == |all| - (i + 1);
      assert r != null ==> all[i + 1..][0] == all[i + 1];
    }
  }

  lemma FirstOfSiblings(n: TreeNode?, ns: set<TreeNode>)
    requires Valid(ns) && (n != null ==> n in ns)
    ensures n == At(SiblingsFrom(n, ns), 0)
  {
    if n != null { assert NodeOk(n, ns); }
  }

  /** The end of the loop of mxmlFindElement. */
  method NextCandidate(node: TreeNode, start: TreeNode, top: TreeNode, mode: Mode, ghost all: seq<TreeNode>,
                       ghost i: nat, ghost at: nat, ghost tree: TreeNode, ghost ns: set<TreeNode>)
    returns (r: TreeNode?)
    requires Candidates(all, i, start, top, mode, tree, ns) && i < at < |all| && all[at] == node
    ensures Candidates(all, i, start, top, mode, tree, ns) && r == At(all, at + 1)
  {
    if mode.Descend? {
      r := Step(node, top, tree, all, at, ns);
    } else {
      ghost var rest := all[i + 1..];
      assert rest[at - i - 1] == node && (at + 1 < |all| ==> rest[at - i] == all[at + 1]);
      SiblingNext(rest, SteppedTo(tree, start, mode, ns), at - i - 1, ns);
      r := node.next;
    }
  }

  /** mxmlFindElement: the first match among the candidates. */
  method FindElement(start: TreeNode, top: TreeNode, name: Option, attr: Option, value: Option, mode: Mode,
                     ghost all: seq<TreeNode>, ghost i: nat, ghost tree: TreeNode, ghost ns: set<TreeNode>)
    returns (r: TreeNode?)
    requires Candidates(all, i, start, top, mode, tree, ns)
    ensures r == if attr.None? && value.Some? then null else At(all, FirstMatch(all, i + 1, name, attr, value))
  {
    if attr.None? && value.Some? {
      return null;
    }
    ghost var at := i + 1;
    r := FirstCandidate(start, top, mode, all, i, tree, ns);
    while r != null
      invariant Candidates(all, i, start, top, mode, tree, ns) && Searching(all, i, at, r, name, attr, value)
      decreases |all| - at
    {
      SearchOn(all, i, at, r, name, attr, value);
      if r.element && (name.None? || r.name == name.value) {
        if attr.None? {
          return;
        }
        var temp := GetAttr(r.attrs, attr.value);
        if temp.Some? && (value.None? || value == temp) {
          return;
        }
      }
      r := NextCandidate(r, start, top, mode, all, i, at, tree, ns);
      at := at + 1;
    }
  }
}
