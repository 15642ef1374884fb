/** Mini-XML's node tree: adding and removing nodes by rewriting sibling pointers, and the walk
    through a tree that needs no stack. */
module XmlTree {
  import opened Sequences
  import XmlText

  /** mxml_node_t: an element, or a value node. The children are `kids`, and a `rank` falls
      from every node to its children. */
  class TreeNode {
    const element: bool
    const name: XmlText.Text
    const attrs: seq<XmlText.Attr>
    var parent: TreeNode?
    var prev: TreeNode?
    var next: TreeNode?
    var child: TreeNode?
    var lastChild: TreeNode?
    ghost var kids: seq<TreeNode>
    ghost var rank: nat

    /** mxml_new, without a parent */
    constructor (e: bool, n: XmlText.Text, a: seq<XmlText.Attr>)
      ensures element == e && name == n && attrs == a && kids == [] && rank == 0
      ensures parent == prev == next == child == lastChild == null
    {
      element, name, attrs, kids, rank := e, n, a, [], 0;
      parent, prev, next, child, lastChild := null, null, null, null, null;
    }
  }

  /** An element of the sequence, or null outside of it. */
  ghost function At(s: seq<TreeNode>, i: int): TreeNode? { if 0 <= i < |s| then s[i] else null }

  /** The pointers of a node and its children. */
  ghost predicate Siblings(p: TreeNode)
    reads p`kids, p`child, p`lastChild, p.kids`parent, p.kids`prev, p.kids`next
  {
    && p.child == At(p.kids, 0) && p.lastChild == At(p.kids, |p.kids| - 1)
    && AllDifferent(p.kids)
    && (forall i | 0 <= i < |p.kids| :: Linked(p, p.kids, i))
  }

  /** A child points to its parent and to its neighbours. */
  ghost predicate Linked(p: TreeNode, s: seq<TreeNode>, i: nat)
    requires i < |s|
    reads s`parent, s`prev, s`next
  {
    s[i].parent == p && s[i].prev == At(s, i - 1) && s[i].next == At(s, i + 1)
  }

  ghost predicate NodeOk(n: TreeNode, ns: set<TreeNode>)
    requires n in ns
    reads ns`kids, ns`child, ns`lastChild, ns`parent, ns`prev, ns`next
  {
    && (forall k | k in n.kids :: k in ns && k.parent == n)
    && Siblings(n)
    && (if n.parent == null then n.prev == null && n.next == null else n.parent in ns && n in n.parent.kids)
  }

  ghost predicate AllLinked(ns: set<TreeNode>)
    reads ns`kids, ns`child, ns`lastChild, ns`parent, ns`prev, ns`next
  {
    forall n {:trigger NodeOk(n, ns)} | n in ns :: NodeOk(n, ns)
  }

  ghost predicate Ranks(ns: set<TreeNode>)
    reads ns`kids, ns`rank
  {
    forall n, k | n in ns && k in n.kids :: k in ns && k.rank < n.rank
  }

  /** The nodes `ns` form trees. */
  ghost predicate Valid(ns: set<TreeNode>)
    reads ns
  {
    AllLinked(ns) && Ranks(ns)
  }

  function IndexOf(s: seq<TreeNode>, x: TreeNode): (i: nat)
    requires x in s
    ensures i < |s| && s[i] == x && x !in s[..i]
  {
    if s[0] == x then 0 else 1 + IndexOf(s[1..], x)
  }

  /** The children without one of them. */
  function Without(s: seq<TreeNode>, x: TreeNode): seq<TreeNode>
  {
    if x in s then s[..IndexOf(s, x)] + s[IndexOf(s, x) + 1..] else s
  }

  /** One of different children is taken out, and the others keep their order. */
  lemma WithoutIs(a: seq<TreeNode>, x: TreeNode, b: seq<TreeNode>)
    requires AllDifferent(a + [x] + b)
    ensures Without(a + [x] + b, x) == a + b
  {
    var s, i := a + [x] + b, IndexOf(a + [x] + b, x);
    assert s[|a|] == x;
    assert i == |a|;
    assert s[..i] == a && s[i + 1..] == b;
  }

  ghost function Set(n: TreeNode?): set<TreeNode> { if n == null then {} else {n} }

  /** The two conditionals of mxmlRemove: two nodes become neighbours, or one becomes the first
      or the last child. */
  method Join(p: TreeNode, a: TreeNode?, b: TreeNode?)
    modifies Set(a)`next, Set(b)`prev, p`child, p`lastChild
    ensures a != null ==> a.next == b
    ensures b != null ==> b.prev == a
    ensures p.child == (if a == null then b else old(p.child))
    ensures p.lastChild == if b == null then a else old(p.lastChild)
  {
    if a != null {
      a.next := b;
    } else {
      p.child := b;
    }
    if b != null {
      b.prev := a;
    } else {
      p.lastChild := a;
    }
  }

  /** The pointers around a removed child. */
  method Unlink(node: TreeNode, p: TreeNode, ghost i: nat)
    requires Siblings(p) && i < |p.kids| && p.kids[i] == node && p !in p.kids
    modifies p`kids, p`child, p`lastChild, p.kids`prev, p.kids`next, node`parent
    ensures p.kids == old(p.kids[..i] + p.kids[i + 1..]) && Siblings(p)
    ensures node.parent == node.prev == node.next == null
  {
    ghost var s, t := p.kids, p.kids[..i] + p.kids[i + 1..];
    assert Linked(p, s, i) && (i > 0 ==> Linked(p, s, i - 1) && s[i - 1] in s)
        && (i + 1 < |s| ==> Linked(p, s, i + 1) && s[i + 1] in s);
    label before:
    Join(p, node.prev, node.next);
    node.parent, node.prev, node.next := null, null, null;
    p.kids := t;
    forall k | 0 <= k < |t| ensures Linked(p, t, k) {
      var m := if k < i then k else k + 1;
      assert old@before(Linked(p, s, m));
      assert t[k] == s[m];
    }
  }

  /** mxmlRemove, for a node that has a parent. */
  method Detach(node: TreeNode, p: TreeNode, ghost ns: set<TreeNode>)
    requires Valid(ns) && node in ns && node.parent == p
    modifies ns
    ensures Valid(ns) && node.parent == null
    ensures forall n | n in ns ::
      && n.kids == (if n == p then Without(old(n.kids), node) else old(n.kids))
      && n.rank == old(n.rank) && (n != node ==> n.parent == old(n.parent))
  {
    assert NodeOk(node, ns) && NodeOk(p, ns);
    ghost var s := p.kids;
    ghost var i := IndexOf(s, node);
    assert s == s[..i] + [node] + s[i + 1..];
    Unlink(node, p, i);
    assert forall k :: k in p.kids <==> k in s && k != node;
    assert NodeOk(p, ns);
    forall n | n in ns && n != p ensures NodeOk(n, ns) {
      assert old(NodeOk(n, ns));
      forall k | 0 <= k < |n.kids| ensures Linked(n, n.kids, k) {
        assert old(Linked(n, n.kids, k)) && n.kids[k] in n.kids;
      }
    }
  }

  /** mxmlRemove */
  method Remove(node: TreeNode, ghost ns: set<TreeNode>)
    requires Valid(ns) && node in ns
    modifies ns
    ensures Valid(ns) && node.parent == null
    ensures forall n | n in ns ::
      && n.kids == Without(old(n.kids), node)
      && n.rank == old(n.rank) && (n != node ==> n.parent == old(n.parent))
  {
    NotInOthers(node, ns);
    if node.parent != null {
      Detach(node, node.parent, ns);
    }
  }

  lemma NotInOthers(node: TreeNode, ns: set<TreeNode>)
    requires Valid(ns) && node in ns
    ensures forall n | n in ns && n != node.parent :: Without(n.kids, node) == n.kids
  {
    assert forall n | n in ns :: NodeOk(n, ns);
  }

  // ---------- adding ----------

  function Inserted(s: seq<TreeNode>, i: nat, x: TreeNode): seq<TreeNode>
    requires i <= |s|
  {
    s[..i] + [x] + s[i..]
  }

  /** A node that is about to become a child. */
  ghost predicate Ready(p: TreeNode, node: TreeNode)
    reads p, p.kids, node
  {
    && Siblings(p) && node !in p.kids && p !in p.kids && p != node
    && node.parent == p && node.prev == null && node.next == null
  }

  /** The state after the pointers to and from a new child are set. */
  ghost predicate Spliced(p: TreeNode, s: seq<TreeNode>, i: nat, node: TreeNode)
    reads p, s, node
  {
    && i <= |s| && node.parent == p && node.prev == At(s, i - 1) && node.next == At(s, i)
    && p.child == (if i == 0 then node else At(s, 0)) && p.lastChild == (if i == |s| then node else At(s, |s| - 1))
    && (i > 0 ==> s[i - 1].next == node) && (i < |s| ==> s[i].prev == node)
    && (forall k | 0 <= k < |s| :: LinkedBut(p, s, k, i))
  }

  /** The other pointers of the old children are as they were. */
  ghost predicate LinkedBut(p: TreeNode, s: seq<TreeNode>, k: nat, i: nat)
    requires k < |s|
    reads s`parent, s`prev, s`next
  {
    && s[k].parent == p
    && (k != i ==> s[k].prev == At(s, k - 1)) && (k + 1 != i ==> s[k].next == At(s, k + 1))
  }

  /** mxmlAdd: insert as first node under parent */
  method InsertFirst(p: TreeNode, node: TreeNode)
    requires Ready(p, node)
    modifies p`child, p`lastChild, p.kids`prev, node`next
    ensures Spliced(p, p.kids, 0, node)
  {
    ghost var s := p.kids;
    assert forall k | 0 <= k < |s| :: s[k] in s;
    node.next := p.child;
    if p.child != null {
      p.child.prev := node;
    } else {
      p.lastChild := node;
    }
    p.child := node;
    forall k | 0 <= k < |s| ensures LinkedBut(p, s, k, 0) {
      assert old(Linked(p, s, k));
    }
  }

  /** mxmlAdd: insert as last node under parent */
  method InsertLast(p: TreeNode, node: TreeNode)
    requires Ready(p, node)
    modifies p`child, p`lastChild, p.kids`next, node`prev, node`parent
    ensures Spliced(p, p.kids, |p.kids|, node)
  {
    ghost var s := p.kids;
    assert forall k | 0 <= k < |s| :: s[k] in s;
    node.parent := p;
    node.prev := p.lastChild;
    if p.lastChild != null {
      p.lastChild.next := node;
    } else {
      p.child := node;
    }
    p.lastChild := node;
    forall k | 0 <= k < |s| ensures LinkedBut(p, s, k, |s|) {
      assert old(Linked(p, s, k));
    }
  }

  /** mxmlAdd: insert node before this child */
  method InsertBefore(p: TreeNode, child: TreeNode, node: TreeNode, ghost i: nat)
    requires Ready(p, node) && i < |p.kids| && p.kids[i] == child
    modifies p`child, p.kids`prev, p.kids`next, node`prev, node`next
    ensures Spliced(p, p.kids, i, node)
  {
    ghost var s := p.kids;
    assert forall k | 0 <= k < |s| :: s[k] in s;
    assert Linked(p, s, i);
    node.next := child;
    node.prev := child.prev;
    if child.prev != null {
      child.prev.next := node;
    } else {
      p.child := node;
    }
    child.prev := node;
    forall k | 0 <= k < |s| ensures LinkedBut(p, s, k, i) {
      assert old(Linked(p, s, k));
    }
  }

  /** mxmlAdd: insert node after this child */
  method InsertAfter(p: TreeNode, child: TreeNode, node: TreeNode, ghost i: nat)
    requires Ready(p, node) && i < |p.kids| && p.kids[i] == child
    modifies p`lastChild, p.kids`prev, p.kids`next, node`prev, node`next
    ensures Spliced(p, p.kids, i + 1, node)
  {
    ghost var s := p.kids;
    assert forall k | 0 <= k < |s| :: s[k] in s;
    assert Linked(p, s, i);
    node.prev := child;
    node.next := child.next;
    if child.next != null {
      child.next.prev := node;
    } else {
      p.lastChild := node;
    }
    child.next := node;
    ghost var j := i + 1;
    forall k | 0 <= k < |s| ensures LinkedBut(p, s, k, j) {
      assert old(Linked(p, s, k));
    }
  }

  /** With the new child among the children, all pointers agree. */
  lemma SplicedSiblings(p: TreeNode, s: seq<TreeNode>, i: nat, node: TreeNode)
    requires AllDifferent(s) && node !in s && Spliced(p, s, i, node) && p.kids == Inserted(s, i, node)
    ensures Siblings(p)
  {
    var t := p.kids;
    forall k | 0 <= k < |t| ensures Linked(p, t, k) {
      if k != i {
        var m := if k < i then k else k - 1;
        assert t[k] == s[m] && LinkedBut(p, s, m, i);
      }
    }
  }

  ghost function ToSet(s: seq<TreeNode>): set<TreeNode> { set x | x in s }

  /** The nodes of the tree at a node, in document order. */
  ghost function Preorder(n: TreeNode, ns: set<TreeNode>): seq<TreeNode>
    requires Valid(ns) && n in ns
    reads ns
    decreases n.rank, 1, 0
  {
    [n] + PreorderAll(n, 0, ns)
  }

  /** The nodes of the trees at the children of a node, from one of them on. */
  ghost function PreorderAll(n: TreeNode, i: nat, ns: set<TreeNode>): seq<TreeNode>
    requires Valid(ns) && n in ns && i <= |n.kids|
    reads ns
    decreases n.rank, 0, |n.kids| - i
  {
    if i == |n.kids| then [] else
      assert n.kids[i] in n.kids;
      Preorder(n.kids[i], ns) + PreorderAll(n, i + 1, ns)
  }

  /** The tree at a node has the node, and with each node its children. */
  lemma {:induction false} PreorderClosed(n: TreeNode, ns: set<TreeNode>)
    requires Valid(ns) && n in ns
    ensures n in Preorder(n, ns)
    ensures forall x | x in Preorder(n, ns) ::
      x in ns && x.rank <= n.rank && forall k | k in x.kids :: k in Preorder(n, ns)
    decreases n.rank, 1, 0
  {
    PreorderAllClosed(n, 0, ns);
  }

  lemma {:induction false} PreorderAllClosed(n: TreeNode, i: nat, ns: set<TreeNode>)
    requires Valid(ns) && n in ns && i <= |n.kids|
    ensures forall k | i <= k < |n.kids| :: n.kids[k] in PreorderAll(n, i, ns)
    ensures forall x | x in PreorderAll(n, i, ns) ::
      x in ns && x.rank < n.rank && forall k | k in x.kids :: k in PreorderAll(n, i, ns)
    decreases n.rank, 0, |n.kids| - i
  {
    if i < |n.kids| {
      assert n.kids[i] in n.kids;
      PreorderClosed(n.kids[i], ns);
      PreorderAllClosed(n, i + 1, ns);
    }
  }

  /** The ranks outside of a tree are raised, so that it can be added there. */
  ghost method Raise(parent: TreeNode, node: TreeNode, ns: set<TreeNode>)
    requires Valid(ns) && parent in ns && node in ns && parent !in Preorder(node, ns)
    modifies ns`rank
    ensures Ranks(ns) && node.rank < parent.rank
  {
    PreorderClosed(node, ns);
    var below, up := ToSet(Preorder(node, ns)), node.rank + 1;
    forall n, k | n in ns && k in n.kids ensures n in below ==> k in below {
    }
    forall x | x in ns && x !in below {
      x.rank := x.rank + up;
    }
  }

  /** A node below the top of a tree has its parent there. */
  lemma {:induction false} Inside(n: TreeNode, x: TreeNode, ns: set<TreeNode>)
    requires Valid(ns) && n in ns && x in Preorder(n, ns)
    ensures x == n || (x.parent != null && x.parent in Preorder(n, ns))
    decreases n.rank, 1, 0
  {
    if x != n { InsideAll(n, 0, x, ns); }
  }

  lemma {:induction false} InsideAll(n: TreeNode, i: nat, x: TreeNode, ns: set<TreeNode>)
    requires Valid(ns) && n in ns && i <= |n.kids| && x in PreorderAll(n, i, ns)
    ensures x.parent != null && (x.parent == n || x.parent in PreorderAll(n, i, ns))
    decreases n.rank, 0, |n.kids| - i
  {
    assert NodeOk(n, ns) && n.kids[i] in n.kids;
    if x in Preorder(n.kids[i], ns) {
      Inside(n.kids[i], x, ns);
    } else {
      InsideAll(n, i + 1, x, ns);
    }
  }

  /** What mxmlAdd makes of the children s: the node stands directly before or behind the given
      child; without such a child it comes first or last. The others keep their order. */
  ghost predicate Placed(s: seq<TreeNode>, before: bool, child: TreeNode?, node: TreeNode, t: seq<TreeNode>)
  {
    if child == null || child !in s then t == if before then [node] + s else s + [node]
    else exists i | 0 <= i < |s| :: Beside(s, before, child, node, i, t)
  }

  ghost predicate Beside(s: seq<TreeNode>, before: bool, child: TreeNode, node: TreeNode, i: nat, t: seq<TreeNode>)
    requires i < |s|
  {
    s[i] == child && t == if before then s[..i] + [node] + s[i..] else s[..i + 1] + [node] + s[i + 1..]
  }

  lemma PlacedMembers(s: seq<TreeNode>, before: bool, child: TreeNode?, node: TreeNode, t: seq<TreeNode>)
    requires Placed(s, before, child, node, t)
    ensures forall x :: x in t <==> x == node || x in s
  {
    if child != null && child in s {
      var i :| 0 <= i < |s| && Beside(s, before, child, node, i, t);
      InsertedMembers(s, if before then i else i + 1, node);
    }
  }

  lemma InsertedMembers(s: seq<TreeNode>, k: nat, node: TreeNode)
    requires k <= |s|
    ensures forall x :: x in s[..k] + [node] + s[k..] <==> x == node || x in s
  {
    assert s == s[..k] + s[k..];
  }

  /** The index i of a new node is where mxmlAdd puts it. */
  ghost predicate Index(s: seq<TreeNode>, before: bool, child: TreeNode?, i: nat)
  {
    && i <= |s|
    && if child == null || child !in s then i == if before then 0 else |s|
       else if before then i < |s| && s[i] == child else i > 0 && s[i - 1] == child
  }

  /** The switch of mxmlAdd. */
  method Link(p: TreeNode, before: bool, child: TreeNode?, node: TreeNode) returns (ghost i: nat)
    requires Ready(p, node)
    requires child != null ==> child != node && (child.parent == p <==> child in p.kids)
    modifies p`child, p`lastChild, p.kids`prev, p.kids`next, node`parent, node`prev, node`next
    ensures Index(p.kids, before, child, i) && Spliced(p, p.kids, i, node)
  {
    ghost var s := p.kids;
    assert forall k | 0 <= k < |s| :: s[k] in s;
    if before {
      if child == null || child == p.child || child.parent != p {
        i := 0;
        InsertFirst(p, node);
      } else {
        i := IndexOf(s, child);
        InsertBefore(p, child, node, i);
      }
    } else {
      if child == null || child == p.lastChild || child.parent != p {
        i := |s|;
        InsertLast(p, node);
      } else {
        i := IndexOf(s, child) + 1;
        InsertAfter(p, child, node, i - 1);
      }
    }
  }

  /** The switch, in terms of the children. */
  method Insert(p: TreeNode, before: bool, child: TreeNode?, node: TreeNode)
    requires Ready(p, node)
    requires child != null ==> child != node && (child.parent == p <==> child in p.kids)
    modifies p`child, p`lastChild, p`kids, p.kids`prev, p.kids`next, node`parent, node`prev, node`next
    ensures Placed(old(p.kids), before, child, node, p.kids) && Siblings(p) && node.parent == p
  {
    ghost var s := p.kids;
    ghost var i := Link(p, before, child, node);
    p.kids := Inserted(s, i, node);
    SplicedSiblings(p, s, i, node);
    InsertedPlaced(s, i, before, child, node);
  }

  lemma InsertedPlaced(s: seq<TreeNode>, i: nat, before: bool, child: TreeNode?, node: TreeNode)
    requires Index(s, before, child, i)
    ensures Placed(s, before, child, node, Inserted(s, i, node))
  {
    if child != null && child in s {
      var k := if before then i else i - 1;
      assert Beside(s, before, child, node, k, Inserted(s, i, node));
    } else {
      assert s[0..] == s && s[..|s|] == s && s[|s|..] == [] && s[..0] == [];
    }
  }

  /** mxmlAdd after its removal: the new parent pointer, and the switch. */
  method Splice(parent: TreeNode, before: bool, child: TreeNode?, node: TreeNode)
    requires Siblings(parent) && node !in parent.kids && parent !in parent.kids && parent != node
    requires node.parent == null && node.prev == null && node.next == null
    requires child != null ==> child != node && (child.parent == parent <==> child in parent.kids)
    modifies parent`child, parent`lastChild, parent`kids, parent.kids`prev
    modifies parent.kids`next, node`parent, node`prev, node`next
    ensures Siblings(parent) && node.parent == parent
    ensures Placed(old(parent.kids), before, child, node, parent.kids)
    ensures forall x :: x in parent.kids <==> x == node || x in old(parent.kids)
  {
    ghost var s := parent.kids;
    node.parent := parent;
    assert Ready(parent, node) by {
      assert forall k | 0 <= k < |s| :: Linked(parent, s, k) by {
        forall k | 0 <= k < |s| ensures Linked(parent, s, k) { assert old(Linked(parent, s, k)) && s[k] in s; }
      }
    }
    Insert(parent, before, child, node);
    PlacedMembers(s, before, child, node, parent.kids);
  }

  /** mxmlAdd, for a node without a parent. */
  method Attach(parent: TreeNode, before: bool, child: TreeNode?, node: TreeNode, ghost ns: set<TreeNode>)
    requires Valid(ns) && parent in ns && node in ns && node.parent == null && node.rank < parent.rank
    requires child != null ==> child in ns && child != node
    modifies ns
    ensures Valid(ns) && node.parent == parent
    ensures Placed(old(parent.kids), before, child, node, parent.kids)
    ensures forall n | n in ns && n != parent :: n.kids == old(n.kids)
    ensures forall n | n in ns && n != node :: n.parent == old(n.parent)
  {
    assert NodeOk(parent, ns) && NodeOk(node, ns) && (child != null ==> NodeOk(child, ns));
    Splice(parent, before, child, node);
    assert NodeOk(parent, ns);
    forall n | n in ns && n != parent ensures NodeOk(n, ns) {
      assert old(NodeOk(n, ns));
      forall k | 0 <= k < |n.kids| ensures Linked(n, n.kids, k) {
        assert old(Linked(n, n.kids, k)) && n.kids[k] in n.kids;
      }
    }
  }

  /** The removal at the start of mxmlAdd. */
  method TakeOut(node: TreeNode, ghost ns: set<TreeNode>)
    requires Valid(ns) && node in ns
    modifies ns
    ensures Valid(ns) && node.parent == null
    ensures forall n | n in ns :: n.kids == Without(old(n.kids), node) && n.rank == old(n.rank)
    ensures forall n | n in ns && n != node :: n.parent == old(n.parent)
  {
    if node.parent != null {
      Remove(node, ns);
    } else {
      NotInOthers(node, ns);
    }
  }

  /** mxmlAdd: the node leaves its old parent, and is inserted among the children of the new
      one, which must not be below it. */
  method Add(parent: TreeNode, before: bool, child: TreeNode?, node: TreeNode, ghost ns: set<TreeNode>)
    requires Valid(ns) && parent in ns && node in ns && parent !in Preorder(node, ns)
    requires child != null ==> child in ns && child != node
    modifies ns
    ensures Valid(ns) && node.parent == parent
    ensures Placed(Without(old(parent.kids), node), before, child, node, parent.kids)
    ensures forall n | n in ns && n != parent :: n.kids == Without(old(n.kids), node)
    ensures forall n | n in ns && n != node :: n.parent == old(n.parent)
  {
    Raise(parent, node, ns);
    TakeOut(node, ns);
    Attach(parent, before, child, node, ns);
  }

  // ---------- deleting ----------

  /** The links of a node at one time, as values, with ranks that fall. */
  datatype Links = Links(kids: seq<TreeNode>, rank: nat, parent: TreeNode?)

  type Forest = map<TreeNode, Links>

  ghost predicate IsForest(f: Forest)
  {
    forall n, k | n in f && k in f[n].kids :: k in f && f[k].rank < f[n].rank && f[k].parent == n
  }

  /** The nodes in `gone` are gone, and one node is nobody's child. */
  ghost function Cut(f: Forest, node: TreeNode, gone: set<TreeNode>): Forest
  {
    map n | n in f && n !in gone :: CutLinks(f[n], node)
  }

  ghost function CutLinks(x: Links, node: TreeNode): Links { x.(kids := Without(x.kids, node)) }

  ghost function Snapshot(ns: set<TreeNode>): (f: Forest)
    requires Valid(ns)
    reads ns
    ensures IsForest(f) && f.Keys == ns
  {
    assert forall n, k | n in ns && k in n.kids :: NodeOk(n, ns);
    map n | n in ns :: Links(n.kids, n.rank, n.parent)
  }

  /** The nodes of the tree at a node, each behind all that is below it. */
  ghost function Postorder(f: Forest, n: TreeNode): seq<TreeNode>
    requires IsForest(f) && n in f
    decreases f[n].rank, 1, 0
  {
    PostorderAll(f, n, 0) + [n]
  }

  ghost function PostorderAll(f: Forest, n: TreeNode, i: nat): seq<TreeNode>
    requires IsForest(f) && n in f && i <= |f[n].kids|
    decreases f[n].rank, 0, |f[n].kids| - i
  {
    if i == |f[n].kids| then [] else
      assert f[n].kids[i] in f[n].kids;
      Postorder(f, f[n].kids[i]) + PostorderAll(f, n, i + 1)
  }

  /** It has the nodes that document order has, each as often. */
  lemma {:induction false} PostorderPermutes(n: TreeNode, ns: set<TreeNode>)
    requires Valid(ns) && n in ns
    ensures multiset(Postorder(Snapshot(ns), n)) == multiset(Preorder(n, ns))
    ensures forall x :: x in Postorder(Snapshot(ns), n) <==> x in Preorder(n, ns)
    decreases n.rank, 1, 0
  {
    PostorderAllPermutes(n, 0, ns);
    SameMembers(Postorder(Snapshot(ns), n), Preorder(n, ns));
  }

  lemma SameMembers(s: seq<TreeNode>, t: seq<TreeNode>)
    requires multiset(s) == multiset(t)
    ensures forall x :: x in s <==> x in t
  {
    assert forall x :: x in s <==> x in multiset(s);
    assert forall x :: x in t <==> x in multiset(t);
  }

  lemma {:induction false} PostorderAllPermutes(n: TreeNode, i: nat, ns: set<TreeNode>)
    requires Valid(ns) && n in ns && i <= |n.kids|
    ensures multiset(PostorderAll(Snapshot(ns), n, i)) == multiset(PreorderAll(n, i, ns))
    decreases n.rank, 0, |n.kids| - i
  {
    if i < |n.kids| {
      assert n.kids[i] in n.kids;
      PostorderPermutes(n.kids[i], ns);
      PostorderAllPermutes(n, i + 1, ns);
    }
  }

  /** Every node is listed behind all of its children. */
  ghost predicate ChildrenFirst(f: Forest, s: seq<TreeNode>)
  {
    forall j | 0 <= j < |s| :: s[j] in f && Listed(f[s[j]].kids, s[..j])
  }

  ghost predicate Listed(kids: seq<TreeNode>, s: seq<TreeNode>) { forall k | k in kids :: k in s }

  lemma ChildrenFirstConcat(f: Forest, a: seq<TreeNode>, b: seq<TreeNode>)
    requires ChildrenFirst(f, a) && ChildrenFirst(f, b)
    ensures ChildrenFirst(f, a + b)
  {
    var s := a + b;
    forall j | 0 <= j < |s| ensures s[j] in f && Listed(f[s[j]].kids, s[..j]) {
      if j < |a| {
        assert s[..j] == a[..j];
      } else {
        assert s[..j] == a + b[..j - |a|];
        assert Listed(f[b[j - |a|]].kids, b[..j - |a|]);
      }
    }
  }

  lemma {:induction false} PostorderChildrenFirst(f: Forest, n: TreeNode)
    requires IsForest(f) && n in f
    ensures ChildrenFirst(f, Postorder(f, n)) && n in Postorder(f, n)
    decreases f[n].rank, 1, 0
  {
    PostorderAllChildrenFirst(f, n, 0);
    var s := PostorderAll(f, n, 0);
    assert (s + [n])[..|s|] == s;
    forall k | k in f[n].kids ensures k in s {
      var i := IndexOf(f[n].kids, k);
    }
    assert forall j | 0 <= j < |s| :: (s + [n])[..j] == s[..j] && Listed(f[s[j]].kids, s[..j]);
  }

  lemma {:induction false} PostorderAllChildrenFirst(f: Forest, n: TreeNode, i: nat)
    requires IsForest(f) && n in f && i <= |f[n].kids|
    ensures ChildrenFirst(f, PostorderAll(f, n, i))
    ensures forall k | i <= k < |f[n].kids| :: f[n].kids[k] in PostorderAll(f, n, i)
    decreases f[n].rank, 0, |f[n].kids| - i
  {
    if i < |f[n].kids| {
      var kid := f[n].kids[i];
      assert kid in f[n].kids;
      PostorderChildrenFirst(f, kid);
      PostorderAllChildrenFirst(f, n, i + 1);
      ChildrenFirstConcat(f, Postorder(f, kid), PostorderAll(f, n, i + 1));
    }
  }

  /** Of the nodes of smaller rank, those that are left have their children. */
  ghost predicate SameBelow(f: Forest, g: Forest, rank: nat)
    requires IsForest(f) && IsForest(g)
  {
    forall x | x in g && g[x].rank < rank :: x in f && f[x].rank == g[x].rank && f[x].kids == g[x].kids
  }

  /** What happens outside of a tree does not change it. */
  lemma {:induction false} PostorderSame(f: Forest, g: Forest, n: TreeNode)
    requires IsForest(f) && IsForest(g) && n in g && SameBelow(f, g, g[n].rank + 1)
    ensures n in f && Postorder(g, n) == Postorder(f, n)
    decreases g[n].rank, 1, 0
  {
    PostorderAllSame(f, g, n, 0, 0);
  }

  /** The same for the children of a node, when the first ones are gone. */
  lemma {:induction false} PostorderAllSame(f: Forest, g: Forest, n: TreeNode, gone: nat, i: nat)
    requires IsForest(f) && IsForest(g) && n in g && n in f && SameBelow(f, g, g[n].rank)
    requires gone <= |f[n].kids| && g[n].kids == f[n].kids[gone..] && i <= |g[n].kids|
    ensures PostorderAll(g, n, i) == PostorderAll(f, n, gone + i)
    decreases g[n].rank, 0, |g[n].kids| - i
  {
    if i < |g[n].kids| {
      var k := g[n].kids[i];
      assert k in g[n].kids && k == f[n].kids[gone + i];
      PostorderSame(f, g, k);
      PostorderAllSame(f, g, n, gone, i + 1);
      assert PostorderAll(g, n, i) == Postorder(g, k) + PostorderAll(g, n, i + 1);
      assert PostorderAll(f, n, gone + i) == Postorder(f, k) + PostorderAll(f, n, gone + i + 1);
    }
  }

  /** From f to g the nodes in `gone` have gone, and outside of `node` nothing has changed but
      that it is no child. */
  ghost predicate Trimmed(f: Forest, g: Forest, node: TreeNode, gone: set<TreeNode>)
  {
    && IsForest(f) && IsForest(g) && g.Keys == f.Keys - gone && node in g && g[node].rank == f[node].rank
    && forall n | n in g && n != node :: g[n] == CutLinks(f[n], node)
  }

  /** The first child of `node` has gone, with all below it. */
  ghost predicate FirstGone(f: Forest, g: Forest, node: TreeNode, gone: set<TreeNode>)
  {
    && IsForest(f) && IsForest(g) && g.Keys == f.Keys - gone && node in g
    && f[node].kids != [] && g[node] == f[node].(kids := f[node].kids[1..])
    && forall n | n in g && n != node :: g[n] == f[n]
  }

  lemma CutFirst(f: Forest, g: Forest, node: TreeNode, gone: set<TreeNode>)
    requires IsForest(f) && IsForest(g) && node in f && f[node].kids != [] && node !in gone
    requires g == Cut(f, f[node].kids[0], gone)
    ensures FirstGone(f, g, node, gone) && SameBelow(f, g, g[node].rank)
  {
    var c := f[node].kids[0];
    assert c in f[node].kids && IndexOf(f[node].kids, c) == 0;
    forall n | n in f && c in f[n].kids ensures n == node {
      assert f[c].parent == n && f[c].parent == node;
    }
  }

  /** A node that is removed keeps its tree. */
  lemma RemovedSame(f: Forest, g: Forest, node: TreeNode)
    requires Trimmed(f, g, node, {}) && g[node].kids == f[node].kids
    ensures Postorder(g, node) == Postorder(f, node)
  {
    PostorderSame(f, g, node);
  }

  lemma TrimStep(f: Forest, g: Forest, h: Forest, node: TreeNode, gone: set<TreeNode>, more: set<TreeNode>)
    requires Trimmed(f, g, node, gone) && FirstGone(g, h, node, more)
    ensures Trimmed(f, h, node, gone + more)
  {
  }

  /** At last only the node itself is left of its tree. */
  lemma TrimEnd(f: Forest, g: Forest, node: TreeNode, gone: set<TreeNode>)
    requires Trimmed(f, g, node, gone)
    ensures g - {node} == Cut(f, node, gone + {node})
  {
  }

  /** A node without parent and children can go. */
  lemma WithoutLone(node: TreeNode, ns: set<TreeNode>)
    requires Valid(ns) && node in ns && node.parent == null && node.kids == []
    ensures Valid(ns - {node}) && Snapshot(ns - {node}) == Snapshot(ns) - {node}
  {
    forall n | n in ns - {node} ensures NodeOk(n, ns - {node}) {
      assert NodeOk(n, ns);
    }
  }

  /** mxmlRemove, in terms of the whole forest. */
  method Uproot(node: TreeNode, ghost ns: set<TreeNode>)
    requires Valid(ns) && node in ns
    modifies ns
    ensures Valid(ns) && node.parent == null
    ensures Trimmed(old(Snapshot(ns)), Snapshot(ns), node, {})
    ensures Postorder(Snapshot(ns), node) == old(Postorder(Snapshot(ns), node))
  {
    ghost var f := Snapshot(ns);
    assert node !in node.kids;
    Remove(node, ns);
    RemovedSame(f, Snapshot(ns), node);
  }

  /** The first child of a node, as the loop of mxmlDelete sees it. */
  lemma FirstChild(node: TreeNode, ns: set<TreeNode>)
    requires Valid(ns) && node in ns
    ensures node.child == null <==> node.kids == []
    ensures node.child != null ==>
      && node.child in ns && node.child == node.kids[0] && node.child.rank < node.rank
      && node !in Postorder(Snapshot(ns), node.child)
  {
    assert NodeOk(node, ns);
    if node.kids != [] {
      assert node.kids[0] in node.kids;
      PreorderClosed(node.child, ns);
      PostorderPermutes(node.child, ns);
    }
  }

  /** One round of the loop of mxmlDelete. */
  method DeleteFirst(node: TreeNode, ghost ns: set<TreeNode>) returns (freed: seq<TreeNode>)
    requires Valid(ns) && node in ns && node.child != null
    modifies ns
    ensures Valid(ns - ToSet(freed))
    ensures FirstGone(old(Snapshot(ns)), Snapshot(ns - ToSet(freed)), node, ToSet(freed))
    ensures freed + Postorder(Snapshot(ns - ToSet(freed)), node) == old(Postorder(Snapshot(ns), node))
    decreases node.rank, 0
  {
    FirstChild(node, ns);
    ghost var f := Snapshot(ns);
    freed := Delete(node.child, ns);
    CutFirst(f, Snapshot(ns - ToSet(freed)), node, ToSet(freed));
    PostorderAllSame(f, Snapshot(ns - ToSet(freed)), node, 1, 0);
  }

  lemma ToSetAppend(s: seq<TreeNode>, t: seq<TreeNode>, ns: set<TreeNode>)
    ensures ToSet(s + t) == ToSet(s) + ToSet(t) && ns - ToSet(s) - ToSet(t) == ns - ToSet(s + t)
  {
  }

  /** Between two rounds of the loop: the nodes in `freed` are gone, and the others are linked. */
  ghost predicate Halfway(f: Forest, node: TreeNode, freed: seq<TreeNode>, live: set<TreeNode>)
    reads live, node
  {
    && Valid(live) && node.parent == null && Trimmed(f, Snapshot(live), node, ToSet(freed))
    && freed + Postorder(Snapshot(live), node) == Postorder(f, node)
  }

  lemma Onwards(f: Forest, node: TreeNode, freed: seq<TreeNode>, g: Forest, more: seq<TreeNode>, live: set<TreeNode>)
    requires Trimmed(f, g, node, ToSet(freed)) && freed + Postorder(g, node) == Postorder(f, node)
    requires Valid(live) && node.parent == null && FirstGone(g, Snapshot(live), node, ToSet(more))
    requires more + Postorder(Snapshot(live), node) == Postorder(g, node)
    ensures Halfway(f, node, freed + more, live)
  {
    TrimStep(f, g, Snapshot(live), node, ToSet(freed), ToSet(more));
    ToSetAppend(freed, more, live);
  }

  /** With no child left the node itself goes. */
  lemma LastOne(f: Forest, node: TreeNode, freed: seq<TreeNode>, live: set<TreeNode>)
    requires Halfway(f, node, freed, live) && node.child == null
    ensures freed + [node] == Postorder(f, node) && Valid(live - {node})
    ensures Snapshot(live - {node}) == Cut(f, node, ToSet(freed + [node]))
  {
    FirstChild(node, live);
    WithoutLone(node, live);
    TrimEnd(f, Snapshot(live), node, ToSet(freed));
    ToSetAppend(freed, [node], live);
    assert ToSet([node]) == {node};
    assert Postorder(Snapshot(live), node) == [node];
  }

  /** mxmlDelete: the node is removed, and all of its tree is freed, each node once and after
      what is below it; the other nodes stay linked as they were. */
  method Delete(node: TreeNode, ghost ns: set<TreeNode>) returns (freed: seq<TreeNode>)
    requires Valid(ns) && node in ns
    modifies ns
    ensures freed == old(Postorder(Snapshot(ns), node))
    ensures Valid(ns - ToSet(freed))
    ensures Snapshot(ns - ToSet(freed)) == Cut(old(Snapshot(ns)), node, ToSet(freed))
    decreases node.rank, 1
  {
    ghost var f, live := Snapshot(ns), ns;
    freed := [];
    Uproot(node, ns);
    while node.child != null
      invariant live == ns - ToSet(freed) && Halfway(f, node, freed, live)
      decreases |node.kids|
    {
      ghost var g := Snapshot(live);
      var more := DeleteFirst(node, live);
      ghost var left := live - ToSet(more);
      Onwards(f, node, freed, g, more, left);
      ToSetAppend(freed, more, ns);
      freed, live := freed + more, left;
    }
    LastOne(f, node, freed, live);
    ToSetAppend(freed, [node], ns);
    assert ToSet([node]) == {node};
    freed := freed + [node];
  }
}
