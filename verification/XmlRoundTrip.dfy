/** What Mini-XML prints for a tree is a document of the tree, so that loading it gives the tree
    back. */
module XmlRoundTrip {
  import opened Sequences
  import opened Utf8
  import opened XmlText
  import opened XmlBytes
  import opened XmlReferences
  import opened XmlDocument

  // ---------- the trees in normal form ----------

  predicate WordText(s: Text) { s != [] && forall i | 0 <= i < |s| :: !Space(s[i]) }

  /** The name of an element that is not special. */
  predicate SimpleName(name: Text)
  {
    && PlainTag(name) && !Quote(name[0])
    && forall i | 0 <= i < |name| :: !Space(name[i]) && name[i] != GT && name[i] != AMP && name[i] != SLASH
  }

  /** The name of an attribute: plain, or in quotes. */
  predicate AttrName(name: Text)
  {
    && name != [] && FirstChar(name[0])
    && forall i | 1 <= i < |name| :: name[i] != AMP && !Stops(PlainName, name[i])
  }

  predicate QuotedAttrName(name: Text)
  {
    && |name| >= 2 && Quote(name[0]) && name[|name| - 1] == name[0]
    && forall i | 1 <= i < |name| - 1 :: name[i] != name[0]
  }

  predicate GoodAttr(a: Attr) { AttrName(a.name) || (QuotedAttrName(a.name) && a.value.None?) }

  predicate GoodAttrs(attrs: seq<Attr>)
  {
    (forall i | 0 <= i < |attrs| :: GoodAttr(attrs[i])) && DifferentNames(attrs)
  }

  predicate NoteText(name: Text) { CommentText(name) || CdataText(name) }

  function BehindNode(node: Node): Before
  {
    if node.Element? then AfterTag else if node.text == [] then AfterBlank else AfterWord
  }

  /** White space stands between words. */
  predicate MayStand(node: Node, before: Before)
  {
    node.Word? ==> before != AfterBlank && (before == AfterWord ==> node.whitespace)
  }

  /** An element, a comment, a CDATA section, a word, or white space before a tag, which is an
      empty word. */
  predicate GoodNode(node: Node)
    decreases node, 0
  {
    match node
    case Element(name, attrs, children) =>
      if NoteText(name) then attrs == [] && children == []
      else SimpleName(name) && GoodAttrs(attrs) && GoodNodes(children, AfterTag)
    case Word(ws, text) => if text == [] then ws else WordText(text)
  }

  /** Children in normal form. */
  predicate GoodNodes(nodes: seq<Node>, before: Before)
    decreases nodes, 0
  {
    nodes == [] || (MayStand(nodes[0], before) && GoodNode(nodes[0]) && GoodNodes(nodes[1..], BehindNode(nodes[0])))
  }

  /** Processing instructions and declarations are never closed; one of them may only be the
      root, or the last child of another one. */
  predicate Head(node: Node) { node.Element? && HeadText(node.name) && node.attrs == [] }

  predicate GoodRoot(root: Node)
    decreases root
  {
    && Head(root) &&
    var children := root.children;
    if children != [] && Head(children[|children| - 1]) then
      GoodNodes(children[..|children| - 1], AfterTag) && GoodRoot(children[|children| - 1])
    else GoodNodes(children, AfterTag) && (children != [] ==> BehindNode(children[|children| - 1]) != AfterBlank)
  }

  // ---------- the document that is printed ----------

  /** Characters as they are, and as mxml_write_string writes them. */
  function RawLetters(s: Text): seq<Letter>
  {
    if s == [] then [] else [Letter(s[0], Raw)] + RawLetters(s[1..])
  }

  function EscapedLetter(ch: nat): Letter
  {
    Letter(ch, match EntityName(ch) case Some(name) => Named(name) case None => Raw)
  }

  function EscapedLetters(s: Text): seq<Letter>
  {
    if s == [] then [] else [EscapedLetter(s[0])] + EscapedLetters(s[1..])
  }

  lemma {:induction false} RawLettersAre(s: Text, rest: Text)
    ensures Written(RawLetters(s), rest) == s + rest && Chars(RawLetters(s)) == s && |RawLetters(s)| == |s|
    ensures forall i | 0 <= i < |s| :: RawLetters(s)[i] == Letter(s[i], Raw)
  {
    if s == [] {
      assert s + rest == rest;
    } else {
      RawLettersAre(s[1..], rest);
      assert s + rest == [s[0]] + (s[1..] + rest);
    }
  }

  lemma EscapedFirst(ch: nat, rest: Text)
    ensures Spelled(EscapedLetter(ch), rest) == EscapeChar(ch) + rest
  {
    if EntityName(ch).Some? {
      var name := EntityName(ch).value;
      Together([AMP] + name, [SEMICOLON], rest);
      Together([AMP], name, [SEMICOLON] + rest);
    }
  }

  lemma {:induction false} EscapedLettersAre(s: Text, rest: Text)
    ensures Written(EscapedLetters(s), rest) == Escape(s) + rest && Chars(EscapedLetters(s)) == s
    ensures |EscapedLetters(s)| == |s| && forall i | 0 <= i < |s| :: EscapedLetters(s)[i] == EscapedLetter(s[i])
  {
    if s == [] {
      assert Escape(s) + rest == rest;
    } else {
      EscapedLettersAre(s[1..], rest);
      EscapedFirst(s[0], Escape(s[1..]) + rest);
      Together(EscapeChar(s[0]), Escape(s[1..]), rest);
    }
  }

  /** The printer's spelling of a character is one that the parser knows. */
  lemma EscapedIsKnown(ch: nat, resolve: Resolver)
    requires Standard(resolve)
    ensures MaySpell(EscapedLetter(ch), resolve)
    ensures EscapedLetter(ch).sp.Raw? <==> ch != AMP && ch != LT && ch != GT && ch != QUOTE
  {
    if EntityName(ch).Some? {
      var p := if ch == AMP then Amp else if ch == LT then Lt else if ch == GT then Gt else Quot;
      assert resolve(PredefinedName(p)) == PredefinedChar(p);
    }
  }

  function PrintedAttr(a: Attr, col: nat): Laid
    requires GoodAttr(a)
  {
    var gap := if col + AttrWidth(a) > WRAP then [NEWLINE] else [BLANK];
    if Quote(a.name[0]) then QuotedName(gap, a.name[0], EscapedLetters(a.name[1..|a.name| - 1]))
    else match a.value
      case None => Bare(gap, a.name[0], RawLetters(a.name[1..]))
      case Some(value) => Valued(gap, a.name[0], RawLetters(a.name[1..]), QUOTE, EscapedLetters(value))
  }

  lemma {:induction false} QuotedTextIs(body: Text, quote: nat)
    requires forall i | 0 <= i < |body| :: body[i] != quote
    ensures QuotedText(body + [quote], quote) == Escape(body)
  {
    if body != [] {
      assert (body + [quote])[1..] == body[1..] + [quote];
      QuotedTextIs(body[1..], quote);
    }
  }

  lemma EscapedAreKnown(s: Text, resolve: Resolver)
    requires Standard(resolve)
    ensures var ls := EscapedLetters(s);
      forall i | 0 <= i < |ls| ::
        MaySpell(ls[i], resolve) && (ls[i].sp.Raw? ==> ls[i].ch != LT && ls[i].ch != GT && ls[i].ch != QUOTE)
  {
    var ls := EscapedLetters(s);
    EscapedLettersAre(s, []);
    forall i | 0 <= i < |ls|
      ensures MaySpell(ls[i], resolve) && (ls[i].sp.Raw? ==> ls[i].ch != LT && ls[i].ch != GT && ls[i].ch != QUOTE)
    {
      EscapedIsKnown(s[i], resolve);
    }
  }

  /** The printed attribute is a layout of the attribute. */
  ghost predicate IsLaid(a: Attr, col: nat, rest: Text, resolve: Resolver)
    requires GoodAttr(a)
  {
    var laid := PrintedAttr(a, col);
    AttrOf(laid) == a && LaidText(laid, rest) == AttrOut(a, col).text + rest && MayLay(laid, resolve)
  }

  lemma QuotedNameText(gap: Text, q: nat, body: Text, rest: Text)
    ensures gap + ([q] + (body + ([q] + rest))) == gap + ([q] + body + [q]) + rest
  {
    Together(gap, [q] + body + [q], rest);
    Together([q] + body, [q], rest);
    Together([q], body, [q] + rest);
  }

  lemma QuotedNameIs(a: Attr, col: nat, rest: Text, resolve: Resolver)
    requires GoodAttr(a) && Quote(a.name[0]) && Standard(resolve)
    ensures IsLaid(a, col, rest, resolve)
  {
    var q, body, gap := a.name[0], a.name[1..|a.name| - 1], PrintedAttr(a, col).gap;
    EscapedLettersAre(body, [q] + rest);
    EscapedAreKnown(body, resolve);
    QuotedTextIs(body, q);
    assert a.name == [q] + body + [q] && a.name[1..] == body + [q];
    assert AttrText(a) == [q] + Escape(body) + [q];
    QuotedNameText(gap, q, Escape(body), rest);
  }

  lemma BareIs(a: Attr, col: nat, rest: Text, resolve: Resolver)
    requires GoodAttr(a) && !Quote(a.name[0]) && a.value.None?
    ensures IsLaid(a, col, rest, resolve)
  {
    var gap, others := PrintedAttr(a, col).gap, a.name[1..];
    RawLettersAre(others, rest);
    assert AttrText(a) == a.name == [a.name[0]] + others;
    Together(gap, a.name, rest);
    Together([a.name[0]], others, rest);
  }

  lemma ValuedText(gap: Text, name: Text, first: Text, others: Text, v: Text, rest: Text)
    requires name == first + others
    ensures gap + (first + (others + ([EQUAL] + ([QUOTE] + (v + ([QUOTE] + rest))))))
         == gap + (name + ([EQUAL, QUOTE] + v + [QUOTE])) + rest
  {
    var end := [EQUAL, QUOTE] + v + [QUOTE];
    assert end + rest == [EQUAL] + ([QUOTE] + (v + ([QUOTE] + rest)));
    Together(gap, name + end, rest);
    Together(name, end, rest);
    Together(first, others, end + rest);
  }

  lemma ValuedIs(a: Attr, col: nat, rest: Text, resolve: Resolver)
    requires GoodAttr(a) && !Quote(a.name[0]) && a.value.Some? && Standard(resolve)
    ensures IsLaid(a, col, rest, resolve)
  {
    var gap, others, v := PrintedAttr(a, col).gap, a.name[1..], Escape(a.value.value);
    EscapedLettersAre(a.value.value, [QUOTE] + rest);
    EscapedAreKnown(a.value.value, resolve);
    RawLettersAre(others, [EQUAL] + ([QUOTE] + (v + ([QUOTE] + rest))));
    ValuedText(gap, a.name, [a.name[0]], others, v, rest);
  }

  lemma AttrIsLaid(a: Attr, col: nat, rest: Text, resolve: Resolver)
    requires GoodAttr(a) && Standard(resolve)
    ensures IsLaid(a, col, rest, resolve)
  {
    if Quote(a.name[0]) {
      QuotedNameIs(a, col, rest, resolve);
    } else if a.value.None? {
      BareIs(a, col, rest, resolve);
    } else {
      ValuedIs(a, col, rest, resolve);
    }
  }

  function PrintedAttrs(attrs: seq<Attr>, col: nat): seq<Laid>
    requires forall i | 0 <= i < |attrs| :: GoodAttr(attrs[i])
  {
    if attrs == [] then [] else [PrintedAttr(attrs[0], col)] + PrintedAttrs(attrs[1..], AttrOut(attrs[0], col).col)
  }

  /** The printed attributes are a layout of them. */
  lemma {:induction false} AttrsAreLaid(attrs: seq<Attr>, col: nat, glued: bool, rest: Text, resolve: Resolver)
    requires (forall i | 0 <= i < |attrs| :: GoodAttr(attrs[i])) && Standard(resolve)
    ensures AttrsLaid(PrintedAttrs(attrs, col)) == attrs && MayLayAll(PrintedAttrs(attrs, col), glued, resolve)
    ensures LaidAll(PrintedAttrs(attrs, col), rest) == AttrsOut(attrs, col).text + rest
    decreases |attrs|
  {
    if attrs == [] {
      assert AttrsOut(attrs, col).text + rest == rest;
    } else {
      var next, laid := AttrOut(attrs[0], col), PrintedAttrs(attrs, col);
      AttrsAreLaid(attrs[1..], next.col, Open(laid[0]), rest, resolve);
      AttrIsLaid(attrs[0], col, AttrsOut(attrs[1..], next.col).text + rest, resolve);
      Together(next.text, AttrsOut(attrs[1..], next.col).text, rest);
    }
  }

  /** The column where the children of an element start. */
  function InnerCol(e: Node, col: nat): nat
    requires e.Element?
  {
    AttrsOut(e.attrs, OpenOut(e.name, col).col).col + 1
  }

  function PrintedDoc(node: Node, col: nat): Doc
    requires GoodNode(node)
    decreases node, 0
  {
    match node
    case Word(ws, text) => Run(Separator(ws, col).text, EscapedLetters(text))
    case Element(name, attrs, children) =>
      if NoteText(name) then Note(name) else
        var list := PrintedAttrs(attrs, OpenOut(name, col).col);
        if children == [] then Leaf(RawLetters(name), list, [BLANK])
        else
          var inside := PrintedDocs(children, InnerCol(node, col), AfterTag);
          Tag(RawLetters(name), list, [], inside, EscapedLetters(name), [])
  }

  function PrintedDocs(nodes: seq<Node>, col: nat, ghost before: Before): seq<Doc>
    requires GoodNodes(nodes, before)
    decreases nodes, 0
  {
    if nodes == [] then []
    else [PrintedDoc(nodes[0], col)] + PrintedDocs(nodes[1..], NodeOut(nodes[0], col).col, BehindNode(nodes[0]))
  }

  /** A printed node is a part of a document for the node. */
  ghost predicate IsWritten(node: Node, col: nat, rest: Text, resolve: Resolver)
    requires GoodNode(node)
  {
    var d := PrintedDoc(node, col);
    && TreeOf(d) == node && DocText(d, rest) == NodeOut(node, col).text + rest && MayWrite(d, resolve)
    && (node.Element? ==> NodeOut(node, col).col > 0)
  }

  lemma WordIsWritten(node: Node, col: nat, rest: Text, resolve: Resolver)
    requires node.Word? && GoodNode(node) && (node.whitespace ==> col > 0) && Standard(resolve)
    ensures IsWritten(node, col, rest, resolve)
    ensures node.text != [] ==> NodeOut(node, col).col > 0
  {
    EscapedLettersAre(node.text, rest);
    EscapedAreKnown(node.text, resolve);
    Together(Separator(node.whitespace, col).text, Escape(node.text), rest);
  }

  lemma NoteIsPrinted(name: Text, col: nat)
    requires NoteText(name)
    ensures var out := NodeOut(Element(name, [], []), col); out.text == [LT] + name + [GT] && out.col > 0
  {
    assert name[0] == BANG && Verbatim(name);
    assert [LT] + name + [] == [LT] + name;
  }

  lemma NoteIsWritten(node: Node, col: nat, rest: Text, resolve: Resolver)
    requires node.Element? && NoteText(node.name) && GoodNode(node)
    ensures IsWritten(node, col, rest, resolve)
  {
    NoteIsPrinted(node.name, col);
    Together([LT] + node.name, [GT], rest);
    Together([LT], node.name, [GT] + rest);
  }

  lemma NameIsWritten(name: Text, resolve: Resolver)
    requires SimpleName(name) && Standard(resolve)
    ensures NameLetters(RawLetters(name), resolve) && NameLetters(EscapedLetters(name), resolve)
    ensures Chars(RawLetters(name)) == name && Chars(EscapedLetters(name)) == name
    ensures OpenOut(name, 0).text == [LT] + name && !NoteText(name) && !Special(name)
  {
    RawLettersAre(name, []);
    EscapedLettersAre(name, []);
    EscapedAreKnown(name, resolve);
  }

  lemma LeafText(node: Node, col: nat, rest: Text)
    requires node.Element? && SimpleName(node.name) && node.children == []
    ensures NodeOut(node, col).text + rest
            == [LT] + (node.name + (AttrsOut(node.attrs, OpenOut(node.name, col).col).text
                                    + ([BLANK] + ([SLASH, GT] + rest))))
    ensures NodeOut(node, col).col > 0
  {
    var start := AttrsOut(node.attrs, OpenOut(node.name, col).col).text;
    assert NodeOut(node, col).text == [LT] + node.name + start + [BLANK, SLASH, GT];
    assert [BLANK, SLASH, GT] + rest == [BLANK] + ([SLASH, GT] + rest);
    Together([LT] + node.name + start, [BLANK, SLASH, GT], rest);
    Together([LT] + node.name, start, [BLANK, SLASH, GT] + rest);
    Together([LT], node.name, start + ([BLANK, SLASH, GT] + rest));
  }

  lemma LeafIsWritten(node: Node, col: nat, rest: Text, resolve: Resolver)
    requires node.Element? && SimpleName(node.name) && node.children == [] && GoodNode(node) && Standard(resolve)
    ensures IsWritten(node, col, rest, resolve)
  {
    var open, tail := OpenOut(node.name, col), [BLANK] + ([SLASH, GT] + rest);
    NameIsWritten(node.name, resolve);
    LeafText(node, col, rest);
    AttrsAreLaid(node.attrs, open.col, true, tail, resolve);
    RawLettersAre(node.name, AttrsOut(node.attrs, open.col).text + tail);
  }

  /** The children of an element, its close tag, and the rest. */
  function InnerText(e: Node, col: nat, rest: Text): Text
    requires e.Element?
  {
    NodesOut(e.children, InnerCol(e, col)).text + (CloseText(e.name) + rest)
  }

  lemma CloseTextIs(name: Text, rest: Text)
    ensures CloseText(name) + rest == [LT] + ([SLASH] + (Escape(name) + ([GT] + rest)))
  {
    var e := Escape(name);
    Together([LT, SLASH] + e, [GT], rest);
    Together([LT, SLASH], e, [GT] + rest);
    assert [LT, SLASH] == [LT] + [SLASH];
    Together([LT], [SLASH], e + ([GT] + rest));
  }

  lemma ParentText(e: Node, col: nat, rest: Text)
    requires e.Element? && SimpleName(e.name) && e.children != []
    ensures NodeOut(e, col).text + rest
            == [LT] + (e.name + (AttrsOut(e.attrs, OpenOut(e.name, col).col).text + ([GT] + InnerText(e, col, rest))))
    ensures NodeOut(e, col).col > 0
  {
    var start := AttrsOut(e.attrs, OpenOut(e.name, col).col).text;
    var inside, close := NodesOut(e.children, InnerCol(e, col)).text, CloseText(e.name);
    assert NodeOut(e, col).text == [LT] + e.name + start + [GT] + inside + close;
    Together([LT] + e.name + start + [GT] + inside, close, rest);
    Together([LT] + e.name + start + [GT], inside, close + rest);
    Together([LT] + e.name + start, [GT], inside + (close + rest));
    Together([LT] + e.name, start, [GT] + (inside + (close + rest)));
    Together([LT], e.name, start + ([GT] + (inside + (close + rest))));
  }

  lemma ParentIsWritten(node: Node, col: nat, rest: Text, resolve: Resolver)
    requires node.Element? && SimpleName(node.name) && node.children != [] && GoodNode(node) && Standard(resolve)
    requires GoodNodes(node.children, AfterTag)
      && AreWritten(node.children, InnerCol(node, col), AfterTag, CloseText(node.name) + rest, resolve)
    ensures IsWritten(node, col, rest, resolve)
  {
    var open, tail := OpenOut(node.name, col), [GT] + InnerText(node, col, rest);
    NameIsWritten(node.name, resolve);
    ParentText(node, col, rest);
    CloseTextIs(node.name, rest);
    AttrsAreLaid(node.attrs, open.col, true, tail, resolve);
    RawLettersAre(node.name, AttrsOut(node.attrs, open.col).text + tail);
    EscapedLettersAre(node.name, [GT] + rest);
    assert [] + ([GT] + rest) == [GT] + rest && [] + tail == tail;
  }

  ghost predicate AreWritten(nodes: seq<Node>, col: nat, before: Before, rest: Text, resolve: Resolver)
    requires GoodNodes(nodes, before)
  {
    var docs := PrintedDocs(nodes, col, before);
    && TreesOf(docs) == nodes && DocsText(docs, rest) == NodesOut(nodes, col).text + rest
    && MayWriteAll(docs, before, resolve)
  }

  lemma {:induction false} NodeIsWritten(node: Node, col: nat, rest: Text, resolve: Resolver)
    requires GoodNode(node) && (node.Word? && node.whitespace ==> col > 0) && Standard(resolve)
    ensures IsWritten(node, col, rest, resolve)
    ensures node.Word? && node.text != [] ==> NodeOut(node, col).col > 0
    decreases node, 0
  {
    if node.Word? {
      WordIsWritten(node, col, rest, resolve);
    } else if NoteText(node.name) {
      NoteIsWritten(node, col, rest, resolve);
    } else if node.children == [] {
      LeafIsWritten(node, col, rest, resolve);
    } else {
      NodesAreWritten(node.children, InnerCol(node, col), AfterTag, CloseText(node.name) + rest, resolve);
      ParentIsWritten(node, col, rest, resolve);
    }
  }

  lemma NodesText(nodes: seq<Node>, col: nat, rest: Text)
    requires nodes != []
    ensures var out := NodeOut(nodes[0], col);
      NodesOut(nodes, col).text + rest == out.text + (NodesOut(nodes[1..], out.col).text + rest)
  {
    var out := NodeOut(nodes[0], col);
    Together(out.text, NodesOut(nodes[1..], out.col).text, rest);
  }

  /** The printed children are a document of them; white space is only lost in column 0, which
      no child but the first can start in. */
  lemma {:induction false} NodesAreWritten(nodes: seq<Node>, col: nat, before: Before, rest: Text, resolve: Resolver)
    requires GoodNodes(nodes, before) && Standard(resolve) && (before != AfterBlank ==> col > 0)
    ensures AreWritten(nodes, col, before, rest, resolve)
    decreases nodes, 0
  {
    if nodes == [] {
      assert NodesOut(nodes, col).text + rest == rest;
    } else {
      var out := NodeOut(nodes[0], col);
      NodesText(nodes, col, rest);
      NodeIsWritten(nodes[0], col, NodesOut(nodes[1..], out.col).text + rest, resolve);
      NodesAreWritten(nodes[1..], out.col, BehindNode(nodes[0]), rest, resolve);
      NodesJoin(nodes, col, before, rest, resolve);
    }
  }

  lemma NodesJoin(nodes: seq<Node>, col: nat, before: Before, rest: Text, resolve: Resolver)
    requires nodes != [] && GoodNodes(nodes, before) && (before != AfterBlank ==> col > 0)
    requires var out := NodeOut(nodes[0], col);
      && NodesOut(nodes, col).text + rest == out.text + (NodesOut(nodes[1..], out.col).text + rest)
      && IsWritten(nodes[0], col, NodesOut(nodes[1..], out.col).text + rest, resolve)
      && AreWritten(nodes[1..], out.col, BehindNode(nodes[0]), rest, resolve)
    ensures AreWritten(nodes, col, before, rest, resolve)
  {
    var docs := PrintedDocs(nodes, col, before);
    assert docs[0] == PrintedDoc(nodes[0], col);
    assert docs[1..] == PrintedDocs(nodes[1..], NodeOut(nodes[0], col).col, BehindNode(nodes[0]));
    assert nodes == [nodes[0]] + nodes[1..];
    FirstMayFollow(nodes[0], col, before);
  }

  lemma FirstMayFollow(node: Node, col: nat, before: Before)
    requires GoodNode(node) && MayStand(node, before) && (before != AfterBlank ==> col > 0)
    ensures MayFollow(PrintedDoc(node, col), before) && Behind(PrintedDoc(node, col)) == BehindNode(node)
  {
    if node.Word? { EscapedLettersAre(node.text, []); }
  }

  // ---------- the root ----------

  /** A processing instruction or a declaration that is the last child. */
  predicate HasHead(root: Node) { root.Element? && root.children != [] && Head(root.children[|root.children| - 1]) }

  function Front(root: Node): seq<Node>
    requires root.Element?
  {
    if HasHead(root) then root.children[..|root.children| - 1] else root.children
  }

  function PrintedLevels(root: Node, col: nat): seq<Level>
    requires GoodRoot(root)
    decreases root
  {
    var front := Front(root);
    var inner := NodesOut(front, InnerCol(root, col)).col;
    [Level(root.name, PrintedDocs(front, InnerCol(root, col), AfterTag))]
    + if HasHead(root) then PrintedLevels(root.children[|root.children| - 1], inner) else []
  }

  lemma NodesOutFirst(nodes: seq<Node>, col: nat)
    requires nodes != []
    ensures var first := NodeOut(nodes[0], col);
      var rest := NodesOut(nodes[1..], first.col);
      NodesOut(nodes, col) == Out(first.text + rest.text, rest.col)
  {
  }

  lemma {:induction false} NodesOutLast(nodes: seq<Node>, last: Node, col: nat)
    ensures var front := NodesOut(nodes, col);
      var end := NodeOut(last, front.col);
      NodesOut(nodes + [last], col) == Out(front.text + end.text, end.col)
    decreases |nodes|
  {
    var all := nodes + [last];
    NodesOutFirst(all, col);
    if nodes == [] {
      assert all[1..] == [];
    } else {
      var first := NodeOut(nodes[0], col);
      var front := NodesOut(nodes[1..], first.col);
      NodesOutFirst(nodes, col);
      assert all[1..] == nodes[1..] + [last];
      NodesOutLast(nodes[1..], last, first.col);
      Together(first.text, front.text, NodeOut(last, front.col).text);
    }
  }

  /** The printed text of a head, which has no end tag. */
  lemma HeadIs(root: Node, col: nat, rest: Text)
    requires Head(root)
    ensures NodeOut(root, col).text + rest
         == [LT] + (root.name + ([GT] + (NodesOut(root.children, InnerCol(root, col)).text + rest)))
    ensures NodeOut(root, col).col == NodesOut(root.children, InnerCol(root, col)).col
  {
    var inside := NodesOut(root.children, InnerCol(root, col)).text;
    assert OpenOut(root.name, col).text == [LT] + root.name;
    if root.children == [] {
      assert NodeOut(root, col).text == [LT] + root.name + [] + [GT];
    } else {
      assert NodeOut(root, col).text == [LT] + root.name + [] + [GT] + inside + [];
    }
    assert NodeOut(root, col).text == [LT] + root.name + [GT] + inside;
    Together([LT] + root.name + [GT], inside, rest);
    Together([LT] + root.name, [GT], inside + rest);
    Together([LT], root.name, [GT] + (inside + rest));
  }

  /** After children whose last one is not white space alone, the column is not 0. */
  lemma {:induction false} LastCol(nodes: seq<Node>, col: nat, before: Before, resolve: Resolver)
    requires nodes != [] && GoodNodes(nodes, before) && BehindNode(nodes[|nodes| - 1]) != AfterBlank
    requires Standard(resolve) && (before != AfterBlank ==> col > 0)
    ensures NodesOut(nodes, col).col > 0
    decreases |nodes|
  {
    NodesOutFirst(nodes, col);
    NodeIsWritten(nodes[0], col, [], resolve);
    if |nodes| > 1 {
      LastCol(nodes[1..], NodeOut(nodes[0], col).col, BehindNode(nodes[0]), resolve);
    } else {
      assert NodesOut(nodes[1..], NodeOut(nodes[0], col).col) == Out([], NodeOut(nodes[0], col).col);
    }
  }

  /** The printed root is a stack of heads and their contents. */
  ghost predicate IsStacked(root: Node, col: nat, rest: Text, resolve: Resolver)
    requires GoodRoot(root)
  {
    var levels := PrintedLevels(root, col);
    && MayStack(levels, resolve) && TreeOfLevels(levels) == root
    && LevelsText(levels, rest) == NodeOut(root, col).text + rest
    && BeforeOf(TreesOf(levels[|levels| - 1].docs)) != AfterBlank && NodeOut(root, col).col > 0
  }

  lemma InnermostIsStacked(root: Node, col: nat, rest: Text, resolve: Resolver)
    requires GoodRoot(root) && !HasHead(root) && Standard(resolve)
    ensures IsStacked(root, col, rest, resolve)
  {
    var inner := InnerCol(root, col);
    HeadIs(root, col, rest);
    NodesAreWritten(root.children, inner, AfterTag, rest, resolve);
    if root.children != [] { LastCol(root.children, inner, AfterTag, resolve); }
    assert PrintedLevels(root, col) == [Level(root.name, PrintedDocs(root.children, inner, AfterTag))];
    assert PrintedLevels(root, col)[1..] == [] && root.children + [] == root.children;
  }

  lemma OuterText(root: Node, front: seq<Node>, last: Node, col: nat, rest: Text)
    requires Head(root) && root.children == front + [last]
    ensures
      var out := NodesOut(front, InnerCol(root, col));
      var end := NodeOut(last, out.col);
      && NodeOut(root, col).text + rest == [LT] + (root.name + ([GT] + (out.text + (end.text + rest))))
      && NodeOut(root, col).col == end.col
  {
    var out := NodesOut(front, InnerCol(root, col));
    HeadIs(root, col, rest);
    NodesOutLast(front, last, InnerCol(root, col));
    Together(out.text, NodeOut(last, out.col).text, rest);
  }

  lemma OuterIsStacked(root: Node, col: nat, rest: Text, resolve: Resolver)
    requires GoodRoot(root) && HasHead(root) && Standard(resolve)
    requires var inner := NodesOut(Front(root), InnerCol(root, col)).col;
      IsStacked(root.children[|root.children| - 1], inner, rest, resolve)
    ensures IsStacked(root, col, rest, resolve)
  {
    var front, inner, last := Front(root), InnerCol(root, col), root.children[|root.children| - 1];
    var out := NodesOut(front, inner);
    var more := NodeOut(last, out.col).text + rest;
    var docs, levels := PrintedDocs(front, inner, AfterTag), PrintedLevels(last, out.col);
    OuterLevels(root, col);
    OuterText(root, front, last, col, rest);
    NodesAreWritten(front, inner, AfterTag, more, resolve);
    assert LevelsText(levels, rest) == more && TreeOfLevels(levels) == last && MayStack(levels, resolve);
    assert DocsText(docs, more) == out.text + more && TreesOf(docs) == front && MayWriteAll(docs, AfterTag, resolve);
    StackIs(root, col, rest, docs, levels, out.text, more, resolve);
  }

  lemma StackIs(root: Node, col: nat, rest: Text, docs: seq<Doc>, inner: seq<Level>, front: Text, more: Text,
                resolve: Resolver)
    requires GoodRoot(root) && PrintedLevels(root, col) == [Level(root.name, docs)] + inner
    requires inner != [] && MayStack(inner, resolve) && MayWriteAll(docs, AfterTag, resolve)
    requires LevelsText(inner, rest) == more && root.children == TreesOf(docs) + [TreeOfLevels(inner)]
    requires BeforeOf(TreesOf(inner[|inner| - 1].docs)) != AfterBlank && NodeOut(root, col).col > 0
    requires NodeOut(root, col).text + rest == [LT] + (root.name + ([GT] + (front + more)))
    requires DocsText(docs, more) == front + more
    ensures IsStacked(root, col, rest, resolve)
  {
    LevelsJoin(root, docs, inner, rest, more, resolve);
  }

  lemma OuterLevels(root: Node, col: nat)
    requires GoodRoot(root) && HasHead(root)
    ensures var last := root.children[|root.children| - 1];
      && GoodRoot(last) && GoodNodes(Front(root), AfterTag) && root.children == Front(root) + [last]
      && PrintedLevels(root, col)
         == [Level(root.name, PrintedDocs(Front(root), InnerCol(root, col), AfterTag))]
            + PrintedLevels(last, NodesOut(Front(root), InnerCol(root, col)).col)
  {
  }

  lemma LevelsJoin(root: Node, docs: seq<Doc>, inner: seq<Level>, rest: Text, more: Text, resolve: Resolver)
    requires Head(root) && inner != [] && MayStack(inner, resolve) && MayWriteAll(docs, AfterTag, resolve)
    requires LevelsText(inner, rest) == more && root.children == TreesOf(docs) + [TreeOfLevels(inner)]
    ensures var levels := [Level(root.name, docs)] + inner;
      && MayStack(levels, resolve) && TreeOfLevels(levels) == root
      && LevelsText(levels, rest) == [LT] + (root.name + ([GT] + DocsText(docs, more)))
      && levels[|levels| - 1] == inner[|inner| - 1]
  {
    assert ([Level(root.name, docs)] + inner)[1..] == inner;
  }

  lemma {:induction false} RootIsWritten(root: Node, col: nat, rest: Text, resolve: Resolver)
    requires GoodRoot(root) && Standard(resolve)
    ensures IsStacked(root, col, rest, resolve)
    decreases root
  {
    if HasHead(root) {
      var out := NodesOut(Front(root), InnerCol(root, col));
      RootIsWritten(root.children[|root.children| - 1], out.col, rest, resolve);
      OuterIsStacked(root, col, rest, resolve);
    } else {
      InnermostIsStacked(root, col, rest, resolve);
    }
  }

  /** Loading what is printed for a tree gives the tree, for every table of entities that has
      the predefined names. */
  lemma RoundTrip(root: Node, resolve: Resolver)
    requires GoodRoot(root) && Standard(resolve)
    ensures LoadedText(Saved(root), resolve) == Tree(root)
  {
    RootIsWritten(root, 0, [NEWLINE], resolve);
    DocumentLoads(PrintedLevels(root, 0), [NEWLINE], resolve);
  }

  // ---------- the printed bytes are read as the printed characters ----------

  predicate ReadableAttr(a: Attr) { AllReadable(a.name) && (a.value.Some? ==> AllReadable(a.value.value)) }

  /** All strings of a tree can be read from UTF-8. */
  predicate ReadableNodes(nodes: seq<Node>)
    decreases nodes
  {
    nodes == [] || (ReadableNodes(nodes[1..]) &&
      match nodes[0]
      case Element(name, attrs, children) =>
        AllReadable(name) && (forall i | 0 <= i < |attrs| :: ReadableAttr(attrs[i])) && ReadableNodes(children)
      case Word(_, text) => AllReadable(text))
  }

  lemma {:induction false} EscapeReadable(s: Text)
    requires AllReadable(s)
    ensures AllReadable(Escape(s))
  {
    if s != [] { EscapeReadable(s[1..]); }
  }

  lemma {:induction false} QuotedReadable(s: Text, quote: nat)
    requires AllReadable(s)
    ensures AllReadable(QuotedText(s, quote))
  {
    if s != [] && s[0] != quote { QuotedReadable(s[1..], quote); }
  }

  lemma NameReadable(name: Text)
    requires AllReadable(name)
    ensures AllReadable(NameText(name))
  {
    if name != [] { QuotedReadable(name[1..], name[0]); }
  }

  lemma ReadableConcat(a: Text, b: Text)
    requires AllReadable(a) && AllReadable(b)
    ensures AllReadable(a + b)
  {
  }

  lemma AttrReadable(a: Attr)
    requires ReadableAttr(a)
    ensures AllReadable(AttrText(a))
  {
    NameReadable(a.name);
    if a.value.Some? {
      var v := Escape(a.value.value);
      EscapeReadable(a.value.value);
      ReadableConcat([EQUAL, QUOTE], v);
      ReadableConcat([EQUAL, QUOTE] + v, [QUOTE]);
      ReadableConcat(NameText(a.name), [EQUAL, QUOTE] + v + [QUOTE]);
    } else {
      ReadableConcat(NameText(a.name), []);
    }
  }

  lemma {:induction false} AttrsReadable(attrs: seq<Attr>, col: nat)
    requires forall i | 0 <= i < |attrs| :: ReadableAttr(attrs[i])
    ensures AllReadable(AttrsOut(attrs, col).text)
    decreases |attrs|
  {
    if attrs != [] {
      var first := AttrOut(attrs[0], col);
      AttrsReadable(attrs[1..], first.col);
      AttrReadable(attrs[0]);
      ReadableConcat([if col + AttrWidth(attrs[0]) > WRAP then NEWLINE else BLANK], AttrText(attrs[0]));
      ReadableConcat(first.text, AttrsOut(attrs[1..], first.col).text);
    }
  }

  lemma StartReadable(e: Node, col: nat)
    requires e.Element? && AllReadable(e.name) && forall i | 0 <= i < |e.attrs| :: ReadableAttr(e.attrs[i])
    ensures AllReadable(OpenOut(e.name, col).text + AttrsOut(e.attrs, OpenOut(e.name, col).col).text)
  {
    var open := OpenOut(e.name, col);
    AttrsReadable(e.attrs, open.col);
    NameReadable(e.name);
    ReadableConcat([LT], if Verbatim(e.name) then e.name else NameText(e.name));
    ReadableConcat(open.text, AttrsOut(e.attrs, open.col).text);
  }

  lemma EndReadable(name: Text)
    requires AllReadable(name)
    ensures AllReadable(CloseText(name))
  {
    EscapeReadable(name);
    ReadableConcat([LT, SLASH], Escape(name));
    ReadableConcat([LT, SLASH] + Escape(name), [GT]);
  }

  lemma ElementReadable(e: Node, col: nat, inside: Out)
    requires e.Element? && AllReadable(e.name) && forall i | 0 <= i < |e.attrs| :: ReadableAttr(e.attrs[i])
    requires inside == NodesOut(e.children, InnerCol(e, col)) && AllReadable(inside.text)
    ensures AllReadable(NodeOut(e, col).text)
  {
    var start := OpenOut(e.name, col).text + AttrsOut(e.attrs, OpenOut(e.name, col).col).text;
    StartReadable(e, col);
    if e.children != [] {
      EndReadable(e.name);
      InsideReadable(start, inside.text, if Special(e.name) then [] else CloseText(e.name));
    } else {
      ReadableConcat(start, if Special(e.name) then [GT] else [BLANK, SLASH, GT]);
    }
  }

  lemma InsideReadable(start: Text, inside: Text, end: Text)
    requires AllReadable(start) && AllReadable(inside) && AllReadable(end)
    ensures AllReadable(start + [GT] + inside + end)
  {
    ReadableConcat(start, [GT]);
    ReadableConcat(start + [GT], inside);
    ReadableConcat(start + [GT] + inside, end);
  }

  lemma {:induction false} NodeReadable(node: Node, col: nat)
    requires ReadableNodes([node])
    ensures AllReadable(NodeOut(node, col).text)
    decreases node, 1
  {
    match node
    case Word(_, text) => EscapeReadable(text);
    case Element(_, _, children) =>
      NodesReadable(children, InnerCol(node, col));
      ElementReadable(node, col, NodesOut(children, InnerCol(node, col)));
  }

  lemma {:induction false} NodesReadable(nodes: seq<Node>, col: nat)
    requires ReadableNodes(nodes)
    ensures AllReadable(NodesOut(nodes, col).text)
    decreases nodes, 0
  {
    if nodes != [] {
      assert [nodes[0]][1..] == [];
      NodeReadable(nodes[0], col);
      NodesReadable(nodes[1..], NodeOut(nodes[0], col).col);
    }
  }

  lemma {:induction false} ReadableWritable(nodes: seq<Node>)
    requires ReadableNodes(nodes)
    ensures WritableAll(nodes)
    decreases nodes
  {
    if nodes != [] {
      match nodes[0]
      case Element(name, attrs, children) =>
        assert forall i | 0 <= i < |attrs| :: ReadableAttr(attrs[i]);
        ReadableWritable(children);
        ReadableWritable(nodes[1..]);
      case Word(_, text) => ReadableWritable(nodes[1..]);
    }
  }

  /** The bytes that are printed for the UTF-8 strings of a tree are read as the tree. */
  lemma BytesRoundTrip(root: Node, resolve: Resolver)
    requires GoodRoot(root) && ReadableNodes([root]) && Standard(resolve)
    ensures Writable(root) && Encodable(Saved(root))
    ensures
      var bytes := EncodeAll(Saved(root));
      SavedBytes([EncodedNode(root)]) == bytes && LoadedText(DecodeAll(bytes), resolve) == Tree(root)
  {
    ReadableWritable([root]);
    SavedSame(root);
    NodeReadable(root, 0);
    DecodeEncoded(Saved(root));
    RoundTrip(root, resolve);
  }
}
