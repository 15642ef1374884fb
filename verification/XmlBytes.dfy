/** Mini-XML's printer as it runs, on UTF-8 strings: what it writes for the bytes of a tree are
    the bytes of what the printer on characters gives. */
module XmlBytes {
  import opened Sequences
  import opened Octets
  import opened Utf8
  import opened XmlText

  // ---------- the printer on bytes, where strlen counts columns ----------

  function AttrSize(a: Attr): nat { |a.name| + if a.value.Some? then |a.value.value| + 3 else 0 }

  function AttrBytes(a: Attr, col: nat): Out
  {
    var wrap := col + AttrSize(a) > WRAP;
    Out([if wrap then NEWLINE else BLANK] + AttrText(a), (if wrap then 0 else col + 1) + AttrSize(a))
  }

  function AttrsBytes(attrs: seq<Attr>, col: nat): Out
  {
    if attrs == [] then Out([], col) else
      var first := AttrBytes(attrs[0], col);
      var rest := AttrsBytes(attrs[1..], first.col);
      Out(first.text + rest.text, rest.col)
  }

  function OpenBytes(name: Text, col: nat): Out
  {
    Out([LT] + (if Verbatim(name) then name else NameText(name)),
        (if Verbatim(name) && XML <= name then WRAP else col) + |name| + 1)
  }

  /** mxml_write_node, for one node. */
  function NodeBytes(node: Node, col: nat): Out
    decreases node
  {
    match node
    case Word(ws, text) =>
      var sep := Separator(ws, col);
      Out(sep.text + Escape(text), sep.col + |text|)
    case Element(name, attrs, children) =>
      var open := OpenBytes(name, col);
      var start := AttrsBytes(attrs, open.col);
      if children != [] then
        var inside := NodesBytes(children, start.col + 1);
        var end := if Special(name) then Out([], 0) else Out(CloseText(name), |name| + 3);
        Out(open.text + start.text + [GT] + inside.text + end.text, inside.col + end.col)
      else
        var end := if Special(name) then [GT] else [BLANK, SLASH, GT];
        Out(open.text + start.text + end, start.col + |end|)
  }

  /** mxml_write_node, for a node and the ones after it. */
  function NodesBytes(nodes: seq<Node>, col: nat): Out
    decreases nodes
  {
    if nodes == [] then Out([], col) else
      var first := NodeBytes(nodes[0], col);
      var rest := NodesBytes(nodes[1..], first.col);
      Out(first.text + rest.text, rest.col)
  }

  /** mxmlSaveString: the node and the ones after it, and a newline. */
  function SavedBytes(nodes: seq<Node>): Text
  {
    var out := NodesBytes(nodes, 0);
    out.text + if out.col > 0 then [NEWLINE] else []
  }

  // ---------- the bytes of a tree ----------

  /** The bytes of a string, as a string. */
  function Utf8Of(s: Text): Text
    requires Encodable(s)
  {
    EncodeAll(s)
  }

  predicate WritableAttr(a: Attr) { Encodable(a.name) && (a.value.Some? ==> Encodable(a.value.value)) }

  /** All strings of a tree have an encoding. */
  predicate Writable(node: Node)
    decreases node
  {
    match node
    case Word(_, text) => Encodable(text)
    case Element(name, attrs, children) =>
      Encodable(name) && (forall i | 0 <= i < |attrs| :: WritableAttr(attrs[i])) && WritableAll(children)
  }

  predicate WritableAll(nodes: seq<Node>)
    decreases nodes
  {
    nodes == [] || (Writable(nodes[0]) && WritableAll(nodes[1..]))
  }

  function EncodedAttr(a: Attr): Attr
    requires WritableAttr(a)
  {
    Attr(Utf8Of(a.name), if a.value.Some? then Some(Utf8Of(a.value.value)) else None)
  }

  function EncodedAttrs(attrs: seq<Attr>): (r: seq<Attr>)
    requires forall i | 0 <= i < |attrs| :: WritableAttr(attrs[i])
    ensures |r| == |attrs|
  {
    if attrs == [] then [] else [EncodedAttr(attrs[0])] + EncodedAttrs(attrs[1..])
  }

  /** The tree with its strings as UTF-8. */
  function EncodedNode(node: Node): Node
    requires Writable(node)
    decreases node
  {
    match node
    case Word(ws, text) => Word(ws, Utf8Of(text))
    case Element(name, attrs, children) => Element(Utf8Of(name), EncodedAttrs(attrs), EncodedNodes(children))
  }

  function EncodedNodes(nodes: seq<Node>): (r: seq<Node>)
    requires WritableAll(nodes)
    ensures |r| == |nodes|
    decreases nodes
  {
    if nodes == [] then [] else [EncodedNode(nodes[0])] + EncodedNodes(nodes[1..])
  }

  // ---------- strings ----------

  /** Escaping the bytes of a text one by one is the same as escaping its characters. */
  lemma {:induction false} EscapeBytes(s: Text)
    requires Encodable(s)
    ensures Encodable(Escape(s)) && Utf8Of(Escape(s)) == Escape(Utf8Of(s))
  {
    if s != [] {
      var ch := s[0];
      EscapeBytes(s[1..]);
      EscapedCharBytes(ch);
      EncodeConcat(EscapeChar(ch), Escape(s[1..]));
      EscapeConcat(Encode(ch), Utf8Of(s[1..]));
    }
  }

  lemma EscapedCharBytes(ch: nat)
    requires ch < LIMIT
    ensures Encodable(EscapeChar(ch)) && Utf8Of(EscapeChar(ch)) == Escape(Encode(ch))
  {
    var e := Encode(ch);
    if ch < 0x80 {
      AsciiBytes(EscapeChar(ch));
      assert e[1..] == [] && Escape(e) == EscapeChar(ch) + [];
    } else {
      HighBytes(e);
      assert EscapeChar(ch) == [ch] && [ch][1..] == [] && EncodeAll([ch]) == e + [];
    }
  }

  lemma {:induction false} AsciiBytes(s: Text)
    requires forall i | 0 <= i < |s| :: s[i] < 0x80
    ensures Encodable(s) && Utf8Of(s) == s
  {
    if s != [] { AsciiBytes(s[1..]); }
  }

  lemma {:induction false} HighBytes(s: Text)
    requires forall i | 0 <= i < |s| :: s[i] >= 0x80
    ensures Escape(s) == s
  {
    if s != [] { HighBytes(s[1..]); }
  }

  lemma EscapeCons(ch: nat, s: Text)
    ensures Escape([ch] + s) == EscapeChar(ch) + Escape(s)
  {
    assert ([ch] + s)[1..] == s;
  }

  lemma {:induction false} EscapeConcat(x: Text, y: Text)
    ensures Escape(x + y) == Escape(x) + Escape(y)
  {
    if x == [] {
      assert x + y == y;
    } else {
      EscapeConcat(x[1..], y);
      EscapeCons(x[0], x[1..] + y);
      Together([x[0]], x[1..], y);
      assert x == [x[0]] + x[1..];
      Together(EscapeChar(x[0]), Escape(x[1..]), Escape(y));
    }
  }

  /** A string of ASCII characters is a prefix of the bytes exactly if it is one of the text. */
  lemma {:induction false} AsciiPrefix(p: Text, s: Text)
    requires Encodable(s) && forall i | 0 <= i < |p| :: p[i] < 0x80
    ensures p <= Utf8Of(s) <==> p <= s
  {
    if p != [] && s != [] {
      var bytes := Utf8Of(s);
      assert bytes[0] == Encode(s[0])[0];
      if s[0] < 0x80 {
        assert bytes[1..] == Utf8Of(s[1..]);
        AsciiPrefix(p[1..], s[1..]);
        assert p == [p[0]] + p[1..] && s == [s[0]] + s[1..] && bytes == [bytes[0]] + bytes[1..];
      }
    }
  }

  lemma FirstByte(s: Text, ch: nat)
    requires Encodable(s) && ch < 0x80
    ensures (s == [] <==> Utf8Of(s) == []) && (s != [] ==> (s[0] == ch <==> Utf8Of(s)[0] == ch))
  {
    if s != [] { assert Utf8Of(s)[0] == Encode(s[0])[0]; }
  }

  lemma NameKind(name: Text)
    requires Encodable(name)
    ensures Verbatim(Utf8Of(name)) == Verbatim(name) && Special(Utf8Of(name)) == Special(name)
    ensures XML <= Utf8Of(name) <==> XML <= name
  {
    FirstByte(name, QUESTION);
    FirstByte(name, BANG);
    AsciiPrefix(XML, name);
    AsciiPrefix(COMMENT, name);
    AsciiPrefix(CDATA, name);
  }

  /** The quoted part of a name ends at the same place. */
  lemma {:induction false} QuotedBytes(s: Text, quote: nat)
    requires Encodable(s) && quote < 0x80
    ensures Encodable(QuotedText(s, quote)) && Utf8Of(QuotedText(s, quote)) == QuotedText(Utf8Of(s), quote)
  {
    FirstByte(s, quote);
    if s != [] && s[0] != quote {
      QuotedBytes(s[1..], quote);
      EscapedCharBytes(s[0]);
      EncodeConcat(EscapeChar(s[0]), QuotedText(s[1..], quote));
      QuotedChar(Encode(s[0]), Utf8Of(s[1..]), quote);
    }
  }

  lemma QuotedCons(ch: nat, s: Text, quote: nat)
    requires ch != quote
    ensures QuotedText([ch] + s, quote) == EscapeChar(ch) + QuotedText(s, quote)
  {
    assert ([ch] + s)[1..] == s;
  }

  /** The bytes of one character before others. */
  lemma {:induction false} QuotedChar(e: Text, rest: Text, quote: nat)
    requires forall i | 0 <= i < |e| :: e[i] != quote
    ensures QuotedText(e + rest, quote) == Escape(e) + QuotedText(rest, quote)
  {
    if e == [] {
      assert e + rest == rest;
    } else {
      var first, more := e[0], e[1..];
      QuotedChar(more, rest, quote);
      assert e == [first] + more;
      Together([first], more, rest);
      QuotedCons(first, more + rest, quote);
      EscapeCons(first, more);
      Together(EscapeChar(first), Escape(more), QuotedText(rest, quote));
    }
  }

  lemma NameBytes(s: Text)
    requires Encodable(s)
    ensures Encodable(NameText(s)) && Utf8Of(NameText(s)) == NameText(Utf8Of(s))
  {
    FirstByte(s, QUOTE);
    FirstByte(s, APOSTROPHE);
    if s != [] && Quote(s[0]) {
      var quote := [s[0]];
      QuotedBytes(s[1..], s[0]);
      AsciiBytes(quote);
      EncodeConcat(quote, QuotedText(s[1..], s[0]));
      EncodeConcat(quote + QuotedText(s[1..], s[0]), quote);
      assert Utf8Of(s)[1..] == Utf8Of(s[1..]);
    }
  }

  // ---------- the printers agree ----------

  /** The bytes of a text, and the same column. */
  ghost predicate Same(bytes: Out, chars: Out)
  {
    Encodable(chars.text) && bytes == Out(Utf8Of(chars.text), chars.col)
  }

  lemma SameAppend(a: Text, x: Text, b: Text, y: Text)
    requires Encodable(x) && Encodable(y) && a == Utf8Of(x) && b == Utf8Of(y)
    ensures Encodable(x + y) && a + b == Utf8Of(x + y)
  {
    EncodeConcat(x, y);
  }

  lemma AttrTextSame(a: Attr)
    requires WritableAttr(a)
    ensures Encodable(AttrText(a)) && AttrText(EncodedAttr(a)) == Utf8Of(AttrText(a))
  {
    NameBytes(a.name);
    if a.value.Some? {
      EscapeBytes(a.value.value);
      AsciiBytes([EQUAL, QUOTE]);
      AsciiBytes([QUOTE]);
      var value := EncodedAttr(a).value.value;
      SameAppend([EQUAL, QUOTE], [EQUAL, QUOTE], Escape(value), Escape(a.value.value));
      SameAppend([EQUAL, QUOTE] + Escape(value), [EQUAL, QUOTE] + Escape(a.value.value), [QUOTE], [QUOTE]);
      SameAppend(NameText(Utf8Of(a.name)), NameText(a.name),
                 [EQUAL, QUOTE] + Escape(value) + [QUOTE], [EQUAL, QUOTE] + Escape(a.value.value) + [QUOTE]);
    } else {
      SameAppend(NameText(Utf8Of(a.name)), NameText(a.name), [], []);
    }
  }

  lemma AttrSame(a: Attr, col: nat)
    requires WritableAttr(a)
    ensures Same(AttrBytes(EncodedAttr(a), col), AttrOut(a, col))
  {
    WidthIsBytes(a.name);
    if a.value.Some? { WidthIsBytes(a.value.value); }
    AttrTextSame(a);
    var sep := [if col + AttrWidth(a) > WRAP then NEWLINE else BLANK];
    AsciiBytes(sep);
    SameAppend(sep, sep, AttrText(EncodedAttr(a)), AttrText(a));
  }

  lemma {:induction false} AttrsSame(attrs: seq<Attr>, col: nat)
    requires forall i | 0 <= i < |attrs| :: WritableAttr(attrs[i])
    ensures Same(AttrsBytes(EncodedAttrs(attrs), col), AttrsOut(attrs, col))
    decreases |attrs|
  {
    if attrs != [] {
      var first := AttrOut(attrs[0], col);
      AttrSame(attrs[0], col);
      AttrsSame(attrs[1..], first.col);
      assert EncodedAttrs(attrs)[1..] == EncodedAttrs(attrs[1..]);
      var rest := AttrsOut(attrs[1..], first.col);
      SameAppend(Utf8Of(first.text), first.text, Utf8Of(rest.text), rest.text);
    }
  }

  lemma OpenSame(name: Text, col: nat)
    requires Encodable(name)
    ensures Same(OpenBytes(Utf8Of(name), col), OpenOut(name, col))
  {
    NameKind(name);
    WidthIsBytes(name);
    NameBytes(name);
    AsciiBytes([LT]);
    var text := if Verbatim(name) then name else NameText(name);
    SameAppend([LT], [LT], Utf8Of(text), text);
  }

  lemma CloseSame(name: Text)
    requires Encodable(name)
    ensures Encodable(CloseText(name)) && CloseText(Utf8Of(name)) == Utf8Of(CloseText(name))
  {
    EscapeBytes(name);
    AsciiBytes([LT, SLASH]);
    AsciiBytes([GT]);
    SameAppend([LT, SLASH], [LT, SLASH], Escape(Utf8Of(name)), Escape(name));
    SameAppend([LT, SLASH] + Escape(Utf8Of(name)), [LT, SLASH] + Escape(name), [GT], [GT]);
  }

  lemma WordSame(ws: bool, text: Text, col: nat)
    requires Encodable(text)
    ensures Same(NodeBytes(Word(ws, Utf8Of(text)), col), NodeOut(Word(ws, text), col))
  {
    var sep := Separator(ws, col);
    WidthIsBytes(text);
    EscapeBytes(text);
    AsciiBytes(sep.text);
    SameAppend(sep.text, sep.text, Escape(Utf8Of(text)), Escape(text));
  }

  lemma FourParts(a: Text, b: Text, c: Text, d: Text)
    requires Encodable(a) && Encodable(b) && Encodable(c) && Encodable(d)
    ensures Encodable(a + b + c + d)
    ensures Utf8Of(a + b + c + d) == Utf8Of(a) + Utf8Of(b) + Utf8Of(c) + Utf8Of(d)
  {
    EncodeConcat(a, b);
    EncodeConcat(a + b, c);
    EncodeConcat(a + b + c, d);
  }

  lemma EncodeNone()
    ensures Utf8Of([]) == []
  {
  }

  /** An element without children. */
  lemma LeafSame(name: Text, attrs: seq<Attr>, col: nat)
    requires Writable(Element(name, attrs, []))
    ensures Same(NodeBytes(EncodedNode(Element(name, attrs, [])), col), NodeOut(Element(name, attrs, []), col))
  {
    var open := OpenOut(name, col);
    var start := AttrsOut(attrs, open.col);
    OpenSame(name, col);
    AttrsSame(attrs, open.col);
    NameKind(name);
    var end := if Special(name) then [GT] else [BLANK, SLASH, GT];
    AsciiBytes(end);
    EncodeConcat(open.text, start.text);
    EncodeConcat(open.text + start.text, end);
  }

  /** The parts of an element with children: its text up to the children, and its end. */
  lemma ParentParts(name: Text, attrs: seq<Attr>, children: seq<Node>, col: nat, start: Out, inside: Out)
    requires children != [] && start == AttrsOut(attrs, OpenOut(name, col).col)
    requires inside == NodesOut(children, start.col + 1)
    ensures NodeOut(Element(name, attrs, children), col)
         == Out(OpenOut(name, col).text + start.text + [GT] + inside.text
             + (if Special(name) then [] else CloseText(name)),
                inside.col + if Special(name) then 0 else Width(name) + 3)
  {
  }

  lemma ParentBytes(name: Text, attrs: seq<Attr>, children: seq<Node>, col: nat, start: Out, inside: Out)
    requires children != []
    requires start == AttrsBytes(attrs, OpenBytes(name, col).col) && inside == NodesBytes(children, start.col + 1)
    ensures NodeBytes(Element(name, attrs, children), col)
         == Out(OpenBytes(name, col).text + start.text + [GT] + inside.text
             + (if Special(name) then [] else CloseText(name)),
                inside.col + if Special(name) then 0 else |name| + 3)
  {
  }

  lemma EndSame(name: Text)
    requires Encodable(name)
    ensures
      var end := if Special(name) then [] else CloseText(name);
      && Encodable(end) && Utf8Of(end) == (if Special(Utf8Of(name)) then [] else CloseText(Utf8Of(name)))
  {
    NameKind(name);
    CloseSame(name);
    EncodeNone();
  }

  lemma JoinSame(open: Text, start: Text, inside: Text, end: Text)
    requires Encodable(open) && Encodable(start) && Encodable(inside) && Encodable(end)
    ensures Encodable(open + start + [GT] + inside + end)
    ensures Utf8Of(open + start + [GT] + inside + end)
         == Utf8Of(open) + Utf8Of(start) + [GT] + Utf8Of(inside) + Utf8Of(end)
  {
    AsciiBytes([GT]);
    FourParts(open, start, [GT], inside);
    EncodeConcat(open + start + [GT] + inside, end);
  }

  /** An element with children, if they are written alike. */
  lemma ParentSame(name: Text, attrs: seq<Attr>, children: seq<Node>, col: nat, start: Out, inside: Out)
    requires Writable(Element(name, attrs, children)) && children != []
    requires start == AttrsOut(attrs, OpenOut(name, col).col)
    requires Same(AttrsBytes(EncodedAttrs(attrs), OpenOut(name, col).col), start)
    requires inside == NodesOut(children, start.col + 1)
    requires Same(NodesBytes(EncodedNodes(children), start.col + 1), inside)
    ensures
      Same(NodeBytes(Element(Utf8Of(name), EncodedAttrs(attrs), EncodedNodes(children)), col),
           NodeOut(Element(name, attrs, children), col))
  {
    var open, bytes := OpenOut(name, col), Utf8Of(name);
    OpenSame(name, col);
    WidthIsBytes(name);
    EndSame(name);
    NameKind(name);
    JoinSame(open.text, start.text, inside.text, if Special(name) then [] else CloseText(name));
    ParentParts(name, attrs, children, col, start, inside);
    assert |EncodedNodes(children)| > 0 && OpenBytes(bytes, col).col == open.col;
    ParentBytes(bytes, EncodedAttrs(attrs), EncodedNodes(children), col,
                AttrsBytes(EncodedAttrs(attrs), open.col), NodesBytes(EncodedNodes(children), start.col + 1));
  }

  /** The bytes of a node are those that the printer writes for it. */
  lemma {:induction false} NodeSame(node: Node, col: nat)
    requires Writable(node)
    ensures Same(NodeBytes(EncodedNode(node), col), NodeOut(node, col))
    decreases node, 1
  {
    match node
    case Word(ws, text) => WordSame(ws, text, col);
    case Element(name, attrs, children) =>
      if children == [] {
        LeafSame(name, attrs, col);
      } else {
        var start := AttrsOut(attrs, OpenOut(name, col).col);
        AttrsSame(attrs, OpenOut(name, col).col);
        NodesSame(children, start.col + 1);
        ParentSame(name, attrs, children, col, start, NodesOut(children, start.col + 1));
      }
  }

  lemma {:induction false} NodesSame(nodes: seq<Node>, col: nat)
    requires WritableAll(nodes)
    ensures Same(NodesBytes(EncodedNodes(nodes), col), NodesOut(nodes, col))
    decreases nodes, 0
  {
    if nodes != [] {
      var first := NodeOut(nodes[0], col);
      NodeSame(nodes[0], col);
      NodesSame(nodes[1..], first.col);
      assert EncodedNodes(nodes)[1..] == EncodedNodes(nodes[1..]);
      var rest := NodesOut(nodes[1..], first.col);
      SameAppend(Utf8Of(first.text), first.text, Utf8Of(rest.text), rest.text);
    }
  }

  /** The same for what mxmlSaveString writes. */
  lemma SavedSame(root: Node)
    requires Writable(root)
    ensures Encodable(Saved(root)) && SavedBytes([EncodedNode(root)]) == Utf8Of(Saved(root))
  {
    var bytes, out := NodeBytes(EncodedNode(root), 0), NodeOut(root, 0);
    NodeSame(root, 0);
    OnlyNode(EncodedNode(root), 0);
    var end: Text := if out.col > 0 then [NEWLINE] else [];
    AsciiBytes(end);
    EncodeConcat(out.text, end);
  }

  lemma OnlyNode(node: Node, col: nat)
    ensures NodesBytes([node], col) == NodeBytes(node, col)
  {
    assert [node][1..] == [] && NodeBytes(node, col).text + [] == NodeBytes(node, col).text;
  }
}
