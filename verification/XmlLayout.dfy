/** The column that Mini-XML's printer counts, and where it breaks lines. */
module XmlLayout {
  import opened Utf8
  import opened XmlText

  /** The length in bytes of the last line, after text that starts in a column. */
  function Column(s: Text, col: nat): nat
    decreases |s|
  {
    if s == [] then col else Column(s[1..], if s[0] == NEWLINE then 0 else col + Width([s[0]]))
  }

  lemma {:induction false} ColumnConcat(a: Text, b: Text, col: nat)
    ensures Column(a + b, col) == Column(b, Column(a, col))
    decreases |a|
  {
    if a == [] {
      assert a + b == b;
    } else {
      assert (a + b)[1..] == a[1..] + b;
      ColumnConcat(a[1..], b, if a[0] == NEWLINE then 0 else col + Width([a[0]]));
    }
  }

  predicate OneLine(s: Text) { forall i | 0 <= i < |s| :: s[i] != NEWLINE }

  lemma {:induction false} ColumnOfLine(s: Text, col: nat)
    requires OneLine(s)
    ensures Column(s, col) == col + Width(s)
    decreases |s|
  {
    if s != [] {
      ColumnOfLine(s[1..], col + Width([s[0]]));
      WidthConcat([s[0]], s[1..]);
      assert [s[0]] + s[1..] == s;
    }
  }

  /** A text of one line that is printed as it is. */
  predicate Plain(s: Text) { OneLine(s) && forall i | 0 <= i < |s| :: EntityName(s[i]).None? }

  lemma {:induction false} PlainEscape(s: Text)
    requires Plain(s)
    ensures Escape(s) == s
  {
    if s != [] { PlainEscape(s[1..]); }
  }

  predicate PlainName(name: Text) { Plain(name) && (name == [] || !Quote(name[0])) }

  predicate PlainAttr(a: Attr) { PlainName(a.name) && (a.value.Some? ==> Plain(a.value.value)) }

  /** Nodes whose strings are plain, and no processing instruction for XML, which sets the
      column to the margin. */
  predicate PlainNodes(nodes: seq<Node>)
    decreases nodes
  {
    nodes == [] || (PlainNodes(nodes[1..]) &&
      match nodes[0]
      case Word(_, text) => Plain(text)
      case Element(name, attrs, children) =>
        && PlainName(name) && !(XML <= name) && (forall i | 0 <= i < |attrs| :: PlainAttr(attrs[i]))
        && PlainNodes(children))
  }

  lemma {:induction false} WidthConcat(a: Text, b: Text)
    ensures Width(a + b) == Width(a) + Width(b)
  {
    if a == [] {
      assert a + b == b;
    } else {
      assert (a + b)[1..] == a[1..] + b;
      WidthConcat(a[1..], b);
    }
  }

  /** A character below 128 is one byte. */
  lemma Single(ch: nat)
    requires ch < 0x80
    ensures Width([ch]) == 1
  {
    assert [ch][1..] == [];
  }

  lemma AttrLine(a: Attr)
    requires PlainAttr(a)
    ensures OneLine(AttrText(a)) && Width(AttrText(a)) == AttrWidth(a)
  {
    if a.value.Some? {
      var v := a.value.value;
      PlainEscape(v);
      WidthConcat(a.name, [EQUAL, QUOTE] + v + [QUOTE]);
      WidthConcat([EQUAL, QUOTE] + v, [QUOTE]);
      WidthConcat([EQUAL, QUOTE], v);
      assert [EQUAL, QUOTE][1..] == [QUOTE];
      Single(QUOTE);
    } else {
      assert a.name + [] == a.name;
    }
  }

  /** An attribute goes on a new line exactly if it would end behind the margin and the blank
      before it; the column is the length of its line. */
  lemma AttrBreaks(a: Attr, col: nat)
    requires PlainAttr(a)
    ensures var blank, out := [BLANK] + AttrText(a), AttrOut(a, col);
      && out.text == (if Column(blank, col) > WRAP + 1 then [NEWLINE] + AttrText(a) else blank)
      && out.col == Column(out.text, col)
  {
    AttrLine(a);
    Single(BLANK);
    ColumnOfLine(AttrText(a), 0);
    ColumnOfLine(AttrText(a), col + 1);
    assert ([BLANK] + AttrText(a))[1..] == AttrText(a) && ([NEWLINE] + AttrText(a))[1..] == AttrText(a);
  }

  lemma {:induction false} AttrsColumn(attrs: seq<Attr>, col: nat)
    requires forall i | 0 <= i < |attrs| :: PlainAttr(attrs[i])
    ensures var out := AttrsOut(attrs, col); out.col == Column(out.text, col)
    decreases |attrs|
  {
    if attrs != [] {
      var first := AttrOut(attrs[0], col);
      AttrBreaks(attrs[0], col);
      AttrsColumn(attrs[1..], first.col);
      ColumnConcat(first.text, AttrsOut(attrs[1..], first.col).text, col);
    }
  }

  /** A word after white space goes on a new line exactly if the line before it has crossed the
      margin, behind a blank if not, and directly at the start of a line. */
  lemma WordBreaks(ws: bool, text: Text, col: nat)
    requires Plain(text)
    ensures var out := NodeOut(Word(ws, text), col);
      && out.text == (if !ws || col == 0 then text else if col > WRAP then [NEWLINE] + text else [BLANK] + text)
      && out.col == Column(out.text, col)
  {
    var sep := Separator(ws, col);
    PlainEscape(text);
    Single(BLANK);
    ColumnOfLine(text, sep.col);
    ColumnConcat(sep.text, text, col);
    assert [NEWLINE][1..] == [] && [BLANK][1..] == [];
  }

  lemma OpenColumn(name: Text, col: nat)
    requires PlainName(name) && !(XML <= name)
    ensures var out := OpenOut(name, col); out.col == Column(out.text, col)
  {
    assert NameText(name) == name;
    Single(LT);
    assert ([LT] + name)[1..] == name;
    ColumnOfLine(name, col + 1);
  }

  lemma CloseColumn(name: Text, col: nat)
    requires PlainName(name)
    ensures Column(CloseText(name), col) == col + Width(name) + 3
  {
    PlainEscape(name);
    Single(GT);
    Single(SLASH);
    WidthConcat([LT, SLASH] + name, [GT]);
    WidthConcat([LT, SLASH], name);
    assert [LT, SLASH][1..] == [SLASH];
    ColumnOfLine([LT, SLASH] + name + [GT], col);
  }

  lemma EndColumn(col: nat)
    ensures Column([GT], col) == col + 1 && Column([BLANK, SLASH, GT], col) == col + 3
  {
    Single(GT);
    Single(SLASH);
    assert [GT][1..] == [] && [BLANK, SLASH, GT][1..] == [SLASH, GT] && [SLASH, GT][1..] == [GT];
    ColumnOfLine([GT], col);
    ColumnOfLine([BLANK, SLASH, GT], col);
  }

  lemma StartColumn(name: Text, attrs: seq<Attr>, col: nat)
    requires PlainName(name) && !(XML <= name) && forall i | 0 <= i < |attrs| :: PlainAttr(attrs[i])
    ensures var (open, start) := (OpenOut(name, col), AttrsOut(attrs, OpenOut(name, col).col));
      start.col == Column(open.text + start.text, col)
  {
    var open := OpenOut(name, col);
    OpenColumn(name, col);
    AttrsColumn(attrs, open.col);
    ColumnConcat(open.text, AttrsOut(attrs, open.col).text, col);
  }

  lemma ParentColumn(head: Text, start: nat, inside: Out, end: Text, endCol: nat, col: nat)
    requires start == Column(head, col) && inside.col == Column(inside.text, start + 1)
    requires Column(end, inside.col) == endCol
    ensures Column(head + [GT] + inside.text + end, col) == endCol
  {
    EndColumn(start);
    ColumnConcat(head, [GT], col);
    ColumnConcat(head + [GT], inside.text, col);
    ColumnConcat(head + [GT] + inside.text, end, col);
  }

  lemma LeafColumn(e: Node, col: nat)
    requires e.Element? && PlainNodes([e]) && e.children == []
    ensures var out := NodeOut(e, col); out.col == Column(out.text, col)
  {
    var open := OpenOut(e.name, col);
    var start := AttrsOut(e.attrs, open.col);
    var end := if Special(e.name) then [GT] else [BLANK, SLASH, GT];
    StartColumn(e.name, e.attrs, col);
    EndColumn(start.col);
    ColumnConcat(open.text + start.text, end, col);
  }

  lemma {:induction false} ElementColumn(e: Node, col: nat)
    requires e.Element? && PlainNodes([e])
    ensures var out := NodeOut(e, col); out.col == Column(out.text, col)
    decreases e, 0
  {
    if e.children == [] {
      LeafColumn(e, col);
    } else {
      var open := OpenOut(e.name, col);
      var start := AttrsOut(e.attrs, open.col);
      var inside := NodesOut(e.children, start.col + 1);
      StartColumn(e.name, e.attrs, col);
      NodesColumn(e.children, start.col + 1);
      CloseColumn(e.name, inside.col);
      var end := if Special(e.name) then Out([], 0) else Out(CloseText(e.name), Width(e.name) + 3);
      ParentColumn(open.text + start.text, start.col, inside, end.text, inside.col + end.col, col);
    }
  }

  /** For plain nodes the column is the length of the last line. */
  lemma {:induction false} NodesColumn(nodes: seq<Node>, col: nat)
    requires PlainNodes(nodes)
    ensures var out := NodesOut(nodes, col); out.col == Column(out.text, col)
    decreases nodes
  {
    if nodes != [] {
      var first := NodeOut(nodes[0], col);
      assert [nodes[0]][1..] == [];
      match nodes[0] {
        case Word(ws, text) => WordBreaks(ws, text, col);
        case Element(_, _, _) => ElementColumn(nodes[0], col);
      }
      NodesColumn(nodes[1..], first.col);
      ColumnConcat(first.text, NodesOut(nodes[1..], first.col).text, col);
    }
  }
}
