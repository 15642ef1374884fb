/** Mini-XML's printer and its parser, as functions on texts of characters. Value nodes are
    text words (no type callback), and the printer has no whitespace callback. */
module XmlText {
  import opened Utf8

  type Text = seq<nat>

  const LT: nat := 60
  const GT: nat := 62
  const SLASH: nat := 47
  const QUESTION: nat := 63
  const BANG: nat := 33
  const AMP: nat := 38
  const SEMICOLON: nat := 59
  const HASH: nat := 35
  const EQUAL: nat := 61
  const QUOTE: nat := 34
  const APOSTROPHE: nat := 39
  const NEWLINE: nat := 10
  const BLANK: nat := 32
  const DASH: nat := 45
  const BRACKET: nat := 93
  const EOF: int := -1

  const XML: Text := [QUESTION, 120, 109, 108]             // ?xml
  const COMMENT: Text := [BANG, 45, 45]                     // !--
  const CDATA: Text := [BANG, 91, 67, 68, 65, 84, 65, 91]   // ![CDATA[

  /** iswspace in the C locale */
  predicate Space(ch: int) { ch == 32 || 9 <= ch <= 13 }

  /** isalnum in the C locale */
  predicate Alnum(ch: nat) { 48 <= ch <= 57 || 65 <= ch <= 90 || 97 <= ch <= 122 }

  predicate Quote(ch: int) { ch == QUOTE || ch == APOSTROPHE }

  datatype Option = None | Some(value: Text)

  /** mxml_attr_t */
  datatype Attr = Attr(name: Text, value: Option)

  /** mxml_node_t, for elements and text. */
  datatype Node =
    | Element(name: Text, attrs: seq<Attr>, children: seq<Node>)
    | Word(whitespace: bool, text: Text)

  // ---------- the printer ----------

  const WRAP: nat := 72

  /** strlen of the UTF-8 string */
  function Width(s: Text): nat
  {
    if s == [] then 0 else
      (if s[0] < 0x80 then 1 else if s[0] < 0x800 then 2 else if s[0] < 0x1_0000 then 3 else 4) + Width(s[1..])
  }

  lemma {:induction false} WidthIsBytes(s: Text)
    requires Encodable(s)
    ensures Width(s) == |EncodeAll(s)|
  {
    if s != [] { WidthIsBytes(s[1..]); }
  }

  /** mxmlEntityGetName */
  function EntityName(ch: nat): Option
  {
    if ch == AMP then Some([97, 109, 112])            // amp
    else if ch == LT then Some([108, 116])            // lt
    else if ch == GT then Some([103, 116])            // gt
    else if ch == QUOTE then Some([113, 117, 111, 116])   // quot
    else None
  }

  function EscapeChar(ch: nat): Text
  {
    match EntityName(ch)
    case Some(name) => [AMP] + name + [SEMICOLON]
    case None => [ch]
  }

  /** mxml_write_string */
  function Escape(s: Text): Text
  {
    if s == [] then [] else EscapeChar(s[0]) + Escape(s[1..])
  }

  /** mxml_write_name: a name in quotes is escaped up to its end quote. */
  function NameText(s: Text): Text
  {
    if s != [] && Quote(s[0]) then [s[0]] + QuotedText(s[1..], s[0]) + [s[0]] else s
  }

  function QuotedText(s: Text, quote: nat): Text
  {
    if s == [] || s[0] == quote then [] else EscapeChar(s[0]) + QuotedText(s[1..], quote)
  }

  datatype Out = Out(text: Text, col: nat)

  function AttrWidth(a: Attr): nat { Width(a.name) + if a.value.Some? then Width(a.value.value) + 3 else 0 }

  function AttrText(a: Attr): Text
  {
    NameText(a.name) + if a.value.Some? then [EQUAL, QUOTE] + Escape(a.value.value) + [QUOTE] else []
  }

  /** An attribute, on a new line if it would cross the margin. */
  function AttrOut(a: Attr, col: nat): Out
  {
    var wrap := col + AttrWidth(a) > WRAP;
    Out([if wrap then NEWLINE else BLANK] + AttrText(a), (if wrap then 0 else col + 1) + AttrWidth(a))
  }

  /** The attributes of an element. */
  function AttrsOut(attrs: seq<Attr>, col: nat): Out
  {
    if attrs == [] then Out([], col) else
      var first := AttrOut(attrs[0], col);
      var rest := AttrsOut(attrs[1..], first.col);
      Out(first.text + rest.text, rest.col)
  }

  predicate Verbatim(name: Text) { name != [] && (name[0] == QUESTION || COMMENT <= name || CDATA <= name) }

  predicate Special(name: Text) { name != [] && (name[0] == QUESTION || name[0] == BANG) }

  /** The start of an element up to its name, and the column after it. */
  function OpenOut(name: Text, col: nat): Out
  {
    Out([LT] + (if Verbatim(name) then name else NameText(name)),
        (if Verbatim(name) && XML <= name then WRAP else col) + Width(name) + 1)
  }

  function CloseText(name: Text): Text { [LT, SLASH] + Escape(name) + [GT] }

  /** The white space before a word. */
  function Separator(ws: bool, col: nat): Out
  {
    if !ws || col == 0 then Out([], col) else if col > WRAP then Out([NEWLINE], 0) else Out([BLANK], col + 1)
  }

  /** mxml_write_node, for one node. */
  function NodeOut(node: Node, col: nat): Out
    decreases node
  {
    match node
    case Word(ws, text) =>
      var sep := Separator(ws, col);
      Out(sep.text + Escape(text), sep.col + Width(text))
    case Element(name, attrs, children) =>
      var open := OpenOut(name, col);
      var start := AttrsOut(attrs, open.col);
      if children != [] then
        var inside := NodesOut(children, start.col + 1);
        var end := if Special(name) then Out([], 0) else Out(CloseText(name), Width(name) + 3);
        Out(open.text + start.text + [GT] + inside.text + end.text, inside.col + end.col)
      else
        var end := if Special(name) then [GT] else [BLANK, SLASH, GT];
        Out(open.text + start.text + end, start.col + |end|)
  }

  /** mxml_write_node, for a node and the ones after it. */
  function NodesOut(nodes: seq<Node>, col: nat): Out
    decreases nodes
  {
    if nodes == [] then Out([], col) else
      var first := NodeOut(nodes[0], col);
      var rest := NodesOut(nodes[1..], first.col);
      Out(first.text + rest.text, rest.col)
  }

  /** mxmlSaveString: the node, and a newline. */
  function Saved(node: Node): Text
  {
    var out := NodeOut(node, 0);
    out.text + if out.col > 0 then [NEWLINE] else []
  }

  // ---------- the parser ----------

  /** mxmlEntityGetValue: -1 for a name that no callback knows. */
  type Resolver = Text -> int

  /** The entities of section 4.6 of XML 1.0 that the printer uses. */
  datatype Predefined = Amp | Lt | Gt | Quot

  function PredefinedName(p: Predefined): Text
  {
    match p
    case Amp => [97, 109, 112]
    case Lt => [108, 116]
    case Gt => [103, 116]
    case Quot => [113, 117, 111, 116]
  }

  function PredefinedChar(p: Predefined): nat
  {
    match p
    case Amp => AMP
    case Lt => LT
    case Gt => GT
    case Quot => QUOTE
  }

  ghost predicate Standard(resolve: Resolver)
  {
    forall p: Predefined :: resolve(PredefinedName(p)) == PredefinedChar(p)
  }

  predicate EntityChar(ch: nat) { ch <= 126 && (Alnum(ch) || ch == HASH) }

  /** How many characters at the start belong to an entity name. */
  function EntityLength(s: Text): (n: nat)
    ensures n <= |s|
  {
    if s == [] || !EntityChar(s[0]) then 0 else 1 + EntityLength(s[1..])
  }

  /** The value of a digit; the base for another character, or more. */
  function DigitOf(ch: nat, base: nat): nat
  {
    if 48 <= ch <= 57 then ch - 48 else if 97 <= ch <= 102 then ch - 87 else if 65 <= ch <= 70 then ch - 55 else base
  }

  /** strtol in base 10 or 16, which stops at the first other character. */
  function Number(s: Text, base: nat, n: nat): nat
    decreases |s|
  {
    if s == [] || DigitOf(s[0], base) >= base then n else Number(s[1..], base, n * base + DigitOf(s[0], base))
  }

  const LONG_MAX: nat := 0x7FFF_FFFF_FFFF_FFFF

  /** A long of 64 bits, at which strtol saturates, and its conversion to int */
  function ToInt(n: nat): int
  {
    var low := (if n > LONG_MAX then LONG_MAX else n) % 0x1_0000_0000;
    if low >= 0x8000_0000 then low - 0x1_0000_0000 else low
  }

  function EntityValue(name: Text, resolve: Resolver): int
  {
    if name == [] || name[0] != HASH then resolve(name)
    else if |name| > 1 && name[1] == 120 then
      var digits := name[2..];
      var prefixed := |digits| > 2 && digits[0] == 48 && (digits[1] == 120 || digits[1] == 88);
      ToInt(Number(if prefixed then digits[2..] else digits, 16, 0))
    else ToInt(Number(name[1..], 10, 0))
  }

  const ENTITY_SIZE: nat := 63

  datatype Got = Got(ch: nat, rest: Text) | NoChar

  /** mxml_get_entity: the character whose name is at the start of the text. */
  function EntityOf(s: Text, resolve: Resolver): (r: Got)
    ensures r.Got? ==> |r.rest| < |s|
  {
    var n := EntityLength(s);
    if n > ENTITY_SIZE || n == |s| || s[n] != SEMICOLON then NoChar else
      var ch := EntityValue(s[..n], resolve);
      if BadChar(ch) then NoChar else Got(ch, s[n + 1..])
  }

  /** What a loop has read, the character that ended it, and the rest of the text. */
  datatype Part = Part(buf: Text, end: int, rest: Text) | Failed

  /** The first loop of mxml_load_data after a '<'. */
  function TagOf(s: Text, buf: Text, resolve: Resolver): (r: Part)
    ensures r.Part? ==> |r.rest| <= |s|
    decreases |s|
  {
    if s == [] then Part(buf, EOF, [])
    else if Space(s[0]) || s[0] == GT || (s[0] == SLASH && buf != []) then Part(buf, s[0], s[1..])
    else if s[0] == AMP then
      match EntityOf(s[1..], resolve)
      case Got(ch, rest) => TagOf(rest, buf + [ch], resolve)
      case NoChar => Failed
    else
      var b := buf + [s[0]];
      if b == [QUESTION] || b == COMMENT || b == CDATA then Part(b, s[0], s[1..]) else TagOf(s[1..], b, resolve)
  }

  /** Tags that are read up to a mark of their own before the '>'. */
  datatype Aside = Comment | Cdata | Instruction

  predicate AsideEnds(buf: Text, kind: Aside)
  {
    var n := |buf|;
    match kind
    case Comment => n > 4 && buf[n - 3] != DASH && buf[n - 2] == DASH && buf[n - 1] == DASH
    case Cdata => n >= 2 && buf[n - 2] == BRACKET && buf[n - 1] == BRACKET
    case Instruction => n > 0 && buf[n - 1] == QUESTION
  }

  /** The rest of a comment, a CDATA section or a processing instruction. */
  function AsideOf(s: Text, buf: Text, kind: Aside): (r: Part)
    ensures r.Part? ==> |r.rest| < |s|
    decreases |s|
  {
    if s == [] then Failed
    else if s[0] == GT && AsideEnds(buf, kind) then Part(buf, GT, s[1..])
    else AsideOf(s[1..], buf + [s[0]], kind)
  }

  /** The rest of a declaration. */
  function DeclarationOf(s: Text, buf: Text, resolve: Resolver): (r: Part)
    ensures r.Part? ==> |r.rest| < |s|
    decreases |s|
  {
    if s == [] then Failed
    else if s[0] == GT then Part(buf, GT, s[1..])
    else if s[0] == AMP then
      match EntityOf(s[1..], resolve)
      case Got(ch, rest) => DeclarationOf(rest, buf + [ch], resolve)
      case NoChar => Failed
    else DeclarationOf(s[1..], buf + [s[0]], resolve)
  }

  /** Where the loops of mxml_parse_element end. */
  datatype Stop = PlainName | PlainValue | Quoted(quote: nat)

  predicate Stops(stop: Stop, ch: nat)
  {
    match stop
    case PlainName => Space(ch) || ch == EQUAL || ch == SLASH || ch == GT || ch == QUESTION
    case PlainValue => Space(ch) || ch == EQUAL || ch == SLASH || ch == GT
    case Quoted(quote) => ch == quote
  }

  /** An attribute name without quotes, or an attribute value. */
  function UntilOf(s: Text, buf: Text, stop: Stop, resolve: Resolver): (r: Part)
    ensures r.Part? ==> |r.rest| <= |s|
    decreases |s|
  {
    if s == [] then Part(buf, EOF, [])
    else if Stops(stop, s[0]) then Part(buf, s[0], s[1..])
    else if s[0] == AMP then
      match EntityOf(s[1..], resolve)
      case Got(ch, rest) => UntilOf(rest, buf + [ch], stop, resolve)
      case NoChar => Failed
    else UntilOf(s[1..], buf + [s[0]], stop, resolve)
  }

  /** An attribute name in quotes: the end quote, even an escaped one, belongs to the name. */
  function QuotedNameOf(s: Text, buf: Text, quote: nat, resolve: Resolver): (r: Part)
    ensures r.Part? ==> |r.rest| <= |s|
    decreases |s|
  {
    if s == [] then Part(buf, EOF, []) else
      var got := if s[0] == AMP then EntityOf(s[1..], resolve) else Got(s[0], s[1..]);
      if got.NoChar? then Failed
      else if got.ch == quote then Part(buf + [got.ch], quote, got.rest)
      else QuotedNameOf(got.rest, buf + [got.ch], quote, resolve)
  }

  /** The first character of a name or a value without quotes is stored as a char. */
  function Char8(ch: nat): nat { ch % 256 }

  function NameOf(s: Text, resolve: Resolver): (r: Part)
    requires s != []
    ensures r.Part? ==> |r.rest| < |s|
  {
    if Quote(s[0]) then QuotedNameOf(s[1..], [s[0]], s[0], resolve)
    else UntilOf(s[1..], [Char8(s[0])], PlainName, resolve)
  }

  function ValueOf(s: Text, resolve: Resolver): (r: Part)
    ensures r.Part? ==> |r.rest| <= |s|
  {
    if s == [] then Failed
    else if Quote(s[0]) then UntilOf(s[1..], [], Quoted(s[0]), resolve)
    else UntilOf(s[1..], [Char8(s[0])], PlainValue, resolve)
  }

  /** mxmlElementGetAttr: an attribute without a value is not found. */
  function GetAttr(attrs: seq<Attr>, name: Text): Option
  {
    if attrs == [] then None else if attrs[0].name == name then attrs[0].value else GetAttr(attrs[1..], name)
  }

  /** mxmlElementSetAttr */
  function SetAttr(attrs: seq<Attr>, name: Text, value: Option): seq<Attr>
  {
    if attrs == [] then [Attr(name, value)]
    else if attrs[0].name == name then [Attr(name, value)] + attrs[1..]
    else [attrs[0]] + SetAttr(attrs[1..], name, value)
  }

  /** The first attribute of a name counts, and is replaced in its place. */
  lemma {:induction false} FirstAttr(attrs: seq<Attr>, i: nat, value: Option)
    requires i < |attrs| && forall j | 0 <= j < i :: attrs[j].name != attrs[i].name
    ensures GetAttr(attrs, attrs[i].name) == attrs[i].value
    ensures SetAttr(attrs, attrs[i].name, value) == attrs[i := Attr(attrs[i].name, value)]
  {
    if i > 0 {
      FirstAttr(attrs[1..], i - 1, value);
      assert [attrs[0]] + attrs[1..][i - 1 := Attr(attrs[i].name, value)] == attrs[i := Attr(attrs[i].name, value)];
    }
  }

  /** An attribute with a new name comes last. */
  lemma {:induction false} NewAttr(attrs: seq<Attr>, name: Text, value: Option)
    requires forall i | 0 <= i < |attrs| :: attrs[i].name != name
    ensures GetAttr(attrs, name) == None && SetAttr(attrs, name, value) == attrs + [Attr(name, value)]
  {
    if attrs != [] { NewAttr(attrs[1..], name, value); }
  }

  /** The attributes of an element, and the character that ends the element: '/', '?', '>'
      or, for an error too, the end of the text. */
  datatype Parsed = Parsed(attrs: seq<Attr>, end: int, rest: Text)

  /** After a '/' or a '?', a '>' must follow. */
  function Marked(attrs: seq<Attr>, mark: nat, rest: Text): (r: Parsed)
    ensures |r.rest| <= |rest|
  {
    if rest != [] && rest[0] == GT then Parsed(attrs, mark, rest[1..]) else Parsed(attrs, EOF, [])
  }

  /** mxml_parse_element */
  function AttrsOf(s: Text, attrs: seq<Attr>, resolve: Resolver): (r: Parsed)
    ensures |r.rest| <= |s|
    decreases |s|
  {
    if s == [] then Parsed(attrs, EOF, [])
    else if Space(s[0]) then AttrsOf(s[1..], attrs, resolve)
    else if s[0] == SLASH || s[0] == QUESTION then Marked(attrs, s[0], s[1..])
    else if s[0] == GT then Parsed(attrs, GT, s[1..])
    else
      var name := NameOf(s, resolve);
      if name.Failed? || GetAttr(attrs, name.buf).Some? then Parsed(attrs, EOF, [])
      else if name.end == EQUAL then
        var value := ValueOf(name.rest, resolve);
        if value.Failed? then Parsed(attrs, EOF, [])
        else AttrsAfter(SetAttr(attrs, name.buf, Some(value.buf)), value.end, value.rest, |s|, resolve)
      else AttrsAfter(SetAttr(attrs, name.buf, None), name.end, name.rest, |s|, resolve)
  }

  /** mxml_parse_element, after one attribute that was ended by a character. */
  function AttrsAfter(attrs: seq<Attr>, end: int, rest: Text, ghost limit: nat, resolve: Resolver): (r: Parsed)
    requires |rest| < limit
    ensures |r.rest| <= |rest|
    decreases limit, 0
  {
    if end == SLASH || end == QUESTION then Marked(attrs, end, rest)
    else if end == GT then Parsed(attrs, GT, rest)
    else AttrsOf(rest, attrs, resolve)
  }

  /** An element that is still open. */
  datatype Frame = Frame(name: Text, attrs: seq<Attr>, children: seq<Node>)

  /** The open elements, the innermost last; the buffer; and `whitespace`. */
  datatype State = State(stack: seq<Frame>, buf: Text, ws: bool)

  /** A new child of the innermost open element; without one, the node gets lost. */
  function AddNode(stack: seq<Frame>, node: Node): (r: seq<Frame>)
    ensures |r| == |stack|
  {
    if stack == [] then [] else
      var (outer, last) := (stack[..|stack| - 1], stack[|stack| - 1]);
      outer + [last.(children := last.children + [node])]
  }

  function Closed(f: Frame): Node { Element(f.name, f.attrs, f.children) }

  /** The innermost element is closed. */
  function Pop(stack: seq<Frame>): (r: seq<Frame>)
    requires stack != []
    ensures |r| == |stack| - 1
  {
    AddNode(stack[..|stack| - 1], Closed(stack[|stack| - 1]))
  }

  /** The result of mxml_load_data */
  datatype Loaded = Tree(root: Node) | Null

  /** The end of mxml_load_data: the outermost element that is open. */
  function Finished(stack: seq<Frame>): Loaded
    decreases |stack|
  {
    if stack == [] then Null else if |stack| == 1 then Tree(Closed(stack[0])) else Finished(Pop(stack))
  }

  /** A white-space character or a '<' ends a word; a '<' after white space is preceded by an
      empty word. */
  function Settled(st: State, ch: nat): State
  {
    if ch != LT && !Space(ch) then st else
      var s := if st.buf != [] then State(AddNode(st.stack, Word(st.ws, st.buf)), [], Space(ch))
               else st.(ws := st.ws || Space(ch));
      if ch == LT && s.ws then State(AddNode(s.stack, Word(true, [])), s.buf, false) else s
  }

  /** The loop of mxml_load_data. */
  function LoadedFrom(s: Text, st: State, resolve: Resolver): Loaded
    decreases |s|, 0
  {
    if s == [] then Finished(st.stack) else
      var t := Settled(st, s[0]);
      if s[0] == LT then LoadedTag(s[1..], t, resolve)
      else if s[0] == AMP then
        match EntityOf(s[1..], resolve)
        case Got(ch, rest) => LoadedFrom(rest, t.(buf := t.buf + [ch]), resolve)
        case NoChar => Null
      else LoadedFrom(s[1..], if Space(s[0]) then t else t.(buf := t.buf + [s[0]]), resolve)
  }

  /** The rest after the next '>'. */
  function PastEnd(s: Text): (rest: Text)
    ensures |rest| <= |s|
  {
    if s == [] then [] else if s[0] == GT then s[1..] else PastEnd(s[1..])
  }

  /** An open or a close tag, after its '<'. */
  function LoadedTag(s: Text, st: State, resolve: Resolver): Loaded
    decreases |s|, 2
  {
    match TagOf(s, [], resolve)
    case Failed => Null
    case Part(buf, end, rest) =>
      if buf == COMMENT || buf == CDATA then
        match AsideOf(rest, buf, if buf == COMMENT then Comment else Cdata)
        case Failed => Null
        case Part(name, _, more) =>
          LoadedFrom(more, State(AddNode(st.stack, Element(name, [], [])), [], st.ws), resolve)
      else if buf != [] && (buf[0] == QUESTION || buf[0] == BANG) then
        match if buf[0] == QUESTION then AsideOf(rest, buf, Instruction)
              else if end == GT then Part(buf, GT, rest)
              else if end < 0 then Failed else DeclarationOf(rest, buf + [end], resolve)
        case Failed => Null
        case Part(name, _, more) => LoadedFrom(more, State(st.stack + [Frame(name, [], [])], [], st.ws), resolve)
      else if buf != [] && buf[0] == SLASH then
        if st.stack == [] || buf[1..] != st.stack[|st.stack| - 1].name then Null
        else LoadedFrom(if end == GT then rest else PastEnd(rest), State(Pop(st.stack), [], st.ws), resolve)
      else
        LoadedOpen(rest, buf, end, st, resolve)
  }

  /** An open tag, after its name and the character that ended it. */
  function LoadedOpen(s: Text, name: Text, end: int, st: State, resolve: Resolver): Loaded
    decreases |s|, 1
  {
    var p := if Space(end) then AttrsOf(s, [], resolve)
             else if end == SLASH then Marked([], SLASH, s) else Parsed([], end, s);
    var leaf := AddNode(st.stack, Element(name, p.attrs, []));
    if p.end == EOF then if end == SLASH then Null else Finished(leaf)
    else if p.end == SLASH then LoadedFrom(p.rest, State(leaf, [], st.ws), resolve)
    else LoadedFrom(p.rest, State(st.stack + [Frame(name, p.attrs, [])], [], st.ws), resolve)
  }

  /** mxmlLoadString without a top node and without a callback. */
  function LoadedText(s: Text, resolve: Resolver): Loaded { LoadedFrom(s, State([], [], false), resolve) }
}
