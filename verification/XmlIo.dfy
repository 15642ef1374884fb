/** Mini-XML's printer and parser as they run: loops over strings, with a buffer and a column. */
module XmlIo {
  import opened Sequences
  import opened Utf8
  import opened XmlText
  import opened XmlBytes

  // ---------- the printer, on the bytes of strings ----------

  method WriteChar(ch: nat) returns (text: Text)
    ensures text == EscapeChar(ch)
  {
    match EntityName(ch) {
      case Some(name) => text := [AMP] + name + [SEMICOLON];
      case None => text := [ch];
    }
  }

  /** mxml_write_string */
  method WriteString(s: Text) returns (text: Text)
    ensures text == Escape(s)
  {
    text := [];
    var i := 0;
    while i < |s|
      invariant i <= |s| && text + Escape(s[i..]) == Escape(s)
    {
      var ch := WriteChar(s[i]);
      Together(text, ch, Escape(s[i + 1..]));
      assert s[i..][1..] == s[i + 1..];
      text := text + ch;
      i := i + 1;
    }
  }

  /** mxml_write_name */
  method WriteName(s: Text) returns (text: Text)
    ensures text == NameText(s)
  {
    text := [];
    if s != [] && Quote(s[0]) {
      var quote, i := s[0], 1;
      while i < |s| && s[i] != quote
        invariant 1 <= i <= |s| && text + QuotedText(s[i..], quote) == QuotedText(s[1..], quote)
      {
        var ch := WriteChar(s[i]);
        Together(text, ch, QuotedText(s[i + 1..], quote));
        assert s[i..][1..] == s[i + 1..];
        text := text + ch;
        i := i + 1;
      }
      text := [quote] + text + [quote];
    } else {
      var i := 0;
      while i < |s|
        invariant i <= |s| && text == s[..i]
      {
        text := text + [s[i]];
        i := i + 1;
      }
    }
  }

  /** The body of the loop over the attributes in mxml_write_node. */
  method WriteAttr(a: Attr, start: nat) returns (text: Text, col: nat)
    ensures Out(text, col) == AttrBytes(a, start)
  {
    var width := AttrSize(a);
    if start + width > WRAP {
      text, col := [NEWLINE], 0;
    } else {
      text, col := [BLANK], start + 1;
    }
    var s := WriteName(a.name);
    if a.value.Some? {
      var value := WriteString(a.value.value);
      s := s + ([EQUAL, QUOTE] + value + [QUOTE]);
    }
    text, col := text + s, col + width;
  }

  /** What has been written, and what is left of the attributes. */
  ghost function AttrsFrom(text: Text, col: nat, attrs: seq<Attr>, i: nat): Out
    requires i <= |attrs|
  {
    var rest := AttrsBytes(attrs[i..], col);
    Out(text + rest.text, rest.col)
  }

  lemma AttrsNext(text: Text, col: nat, attrs: seq<Attr>, i: nat)
    requires i < |attrs|
    ensures
      var first := AttrBytes(attrs[i], col);
      AttrsFrom(text, col, attrs, i) == AttrsFrom(text + first.text, first.col, attrs, i + 1)
  {
    var first := AttrBytes(attrs[i], col);
    assert attrs[i..][1..] == attrs[i + 1..];
    Together(text, first.text, AttrsBytes(attrs[i + 1..], first.col).text);
  }

  lemma AttrsWhole(attrs: seq<Attr>, col: nat)
    ensures AttrsFrom([], col, attrs, 0) == AttrsBytes(attrs, col)
  {
    assert attrs[0..] == attrs && [] + AttrsBytes(attrs, col).text == AttrsBytes(attrs, col).text;
  }

  lemma AttrsDone(text: Text, col: nat, attrs: seq<Attr>)
    ensures AttrsFrom(text, col, attrs, |attrs|) == Out(text, col)
  {
    assert text + [] == text;
  }

  /** The loop over the attributes in mxml_write_node. */
  method WriteAttrs(attrs: seq<Attr>, start: nat) returns (text: Text, col: nat)
    ensures Out(text, col) == AttrsBytes(attrs, start)
  {
    text, col := [], start;
    var i := 0;
    AttrsWhole(attrs, start);
    while i < |attrs|
      invariant i <= |attrs| && AttrsFrom(text, col, attrs, i) == AttrsBytes(attrs, start)
    {
      AttrsNext(text, col, attrs, i);
      var s, c := WriteAttr(attrs[i], col);
      text, col := text + s, c;
      i := i + 1;
    }
    AttrsDone(text, col, attrs);
  }

  /** One more node. */
  lemma NodesNext(nodes: seq<Node>, i: nat, text: Text, col: nat)
    requires i < |nodes|
    ensures
      var all, first := NodesBytes(nodes[i..], col), NodeBytes(nodes[i], col);
      var rest := NodesBytes(nodes[i + 1..], first.col);
      Out(text + all.text, all.col) == Out(text + first.text + rest.text, rest.col)
  {
    var first := NodeBytes(nodes[i], col);
    assert nodes[i..][1..] == nodes[i + 1..];
    Together(text, first.text, NodesBytes(nodes[i + 1..], first.col).text);
  }

  /** mxml_write_node: the nodes from the first one on, and their children. */
  method WriteNode(nodes: seq<Node>, start: nat) returns (text: Text, col: nat)
    ensures Out(text, col) == NodesBytes(nodes, start)
    decreases nodes, 0
  {
    text, col := [], start;
    var i := 0;
    while i < |nodes|
      invariant i <= |nodes|
      invariant var rest := NodesBytes(nodes[i..], col); Out(text + rest.text, rest.col) == NodesBytes(nodes, start)
    {
      NodesNext(nodes, i, text, col);
      var s, c := WriteOne(nodes[i], col);
      text, col := text + s, c;
      i := i + 1;
    }
  }

  /** The case of mxml_write_node for a word. */
  method WriteWord(whitespace: bool, word: Text, start: nat) returns (text: Text, col: nat)
    ensures Out(text, col) == NodeBytes(Word(whitespace, word), start)
  {
    text, col := [], start;
    if whitespace && col > 0 {
      if col > WRAP {
        text := [NEWLINE];
        col := 0;
      } else {
        text := [BLANK];
        col := col + 1;
      }
    }
    var s := WriteString(word);
    text := text + s;
    col := col + |word|;
  }

  /** The start of an element, up to its name. */
  method WriteOpen(name: Text, start: nat) returns (text: Text, col: nat)
    ensures Out(text, col) == OpenBytes(name, start)
  {
    text, col := [LT], start;
    if Verbatim(name) {
      text := text + name;
      if XML <= name {
        col := WRAP;
      }
    } else {
      var s := WriteName(name);
      text := text + s;
    }
    col := col + |name| + 1;
  }

  /** The body of the loop of mxml_write_node. */
  method WriteOne(node: Node, start: nat) returns (text: Text, col: nat)
    ensures Out(text, col) == NodeBytes(node, start)
    decreases node, 1
  {
    match node {
      case Word(whitespace, word) =>
        text, col := WriteWord(whitespace, word, start);
      case Element(name, attrs, children) =>
        var open, c := WriteOpen(name, start);
        var list, inside, end;
        list, c := WriteAttrs(attrs, c);
        if children != [] {
          inside, c := WriteNode(children, c + 1);
          if Special(name) {
            end := [];
          } else {
            end := WriteString(name);
            end := [LT, SLASH] + end + [GT];
            c := c + |name| + 3;
          }
          text, col := open + list + [GT] + inside + end, c;
        } else {
          end := if Special(name) then [GT] else [BLANK, SLASH, GT];
          text, col := open + list + end, c + |end|;
        }
    }
  }

  /** mxmlSaveString, for a node and the siblings after it. */
  method SaveString(nodes: seq<Node>) returns (text: Text)
    ensures text == SavedBytes(nodes)
  {
    var col;
    text, col := WriteNode(nodes, 0);
    if col > 0 {
      text := text + [NEWLINE];
    }
  }

  // ---------- the parser ----------

  /** mxml_get_entity */
  method GetEntity(s: Text, start: nat, resolve: Resolver) returns (ch: int, pos: nat)
    requires start <= |s|
    ensures start <= pos <= |s|
    ensures match EntityOf(s[start..], resolve)
      case NoChar => ch == EOF
      case Got(c, rest) => ch == c && rest == s[pos..]
  {
    var entity: Text := [];
    ghost var n := EntityLength(s[start..]);
    pos, ch := start, EOF;
    while pos < |s|
      invariant start <= pos <= |s| && entity == s[start..pos] && |entity| <= ENTITY_SIZE
      invariant n == |entity| + EntityLength(s[pos..])
      invariant ch == EOF
    {
      assert s[pos..][1..] == s[pos + 1..];
      ch := s[pos];
      pos := pos + 1;
      if ch > 126 || (!Alnum(ch) && ch != HASH) {
        break;
      } else if |entity| < ENTITY_SIZE {
        entity := entity + [ch];
        ch := EOF;
      } else {
        break;
      }
    }
    if ch != SEMICOLON {
      return EOF, pos;
    }
    assert entity == s[start..][..n] && s[start..][n + 1..] == s[pos..];
    ch := EntityValue(entity, resolve);
    if BadChar(ch) {
      ch := EOF;
    }
  }

  /** What the next character is to the reader of a tag. */
  lemma TagNext(s: Text, pos: nat, buf: Text, resolve: Resolver)
    requires pos < |s|
    ensures
      var ch, rest := s[pos], s[pos + 1..];
      var got, b := EntityOf(rest, resolve), buf + [ch];
      TagOf(s[pos..], buf, resolve)
      == if Space(ch) || ch == GT || (ch == SLASH && buf != []) then Part(buf, ch, rest)
         else if ch == AMP then if got.Got? then TagOf(got.rest, buf + [got.ch], resolve) else Failed
         else if b == [QUESTION] || b == COMMENT || b == CDATA then Part(b, ch, rest) else TagOf(rest, b, resolve)
  {
    assert s[pos..][0] == s[pos] && s[pos..][1..] == s[pos + 1..];
  }

  /** The body of the first loop of mxml_load_data after a '<'. */
  method ReadTagChar(s: Text, start: nat, before: Text, resolve: Resolver)
    returns (ok: bool, done: bool, buffer: Text, ch: int, pos: nat)
    requires start < |s|
    ensures start < pos <= |s|
    ensures TagOf(s[start..], before, resolve)
         == if !ok then Failed else if done then Part(buffer, ch, s[pos..]) else TagOf(s[pos..], buffer, resolve)
  {
    TagNext(s, start, before, resolve);
    ok, done, buffer, ch, pos := true, true, before, s[start], start + 1;
    var c := s[start];
    if Space(c) || c == GT || (c == SLASH && buffer != []) {
      return;
    }
    if c == AMP {
      ch, pos := GetEntity(s, pos, resolve);
      if ch == EOF {
        ok := false;
        return;
      }
      c := ch;
      buffer := buffer + [c];
    } else {
      buffer := buffer + [c];
      if buffer == [QUESTION] || buffer == COMMENT || buffer == CDATA {
        return;
      }
    }
    done := false;
  }

  /** The first loop of mxml_load_data after a '<'. */
  method ReadTag(s: Text, start: nat, resolve: Resolver) returns (ok: bool, buffer: Text, ch: int, pos: nat)
    requires start <= |s|
    ensures start <= pos <= |s|
    ensures TagOf(s[start..], [], resolve) == if ok then Part(buffer, ch, s[pos..]) else Failed
  {
    ok, buffer, pos := true, [], start;
    while pos < |s|
      invariant start <= pos <= |s| && ok
      invariant TagOf(s[start..], [], resolve) == TagOf(s[pos..], buffer, resolve)
    {
      var done;
      ok, done, buffer, ch, pos := ReadTagChar(s, pos, buffer, resolve);
      if !ok || done {
        return;
      }
    }
    ch := EOF;
  }

  /** The loops of mxml_load_data for the rest of a comment, a CDATA section or a processing
      instruction. */
  method ReadAside(s: Text, start: nat, name: Text, kind: Aside) returns (ok: bool, buffer: Text, pos: nat)
    requires start <= |s|
    ensures start <= pos <= |s|
    ensures AsideOf(s[start..], name, kind) == if ok then Part(buffer, GT, s[pos..]) else Failed
  {
    ok, buffer, pos := false, name, start;
    while pos < |s|
      invariant start <= pos <= |s| && !ok
      invariant AsideOf(s[start..], name, kind) == AsideOf(s[pos..], buffer, kind)
    {
      var ch := s[pos];
      assert s[pos..][0] == s[pos] && s[pos..][1..] == s[pos + 1..];
      pos := pos + 1;
      if ch == GT && AsideEnds(buffer, kind) {
        ok := true;
        return;
      }
      buffer := buffer + [ch];
    }
  }

  /** The next character, with an entity resolved. */
  method ReadChar(s: Text, start: nat, resolve: Resolver) returns (ch: int, pos: nat)
    requires start < |s|
    ensures start < pos <= |s|
    ensures match if s[start] == AMP then EntityOf(s[start..][1..], resolve) else Got(s[start], s[start..][1..])
      case NoChar => ch == EOF
      case Got(c, rest) => ch == c && rest == s[pos..]
  {
    assert s[start..][1..] == s[start + 1..];
    ch, pos := s[start], start + 1;
    if ch == AMP {
      ch, pos := GetEntity(s, pos, resolve);
    }
  }

  /** The loop of mxml_load_data for the rest of a declaration. */
  method ReadDeclaration(s: Text, start: nat, name: Text, end: int, resolve: Resolver)
    returns (ok: bool, buffer: Text, pos: nat)
    requires start <= |s|
    ensures start <= pos <= |s|
    ensures (if end == GT then Part(name, GT, s[start..])
             else if end < 0 then Failed else DeclarationOf(s[start..], name + [end], resolve))
            == if ok then Part(buffer, GT, s[pos..]) else Failed
  {
    ok, buffer, pos := end == GT, name, start;
    if ok || end < 0 {
      return;
    }
    buffer := buffer + [end];
    while pos < |s|
      invariant start <= pos <= |s| && !ok
      invariant DeclarationOf(s[start..], name + [end], resolve) == DeclarationOf(s[pos..], buffer, resolve)
      decreases |s| - pos
    {
      assert s[pos..][0] == s[pos] && s[pos..][1..] == s[pos + 1..];
      if s[pos] == GT {
        return true, buffer, pos + 1;
      }
      var ch;
      ch, pos := ReadChar(s, pos, resolve);
      if ch == EOF {
        return;
      }
      buffer := buffer + [ch];
    }
  }

  /** The loops of mxml_parse_element for a name or a value. */
  method ReadUntil(s: Text, start: nat, first: Text, stop: Stop, resolve: Resolver)
    returns (ok: bool, buffer: Text, ch: int, pos: nat)
    requires start <= |s|
    ensures start <= pos <= |s|
    ensures UntilOf(s[start..], first, stop, resolve) == if ok then Part(buffer, ch, s[pos..]) else Failed
  {
    ok, buffer, ch, pos := true, first, EOF, start;
    while pos < |s|
      invariant start <= pos <= |s| && ch == EOF
      invariant UntilOf(s[start..], first, stop, resolve) == UntilOf(s[pos..], buffer, stop, resolve)
    {
      ghost var left := s[pos..];
      assert left[0] == s[pos] && left[1..] == s[pos + 1..];
      if Stops(stop, s[pos]) {
        return ok, buffer, s[pos], pos + 1;
      }
      ch, pos := ReadChar(s, pos, resolve);
      if ch == EOF {
        ok := false;
        return;
      }
      buffer := buffer + [ch];
      ch := EOF;
    }
  }

  /** The loop of mxml_parse_element for a name in quotes. */
  method ReadQuotedName(s: Text, start: nat, first: Text, quote: nat, resolve: Resolver)
    returns (ok: bool, buffer: Text, ch: int, pos: nat)
    requires start <= |s|
    ensures start <= pos <= |s|
    ensures QuotedNameOf(s[start..], first, quote, resolve) == if ok then Part(buffer, ch, s[pos..]) else Failed
  {
    ok, buffer, ch, pos := true, first, EOF, start;
    while pos < |s|
      invariant start <= pos <= |s| && ch == EOF
      invariant QuotedNameOf(s[start..], first, quote, resolve) == QuotedNameOf(s[pos..], buffer, quote, resolve)
    {
      ghost var left := s[pos..];
      assert left[0] == s[pos];
      ch, pos := ReadChar(s, pos, resolve);
      if ch == EOF {
        ok := false;
        return;
      }
      buffer := buffer + [ch];
      if ch == quote {
        return;
      }
      ch := EOF;
    }
  }

  /** An attribute name, which starts at a character that is not white space. */
  method ReadName(s: Text, start: nat, resolve: Resolver) returns (ok: bool, name: Text, ch: int, pos: nat)
    requires start < |s|
    ensures start < pos <= |s|
    ensures NameOf(s[start..], resolve) == if ok then Part(name, ch, s[pos..]) else Failed
  {
    assert s[start..][0] == s[start] && s[start..][1..] == s[start + 1..];
    if Quote(s[start]) {
      ok, name, ch, pos := ReadQuotedName(s, start + 1, [s[start]], s[start], resolve);
    } else {
      ok, name, ch, pos := ReadUntil(s, start + 1, [Char8(s[start])], PlainName, resolve);
    }
  }

  /** An attribute value. */
  method ReadValue(s: Text, start: nat, resolve: Resolver) returns (ok: bool, value: Text, ch: int, pos: nat)
    requires start <= |s|
    ensures start <= pos <= |s|
    ensures ValueOf(s[start..], resolve) == if ok then Part(value, ch, s[pos..]) else Failed
  {
    if start == |s| {
      return false, [], EOF, start;
    }
    assert s[start..][0] == s[start] && s[start..][1..] == s[start + 1..];
    if Quote(s[start]) {
      ok, value, ch, pos := ReadUntil(s, start + 1, [], Quoted(s[start]), resolve);
    } else {
      ok, value, ch, pos := ReadUntil(s, start + 1, [Char8(s[start])], PlainValue, resolve);
    }
  }

  /** mxmlElementGetAttr */
  method FindAttr(attrs: seq<Attr>, name: Text) returns (value: Option)
    ensures value == GetAttr(attrs, name)
  {
    var i := 0;
    while i < |attrs|
      invariant i <= |attrs| && GetAttr(attrs, name) == GetAttr(attrs[i..], name)
    {
      assert attrs[i..][1..] == attrs[i + 1..];
      if attrs[i].name == name {
        return attrs[i].value;
      }
      i := i + 1;
    }
    value := None;
  }

  lemma SetNext(attrs: seq<Attr>, i: nat, name: Text, value: Option)
    requires i < |attrs|
    ensures attrs[..i] + SetAttr(attrs[i..], name, value)
         == if attrs[i].name == name then attrs[i := Attr(name, value)]
            else attrs[..i + 1] + SetAttr(attrs[i + 1..], name, value)
  {
    var front, a, rest := attrs[..i], attrs[i], attrs[i + 1..];
    assert attrs[i..][0] == a && attrs[i..][1..] == rest;
    if a.name == name {
      assert attrs[i := Attr(name, value)] == front + ([Attr(name, value)] + rest);
    } else {
      assert attrs[..i + 1] == front + [a];
      assert front + ([a] + SetAttr(rest, name, value)) == front + [a] + SetAttr(rest, name, value);
    }
  }

  /** mxmlElementSetAttr */
  method ChangeAttr(attrs: seq<Attr>, name: Text, value: Option) returns (r: seq<Attr>)
    ensures r == SetAttr(attrs, name, value)
  {
    var i := 0;
    while i < |attrs|
      invariant i <= |attrs| && SetAttr(attrs, name, value) == attrs[..i] + SetAttr(attrs[i..], name, value)
    {
      SetNext(attrs, i, name, value);
      if attrs[i].name == name {
        return attrs[i := Attr(name, value)];
      }
      i := i + 1;
    }
    r := attrs + [Attr(name, value)];
    assert attrs[..i] == attrs && attrs[i..] == [];
  }

  /** mxml_parse_element, from the name of an attribute to the end of its value. */
  method ReadAttr(s: Text, start: nat, before: seq<Attr>, resolve: Resolver)
    returns (ok: bool, attrs: seq<Attr>, ch: int, pos: nat)
    requires start < |s| && !Space(s[start]) && s[start] != SLASH && s[start] != QUESTION && s[start] != GT
    ensures ok ==> start < pos <= |s|
    ensures AttrsOf(s[start..], before, resolve)
         == if ok then AttrsAfter(attrs, ch, s[pos..], |s[start..]|, resolve) else Parsed(before, EOF, [])
  {
    assert s[start..][0] == s[start];
    ok, attrs := true, before;
    var name;
    ok, name, ch, pos := ReadName(s, start, resolve);
    if !ok {
      return;
    }
    var found := FindAttr(attrs, name);
    if found.Some? {
      ok := false;
      return;
    }
    var value := None;
    if ch == EQUAL {
      var text;
      ok, text, ch, pos := ReadValue(s, pos, resolve);
      if !ok {
        return;
      }
      value := Some(text);
    }
    attrs := ChangeAttr(attrs, name, value);
  }

  /** What was parsed, and where: behind an error nothing is read. */
  ghost predicate ParsedTo(p: Parsed, attrs: seq<Attr>, ch: int, rest: Text)
  {
    p.attrs == attrs && p.end == ch && (ch != EOF ==> p.rest == rest)
  }

  /** The body of the loop of mxml_parse_element. */
  method ParseAttr(s: Text, start: nat, before: seq<Attr>, resolve: Resolver)
    returns (done: bool, attrs: seq<Attr>, ch: int, pos: nat)
    requires start < |s|
    ensures start <= pos <= |s| && (!done ==> start < pos)
    ensures
      var p := AttrsOf(s[start..], before, resolve);
      if done then ParsedTo(p, attrs, ch, s[pos..]) else p == AttrsOf(s[pos..], attrs, resolve)
  {
    assert s[start..][0] == s[start] && s[start..][1..] == s[start + 1..];
    done, attrs, ch, pos := false, before, EOF, start + 1;
    if Space(s[start]) {
      return;
    }
    done := true;
    if s[start] == SLASH || s[start] == QUESTION {
      ch, pos := ExpectEnd(s, pos, s[start]);
      return;
    } else if s[start] == GT {
      return done, attrs, GT, pos;
    }
    var ok;
    ok, attrs, ch, pos := ReadAttr(s, start, before, resolve);
    if !ok {
      return done, before, EOF, start;
    }
    if ch == SLASH || ch == QUESTION {
      ch, pos := ExpectEnd(s, pos, ch);
    } else if ch != GT {
      done := false;
    }
  }

  /** mxml_parse_element; an error ends it like the end of the text. */
  method ParseElement(s: Text, start: nat, resolve: Resolver) returns (attrs: seq<Attr>, ch: int, pos: nat)
    requires start <= |s|
    ensures start <= pos <= |s| && ParsedTo(AttrsOf(s[start..], [], resolve), attrs, ch, s[pos..])
  {
    attrs, pos := [], start;
    while pos < |s|
      invariant start <= pos <= |s|
      invariant AttrsOf(s[start..], [], resolve) == AttrsOf(s[pos..], attrs, resolve)
      decreases |s| - pos
    {
      var done;
      done, attrs, ch, pos := ParseAttr(s, pos, attrs, resolve);
      if done {
        return;
      }
    }
    ch := EOF;
  }

  /** After a '/' or a '?', a '>' must follow. */
  method ExpectEnd(s: Text, start: nat, mark: int) returns (ch: int, pos: nat)
    requires start <= |s| && mark >= 0
    ensures start <= pos <= |s|
    ensures var p := Marked([], mark, s[start..]); p.end == ch && (ch != EOF ==> p.rest == s[pos..])
  {
    if start < |s| && s[start] == GT {
      return mark, start + 1;
    }
    return EOF, start;
  }

  // ---------- mxml_load_data ----------

  /** mxml_load_data without a top node and without a callback */
  method LoadData(s: Text, resolve: Resolver) returns (r: Loaded)
    ensures r == LoadedText(s, resolve)
  {
    var st, pos := State([], [], false), 0;
    assert s[0..] == s;
    while pos < |s|
      invariant pos <= |s| && LoadedText(s, resolve) == LoadedFrom(s[pos..], st, resolve)
      decreases |s| - pos
    {
      var ch := s[pos];
      assert s[pos..][0] == ch && s[pos..][1..] == s[pos + 1..];
      st := Settle(st, ch);
      if ch == LT {
        var done;
        done, r, st, pos := LoadTag(s, pos + 1, st, resolve);
        if done {
          return;
        }
      } else if ch == AMP {
        var c;
        c, pos := GetEntity(s, pos + 1, resolve);
        if c == EOF {
          return Null;
        }
        st := st.(buf := st.buf + [c]);
      } else {
        if !Space(ch) {
          st := st.(buf := st.buf + [ch]);
        }
        pos := pos + 1;
      }
    }
    r := Finish(st.stack);
  }

  /** The start of the loop of mxml_load_data: a word, or a lone white space. */
  method Settle(st: State, ch: nat) returns (r: State)
    ensures r == Settled(st, ch)
  {
    r := st;
    if (ch == LT || Space(ch)) && r.buf != [] {
      r := State(AddNode(r.stack, Word(r.ws, r.buf)), [], Space(ch));
    } else if Space(ch) {
      r := r.(ws := true);
    }
    if ch == LT && r.ws {
      r := State(AddNode(r.stack, Word(r.ws, [])), r.buf, false);
    }
  }

  /** The end of mxml_load_data: from the innermost open element up to the outermost. */
  method Finish(stack: seq<Frame>) returns (r: Loaded)
    ensures r == Finished(stack)
  {
    if stack == [] {
      return Null;
    }
    var up := stack;
    while |up| > 1
      invariant up != [] && Finished(stack) == Finished(up)
      decreases |up|
    {
      up := Pop(up);
    }
    r := Tree(Closed(up[0]));
  }

  /** The part of mxml_load_data for a tag: either the result is known, or the loop goes on. */
  method LoadTag(s: Text, start: nat, st: State, resolve: Resolver)
    returns (done: bool, r: Loaded, next: State, pos: nat)
    requires start <= |s|
    ensures start <= pos <= |s|
    ensures LoadedTag(s[start..], st, resolve) == if done then r else LoadedFrom(s[pos..], next, resolve)
  {
    done, r, next := true, Null, st;
    var ok, buffer, ch;
    ok, buffer, ch, pos := ReadTag(s, start, resolve);
    if !ok {
      return;
    }
    if buffer == COMMENT || buffer == CDATA {
      ok, buffer, pos := ReadAside(s, pos, buffer, if buffer == COMMENT then Comment else Cdata);
      if ok {
        done, next := false, State(AddNode(st.stack, Element(buffer, [], [])), [], st.ws);
      }
    } else if buffer != [] && (buffer[0] == QUESTION || buffer[0] == BANG) {
      if buffer[0] == QUESTION {
        ok, buffer, pos := ReadAside(s, pos, buffer, Instruction);
      } else {
        ok, buffer, pos := ReadDeclaration(s, pos, buffer, ch, resolve);
      }
      if ok {
        done, next := false, State(st.stack + [Frame(buffer, [], [])], [], st.ws);
      }
    } else if buffer != [] && buffer[0] == SLASH {
      if st.stack != [] && buffer[1..] == st.stack[|st.stack| - 1].name {
        if ch != GT {
          pos := SkipPastEnd(s, pos);
        }
        done, next := false, State(Pop(st.stack), [], st.ws);
      }
    } else {
      done, r, next, pos := LoadOpen(s, pos, buffer, ch, st, resolve);
    }
  }

  method SkipPastEnd(s: Text, start: nat) returns (pos: nat)
    requires start <= |s|
    ensures start <= pos <= |s| && s[pos..] == PastEnd(s[start..])
  {
    pos := start;
    while pos < |s| && s[pos] != GT
      invariant start <= pos <= |s| && PastEnd(s[start..]) == PastEnd(s[pos..])
    {
      assert s[pos..][1..] == s[pos + 1..];
      pos := pos + 1;
    }
    if pos < |s| {
      assert s[pos..][1..] == s[pos + 1..];
      pos := pos + 1;
    }
  }

  /** The part of mxml_load_data for an open tag. */
  method LoadOpen(s: Text, start: nat, name: Text, end: int, st: State, resolve: Resolver)
    returns (done: bool, r: Loaded, next: State, pos: nat)
    requires start <= |s|
    ensures start <= pos <= |s|
    ensures LoadedOpen(s[start..], name, end, st, resolve) == if done then r else LoadedFrom(s[pos..], next, resolve)
  {
    done, r, next, pos := true, Null, st, start;
    var attrs, ch := [], end;
    if Space(ch) {
      attrs, ch, pos := ParseElement(s, pos, resolve);
    } else if ch == SLASH {
      ch, pos := ExpectEnd(s, pos, SLASH);
      if ch == EOF {
        return;
      }
    }
    var leaf := AddNode(st.stack, Element(name, attrs, []));
    if ch == EOF {
      r := Finish(leaf);
    } else if ch != SLASH {
      done, next := false, State(st.stack + [Frame(name, attrs, [])], [], st.ws);
    } else {
      done, next := false, State(leaf, [], st.ws);
    }
  }
}
