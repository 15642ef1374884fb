/** Documents as they may be written, and the trees that Mini-XML loads for them: attributes in
    any layout, characters in any spelling, white space between words and inside tags, comments,
    CDATA sections, processing instructions and declarations. */
module XmlDocument {
  import opened XmlText
  import opened XmlReferences

  // ---------- attributes ----------

  /** An attribute behind white space: without a value, with its name in quotes, with a value
      without quotes, or with a value in quotes. */
  datatype Laid =
    | Bare(gap: Text, first: nat, others: seq<Letter>)
    | QuotedName(gap: Text, quote: nat, body: seq<Letter>)
    | Unquoted(gap: Text, first: nat, others: seq<Letter>, head: nat, tail: seq<Letter>)
    | Valued(gap: Text, first: nat, others: seq<Letter>, quote: nat, value: seq<Letter>)

  /** The attribute, and the text behind it. */
  function LaidText(a: Laid, rest: Text): Text
  {
    match a
    case Bare(gap, first, others) => gap + ([first] + Written(others, rest))
    case QuotedName(gap, quote, body) => gap + ([quote] + Written(body, [quote] + rest))
    case Unquoted(gap, first, others, head, tail) =>
      gap + ([first] + Written(others, [EQUAL] + ([head] + Written(tail, rest))))
    case Valued(gap, first, others, quote, value) =>
      gap + ([first] + Written(others, [EQUAL] + ([quote] + Written(value, [quote] + rest))))
  }

  function AttrOf(a: Laid): Attr
  {
    match a
    case Bare(_, first, others) => Attr([first] + Chars(others), None)
    case QuotedName(_, quote, body) => Attr([quote] + Chars(body) + [quote], None)
    case Unquoted(_, first, others, head, tail) => Attr([first] + Chars(others), Some([head] + Chars(tail)))
    case Valued(_, first, others, _, value) => Attr([first] + Chars(others), Some(Chars(value)))
  }

  predicate White(s: Text) { forall i | 0 <= i < |s| :: Space(s[i]) }

  /** The first character of a name without quotes is taken as it is, as a single byte. */
  predicate FirstChar(ch: nat)
  {
    ch < 128 && !Space(ch) && ch != SLASH && ch != QUESTION && ch != GT && !Quote(ch)
  }

  predicate Avoids(ls: seq<Letter>, stop: Stop, resolve: Resolver)
  {
    forall i | 0 <= i < |ls| :: MaySpell(ls[i], resolve) && (ls[i].sp.Raw? ==> !Stops(stop, ls[i].ch))
  }

  predicate MayLay(a: Laid, resolve: Resolver)
  {
    White(a.gap) &&
    match a
    case Bare(_, first, others) => FirstChar(first) && Avoids(others, PlainName, resolve)
    case QuotedName(_, quote, body) =>
      Quote(quote) && forall i | 0 <= i < |body| :: MaySpell(body[i], resolve) && body[i].ch != quote
    case Unquoted(_, first, others, head, tail) =>
      FirstChar(first) && Avoids(others, PlainName, resolve) && head < 128 && !Quote(head)
      && Avoids(tail, PlainValue, resolve)
    case Valued(_, first, others, quote, value) =>
      FirstChar(first) && Avoids(others, PlainName, resolve) && Quote(quote) && Avoids(value, Quoted(quote), resolve)
  }

  /** Only quotes end an attribute without a separator. */
  predicate Open(a: Laid) { a.Bare? || a.Unquoted? }

  /** What ends a name or a value without quotes, and is still to be read then. */
  predicate Ends(s: Text) { s != [] && (Space(s[0]) || s[0] == GT || s[0] == SLASH) }

  lemma {:induction false} GapSkipped(gap: Text, s: Text, done: seq<Attr>, resolve: Resolver)
    requires White(gap)
    ensures AttrsOf(gap + s, done, resolve) == AttrsOf(s, done, resolve)
  {
    if gap == [] {
      assert gap + s == s;
    } else {
      assert (gap + s)[1..] == gap[1..] + s;
      GapSkipped(gap[1..], s, done, resolve);
    }
  }

  /** The character that ends an attribute counts as if it were read after it. */
  lemma EndIsRead(s: Text, attrs: seq<Attr>, limit: nat, resolve: Resolver)
    requires Ends(s) && |s| <= limit
    ensures AttrsAfter(attrs, s[0], s[1..], limit, resolve) == AttrsOf(s, attrs, resolve)
  {
  }

  /** What the parser does with an attribute that is new, or has no value yet. */
  lemma NameIsRead(s: Text, name: Text, end: int, rest: Text, done: seq<Attr>, resolve: Resolver)
    requires s != [] && !Space(s[0]) && s[0] != SLASH && s[0] != QUESTION && s[0] != GT
    requires NameOf(s, resolve) == Part(name, end, rest)
    ensures GetAttr(done, name).Some? ==> AttrsOf(s, done, resolve) == Parsed(done, EOF, [])
    ensures GetAttr(done, name).None? && end != EQUAL ==>
      AttrsOf(s, done, resolve) == AttrsAfter(SetAttr(done, name, None), end, rest, |s|, resolve)
    ensures GetAttr(done, name).None? && end == EQUAL && ValueOf(rest, resolve).Part? ==>
      var value := ValueOf(rest, resolve);
      AttrsOf(s, done, resolve)
      == AttrsAfter(SetAttr(done, name, Some(value.buf)), value.end, value.rest, |s|, resolve)
  {
  }

  lemma PlainNameRead(first: nat, others: seq<Letter>, end: nat, rest: Text, resolve: Resolver)
    requires FirstChar(first) && Avoids(others, PlainName, resolve) && Stops(PlainName, end)
    ensures NameOf([first] + Written(others, [end] + rest), resolve) == Part([first] + Chars(others), end, rest)
  {
    UntilWritten(others, end, rest, [first], PlainName, resolve);
    NameHead(first, Written(others, [end] + rest), resolve);
  }

  lemma NameHead(first: nat, s: Text, resolve: Resolver)
    requires FirstChar(first)
    ensures NameOf([first] + s, resolve) == UntilOf(s, [first], PlainName, resolve)
  {
    assert ([first] + s)[1..] == s;
  }

  lemma FirstAndRest(s: Text)
    requires s != []
    ensures s == [s[0]] + s[1..]
  {
  }

  lemma BareRead(a: Laid, rest: Text, done: seq<Attr>, resolve: Resolver)
    requires a.Bare? && MayLay(a, resolve) && Ends(rest)
    ensures AttrsOf(LaidText(a, rest), done, resolve)
         == if GetAttr(done, AttrOf(a).name).Some? then Parsed(done, EOF, [])
            else AttrsOf(rest, SetAttr(done, AttrOf(a).name, None), resolve)
  {
    var s := [a.first] + Written(a.others, rest);
    GapSkipped(a.gap, s, done, resolve);
    FirstAndRest(rest);
    PlainNameRead(a.first, a.others, rest[0], rest[1..], resolve);
    NameIsRead(s, AttrOf(a).name, rest[0], rest[1..], done, resolve);
    EndIsRead(rest, SetAttr(done, AttrOf(a).name, None), |s|, resolve);
  }

  lemma QuotedNameRead(a: Laid, rest: Text, done: seq<Attr>, resolve: Resolver)
    requires a.QuotedName? && MayLay(a, resolve)
    ensures AttrsOf(LaidText(a, rest), done, resolve)
         == if GetAttr(done, AttrOf(a).name).Some? then Parsed(done, EOF, [])
            else AttrsOf(rest, SetAttr(done, AttrOf(a).name, None), resolve)
  {
    var s := [a.quote] + Written(a.body, [a.quote] + rest);
    GapSkipped(a.gap, s, done, resolve);
    assert s[1..] == Written(a.body, [a.quote] + rest);
    QuotedWritten(a.body, a.quote, rest, [a.quote], resolve);
    NameIsRead(s, AttrOf(a).name, a.quote, rest, done, resolve);
  }

  lemma PlainValueRead(head: nat, tail: seq<Letter>, rest: Text, resolve: Resolver)
    requires head < 128 && !Quote(head) && Avoids(tail, PlainValue, resolve) && Ends(rest)
    ensures ValueOf([head] + Written(tail, rest), resolve) == Part([head] + Chars(tail), rest[0], rest[1..])
  {
    FirstAndRest(rest);
    UntilWritten(tail, rest[0], rest[1..], [head], PlainValue, resolve);
    PlainHead(head, Written(tail, rest), resolve);
  }

  lemma PlainHead(head: nat, s: Text, resolve: Resolver)
    requires head < 128 && !Quote(head)
    ensures ValueOf([head] + s, resolve) == UntilOf(s, [head], PlainValue, resolve)
  {
    assert ([head] + s)[1..] == s;
  }

  lemma UnquotedRead(a: Laid, rest: Text, done: seq<Attr>, resolve: Resolver)
    requires a.Unquoted? && MayLay(a, resolve) && Ends(rest)
    ensures AttrsOf(LaidText(a, rest), done, resolve)
         == if GetAttr(done, AttrOf(a).name).Some? then Parsed(done, EOF, [])
            else AttrsOf(rest, SetAttr(done, AttrOf(a).name, AttrOf(a).value), resolve)
  {
    var value := [a.head] + Written(a.tail, rest);
    var s := [a.first] + Written(a.others, [EQUAL] + value);
    GapSkipped(a.gap, s, done, resolve);
    PlainNameRead(a.first, a.others, EQUAL, value, resolve);
    PlainValueRead(a.head, a.tail, rest, resolve);
    NameIsRead(s, AttrOf(a).name, EQUAL, value, done, resolve);
    EndIsRead(rest, SetAttr(done, AttrOf(a).name, AttrOf(a).value), |s|, resolve);
  }

  lemma ValuedRead(a: Laid, rest: Text, done: seq<Attr>, resolve: Resolver)
    requires a.Valued? && MayLay(a, resolve)
    ensures AttrsOf(LaidText(a, rest), done, resolve)
         == if GetAttr(done, AttrOf(a).name).Some? then Parsed(done, EOF, [])
            else AttrsOf(rest, SetAttr(done, AttrOf(a).name, AttrOf(a).value), resolve)
  {
    var value := [a.quote] + Written(a.value, [a.quote] + rest);
    var s := [a.first] + Written(a.others, [EQUAL] + value);
    GapSkipped(a.gap, s, done, resolve);
    PlainNameRead(a.first, a.others, EQUAL, value, resolve);
    UntilWritten(a.value, a.quote, rest, [], Quoted(a.quote), resolve);
    assert value[1..] == Written(a.value, [a.quote] + rest) && [] + Chars(a.value) == Chars(a.value);
    NameIsRead(s, AttrOf(a).name, EQUAL, value, done, resolve);
  }

  /** An attribute is read in each of its layouts; if its name has a value already, the element
      ends with an error. */
  lemma LaidRead(a: Laid, rest: Text, done: seq<Attr>, resolve: Resolver)
    requires MayLay(a, resolve) && (Open(a) ==> Ends(rest))
    ensures AttrsOf(LaidText(a, rest), done, resolve)
         == if GetAttr(done, AttrOf(a).name).Some? then Parsed(done, EOF, [])
            else AttrsOf(rest, SetAttr(done, AttrOf(a).name, AttrOf(a).value), resolve)
  {
    match a
    case Bare(_, _, _) => BareRead(a, rest, done, resolve);
    case QuotedName(_, _, _) => QuotedNameRead(a, rest, done, resolve);
    case Unquoted(_, _, _, _, _) => UnquotedRead(a, rest, done, resolve);
    case Valued(_, _, _, _, _) => ValuedRead(a, rest, done, resolve);
  }

  function LaidAll(attrs: seq<Laid>, rest: Text): Text
  {
    if attrs == [] then rest else LaidText(attrs[0], LaidAll(attrs[1..], rest))
  }

  function AttrsLaid(attrs: seq<Laid>): seq<Attr>
  {
    if attrs == [] then [] else [AttrOf(attrs[0])] + AttrsLaid(attrs[1..])
  }

  /** White space stands between attributes, except behind quotes. */
  predicate MayLayAll(attrs: seq<Laid>, glued: bool, resolve: Resolver)
  {
    attrs == [] || (
      && (glued ==> attrs[0].gap != []) && MayLay(attrs[0], resolve)
      && MayLayAll(attrs[1..], Open(attrs[0]), resolve))
  }

  predicate DifferentNames(attrs: seq<Attr>) { forall i, j | 0 <= i < j < |attrs| :: attrs[i].name != attrs[j].name }

  lemma LaidEnds(attrs: seq<Laid>, rest: Text, resolve: Resolver)
    requires MayLayAll(attrs, true, resolve) && Ends(rest)
    ensures Ends(LaidAll(attrs, rest)) && (attrs != [] ==> Space(LaidAll(attrs, rest)[0]))
  {
  }

  lemma NextLaid(attrs: seq<Laid>, done: seq<Attr>)
    requires attrs != [] && DifferentNames(done + AttrsLaid(attrs))
    ensures var a := AttrOf(attrs[0]);
      && GetAttr(done, a.name).None? && SetAttr(done, a.name, a.value) == done + [a]
      && done + AttrsLaid(attrs) == done + [a] + AttrsLaid(attrs[1..])
  {
    var a, all := AttrOf(attrs[0]), done + AttrsLaid(attrs);
    assert all[|done|] == a && forall i | 0 <= i < |done| :: all[i] == done[i];
    NewAttr(done, a.name, a.value);
  }

  /** Attributes with different names are read, in whichever layouts. */
  lemma {:induction false} LaidAllRead(attrs: seq<Laid>, glued: bool, rest: Text, done: seq<Attr>, resolve: Resolver)
    requires MayLayAll(attrs, glued, resolve) && Ends(rest) && DifferentNames(done + AttrsLaid(attrs))
    ensures AttrsOf(LaidAll(attrs, rest), done, resolve) == AttrsOf(rest, done + AttrsLaid(attrs), resolve)
    decreases |attrs|
  {
    if attrs == [] {
      assert done + AttrsLaid(attrs) == done;
    } else {
      NextLaid(attrs, done);
      if Open(attrs[0]) { LaidEnds(attrs[1..], rest, resolve); }
      LaidRead(attrs[0], LaidAll(attrs[1..], rest), done, resolve);
      LaidAllRead(attrs[1..], Open(attrs[0]), rest, done + [AttrOf(attrs[0])], resolve);
    }
  }

  // ---------- tags ----------

  predicate NameLetters(ls: seq<Letter>, resolve: Resolver)
  {
    forall i | 0 <= i < |ls| ::
      && MaySpell(ls[i], resolve)
      && (ls[i].sp.Raw? ==> !Space(ls[i].ch) && ls[i].ch != GT && ls[i].ch != SLASH)
  }

  /** The name of an element. */
  predicate PlainTag(name: Text)
  {
    name != [] && name[0] != QUESTION && name[0] != BANG && name[0] != SLASH
  }

  /** What an open tag does depends on the attributes alone, however its name was ended. */
  lemma OpenBody(s: Text, name: Text, attrs: seq<Attr>, end: nat, rest: Text, st: State, resolve: Resolver)
    requires Ends(s) && AttrsOf(s, [], resolve) == Parsed(attrs, end, rest)
    ensures LoadedOpen(s[1..], name, s[0], st, resolve)
         == if end == SLASH then
              LoadedFrom(rest, State(AddNode(st.stack, Element(name, attrs, [])), [], st.ws), resolve)
            else LoadedFrom(rest, State(st.stack + [Frame(name, attrs, [])], [], st.ws), resolve)
  {
  }

  lemma TagOpened(name: seq<Letter>, attrs: seq<Laid>, rest: Text, st: State, resolve: Resolver)
    requires NameLetters(name, resolve) && PlainTag(Chars(name)) && MayLayAll(attrs, true, resolve) && Ends(rest)
    ensures var s := LaidAll(attrs, rest);
      Ends(s) && LoadedTag(Written(name, s), st, resolve) == LoadedOpen(s[1..], Chars(name), s[0], st, resolve)
  {
    var s := LaidAll(attrs, rest);
    LaidEnds(attrs, rest, resolve);
    FirstAndRest(s);
    assert [] + Chars(name) == Chars(name);
    TagWritten(name, s[0], s[1..], [], resolve);
  }

  lemma TailRead(gap: Text, rest: Text, attrs: seq<Attr>, resolve: Resolver)
    requires White(gap)
    ensures AttrsOf(gap + ([GT] + rest), attrs, resolve) == Parsed(attrs, GT, rest)
    ensures AttrsOf(gap + ([SLASH, GT] + rest), attrs, resolve) == Parsed(attrs, SLASH, rest)
  {
    GapSkipped(gap, [GT] + rest, attrs, resolve);
    GapSkipped(gap, [SLASH, GT] + rest, attrs, resolve);
    assert ([GT] + rest)[1..] == rest && ([SLASH, GT] + rest)[1..] == [GT] + rest;
  }

  /** An open tag opens an element. */
  lemma OpenLoads(name: seq<Letter>, attrs: seq<Laid>, gap: Text, rest: Text, st: State, resolve: Resolver)
    requires NameLetters(name, resolve) && PlainTag(Chars(name)) && White(gap)
    requires MayLayAll(attrs, true, resolve) && DifferentNames(AttrsLaid(attrs))
    ensures LoadedTag(Written(name, LaidAll(attrs, gap + ([GT] + rest))), st, resolve)
         == LoadedFrom(rest, State(st.stack + [Frame(Chars(name), AttrsLaid(attrs), [])], [], st.ws), resolve)
  {
    var tail := gap + ([GT] + rest);
    TagOpened(name, attrs, tail, st, resolve);
    assert [] + AttrsLaid(attrs) == AttrsLaid(attrs);
    LaidAllRead(attrs, true, tail, [], resolve);
    TailRead(gap, rest, AttrsLaid(attrs), resolve);
    OpenBody(LaidAll(attrs, tail), Chars(name), AttrsLaid(attrs), GT, rest, st, resolve);
  }

  /** An empty-element tag adds an element. */
  lemma LeafLoads(name: seq<Letter>, attrs: seq<Laid>, gap: Text, rest: Text, st: State, resolve: Resolver)
    requires NameLetters(name, resolve) && PlainTag(Chars(name)) && White(gap)
    requires MayLayAll(attrs, true, resolve) && DifferentNames(AttrsLaid(attrs))
    ensures LoadedTag(Written(name, LaidAll(attrs, gap + ([SLASH, GT] + rest))), st, resolve)
         == LoadedFrom(rest, State(AddNode(st.stack, Element(Chars(name), AttrsLaid(attrs), [])), [], st.ws), resolve)
  {
    var tail := gap + ([SLASH, GT] + rest);
    TagOpened(name, attrs, tail, st, resolve);
    assert [] + AttrsLaid(attrs) == AttrsLaid(attrs);
    LaidAllRead(attrs, true, tail, [], resolve);
    TailRead(gap, rest, AttrsLaid(attrs), resolve);
    OpenBody(LaidAll(attrs, tail), Chars(name), AttrsLaid(attrs), SLASH, rest, st, resolve);
  }

  /** What may stand between the name of a close tag and its '>'. */
  predicate Junk(s: Text) { (s != [] ==> Space(s[0]) || s[0] == SLASH) && forall i | 0 <= i < |s| :: s[i] != GT }

  lemma {:induction false} JunkSkipped(junk: Text, rest: Text)
    requires forall i | 0 <= i < |junk| :: junk[i] != GT
    ensures PastEnd(junk + ([GT] + rest)) == rest
  {
    var s := junk + ([GT] + rest);
    if junk == [] {
      assert s[1..] == rest;
    } else {
      assert s[1..] == junk[1..] + ([GT] + rest);
      JunkSkipped(junk[1..], rest);
    }
  }

  lemma CloseNameRead(close: seq<Letter>, tail: Text, resolve: Resolver)
    requires NameLetters(close, resolve) && Ends(tail)
    ensures TagOf([SLASH] + Written(close, tail), [], resolve) == Part([SLASH] + Chars(close), tail[0], tail[1..])
  {
    var s := [SLASH] + Written(close, tail);
    FirstAndRest(tail);
    assert s[1..] == Written(close, tail) && [] + [SLASH] == [SLASH];
    TagWritten(close, tail[0], tail[1..], [SLASH], resolve);
  }

  lemma CloseEnds(s: Text, name: Text, tail: Text, rest: Text, st: State, resolve: Resolver)
    requires tail != [] && TagOf(s, [], resolve) == Part([SLASH] + name, tail[0], tail[1..])
    requires rest == if tail[0] == GT then tail[1..] else PastEnd(tail[1..])
    ensures LoadedTag(s, st, resolve)
         == if st.stack == [] || st.stack[|st.stack| - 1].name != name then Null
            else LoadedFrom(rest, State(Pop(st.stack), [], st.ws), resolve)
  {
    assert ([SLASH] + name)[1..] == name;
  }

  lemma JunkEnds(junk: Text, rest: Text)
    requires Junk(junk)
    ensures var tail := junk + ([GT] + rest);
      Ends(tail) && rest == if tail[0] == GT then tail[1..] else PastEnd(tail[1..])
  {
    var tail := junk + ([GT] + rest);
    if junk == [] {
      assert tail[1..] == rest;
    } else {
      assert tail[1..] == junk[1..] + ([GT] + rest);
      JunkSkipped(junk[1..], rest);
    }
  }

  /** A close tag closes the innermost element if it has its name, and is an error otherwise. */
  lemma CloseLoads(close: seq<Letter>, junk: Text, rest: Text, st: State, resolve: Resolver)
    requires NameLetters(close, resolve) && Junk(junk)
    ensures LoadedTag([SLASH] + Written(close, junk + ([GT] + rest)), st, resolve)
         == if st.stack == [] || st.stack[|st.stack| - 1].name != Chars(close) then Null
            else LoadedFrom(rest, State(Pop(st.stack), [], st.ws), resolve)
  {
    var tail := junk + ([GT] + rest);
    JunkEnds(junk, rest);
    CloseNameRead(close, tail, resolve);
    CloseEnds([SLASH] + Written(close, tail), Chars(close), tail, rest, st, resolve);
  }

  // ---------- comments, CDATA sections, instructions and declarations ----------

  /** A text that a mark ends which does not stand before a '>' earlier, behind the first `from`
      characters. */
  predicate EndsOnce(text: Text, from: nat, ends: Text -> bool)
  {
    |text| >= from && ends(text) && forall i | from <= i < |text| && text[i] == GT :: !ends(text[..i])
  }

  predicate EndsWith(text: Text, end: Text) { |text| >= |end| && text[|text| - |end|..] == end }

  /** A comment ends with two dashes behind another character. */
  predicate CommentText(text: Text)
  {
    COMMENT <= text
    && EndsOnce(text, 3, (t: Text) => |t| > 4 && EndsWith(t, [DASH, DASH]) && !EndsWith(t, [DASH, DASH, DASH]))
  }

  predicate CdataText(text: Text) { CDATA <= text && EndsOnce(text, 8, (t: Text) => EndsWith(t, [BRACKET, BRACKET])) }

  predicate InstructionText(text: Text)
  {
    text != [] && text[0] == QUESTION && EndsOnce(text, 1, (t: Text) => EndsWith(t, [QUESTION]))
  }

  lemma CommentEnds(t: Text)
    ensures AsideEnds(t, Comment)
       <==> |t| > 4 && EndsWith(t, [DASH, DASH]) && !EndsWith(t, [DASH, DASH, DASH])
  {
    var n := |t|;
    if n > 4 {
      assert t[n - 2..] == [t[n - 2], t[n - 1]] && t[n - 3..] == [t[n - 3], t[n - 2], t[n - 1]];
    }
  }

  lemma CdataEnds(t: Text)
    ensures AsideEnds(t, Cdata) <==> EndsWith(t, [BRACKET, BRACKET])
  {
    if |t| >= 2 { assert t[|t| - 2..] == [t[|t| - 2], t[|t| - 1]]; }
  }

  lemma InstructionEnds(t: Text)
    ensures AsideEnds(t, Instruction) <==> EndsWith(t, [QUESTION])
  {
    if t != [] { assert t[|t| - 1..] == [t[|t| - 1]]; }
  }

  predicate DeclarationText(text: Text)
  {
    && text != [] && text[0] == BANG && !(COMMENT <= text) && !(CDATA <= text)
    && forall i | 0 <= i < |text| :: text[i] != GT && text[i] != AMP
  }

  lemma {:induction false} AsideRead(text: Text, n: nat, rest: Text, kind: Aside)
    requires n <= |text| && AsideEnds(text, kind)
    requires forall i | n <= i < |text| && text[i] == GT :: !AsideEnds(text[..i], kind)
    ensures AsideOf(text[n..] + ([GT] + rest), text[..n], kind) == Part(text, GT, rest)
    decreases |text| - n
  {
    var s := text[n..] + ([GT] + rest);
    if n == |text| {
      assert s == [GT] + rest && s[1..] == rest && text[..n] == text;
    } else {
      assert s[0] == text[n] && s[1..] == text[n + 1..] + ([GT] + rest);
      assert text[..n] + [text[n]] == text[..n + 1];
      AsideRead(text, n + 1, rest, kind);
    }
  }

  /** The start of a comment or a CDATA section. */
  predicate Mark(mark: Text)
  {
    && StartsAside(mark) && (forall i | 0 <= i < |mark| :: !StartsAside(mark[..i]))
    && forall i | 0 <= i < |mark| ::
      mark[i] != AMP && !Space(mark[i]) && mark[i] != GT && mark[i] != SLASH
  }

  lemma Marks()
    ensures Mark(COMMENT) && Mark(CDATA)
  {
    forall i | 0 <= i < |COMMENT| ensures !StartsAside(COMMENT[..i]) {
      if i > 0 { assert COMMENT[..i][0] == BANG; }
    }
    forall i | 0 <= i < |CDATA| ensures !StartsAside(CDATA[..i]) {
      if i > 0 { assert CDATA[..i][0] == BANG; }
      if i == 3 { assert CDATA[..i][1] == 91; }
    }
  }

  lemma MarkChar(mark: Text, n: nat, rest: Text, resolve: Resolver)
    requires Mark(mark) && n + 1 < |mark|
    ensures TagOf(mark[n..] + rest, mark[..n], resolve) == TagOf(mark[n + 1..] + rest, mark[..n + 1], resolve)
  {
    assert mark[n..] + rest == [mark[n]] + (mark[n + 1..] + rest) && mark[..n] + [mark[n]] == mark[..n + 1];
    TagChar(mark[n], mark[n + 1..] + rest, mark[..n], resolve);
  }

  /** It is recognised at once. */
  lemma {:induction false} MarkRead(mark: Text, n: nat, rest: Text, resolve: Resolver)
    requires Mark(mark) && n < |mark|
    ensures TagOf(mark[n..] + rest, mark[..n], resolve) == Part(mark, mark[|mark| - 1], rest)
    decreases |mark| - n
  {
    if n + 1 == |mark| {
      assert mark[n..] + rest == [mark[n]] + rest && mark[..n] + [mark[n]] == mark;
      TagChar(mark[n], rest, mark[..n], resolve);
    } else {
      MarkChar(mark, n, rest, resolve);
      MarkRead(mark, n + 1, rest, resolve);
    }
  }

  lemma CommentOnce(text: Text)
    requires CommentText(text)
    ensures AsideEnds(text, Comment) && forall i | 3 <= i < |text| && text[i] == GT :: !AsideEnds(text[..i], Comment)
  {
    CommentEnds(text);
    forall i | 3 <= i < |text| && text[i] == GT ensures !AsideEnds(text[..i], Comment) { CommentEnds(text[..i]); }
  }

  lemma CdataOnce(text: Text)
    requires CdataText(text)
    ensures AsideEnds(text, Cdata) && forall i | 8 <= i < |text| && text[i] == GT :: !AsideEnds(text[..i], Cdata)
  {
    CdataEnds(text);
    forall i | 8 <= i < |text| && text[i] == GT ensures !AsideEnds(text[..i], Cdata) { CdataEnds(text[..i]); }
  }

  /** The start of a comment or a CDATA section leads to the loop for its rest. */
  lemma MarkStarts(mark: Text, s: Text, st: State, resolve: Resolver)
    requires mark == COMMENT || mark == CDATA
    ensures LoadedTag(mark + s, st, resolve)
         == match AsideOf(s, mark, if mark == COMMENT then Comment else Cdata)
            case Failed => Null
            case Part(name, _, more) =>
              LoadedFrom(more, State(AddNode(st.stack, Element(name, [], [])), [], st.ws), resolve)
  {
    Marks();
    assert mark[0..] == mark && mark[..0] == [];
    MarkRead(mark, 0, s, resolve);
  }

  lemma AsideLoads(mark: Text, text: Text, rest: Text, st: State, resolve: Resolver)
    requires (mark == COMMENT || mark == CDATA) && mark <= text
    requires AsideOf(text[|mark|..] + ([GT] + rest), mark, if mark == COMMENT then Comment else Cdata)
          == Part(text, GT, rest)
    ensures LoadedTag(text + ([GT] + rest), st, resolve)
         == LoadedFrom(rest, State(AddNode(st.stack, Element(text, [], [])), [], st.ws), resolve)
  {
    assert text + ([GT] + rest) == mark + (text[|mark|..] + ([GT] + rest));
    MarkStarts(mark, text[|mark|..] + ([GT] + rest), st, resolve);
  }

  /** A comment or a CDATA section is an element without children. */
  lemma NoteLoads(text: Text, rest: Text, st: State, resolve: Resolver)
    requires CommentText(text) || CdataText(text)
    ensures LoadedTag(text + ([GT] + rest), st, resolve)
         == LoadedFrom(rest, State(AddNode(st.stack, Element(text, [], [])), [], st.ws), resolve)
  {
    if CommentText(text) {
      CommentOnce(text);
      assert text[..3] == COMMENT;
      AsideRead(text, 3, rest, Comment);
      AsideLoads(COMMENT, text, rest, st, resolve);
    } else {
      CdataOnce(text);
      assert text[..8] == CDATA;
      AsideRead(text, 8, rest, Cdata);
      AsideLoads(CDATA, text, rest, st, resolve);
    }
  }

  lemma InstructionLoads(text: Text, rest: Text, st: State, resolve: Resolver)
    requires InstructionText(text)
    ensures LoadedTag(text + ([GT] + rest), st, resolve)
         == LoadedFrom(rest, State(st.stack + [Frame(text, [], [])], [], st.ws), resolve)
  {
    var s := text + ([GT] + rest);
    assert text[..1] == [QUESTION] && [] + [QUESTION] == [QUESTION];
    assert s[0] == QUESTION && s[1..] == text[1..] + ([GT] + rest);
    InstructionEnds(text);
    forall i | 1 <= i < |text| && text[i] == GT ensures !AsideEnds(text[..i], Instruction) {
      InstructionEnds(text[..i]);
    }
    AsideRead(text, 1, rest, Instruction);
  }

  lemma {:induction false} DeclarationRest(text: Text, n: nat, rest: Text, resolve: Resolver)
    requires n <= |text| && forall i | 0 <= i < |text| :: text[i] != GT && text[i] != AMP
    ensures DeclarationOf(text[n..] + ([GT] + rest), text[..n], resolve) == Part(text, GT, rest)
    decreases |text| - n
  {
    var s := text[n..] + ([GT] + rest);
    if n == |text| {
      assert s == [GT] + rest && s[1..] == rest && text[..n] == text;
    } else {
      assert s[0] == text[n] && s[1..] == text[n + 1..] + ([GT] + rest);
      assert text[..n] + [text[n]] == text[..n + 1];
      DeclarationRest(text, n + 1, rest, resolve);
    }
  }

  /** The name of a declaration ends at a character of it, or at its '>'. */
  lemma {:induction false} DeclarationName(text: Text, n: nat, rest: Text, resolve: Resolver) returns (k: nat)
    requires DeclarationText(text) && n <= |text|
    ensures 1 <= k <= |text| && n <= k
    ensures TagOf(text[n..] + ([GT] + rest), text[..n], resolve)
         == if k == |text| then Part(text, GT, rest) else Part(text[..k], text[k], text[k + 1..] + ([GT] + rest))
    decreases |text| - n
  {
    var s := text[n..] + ([GT] + rest);
    if n == |text| {
      assert s == [GT] + rest && s[1..] == rest && text[..n] == text;
      k := n;
    } else if Space(text[n]) || (text[n] == SLASH && n > 0) {
      assert s[0] == text[n] && s[1..] == text[n + 1..] + ([GT] + rest);
      k := n;
    } else {
      DeclarationChar(text, n, rest, resolve);
      k := DeclarationName(text, n + 1, rest, resolve);
    }
  }

  lemma DeclarationChar(text: Text, n: nat, rest: Text, resolve: Resolver)
    requires DeclarationText(text) && n < |text| && !Space(text[n]) && (n > 0 ==> text[n] != SLASH)
    ensures TagOf(text[n..] + ([GT] + rest), text[..n], resolve)
         == TagOf(text[n + 1..] + ([GT] + rest), text[..n + 1], resolve)
  {
    assert text[n..] + ([GT] + rest) == [text[n]] + (text[n + 1..] + ([GT] + rest));
    assert text[..n] + [text[n]] == text[..n + 1] && text[..n + 1] <= text && text[..n + 1][0] == BANG;
    TagChar(text[n], text[n + 1..] + ([GT] + rest), text[..n], resolve);
  }

  lemma DeclarationLoads(text: Text, rest: Text, st: State, resolve: Resolver)
    requires DeclarationText(text)
    ensures LoadedTag(text + ([GT] + rest), st, resolve)
         == LoadedFrom(rest, State(st.stack + [Frame(text, [], [])], [], st.ws), resolve)
  {
    assert text[0..] == text && text[..0] == [];
    var k := DeclarationName(text, 0, rest, resolve);
    assert text[..k] <= text;
    if k == |text| {
      DeclarationTag(text + ([GT] + rest), text, GT, rest, text, rest, st, resolve);
    } else {
      assert text[..k] + [text[k]] == text[..k + 1];
      DeclarationRest(text, k + 1, rest, resolve);
      DeclarationTag(text + ([GT] + rest), text[..k], text[k], text[k + 1..] + ([GT] + rest), text, rest, st, resolve);
    }
  }

  lemma DeclarationTag(s: Text, buf: Text, end: nat, behind: Text, text: Text, rest: Text, st: State, resolve: Resolver)
    requires TagOf(s, [], resolve) == Part(buf, end, behind)
    requires buf != [] && buf[0] == BANG && buf != COMMENT && buf != CDATA
    requires if end == GT then text == buf && rest == behind
             else DeclarationOf(behind, buf + [end], resolve) == Part(text, GT, rest)
    ensures LoadedTag(s, st, resolve)
         == LoadedFrom(rest, State(st.stack + [Frame(text, [], [])], [], st.ws), resolve)
  {
  }

  // ---------- contents ----------

  datatype Doc =
    | Tag(name: seq<Letter>, attrs: seq<Laid>, gap: Text, inside: seq<Doc>, close: seq<Letter>, junk: Text)
    | Leaf(name: seq<Letter>, attrs: seq<Laid>, gap: Text)
    | Note(text: Text)
    | Run(gap: Text, word: seq<Letter>)

  /** A part of a document, and the text behind it. */
  function DocText(d: Doc, rest: Text): Text
    decreases d
  {
    match d
    case Tag(name, attrs, gap, inside, close, junk) =>
      var end := [LT] + ([SLASH] + Written(close, junk + ([GT] + rest)));
      [LT] + Written(name, LaidAll(attrs, gap + ([GT] + DocsText(inside, end))))
    case Leaf(name, attrs, gap) => [LT] + Written(name, LaidAll(attrs, gap + ([SLASH, GT] + rest)))
    case Note(text) => [LT] + (text + ([GT] + rest))
    case Run(gap, word) => gap + Written(word, rest)
  }

  function DocsText(docs: seq<Doc>, rest: Text): Text
    decreases docs
  {
    if docs == [] then rest else DocText(docs[0], DocsText(docs[1..], rest))
  }

  function TreeOf(d: Doc): Node
    decreases d
  {
    match d
    case Tag(name, attrs, _, inside, _, _) => Element(Chars(name), AttrsLaid(attrs), TreesOf(inside))
    case Leaf(name, attrs, _) => Element(Chars(name), AttrsLaid(attrs), [])
    case Note(text) => Element(text, [], [])
    case Run(gap, word) => Word(gap != [], Chars(word))
  }

  function TreesOf(docs: seq<Doc>): seq<Node>
    decreases docs
  {
    if docs == [] then [] else [TreeOf(docs[0])] + TreesOf(docs[1..])
  }

  /** What stands before: a tag, a word, or white space alone. */
  datatype Before = AfterTag | AfterWord | AfterBlank

  function Behind(d: Doc): Before
  {
    if !d.Run? then AfterTag else if d.word == [] then AfterBlank else AfterWord
  }

  /** White space stands between words; white space alone stands before a tag. */
  predicate MayFollow(d: Doc, before: Before)
  {
    d.Run? ==>
      match before
      case AfterTag => d.gap != [] || d.word != []
      case AfterWord => d.gap != []
      case AfterBlank => false
  }

  predicate MayWrite(d: Doc, resolve: Resolver)
    decreases d, 0
  {
    match d
    case Tag(name, attrs, gap, inside, close, junk) =>
      && NameLetters(name, resolve) && PlainTag(Chars(name)) && White(gap)
      && MayLayAll(attrs, true, resolve) && DifferentNames(AttrsLaid(attrs))
      && MayWriteAll(inside, AfterTag, resolve)
      && NameLetters(close, resolve) && Chars(close) == Chars(name) && Junk(junk)
    case Leaf(name, attrs, gap) =>
      && NameLetters(name, resolve) && PlainTag(Chars(name)) && White(gap)
      && MayLayAll(attrs, true, resolve) && DifferentNames(AttrsLaid(attrs))
    case Note(text) => CommentText(text) || CdataText(text)
    case Run(gap, word) => White(gap) && WordLetters(word, resolve)
  }

  predicate WordLetters(word: seq<Letter>, resolve: Resolver)
  {
    forall i | 0 <= i < |word| ::
      MaySpell(word[i], resolve) && (word[i].sp.Raw? ==> !Space(word[i].ch) && word[i].ch != LT)
  }

  predicate MayWriteAll(docs: seq<Doc>, before: Before, resolve: Resolver)
    decreases docs, 0
  {
    docs == [] || (
      && MayFollow(docs[0], before) && MayWrite(docs[0], resolve)
      && MayWriteAll(docs[1..], Behind(docs[0]), resolve))
  }

  /** The parser's state after the children `done` of an element: the last word is still in
      the buffer. */
  function After(stack: seq<Frame>, f: Frame, done: seq<Node>): State
  {
    if done != [] && done[|done| - 1].Word? then
      var (front, last) := (done[..|done| - 1], done[|done| - 1]);
      State(stack + [f.(children := front)], last.text, last.whitespace)
    else State(stack + [f.(children := done)], [], false)
  }

  /** The last word is not lost: it has a text, or is white space. */
  predicate Kept(done: seq<Node>)
  {
    done == [] || var last := done[|done| - 1]; last.Element? || last.text != [] || last.whitespace
  }

  function BeforeOf(done: seq<Node>): Before
  {
    if done == [] || done[|done| - 1].Element? then AfterTag
    else if done[|done| - 1].text == [] then AfterBlank else AfterWord
  }

  lemma AddLast(stack: seq<Frame>, f: Frame, done: seq<Node>)
    requires done != []
    ensures AddNode(stack + [f.(children := done[..|done| - 1])], done[|done| - 1]) == stack + [f.(children := done)]
  {
    var inner := f.(children := done[..|done| - 1]);
    assert (stack + [inner])[..|stack|] == stack;
    assert done[..|done| - 1] + [done[|done| - 1]] == done;
  }

  /** A '<' completes the children. */
  lemma TagSettles(stack: seq<Frame>, f: Frame, done: seq<Node>)
    requires Kept(done)
    ensures Settled(After(stack, f, done), LT) == State(stack + [f.(children := done)], [], false)
  {
    if done != [] { AddLast(stack, f, done); }
  }

  lemma TagStarts(s: Text, st: State, resolve: Resolver)
    ensures LoadedFrom([LT] + s, st, resolve) == LoadedTag(s, Settled(st, LT), resolve)
  {
    assert ([LT] + s)[1..] == s;
  }

  lemma {:induction false} SpacesSkipped(gap: Text, rest: Text, stack: seq<Frame>, resolve: Resolver)
    requires White(gap)
    ensures LoadedFrom(gap + rest, State(stack, [], true), resolve) == LoadedFrom(rest, State(stack, [], true), resolve)
  {
    if gap == [] {
      assert gap + rest == rest;
    } else {
      assert (gap + rest)[1..] == gap[1..] + rest;
      SpacesSkipped(gap[1..], rest, stack, resolve);
    }
  }

  /** White space completes the children before it. */
  lemma GapLoads(gap: Text, rest: Text, stack: seq<Frame>, f: Frame, done: seq<Node>, resolve: Resolver)
    requires White(gap) && gap != [] && Kept(done) && BeforeOf(done) != AfterBlank
    ensures LoadedFrom(gap + rest, After(stack, f, done), resolve)
         == LoadedFrom(rest, State(stack + [f.(children := done)], [], true), resolve)
  {
    if done != [] { AddLast(stack, f, done); }
    assert (gap + rest)[1..] == gap[1..] + rest;
    SpacesSkipped(gap[1..], rest, stack + [f.(children := done)], resolve);
  }

  lemma RunLoads(d: Doc, rest: Text, stack: seq<Frame>, f: Frame, done: seq<Node>, resolve: Resolver)
    requires d.Run? && MayWrite(d, resolve) && MayFollow(d, BeforeOf(done)) && Kept(done)
    ensures LoadedFrom(DocText(d, rest), After(stack, f, done), resolve)
         == LoadedFrom(rest, After(stack, f, done + [TreeOf(d)]), resolve)
  {
    var open, more := stack + [f.(children := done)], Written(d.word, rest);
    assert (done + [TreeOf(d)])[..|done|] == done && [] + Chars(d.word) == Chars(d.word);
    WordWritten(d.word, rest, State(open, [], d.gap != []), resolve);
    if d.gap == [] {
      assert d.gap + more == more;
    } else {
      GapLoads(d.gap, more, stack, f, done, resolve);
    }
  }

  /** A new element, behind which the parser goes on. */
  lemma ElementAdded(stack: seq<Frame>, f: Frame, done: seq<Node>, node: Node)
    requires node.Element?
    ensures After(stack, f, done + [node]) == State(AddNode(stack + [f.(children := done)], node), [], false)
  {
    assert (done + [node])[..|done|] == done;
    AddLast(stack, f, done + [node]);
  }

  lemma TagClosed(d: Doc, rest: Text, open: seq<Frame>, resolve: Resolver)
    requires d.Tag? && MayWrite(d, resolve) && Kept(TreesOf(d.inside))
    ensures var f := Frame(Chars(d.name), AttrsLaid(d.attrs), []);
      LoadedFrom([LT] + ([SLASH] + Written(d.close, d.junk + ([GT] + rest))), After(open, f, TreesOf(d.inside)),
                 resolve)
      == LoadedFrom(rest, State(AddNode(open, TreeOf(d)), [], false), resolve)
  {
    var f, inside := Frame(Chars(d.name), AttrsLaid(d.attrs), []), TreesOf(d.inside);
    var end, top := [SLASH] + Written(d.close, d.junk + ([GT] + rest)), open + [f.(children := inside)];
    TagStarts(end, After(open, f, inside), resolve);
    TagSettles(open, f, inside);
    CloseLoads(d.close, d.junk, rest, State(top, [], false), resolve);
    assert top[..|top| - 1] == open;
  }

  lemma KeptAfter(d: Doc, done: seq<Node>)
    requires MayFollow(d, BeforeOf(done))
    ensures Kept(done + [TreeOf(d)]) && BeforeOf(done + [TreeOf(d)]) == Behind(d)
  {
  }

  /** A part of a document is loaded as a child of the innermost open element. */
  lemma {:induction false} DocLoads(d: Doc, rest: Text, stack: seq<Frame>, f: Frame, done: seq<Node>,
                                    resolve: Resolver)
    requires MayWrite(d, resolve) && MayFollow(d, BeforeOf(done)) && Kept(done)
    ensures LoadedFrom(DocText(d, rest), After(stack, f, done), resolve)
         == LoadedFrom(rest, After(stack, f, done + [TreeOf(d)]), resolve)
    decreases d, 1
  {
    var st := State(stack + [f.(children := done)], [], false);
    if d.Run? {
      RunLoads(d, rest, stack, f, done, resolve);
    } else {
      TagSettles(stack, f, done);
      ElementAdded(stack, f, done, TreeOf(d));
      match d
      case Tag(name, attrs, gap, inside, close, junk) =>
        TagStarts(DocText(d, rest)[1..], After(stack, f, done), resolve);
        TagLoads(d, rest, st.stack, resolve);
      case Leaf(name, attrs, gap) =>
        TagStarts(Written(name, LaidAll(attrs, gap + ([SLASH, GT] + rest))), After(stack, f, done), resolve);
        LeafLoads(name, attrs, gap, rest, st, resolve);
      case Note(text) =>
        TagStarts(text + ([GT] + rest), After(stack, f, done), resolve);
        NoteLoads(text, rest, st, resolve);
    }
  }

  lemma {:induction false} TagLoads(d: Doc, rest: Text, open: seq<Frame>, resolve: Resolver)
    requires d.Tag? && MayWrite(d, resolve)
    ensures LoadedTag(DocText(d, rest)[1..], State(open, [], false), resolve)
         == LoadedFrom(rest, State(AddNode(open, TreeOf(d)), [], false), resolve)
    ensures DocText(d, rest) == [LT] + DocText(d, rest)[1..]
    decreases d, 0
  {
    var f := Frame(Chars(d.name), AttrsLaid(d.attrs), []);
    var end := [LT] + ([SLASH] + Written(d.close, d.junk + ([GT] + rest)));
    var inside := DocsText(d.inside, end);
    assert DocText(d, rest)[1..] == Written(d.name, LaidAll(d.attrs, d.gap + ([GT] + inside)));
    OpenLoads(d.name, d.attrs, d.gap, inside, State(open, [], false), resolve);
    DocsLoad(d.inside, end, open, f, [], resolve);
    assert [] + TreesOf(d.inside) == TreesOf(d.inside);
    TagClosed(d, rest, open, resolve);
  }

  /** The parts of a document are loaded as children of the innermost open element. */
  lemma {:induction false} DocsLoad(docs: seq<Doc>, rest: Text, stack: seq<Frame>, f: Frame, done: seq<Node>,
                                    resolve: Resolver)
    requires MayWriteAll(docs, BeforeOf(done), resolve) && Kept(done)
    ensures LoadedFrom(DocsText(docs, rest), After(stack, f, done), resolve)
         == LoadedFrom(rest, After(stack, f, done + TreesOf(docs)), resolve)
    ensures Kept(done + TreesOf(docs))
    decreases docs, 2
  {
    if docs == [] {
      assert done + TreesOf(docs) == done;
    } else {
      DocLoads(docs[0], DocsText(docs[1..], rest), stack, f, done, resolve);
      KeptAfter(docs[0], done);
      DocsLoad(docs[1..], rest, stack, f, done + [TreeOf(docs[0])], resolve);
      NextTree(docs, done);
    }
  }

  lemma NextTree(docs: seq<Doc>, done: seq<Node>)
    requires docs != []
    ensures done + TreesOf(docs) == done + [TreeOf(docs[0])] + TreesOf(docs[1..])
  {
  }

  // ---------- documents ----------

  /** A processing instruction or a declaration, which is never closed, and what follows it. */
  datatype Level = Level(head: Text, docs: seq<Doc>)

  function LevelsText(levels: seq<Level>, rest: Text): Text
  {
    if levels == [] then rest
    else [LT] + (levels[0].head + ([GT] + DocsText(levels[0].docs, LevelsText(levels[1..], rest))))
  }

  /** Every level is the last child of the one before it. */
  function TreeOfLevels(levels: seq<Level>): Node
    requires levels != []
  {
    var inner := if |levels| == 1 then [] else [TreeOfLevels(levels[1..])];
    Element(levels[0].head, [], TreesOf(levels[0].docs) + inner)
  }

  predicate HeadText(text: Text) { InstructionText(text) || DeclarationText(text) }

  predicate MayStack(levels: seq<Level>, resolve: Resolver)
  {
    forall i | 0 <= i < |levels| :: HeadText(levels[i].head) && MayWriteAll(levels[i].docs, AfterTag, resolve)
  }

  lemma HeadLoads(head: Text, rest: Text, st: State, resolve: Resolver)
    requires HeadText(head)
    ensures LoadedFrom([LT] + (head + ([GT] + rest)), st, resolve)
         == LoadedFrom(rest, After(Settled(st, LT).stack, Frame(head, [], []), []).(ws := Settled(st, LT).ws), resolve)
  {
    var t := Settled(st, LT);
    TagStarts(head + ([GT] + rest), st, resolve);
    if InstructionText(head) {
      InstructionLoads(head, rest, t, resolve);
    } else {
      DeclarationLoads(head, rest, t, resolve);
    }
  }

  /** White space at the end completes the last word. */
  lemma TextEnds(trailing: Text, stack: seq<Frame>, f: Frame, children: seq<Node>, resolve: Resolver)
    requires White(trailing) && Kept(children) && BeforeOf(children) != AfterBlank
    requires trailing == [] ==> BeforeOf(children) == AfterTag
    ensures LoadedFrom(trailing, After(stack, f, children), resolve) == Finished(stack + [f.(children := children)])
  {
    if trailing != [] {
      GapLoads(trailing, [], stack, f, children, resolve);
      assert trailing + [] == trailing;
    }
  }

  /** The first level of a document opens an element and gives it children. */
  lemma LevelLoads(l: Level, rest: Text, st: State, stack: seq<Frame>, resolve: Resolver)
    requires HeadText(l.head) && MayWriteAll(l.docs, AfterTag, resolve) && Settled(st, LT) == State(stack, [], false)
    ensures LoadedFrom([LT] + (l.head + ([GT] + DocsText(l.docs, rest))), st, resolve)
         == LoadedFrom(rest, After(stack, Frame(l.head, [], []), TreesOf(l.docs)), resolve)
    ensures Kept(TreesOf(l.docs))
  {
    HeadLoads(l.head, DocsText(l.docs, rest), st, resolve);
    DocsLoad(l.docs, rest, stack, Frame(l.head, [], []), [], resolve);
    assert [] + TreesOf(l.docs) == TreesOf(l.docs);
  }

  /** The text may end behind its last word if white space follows. */
  predicate MayEnd(levels: seq<Level>, trailing: Text)
  {
    levels != [] && White(trailing) &&
    var last := BeforeOf(TreesOf(levels[|levels| - 1].docs));
    last != AfterBlank && (trailing == [] ==> last == AfterTag)
  }

  lemma LastLevel(levels: seq<Level>, trailing: Text, st: State, stack: seq<Frame>, resolve: Resolver)
    requires MayStack(levels, resolve) && MayEnd(levels, trailing) && |levels| == 1
    requires Settled(st, LT) == State(stack, [], false)
    ensures var t := TreeOfLevels(levels);
      LoadedFrom(LevelsText(levels, trailing), st, resolve) == Finished(stack + [Frame(t.name, t.attrs, t.children)])
  {
    var f, children := Frame(levels[0].head, [], []), TreesOf(levels[0].docs);
    assert levels[1..] == [];
    LevelLoads(levels[0], trailing, st, stack, resolve);
    TextEnds(trailing, stack, f, children, resolve);
    assert children + [] == children;
  }

  lemma OtherLevels(levels: seq<Level>, trailing: Text, resolve: Resolver)
    requires MayStack(levels, resolve) && MayEnd(levels, trailing) && |levels| > 1
    ensures MayStack(levels[1..], resolve) && MayEnd(levels[1..], trailing)
  {
  }

  lemma {:induction false} LevelsLoad(levels: seq<Level>, trailing: Text, st: State, stack: seq<Frame>,
                                      resolve: Resolver)
    requires MayStack(levels, resolve) && MayEnd(levels, trailing) && Settled(st, LT) == State(stack, [], false)
    ensures var t := TreeOfLevels(levels);
      LoadedFrom(LevelsText(levels, trailing), st, resolve) == Finished(stack + [Frame(t.name, t.attrs, t.children)])
    decreases |levels|
  {
    if |levels| == 1 {
      LastLevel(levels, trailing, st, stack, resolve);
    } else {
      var f, children := Frame(levels[0].head, [], []), TreesOf(levels[0].docs);
      LevelLoads(levels[0], LevelsText(levels[1..], trailing), st, stack, resolve);
      TagSettles(stack, f, children);
      OtherLevels(levels, trailing, resolve);
      LevelsLoad(levels[1..], trailing, After(stack, f, children), stack + [f.(children := children)], resolve);
      LevelFinishes(stack, f, children, TreeOfLevels(levels[1..]));
    }
  }

  lemma LevelFinishes(stack: seq<Frame>, f: Frame, children: seq<Node>, t: Node)
    requires t.Element?
    ensures Finished(stack + [f.(children := children)] + [Frame(t.name, t.attrs, t.children)])
         == Finished(stack + [f.(children := children + [t])])
  {
    var open := stack + [f.(children := children)];
    var top := open + [Frame(t.name, t.attrs, t.children)];
    assert top[..|top| - 1] == open && open[..|open| - 1] == stack;
  }

  /** A document under processing instructions and declarations is loaded as its tree, in every
      layout and every spelling. */
  lemma DocumentLoads(levels: seq<Level>, trailing: Text, resolve: Resolver)
    requires MayStack(levels, resolve) && MayEnd(levels, trailing)
    ensures LoadedText(LevelsText(levels, trailing), resolve) == Tree(TreeOfLevels(levels))
  {
    var t := TreeOfLevels(levels);
    LevelsLoad(levels, trailing, State([], [], false), [], resolve);
    assert [] + [Frame(t.name, t.attrs, t.children)] == [Frame(t.name, t.attrs, t.children)];
  }

  /** An element that is closed without one is lost: nothing is loaded. */
  lemma ClosedRootIsLost(d: Doc, trailing: Text, resolve: Resolver)
    requires d.Tag? && MayWrite(d, resolve) && White(trailing)
    ensures LoadedText(DocText(d, trailing), resolve) == Null
  {
    TagLoads(d, trailing, [], resolve);
    TagStarts(DocText(d, trailing)[1..], State([], [], false), resolve);
    SpacesLoad(trailing, false, resolve);
  }

  lemma {:induction false} SpacesLoad(gap: Text, ws: bool, resolve: Resolver)
    requires White(gap)
    ensures LoadedFrom(gap, State([], [], ws), resolve) == Null
    decreases |gap|
  {
    if gap != [] { SpacesLoad(gap[1..], true, resolve); }
  }

  // ---------- errors ----------

  /** A reference that is an error makes loading fail, in a word and in the name of a tag. */
  lemma BadReferenceFails(s: Text, st: State, resolve: Resolver)
    requires EntityOf(s, resolve) == NoChar
    ensures LoadedFrom([AMP] + s, st, resolve) == Null && LoadedTag([AMP] + s, st, resolve) == Null
  {
    assert ([AMP] + s)[1..] == s;
  }

  /** A comment, a CDATA section, an instruction or a declaration must end. */
  lemma UnfinishedFails(head: Text, s: Text, st: State, resolve: Resolver)
    requires head in [COMMENT, CDATA, [QUESTION]] && forall i | 0 <= i < |s| :: s[i] != GT
    ensures LoadedTag(head + s, st, resolve) == Null
  {
    if head == [QUESTION] {
      assert ([QUESTION] + s)[1..] == s && [] + [QUESTION] == [QUESTION];
    } else {
      MarkStarts(head, s, st, resolve);
    }
    AsideNeedsEnd(s, head, if head == COMMENT then Comment else if head == CDATA then Cdata else Instruction);
  }

  lemma {:induction false} AsideNeedsEnd(s: Text, buf: Text, kind: Aside)
    requires forall i | 0 <= i < |s| :: s[i] != GT
    ensures AsideOf(s, buf, kind) == Failed
    decreases |s|
  {
    if s != [] { AsideNeedsEnd(s[1..], buf + [s[0]], kind); }
  }

  /** A '/' or '?' without a '>' ends the loading: the tree so far is the result, with the
      attributes read before. */
  lemma StrayMarkEnds(name: seq<Letter>, attrs: seq<Laid>, gap: Text, mark: nat, rest: Text, st: State,
                      resolve: Resolver)
    requires NameLetters(name, resolve) && PlainTag(Chars(name)) && White(gap) && gap != []
    requires MayLayAll(attrs, true, resolve) && DifferentNames(AttrsLaid(attrs))
    requires (mark == SLASH || mark == QUESTION) && (rest == [] || rest[0] != GT)
    ensures LoadedTag(Written(name, LaidAll(attrs, gap + ([mark] + rest))), st, resolve)
         == Finished(AddNode(st.stack, Element(Chars(name), AttrsLaid(attrs), [])))
  {
    var tail := gap + ([mark] + rest);
    LaidEnds(attrs, tail, resolve);
    TagOpened(name, attrs, tail, st, resolve);
    assert [] + AttrsLaid(attrs) == AttrsLaid(attrs);
    LaidAllRead(attrs, true, tail, [], resolve);
    GapSkipped(gap, [mark] + rest, AttrsLaid(attrs), resolve);
    assert ([mark] + rest)[1..] == rest;
    ErrorEnds(LaidAll(attrs, tail), Chars(name), AttrsLaid(attrs), st, resolve);
  }

  lemma ErrorEnds(s: Text, name: Text, attrs: seq<Attr>, st: State, resolve: Resolver)
    requires Ends(s) && Space(s[0]) && AttrsOf(s, [], resolve) == Parsed(attrs, EOF, [])
    ensures LoadedOpen(s[1..], name, s[0], st, resolve) == Finished(AddNode(st.stack, Element(name, attrs, [])))
  {
  }

  /** A second value for an attribute does the same. */
  lemma SecondValueEnds(name: seq<Letter>, attrs: seq<Laid>, again: Laid, rest: Text, st: State, resolve: Resolver)
    requires NameLetters(name, resolve) && PlainTag(Chars(name)) && attrs != []
    requires MayLayAll(attrs, true, resolve) && DifferentNames(AttrsLaid(attrs))
    requires MayLay(again, resolve) && again.gap != [] && (Open(again) ==> Ends(rest))
    requires GetAttr(AttrsLaid(attrs), AttrOf(again).name).Some?
    ensures LoadedTag(Written(name, LaidAll(attrs, LaidText(again, rest))), st, resolve)
         == Finished(AddNode(st.stack, Element(Chars(name), AttrsLaid(attrs), [])))
  {
    var tail := LaidText(again, rest);
    LaidEnds(attrs, tail, resolve);
    TagOpened(name, attrs, tail, st, resolve);
    assert [] + AttrsLaid(attrs) == AttrsLaid(attrs);
    LaidAllRead(attrs, true, tail, [], resolve);
    LaidRead(again, rest, AttrsLaid(attrs), resolve);
    ErrorEnds(LaidAll(attrs, tail), Chars(name), AttrsLaid(attrs), st, resolve);
  }
}
