/** What character references mean: a character may be spelled as itself, by a name, or by its
    number in base 10 or 16, and every reader of the parser gets the character. */
module XmlReferences {
  import opened Utf8
  import opened XmlText

  // ---------- numbers ----------

  function Digit(d: nat, upper: bool): nat
    requires d < 16
  {
    if d < 10 then 48 + d else if upper then 55 + d else 87 + d
  }

  /** The digits of a number, without leading zeros. */
  function Digits(n: nat, base: nat, upper: bool): Text
    requires base == 10 || base == 16
    decreases n
  {
    if n < base then [Digit(n, upper)] else Digits(n / base, base, upper) + [Digit(n % base, upper)]
  }

  function Zeros(k: nat): Text { if k == 0 then [] else [48] + Zeros(k - 1) }

  predicate DigitsOf(s: Text, base: nat) { forall i | 0 <= i < |s| :: DigitOf(s[i], base) < base }

  lemma {:induction false} DigitsAre(n: nat, base: nat, upper: bool)
    requires base == 10 || base == 16
    ensures Digits(n, base, upper) != [] && DigitsOf(Digits(n, base, upper), base)
    decreases n
  {
    if n >= base { DigitsAre(n / base, base, upper); }
  }

  lemma {:induction false} ZerosAre(k: nat, base: nat)
    requires 2 <= base
    ensures |Zeros(k)| == k && DigitsOf(Zeros(k), base)
  {
    if k > 0 { ZerosAre(k - 1, base); }
  }

  /** One more digit. */
  lemma {:induction false} NumberLast(s: Text, ch: nat, base: nat, n: nat)
    requires DigitsOf(s, base) && DigitOf(ch, base) < base
    ensures Number(s + [ch], base, n) == Number(s, base, n) * base + DigitOf(ch, base)
    decreases |s|
  {
    var t := s + [ch];
    if s == [] {
      assert t[0] == ch && t[1..] == [];
    } else {
      assert t[0] == s[0] && t[1..] == s[1..] + [ch];
      NumberLast(s[1..], ch, base, n * base + DigitOf(s[0], base));
    }
  }

  lemma {:induction false} NumberZeros(k: nat, s: Text, base: nat)
    requires 2 <= base
    ensures Number(Zeros(k) + s, base, 0) == Number(s, base, 0)
  {
    if k == 0 {
      assert Zeros(0) + s == s;
    } else {
      assert (Zeros(k) + s)[1..] == Zeros(k - 1) + s;
      NumberZeros(k - 1, s, base);
    }
  }

  /** strtol undoes printing. */
  lemma {:induction false} NumberOfDigits(n: nat, base: nat, upper: bool)
    requires base == 10 || base == 16
    ensures Number(Digits(n, base, upper), base, 0) == n
    decreases n
  {
    if n >= base {
      NumberOfDigits(n / base, base, upper);
      DigitsAre(n / base, base, upper);
      NumberLast(Digits(n / base, base, upper), Digit(n % base, upper), base, 0);
      assert base == 10 || base == 16;
    } else {
      assert [Digit(n, upper)][1..] == [];
    }
  }

  // ---------- spellings of a character ----------

  /** The digits of a hexadecimal number may stand behind a prefix 0x or 0X. */
  datatype Spelling = Raw | Named(name: Text) | Decimal(zeros: nat)
                    | Hexadecimal(prefix: Text, zeros: nat, upper: bool)

  predicate PrefixOk(prefix: Text) { prefix == [] || prefix == [48, 120] || prefix == [48, 88] }

  datatype Letter = Letter(ch: nat, sp: Spelling)

  /** What stands between the '&' and the ';'. */
  function ReferenceName(l: Letter): Text
  {
    match l.sp
    case Raw => []
    case Named(name) => name
    case Decimal(zeros) => [HASH] + (Zeros(zeros) + Digits(l.ch, 10, false))
    case Hexadecimal(prefix, zeros, upper) => [HASH, 120] + (prefix + (Zeros(zeros) + Digits(l.ch, 16, upper)))
  }

  predicate Numeric(l: Letter) { l.sp.Decimal? || (l.sp.Hexadecimal? && PrefixOk(l.sp.prefix)) }

  /** A spelled character, and the text behind it. */
  function Spelled(l: Letter, rest: Text): Text
  {
    if l.sp.Raw? then [l.ch] + rest else [AMP] + (ReferenceName(l) + ([SEMICOLON] + rest))
  }

  lemma {:induction false} EntityRun(name: Text, rest: Text)
    requires forall i | 0 <= i < |name| :: EntityChar(name[i])
    ensures EntityLength(name + rest) == |name| + EntityLength(rest)
  {
    if name == [] {
      assert name + rest == rest;
    } else {
      assert (name + rest)[1..] == name[1..] + rest;
      EntityRun(name[1..], rest);
    }
  }

  lemma PaddedDigits(n: nat, zeros: nat, base: nat, upper: bool)
    requires base == 10 || base == 16
    ensures var digits := Zeros(zeros) + Digits(n, base, upper);
      digits != [] && DigitsOf(digits, base) && Number(digits, base, 0) == n
  {
    DigitsAre(n, base, upper);
    ZerosAre(zeros, base);
    NumberZeros(zeros, Digits(n, base, upper), base);
    NumberOfDigits(n, base, upper);
  }

  lemma DigitsAreNameChars(s: Text, base: nat)
    requires DigitsOf(s, base)
    ensures forall i | 0 <= i < |s| :: EntityChar(s[i]) && s[i] != 120 && s[i] != 88
  {
    assert forall i | 0 <= i < |s| :: DigitOf(s[i], base) < base;
  }

  lemma PrefixSkipped(prefix: Text, digits: Text)
    requires PrefixOk(prefix) && digits != [] && forall i | 0 <= i < |digits| :: digits[i] != 120 && digits[i] != 88
    ensures
      var all := prefix + digits;
      digits == if |all| > 2 && all[0] == 48 && (all[1] == 120 || all[1] == 88) then all[2..] else all
  {
    assert prefix == [] ==> prefix + digits == digits;
  }

  lemma HexadecimalName(all: Text, resolve: Resolver)
    ensures EntityValue([HASH, 120] + all, resolve)
         == ToInt(Number(if |all| > 2 && all[0] == 48 && (all[1] == 120 || all[1] == 88) then all[2..] else all, 16, 0))
  {
    assert ([HASH, 120] + all)[2..] == all;
  }

  lemma DecimalName(digits: Text, resolve: Resolver)
    requires digits != [] && digits[0] != 120
    ensures EntityValue([HASH] + digits, resolve) == ToInt(Number(digits, 10, 0))
  {
    assert ([HASH] + digits)[1..] == digits;
  }

  lemma DecimalRead(n: nat, zeros: nat, resolve: Resolver)
    ensures var name := [HASH] + (Zeros(zeros) + Digits(n, 10, false));
      (forall i | 0 <= i < |name| :: EntityChar(name[i])) && EntityValue(name, resolve) == ToInt(n)
  {
    var digits := Zeros(zeros) + Digits(n, 10, false);
    PaddedDigits(n, zeros, 10, false);
    DigitsAreNameChars(digits, 10);
    DecimalName(digits, resolve);
  }

  lemma HexadecimalChars(prefix: Text, digits: Text)
    requires PrefixOk(prefix) && forall i | 0 <= i < |digits| :: EntityChar(digits[i])
    ensures var name := [HASH, 120] + (prefix + digits); forall i | 0 <= i < |name| :: EntityChar(name[i])
  {
    assert forall i | 0 <= i < |prefix + digits| :: EntityChar((prefix + digits)[i]);
  }

  lemma HexadecimalRead(n: nat, prefix: Text, zeros: nat, upper: bool, resolve: Resolver)
    requires PrefixOk(prefix)
    ensures var name := [HASH, 120] + (prefix + (Zeros(zeros) + Digits(n, 16, upper)));
      (forall i | 0 <= i < |name| :: EntityChar(name[i])) && EntityValue(name, resolve) == ToInt(n)
  {
    var digits := Zeros(zeros) + Digits(n, 16, upper);
    PaddedDigits(n, zeros, 16, upper);
    DigitsAreNameChars(digits, 16);
    HexadecimalChars(prefix, digits);
    HexadecimalValue(n, prefix, digits, resolve);
  }

  lemma HexadecimalValue(n: nat, prefix: Text, digits: Text, resolve: Resolver)
    requires PrefixOk(prefix) && digits != [] && forall i | 0 <= i < |digits| :: digits[i] != 120 && digits[i] != 88
    requires Number(digits, 16, 0) == n
    ensures EntityValue([HASH, 120] + (prefix + digits), resolve) == ToInt(n)
  {
    PrefixSkipped(prefix, digits);
    HexadecimalName(prefix + digits, resolve);
  }

  lemma NumberNameRead(l: Letter, resolve: Resolver)
    requires Numeric(l)
    ensures var name := ReferenceName(l);
      (forall i | 0 <= i < |name| :: EntityChar(name[i])) && EntityValue(name, resolve) == ToInt(l.ch)
  {
    match l.sp
    case Decimal(zeros) => DecimalRead(l.ch, zeros, resolve);
    case Hexadecimal(prefix, zeros, upper) => HexadecimalRead(l.ch, prefix, zeros, upper, resolve);
  }

  lemma NameEnds(name: Text, rest: Text)
    requires forall i | 0 <= i < |name| :: EntityChar(name[i])
    ensures var s := name + ([SEMICOLON] + rest);
      EntityLength(s) == |name| && s[..|name|] == name && s[|name|] == SEMICOLON && s[|name| + 1..] == rest
  {
    EntityRun(name, [SEMICOLON] + rest);
  }

  /** The value of a numeric reference is its number as an int: for every number, any leading
      zeros and digits of either case, while the name fits in the buffer. */
  lemma NumericReference(l: Letter, rest: Text, resolve: Resolver)
    requires Numeric(l) && |ReferenceName(l)| <= ENTITY_SIZE
    ensures EntityOf(ReferenceName(l) + ([SEMICOLON] + rest), resolve)
         == if BadChar(ToInt(l.ch)) then NoChar else Got(ToInt(l.ch), rest)
  {
    NumberNameRead(l, resolve);
    NameEnds(ReferenceName(l), rest);
  }

  /** The int of a number: itself if it is in range, -1 if it is too large for a long, and
      otherwise the number that is congruent to it. */
  lemma IntOfNumber(n: nat)
    ensures n < 0x8000_0000 ==> ToInt(n) == n
    ensures n > LONG_MAX ==> ToInt(n) == -1
    ensures n <= LONG_MAX ==> (n - ToInt(n)) % 0x1_0000_0000 == 0
    ensures -0x8000_0000 <= ToInt(n) < 0x8000_0000
  {
    assert n == n / 0x1_0000_0000 * 0x1_0000_0000 + n % 0x1_0000_0000;
  }

  /** A name that is too long, or that another character or the end of the text ends, is an
      error. */
  lemma BadReference(name: Text, rest: Text, resolve: Resolver)
    requires forall i | 0 <= i < |name| :: EntityChar(name[i])
    requires |name| > ENTITY_SIZE || rest == [] || (rest[0] != SEMICOLON && !EntityChar(rest[0]))
    ensures EntityOf(name + rest, resolve) == NoChar
  {
    EntityRun(name, rest);
  }

  /** The spellings of a character: itself, except for '&'; a name that is known for it; or its
      number. */
  predicate MaySpell(l: Letter, resolve: Resolver)
  {
    match l.sp
    case Raw => l.ch != AMP
    case Named(name) =>
      && |name| <= ENTITY_SIZE && (forall i | 0 <= i < |name| :: EntityChar(name[i]))
      && (name == [] || name[0] != HASH) && resolve(name) == l.ch && !BadChar(l.ch)
    case _ => Numeric(l) && |ReferenceName(l)| <= ENTITY_SIZE && l.ch < 0x8000_0000 && !BadChar(l.ch)
  }

  /** Every reference to a character is read as the character. */
  lemma ReferenceRead(l: Letter, rest: Text, resolve: Resolver) returns (name: Text)
    requires MaySpell(l, resolve) && !l.sp.Raw?
    ensures Spelled(l, rest) == [AMP] + name && EntityOf(name, resolve) == Got(l.ch, rest)
  {
    name := ReferenceName(l) + ([SEMICOLON] + rest);
    if l.sp.Named? {
      NameEnds(l.sp.name, rest);
    } else {
      NumericReference(l, rest, resolve);
      IntOfNumber(l.ch);
    }
  }

  // ---------- spelled texts ----------

  /** Spelled characters, and the text behind them. */
  function Written(ls: seq<Letter>, rest: Text): Text
  {
    if ls == [] then rest else Spelled(ls[0], Written(ls[1..], rest))
  }

  function Chars(ls: seq<Letter>): Text
  {
    if ls == [] then [] else [ls[0].ch] + Chars(ls[1..])
  }

  lemma MoveFirst(buf: Text, ls: seq<Letter>)
    requires ls != []
    ensures buf + Chars(ls) == buf + [ls[0].ch] + Chars(ls[1..])
  {
  }

  lemma MoveNone(buf: Text)
    ensures buf + Chars([]) == buf
  {
  }

  /** An attribute name or an attribute value, however its characters are spelled. */
  lemma {:induction false} UntilWritten(ls: seq<Letter>, end: nat, rest: Text, buf: Text, stop: Stop, resolve: Resolver)
    requires Stops(stop, end) && !Stops(stop, AMP)
    requires forall i | 0 <= i < |ls| :: MaySpell(ls[i], resolve) && (ls[i].sp.Raw? ==> !Stops(stop, ls[i].ch))
    ensures UntilOf(Written(ls, [end] + rest), buf, stop, resolve) == Part(buf + Chars(ls), end, rest)
    decreases |ls|
  {
    if ls == [] {
      MoveNone(buf);
      assert ([end] + rest)[1..] == rest;
    } else {
      UntilLetter(ls[0], Written(ls[1..], [end] + rest), buf, stop, resolve);
      UntilWritten(ls[1..], end, rest, buf + [ls[0].ch], stop, resolve);
      MoveFirst(buf, ls);
    }
  }

  lemma UntilLetter(l: Letter, rest: Text, buf: Text, stop: Stop, resolve: Resolver)
    requires MaySpell(l, resolve) && (l.sp.Raw? ==> !Stops(stop, l.ch)) && !Stops(stop, AMP)
    ensures UntilOf(Spelled(l, rest), buf, stop, resolve) == UntilOf(rest, buf + [l.ch], stop, resolve)
  {
    if l.sp.Raw? {
      assert ([l.ch] + rest)[1..] == rest;
    } else {
      var name := ReferenceRead(l, rest, resolve);
      assert ([AMP] + name)[1..] == name;
    }
  }

  /** An attribute name in quotes. */
  lemma {:induction false} QuotedWritten(ls: seq<Letter>, quote: nat, rest: Text, buf: Text, resolve: Resolver)
    requires Quote(quote) && forall i | 0 <= i < |ls| :: MaySpell(ls[i], resolve) && ls[i].ch != quote
    ensures QuotedNameOf(Written(ls, [quote] + rest), buf, quote, resolve)
         == Part(buf + Chars(ls) + [quote], quote, rest)
    decreases |ls|
  {
    if ls == [] {
      MoveNone(buf);
      assert ([quote] + rest)[1..] == rest;
    } else {
      QuotedLetter(ls[0], Written(ls[1..], [quote] + rest), buf, quote, resolve);
      QuotedWritten(ls[1..], quote, rest, buf + [ls[0].ch], resolve);
      MoveFirst(buf, ls);
    }
  }

  lemma QuotedLetter(l: Letter, rest: Text, buf: Text, quote: nat, resolve: Resolver)
    requires MaySpell(l, resolve) && l.ch != quote
    ensures QuotedNameOf(Spelled(l, rest), buf, quote, resolve) == QuotedNameOf(rest, buf + [l.ch], quote, resolve)
  {
    if l.sp.Raw? {
      assert ([l.ch] + rest)[1..] == rest;
    } else {
      var name := ReferenceRead(l, rest, resolve);
      assert ([AMP] + name)[1..] == name;
    }
  }

  /** The rest of a declaration. */
  lemma {:induction false} DeclarationWritten(ls: seq<Letter>, rest: Text, buf: Text, resolve: Resolver)
    requires forall i | 0 <= i < |ls| :: MaySpell(ls[i], resolve) && (ls[i].sp.Raw? ==> ls[i].ch != GT)
    ensures DeclarationOf(Written(ls, [GT] + rest), buf, resolve) == Part(buf + Chars(ls), GT, rest)
    decreases |ls|
  {
    if ls == [] {
      MoveNone(buf);
      assert ([GT] + rest)[1..] == rest;
    } else {
      DeclarationLetter(ls[0], Written(ls[1..], [GT] + rest), buf, resolve);
      DeclarationWritten(ls[1..], rest, buf + [ls[0].ch], resolve);
      MoveFirst(buf, ls);
    }
  }

  lemma DeclarationLetter(l: Letter, rest: Text, buf: Text, resolve: Resolver)
    requires MaySpell(l, resolve) && (l.sp.Raw? ==> l.ch != GT)
    ensures DeclarationOf(Spelled(l, rest), buf, resolve) == DeclarationOf(rest, buf + [l.ch], resolve)
  {
    if l.sp.Raw? {
      assert ([l.ch] + rest)[1..] == rest;
    } else {
      var name := ReferenceRead(l, rest, resolve);
      assert ([AMP] + name)[1..] == name;
    }
  }

  /** A word of a document; white space may belong to it if it is spelled by references. */
  lemma {:induction false} WordWritten(ls: seq<Letter>, rest: Text, st: State, resolve: Resolver)
    requires forall i | 0 <= i < |ls| ::
      MaySpell(ls[i], resolve) && (ls[i].sp.Raw? ==> !Space(ls[i].ch) && ls[i].ch != LT)
    ensures LoadedFrom(Written(ls, rest), st, resolve) == LoadedFrom(rest, st.(buf := st.buf + Chars(ls)), resolve)
    decreases |ls|
  {
    if ls == [] {
      MoveNone(st.buf);
    } else {
      WordLetter(ls[0], Written(ls[1..], rest), st, resolve);
      WordWritten(ls[1..], rest, st.(buf := st.buf + [ls[0].ch]), resolve);
      MoveFirst(st.buf, ls);
    }
  }

  lemma WordLetter(l: Letter, rest: Text, st: State, resolve: Resolver)
    requires MaySpell(l, resolve) && (l.sp.Raw? ==> !Space(l.ch) && l.ch != LT)
    ensures LoadedFrom(Spelled(l, rest), st, resolve) == LoadedFrom(rest, st.(buf := st.buf + [l.ch]), resolve)
  {
    if l.sp.Raw? {
      WordChar(l.ch, rest, st, resolve);
    } else {
      var name := ReferenceRead(l, rest, resolve);
      WordReference(name, l.ch, rest, st, resolve);
    }
  }

  lemma WordChar(ch: nat, rest: Text, st: State, resolve: Resolver)
    requires ch != AMP && !Space(ch) && ch != LT
    ensures LoadedFrom([ch] + rest, st, resolve) == LoadedFrom(rest, st.(buf := st.buf + [ch]), resolve)
  {
    assert ([ch] + rest)[1..] == rest;
  }

  lemma WordReference(name: Text, ch: nat, rest: Text, st: State, resolve: Resolver)
    requires EntityOf(name, resolve) == Got(ch, rest)
    ensures LoadedFrom([AMP] + name, st, resolve) == LoadedFrom(rest, st.(buf := st.buf + [ch]), resolve)
  {
    assert ([AMP] + name)[1..] == name;
  }

  /** The name of an open tag, or a '/' and the name of a close tag. */
  lemma {:induction false} TagWritten(ls: seq<Letter>, end: nat, rest: Text, buf: Text, resolve: Resolver)
    requires var all := buf + Chars(ls); all != [] && all[0] != QUESTION && all[0] != BANG
    requires Space(end) || end == GT || end == SLASH
    requires forall i | 0 <= i < |ls| ::
      && MaySpell(ls[i], resolve)
      && (ls[i].sp.Raw? ==> !Space(ls[i].ch) && ls[i].ch != GT && ls[i].ch != SLASH)
    ensures TagOf(Written(ls, [end] + rest), buf, resolve) == Part(buf + Chars(ls), end, rest)
    decreases |ls|
  {
    if ls == [] {
      MoveNone(buf);
      assert ([end] + rest)[1..] == rest;
    } else {
      MoveFirst(buf, ls);
      assert (buf + Chars(ls))[0] == (buf + [ls[0].ch])[0];
      TagLetter(ls[0], Written(ls[1..], [end] + rest), buf, resolve);
      TagWritten(ls[1..], end, rest, buf + [ls[0].ch], resolve);
    }
  }

  lemma TagLetter(l: Letter, rest: Text, buf: Text, resolve: Resolver)
    requires MaySpell(l, resolve) && (l.sp.Raw? ==> !Space(l.ch) && l.ch != GT && l.ch != SLASH)
    requires var b := buf + [l.ch]; b[0] != QUESTION && b[0] != BANG
    ensures TagOf(Spelled(l, rest), buf, resolve) == TagOf(rest, buf + [l.ch], resolve)
  {
    if l.sp.Raw? {
      TagChar(l.ch, rest, buf, resolve);
    } else {
      var name := ReferenceRead(l, rest, resolve);
      TagReference(name, l.ch, rest, buf, resolve);
    }
  }

  lemma TagReference(name: Text, ch: nat, rest: Text, buf: Text, resolve: Resolver)
    requires EntityOf(name, resolve) == Got(ch, rest)
    ensures TagOf([AMP] + name, buf, resolve) == TagOf(rest, buf + [ch], resolve)
  {
    assert ([AMP] + name)[1..] == name;
  }

  predicate StartsAside(b: Text) { b == [QUESTION] || b == COMMENT || b == CDATA }

  /** Where a character of the name of a tag leads. */
  lemma TagChar(ch: nat, rest: Text, buf: Text, resolve: Resolver)
    requires ch != AMP && !Space(ch) && ch != GT && (buf != [] ==> ch != SLASH)
    ensures var b := buf + [ch];
      TagOf([ch] + rest, buf, resolve)
      == if StartsAside(b) then Part(b, ch, rest) else TagOf(rest, b, resolve)
  {
    assert ([ch] + rest)[1..] == rest;
  }

  // ---------- escaped text ----------

  /** A '&' starts one of the four references. */
  predicate StartsReference(s: Text)
  {
    [AMP, 97, 109, 112, SEMICOLON] <= s || [AMP, 108, 116, SEMICOLON] <= s || [AMP, 103, 116, SEMICOLON] <= s
    || [AMP, 113, 117, 111, 116, SEMICOLON] <= s
  }

  lemma EscapedCharIsSafe(ch: nat, i: nat, rest: Text)
    requires i < |EscapeChar(ch)|
    ensures var e := EscapeChar(ch);
      e[i] != LT && e[i] != GT && e[i] != QUOTE && (e[i] == AMP ==> i == 0 && StartsReference(e + rest))
  {
    var e := EscapeChar(ch);
    if e[i] == AMP { assert e <= e + rest; }
  }

  /** Escaped text has no '<', '>' or '"', and its '&' are those of references. */
  lemma {:induction false} EscapedIsSafe(s: Text, i: nat)
    requires i < |Escape(s)|
    ensures var e := Escape(s); e[i] != LT && e[i] != GT && e[i] != QUOTE && (e[i] == AMP ==> StartsReference(e[i..]))
  {
    var first, rest := EscapeChar(s[0]), Escape(s[1..]);
    if i < |first| {
      EscapedCharIsSafe(s[0], i, rest);
      assert Escape(s)[0..] == first + rest;
    } else {
      EscapedIsSafe(s[1..], i - |first|);
      assert Escape(s)[i..] == rest[i - |first|..];
    }
  }
}
