/** GLib's incremental Base64 encoder and decoder. */
module GBase64 {
  import opened Sequences
  import opened Base64
  import opened Octets

  const LINE_QUANTA: nat := 19

  // ---------- encoding ----------

  /** The bytes after the last complete quantum. */
  function Rest(bs: seq<byte>): (rest: seq<byte>)
    ensures |rest| < 3
  {
    if |bs| < 3 then bs else Rest(bs[3..])
  }

  /** The number of quanta on the line, after one more. */
  function Next(breakLines: bool, already: nat): nat
  {
    if !breakLines then already else if already + 1 >= LINE_QUANTA then 0 else already + 1
  }

  /** The number of quanta on the line, after all complete quanta. */
  function Column(bs: seq<byte>, breakLines: bool, already: nat): nat
  {
    if |bs| < 3 then already else Column(bs[3..], breakLines, Next(breakLines, already))
  }

  function Break(breakLines: bool, already: nat): seq<byte>
  {
    if breakLines && already + 1 >= LINE_QUANTA then [NEWLINE] else []
  }

  /** The text of the complete quanta, if there are `already` on the line. */
  function Quanta(bs: seq<byte>, breakLines: bool, already: nat): seq<byte>
  {
    if |bs| < 3 then []
    else Quantum(bs[..3]) + Break(breakLines, already) + Quanta(bs[3..], breakLines, Next(breakLines, already))
  }

  /** The text of the last one or two bytes, and the final line break. */
  function Tail(bs: seq<byte>, breakLines: bool): seq<byte>
    requires |bs| < 3
  {
    (if bs == [] then [] else Quantum(bs)) + if breakLines then [NEWLINE] else []
  }

  /** The text of all bytes. */
  function Encoded(bs: seq<byte>, breakLines: bool): seq<byte>
  {
    Quanta(bs, breakLines, 0) + Tail(Rest(bs), breakLines)
  }

  lemma Assoc<T>(a: seq<T>, b: seq<T>, c: seq<T>, d: seq<T>)
    ensures a + b + c + d == a + b + (c + d)
    ensures a + b + (c + d) == a + (b + (c + d)) == a + (b + c + d)
  {
  }

  /** Without line breaks, this is the text of RFC 4648. */
  lemma {:induction false} EncodedIsText(bs: seq<byte>, already: nat)
    ensures Quanta(bs, false, already) + Tail(Rest(bs), false) == Text(bs)
  {
    if |bs| >= 3 {
      EncodedIsText(bs[3..], already);
      if |bs| == 3 { assert bs[..3] == bs && bs[3..] == []; }
      Assoc(Quantum(bs[..3]), [], Quanta(bs[3..], false, already), Tail(Rest(bs), false));
    }
  }

  /** The quanta of a longer input are those of its first part, and those of the bytes that
      the first part leaves, with the second part. */
  lemma {:induction false} QuantaSplit(x: seq<byte>, y: seq<byte>, brk: bool, already: nat)
    ensures var (rest, column) := (Rest(x), Column(x, brk, already));
      && Quanta(x + y, brk, already) == Quanta(x, brk, already) + Quanta(rest + y, brk, column)
      && Rest(x + y) == Rest(rest + y)
      && Column(x + y, brk, already) == Column(rest + y, brk, column)
  {
    if |x| >= 3 {
      QuantaSplit(x[3..], y, brk, Next(brk, already));
      assert (x + y)[..3] == x[..3] && (x + y)[3..] == x[3..] + y;
      Assoc(Quantum(x[..3]), Break(brk, already), Quanta(x[3..], brk, Next(brk, already)),
            Quanta(Rest(x) + y, brk, Column(x, brk, already)));
    }
  }

  /** One more quantum. */
  lemma QuantaNext(x: seq<byte>, y: seq<byte>, brk: bool, already: nat)
    requires Rest(x) == [] && |y| == 3
    ensures var column := Column(x, brk, already);
      && Quanta(x + y, brk, already) == Quanta(x, brk, already) + Quantum(y) + Break(brk, column)
      && Column(x + y, brk, already) == Next(brk, column)
      && Rest(x + y) == []
  {
    QuantaSplit(x, y, brk, already);
    assert Rest(x) + y == y && y[..3] == y && y[3..] == [];
    var column := Column(x, brk, already);
    Assoc(Quanta(x, brk, already), Quantum(y), Break(brk, column), []);
  }

  lemma QuantaEnd(x: seq<byte>, y: seq<byte>, brk: bool, already: nat)
    requires Rest(x) == [] && |y| < 3
    ensures Rest(x + y) == y && Quanta(x + y, brk, already) == Quanta(x, brk, already)
    ensures Column(x + y, brk, already) == Column(x, brk, already)
  {
    QuantaSplit(x, y, brk, already);
    assert Rest(x) + y == y;
  }

  /** The encoder's shifts and masks select the digits of the quantum. */
  lemma ShiftsAreDigits(c1: byte, c2: byte, c3: byte)
    ensures Quantum([c1, c2, c3])
            == [Digit(c1 / 4), Digit(c2 / 16 + c1 % 4 * 16), Digit(c2 % 16 * 4 + c3 / 64), Digit(c3 % 64)]
  {
    GroupDigits(c1, c2, c3);
  }

  lemma GroupDigits(c1: int, c2: int, c3: int)
    requires 0 <= c1 < 256 && 0 <= c2 < 256 && 0 <= c3 < 256
    ensures var n := 65536 * c1 + 256 * c2 + c3;
      && n / 262144 == c1 / 4 && n / 4096 % 64 == c2 / 16 + c1 % 4 * 16
      && n / 64 % 64 == c2 % 16 * 4 + c3 / 64 && n % 64 == c3 % 64
  {
    var q1, r1, q2, r2, q3, r3 := c1 / 4, c1 % 4, c2 / 16, c2 % 16, c3 / 64, c3 % 64;
    assert c1 == 4 * q1 + r1 && c2 == 16 * q2 + r2 && c3 == 64 * q3 + r3;
    var n := 65536 * c1 + 256 * c2 + c3;
    DivMod(n, 262144, q1, 65536 * r1 + 4096 * q2 + 256 * r2 + c3);
    DivMod(n, 4096, 64 * q1 + 16 * r1 + q2, 256 * r2 + c3);
    DivMod(64 * q1 + 16 * r1 + q2, 64, q1, 16 * r1 + q2);
    DivMod(n, 64, 4096 * q1 + 1024 * r1 + 64 * q2 + 4 * r2 + q3, r3);
    DivMod(4096 * q1 + 1024 * r1 + 64 * q2 + 4 * r2 + q3, 64, 64 * q1 + 16 * r1 + q2, 4 * r2 + q3);
  }

  /** What the caller keeps between the steps: the column, and the `save` word with the number
      of saved bytes and two slots. */
  class Encoder {
    var state: nat
    var count: nat
    var save1: byte
    var save2: byte

    /** The bytes that are waiting for the rest of their quantum. */
    ghost function Pending(): seq<byte>
      reads `count, `save1, `save2
    {
      if count == 0 then [] else if count == 1 then [save1] else [save1, save2]
    }

    ghost predicate Valid() reads `count { count <= 2 }

    constructor ()
      ensures Valid() && Pending() == [] && state == 0 && save2 == 0
    {
      state, count, save1, save2 := 0, 0, 0, 0;
    }

    /** g_base64_encode_step. The second slot keeps its old byte unless two bytes are saved. */
    method Step(input: seq<byte>, breakLines: bool) returns (out: seq<byte>)
      requires Valid()
      modifies this
      ensures Valid()
      ensures var all := old(Pending()) + input;
        && out == Quanta(all, breakLines, old(state))
        && state == Column(all, breakLines, old(state))
        && Pending() == Rest(all)
        && save2 == if |Rest(all)| == 2 then Rest(all)[1] else old(save2)
    {
      out := [];
      var len := |input|;
      if len <= 0 {
        assert Pending() + input == Pending();
        return;
      }
      var inptr := 0;
      if len + count > 2 {
        out, inptr := Loop(input, breakLines);
        count := 0;
        len := 2 - (inptr - (|input| - 2));
      }
      if len > 0 {
        Store(input[inptr..]);
      }
    }

    /** The bytes before which the loop is entered. */
    static ghost function Held(enter: nat, c1: byte, c2: byte): seq<byte>
    {
      if enter == 0 then [] else if enter == 1 then [c1] else [c1, c2]
    }

    /** The start of the loop body, where it is entered behind the bytes that are held. */
    static method Fetch(input: seq<byte>, start: nat, enter: nat, b1: byte, b2: byte)
      returns (c1: byte, c2: byte, c3: byte, inptr: nat)
      requires start <= |input| && enter <= 2 && |input| - start + enter > 2
      ensures start < inptr <= |input| && Held(enter, b1, b2) + input[start..] == [c1, c2, c3] + input[inptr..]
    {
      c1, c2, inptr := b1, b2, start;
      if enter == 0 {
        c1 := input[inptr];
        inptr := inptr + 1;
      }
      if enter <= 1 {
        c2 := input[inptr];
        inptr := inptr + 1;
      }
      c3 := input[inptr];
      inptr := inptr + 1;
    }

    /** The rest of the loop body: four characters, and perhaps a line break. */
    static method Emit(c1: byte, c2: byte, c3: byte, breakLines: bool, before: nat)
      returns (text: seq<byte>, already: nat)
      ensures text == Quantum([c1, c2, c3]) + Break(breakLines, before) && already == Next(breakLines, before)
    {
      ShiftsAreDigits(c1, c2, c3);
      text := [Digit(c1 / 4), Digit(c2 / 16 + c1 % 4 * 16), Digit(c2 % 16 * 4 + c3 / 64), Digit(c3 % 64)];
      already := before;
      if breakLines {
        already := already + 1;
        if already >= LINE_QUANTA {
          text := text + [NEWLINE];
          already := 0;
        }
      }
    }

    /** The loop of g_base64_encode_step, which is entered behind the bytes that are saved. */
    method Loop(input: seq<byte>, breakLines: bool) returns (out: seq<byte>, inptr: nat)
      requires Valid() && |input| + count > 2
      modifies this`state
      ensures inptr <= |input| < inptr + 3
      ensures var all := Pending() + input;
        && out == Quanta(all, breakLines, old(state))
        && state == Column(all, breakLines, old(state))
        && Rest(all) == input[inptr..]
    {
      ghost var all, done := Pending() + input, [];
      var c1, c2, c3 := save1, save2, 0;
      var already, enter := state, count;
      out, inptr := [], 0;
      assert input[0..] == input && all == [] + (Held(enter, c1, c2) + input);
      while enter > 0 || inptr < |input| - 2
        invariant inptr <= |input| && enter <= 2 && (enter > 0 ==> |input| - inptr + enter > 2) && state == old(state)
        invariant all == done + (Held(enter, c1, c2) + input[inptr..]) && Rest(done) == []
        invariant out == Quanta(done, breakLines, state) && already == Column(done, breakLines, state)
        decreases |input| - inptr
      {
        var text;
        c1, c2, c3, inptr := Fetch(input, inptr, enter, c1, c2);
        enter := 0;
        ghost var quantum := [c1, c2, c3];
        QuantaNext(done, quantum, breakLines, state);
        Together(out, Quantum(quantum), Break(breakLines, already));
        Together(done, quantum, input[inptr..]);
        text, already := Emit(c1, c2, c3, breakLines, already);
        out, done := out + text, done + quantum;
        assert [] + input[inptr..] == input[inptr..];
      }
      assert [] + input[inptr..] == input[inptr..];
      QuantaEnd(done, input[inptr..], breakLines, state);
      state := already;
    }

    /** The end of g_base64_encode_step: one or two bytes are stored behind the saved ones. */
    method Store(bytes: seq<byte>)
      requires Valid() && 1 <= |bytes| && |bytes| + count <= 2
      modifies this`count, this`save1, this`save2
      ensures Valid() && Pending() == old(Pending()) + bytes
      ensures save2 == if count == 2 then (old(Pending()) + bytes)[1] else old(save2)
    {
      var slot, i := count, 0;
      while i < |bytes|
        invariant i <= |bytes| && slot == count + i && count == old(count)
        invariant slot == 0 ==> save1 == old(save1)
        invariant slot >= 1 ==> save1 == (old(Pending()) + bytes)[0]
        invariant save2 == if slot == 2 then (old(Pending()) + bytes)[1] else old(save2)
      {
        if slot == 0 {
          save1 := bytes[i];
        } else {
          save2 := bytes[i];
        }
        slot, i := slot + 1, i + 1;
      }
      count := count + |bytes|;
    }

    /** g_base64_encode_close: the second slot is taken even if only one byte is saved. */
    method Close(breakLines: bool) returns (out: seq<byte>)
      requires Valid()
      modifies this
      ensures Valid() && Pending() == [] && state == 0 && save1 == save2 == 0
      ensures out == Tail(old(Pending()), breakLines) <==> !(old(count) == 1 && old(save2) >= 16)
    {
      var c1, c2 := save1, save2;
      out := [];
      ShiftsAreDigits(c1, c2, 0);
      ShortQuanta(c1, c2);
      match count {
        case 2 => out := [Digit(c1 / 4), Digit(c2 / 16 + c1 % 4 * 16), Digit(c2 % 16 * 4), EQUALS];
        case 1 => out := [Digit(c1 / 4), Digit(c2 / 16 + c1 % 4 * 16), EQUALS, EQUALS];
        case _ =>
      }
      assert count == 1 ==> out[1] == Digit(c2 / 16 + c1 % 4 * 16) && Quantum([c1])[1] == Digit(c1 % 4 * 16);
      ghost var quantum, correct := out, if count == 0 then [] else Quantum(Pending());
      assert quantum == correct <==> !(count == 1 && save2 >= 16);
      ghost var end := if breakLines then [NEWLINE] else [];
      Cancel([], quantum, correct, end);
      assert [] + quantum == quantum && [] + correct == correct;
      assert quantum + [] == quantum;
      if breakLines {
        out := out + [NEWLINE];
      }
      assert out == quantum + end && Tail(Pending(), breakLines) == correct + end;
      count, save1, save2, state := 0, 0, 0, 0;
    }
  }

  lemma Cancel<T>(a: seq<T>, x: seq<T>, y: seq<T>, b: seq<T>)
    ensures a + x + b == a + y + b <==> x == y
  {
    if a + x + b == a + y + b {
      assert |x| == |y|;
      assert x == (a + x + b)[|a|..|a| + |x|] && y == (a + y + b)[|a|..|a| + |y|];
    }
  }

  lemma ShortQuanta(c1: byte, c2: byte)
    ensures Quantum([c1, c2]) == [Digit(c1 / 4), Digit(c2 / 16 + c1 % 4 * 16), Digit(c2 % 16 * 4), EQUALS]
    ensures Quantum([c1]) == [Digit(c1 / 4), Digit(c1 % 4 * 16), EQUALS, EQUALS]
    ensures Digit(c2 / 16 + c1 % 4 * 16) == Digit(c1 % 4 * 16) <==> c2 < 16
  {
    GroupDigits(c1, c2, 0);
    GroupDigits(c1, 0, 0);
    RankOfDigit(c2 / 16 + c1 % 4 * 16);
    RankOfDigit(c1 % 4 * 16);
  }

  /** The second byte of the last pair that was left over at the end of a chunk. */
  function Slot2(chunks: seq<seq<byte>>): byte
  {
    if chunks == [] then 0
    else if |Rest(Concat(chunks))| == 2 then Rest(Concat(chunks))[1]
    else Slot2(chunks[..|chunks| - 1])
  }

  /** g_base64_encode_step over some chunks with a fresh state, and g_base64_encode_close: the
      text is that of one call, unless a single byte is left at the end and the last pair
      that was left over at an earlier boundary had a second byte of 16 or more. */
  method EncodeChunks(chunks: seq<seq<byte>>, breakLines: bool) returns (text: seq<byte>)
    ensures text == Encoded(Concat(chunks), breakLines)
            <==> !(|Rest(Concat(chunks))| == 1 && Slot2(chunks) >= 16)
  {
    var encoder := new Encoder();
    text := [];
    for i := 0 to |chunks|
      invariant encoder.Valid() && fresh(encoder)
      invariant var all := Concat(chunks[..i]);
        && text == Quanta(all, breakLines, 0) && encoder.state == Column(all, breakLines, 0)
        && encoder.Pending() == Rest(all) && encoder.save2 == Slot2(chunks[..i])
    {
      ghost var all := Concat(chunks[..i]);
      QuantaSplit(all, chunks[i], breakLines, 0);
      assert chunks[..i + 1][..i] == chunks[..i];
      var out := encoder.Step(chunks[i], breakLines);
      text := text + out;
    }
    assert chunks[..|chunks|] == chunks;
    var last := encoder.Close(breakLines);
    ghost var all := Concat(chunks);
    Cancel(text, last, Tail(Rest(all), breakLines), []);
    text := text + last;
    assert text == text + [] && Encoded(all, breakLines) == Encoded(all, breakLines) + [];
  }

  /** g_base64_encode */
  method Encode(data: seq<byte>) returns (text: seq<byte>)
    ensures text == Text(data) && |text| + 1 <= (|data| / 3 + 1) * 4 + 1
  {
    TextLength(data);
    var encoder := new Encoder();
    assert encoder.Pending() + data == data;
    text := encoder.Step(data, false);
    var last := encoder.Close(false);
    text := text + last;
    EncodedIsText(data, 0);
  }

  /** The boundary does matter: two zero bytes after the pair (0, 16) are encoded as if the
      last one were followed by the stale 16. */
  lemma ChunkingMatters()
    ensures var chunks := [[0, 16], [0, 0]];
      |Rest(Concat(chunks))| == 1 && Slot2(chunks) >= 16
  {
    var chunks: seq<seq<byte>> := [[0, 16], [0, 0]];
    assert chunks[..1] == [[0, 16]] && chunks[..1][..0] == [];
    assert Concat(chunks[..1]) == [0, 16];
    assert Concat(chunks) == [0, 16, 0, 0];
    assert [0, 16, 0, 0][3..] == [0];
  }

  /** A line is 76 characters, and the newline. */
  lemma {:induction false} LinesHave76(bs: seq<byte>, already: nat, i: nat)
    requires already < LINE_QUANTA && i < |Quanta(bs, true, already)|
    ensures Quanta(bs, true, already)[i] == NEWLINE <==> (4 * already + i) % 77 == 76
  {
    var q, b, rest := Quantum(bs[..3]), Break(true, already), Quanta(bs[3..], true, Next(true, already));
    LinePosition(already, i, |b|);
    Behind(q, b, rest, i);
    if i < 4 {
      QuantumIsText(bs[..3], i);
    } else if i >= 4 + |b| {
      LinesHave76(bs[3..], Next(true, already), i - 4 - |b|);
    }
  }

  lemma Behind(q: seq<byte>, b: seq<byte>, rest: seq<byte>, i: nat)
    requires i < |q + b + rest|
    ensures (q + b + rest)[i] == if i < |q| then q[i] else if i < |q| + |b| then b[i - |q|] else rest[i - |q| - |b|]
  {
  }

  /** Where a character stands in its line, before, at and behind the first break. */
  lemma LinePosition(already: nat, i: nat, breaks: nat)
    requires already < LINE_QUANTA && breaks == if already + 1 == LINE_QUANTA then 1 else 0
    ensures i < 4 ==> (4 * already + i) % 77 != 76
    ensures i == 4 && breaks == 1 ==> (4 * already + i) % 77 == 76
    ensures i >= 4 + breaks ==> (4 * already + i) % 77 == (4 * Next(true, already) + (i - 4 - breaks)) % 77
  {
    assert i < 4 ==> 4 * already + i < 76;
    if breaks == 1 && i >= 5 {
      assert 4 * already + i == 77 + (i - 5);
    }
  }

  lemma QuantumIsText(bs: seq<byte>, i: nat)
    requires |bs| == 3 && i < 4
    ensures Quantum(bs)[i] != NEWLINE
  {
    var n := Group(bs);
    RankOfDigit(n / 262144);
    RankOfDigit(n / 4096 % 64);
    RankOfDigit(n / 64 % 64);
    RankOfDigit(n % 64);
  }

  // ---------- decoding ----------

  const SKIP: nat := 255

  /** mime_base64_rank */
  function Rank(c: byte): nat
  {
    if c == 43 then 62 else if c == 47 then 63 else if 48 <= c <= 57 then c - 48 + 52 else if c == EQUALS then 0
    else if 65 <= c <= 90 then c - 65 else if 97 <= c <= 122 then c - 97 + 26 else SKIP
  }

  lemma RankOfDigit(d: nat)
    requires d < 64
    ensures Rank(Digit(d)) == d && Digit(d) != EQUALS
  {
  }

  predicate Alphabetic(cs: seq<byte>) { forall i | 0 <= i < |cs| :: Rank(cs[i]) != SKIP }

  /** The alphabet characters of a text. */
  function Chars(text: seq<byte>): (cs: seq<byte>)
    ensures Alphabetic(cs) && |cs| <= |text|
  {
    if text == [] then [] else
      var (front, last) := (Chars(text[..|text| - 1]), text[|text| - 1]);
      if Rank(last) == SKIP then front else front + [last]
  }

  /** The bits of some characters, six from each. */
  function Bits(cs: seq<byte>): nat
    requires Alphabetic(cs)
  {
    if cs == [] then 0 else 64 * Bits(cs[..|cs| - 1]) + Rank(cs[|cs| - 1])
  }

  /** The bytes of a quantum. */
  function Bytes(q: seq<byte>): (bs: seq<byte>)
    requires |q| == 4 && Alphabetic(q)
    ensures |bs| <= 3
  {
    var n := Bits(q);
    QuantumBits(q);
    [n / 65536] + (if q[2] != EQUALS then [n / 256 % 256] else []) + if q[3] != EQUALS then [n % 256] else []
  }

  lemma QuantumBits(q: seq<byte>)
    requires |q| == 4 && Alphabetic(q)
    ensures Bits(q) == 262144 * Rank(q[0]) + 4096 * Rank(q[1]) + 64 * Rank(q[2]) + Rank(q[3]) < 0x100_0000
  {
    assert q[..3][..2] == q[..2] && q[..2][..1] == q[..1] && q[..1][..0] == [];
    assert Bits(q[..1]) == Rank(q[0]);
    assert Bits(q[..2]) == 64 * Rank(q[0]) + Rank(q[1]);
    assert Bits(q[..3]) == 64 * (64 * Rank(q[0]) + Rank(q[1])) + Rank(q[2]);
  }

  /** The bytes of the complete quanta of some alphabet characters. */
  function Decoded(cs: seq<byte>): seq<byte>
    requires Alphabetic(cs)
  {
    if |cs| < 4 then [] else Bytes(cs[..4]) + Decoded(cs[4..])
  }

  /** The characters after the last complete quantum. */
  function Left(cs: seq<byte>): (left: seq<byte>)
    ensures |left| < 4 && (Alphabetic(cs) ==> Alphabetic(left))
  {
    if |cs| < 4 then cs else Left(cs[4..])
  }

  lemma {:induction false} DecodedSplit(x: seq<byte>, y: seq<byte>)
    requires Alphabetic(x) && Alphabetic(y)
    ensures Decoded(x + y) == Decoded(x) + Decoded(Left(x) + y) && Left(x + y) == Left(Left(x) + y)
  {
    if |x| >= 4 {
      DecodedSplit(x[4..], y);
      assert (x + y)[..4] == x[..4] && (x + y)[4..] == x[4..] + y;
      assert Bytes(x[..4]) + (Decoded(x[4..]) + Decoded(Left(x) + y))
          == Bytes(x[..4]) + Decoded(x[4..]) + Decoded(Left(x) + y);
    }
  }

  /** One more character of the alphabet. */
  lemma ShiftedNext(save: nat, cs: seq<byte>, c: byte)
    requires Alphabetic(cs) && Rank(c) != SKIP
    ensures Shifted(save, cs + [c]) == (64 * Shifted(save, cs) + Rank(c)) % WORD
  {
    assert (cs + [c])[..|cs|] == cs;
  }

  lemma DecodedNext(x: seq<byte>, c: byte)
    requires Alphabetic(x) && Rank(c) != SKIP
    ensures |Left(x)| < 3 ==> Decoded(x + [c]) == Decoded(x) && Left(x + [c]) == Left(x) + [c]
    ensures |Left(x)| == 3 ==> Decoded(x + [c]) == Decoded(x) + Bytes(Left(x) + [c]) && Left(x + [c]) == []
  {
    var q := Left(x) + [c];
    DecodedSplit(x, [c]);
    if |Left(x)| == 3 {
      assert q[..4] == q && q[4..] == [];
      assert Decoded(q) == Bytes(q) + Decoded([]) && Left(q) == Left([]);
    }
  }

  lemma CharsNext(text: seq<byte>, k: nat)
    requires k < |text|
    ensures Chars(text[..k + 1]) == Chars(text[..k]) + if Rank(text[k]) == SKIP then [] else [text[k]]
  {
    assert text[..k + 1][..k] == text[..k];
  }

  // ---------- the round trip ----------

  /** The digits of a quantum hold its bits. */
  lemma QuantumIsGroup(bs: seq<byte>)
    requires 1 <= |bs| <= 3
    ensures var q := Quantum(bs);
      Alphabetic(q) && Bits(q) == Group(bs) && (q[2] == EQUALS <==> |bs| == 1) && (q[3] == EQUALS <==> |bs| < 3)
  {
    var n, q := Group(bs), Quantum(bs);
    RankOfDigit(n / 262144);
    RankOfDigit(n / 4096 % 64);
    RankOfDigit(n / 64 % 64);
    RankOfDigit(n % 64);
    QuantumBits(q);
    GroupDigits(bs[0], if |bs| > 1 then bs[1] else 0, if |bs| > 2 then bs[2] else 0);
  }

  lemma GroupBytes(bs: seq<byte>)
    requires 1 <= |bs| <= 3
    ensures var n := Group(bs);
      && n / 65536 == bs[0] && n / 256 % 256 == (if |bs| > 1 then bs[1] else 0)
      && n % 256 == if |bs| > 2 then bs[2] else 0
  {
    var n: int, c1: int, c2: int, c3: int :=
      Group(bs), bs[0], if |bs| > 1 then bs[1] else 0, if |bs| > 2 then bs[2] else 0;
    DivMod(n, 65536, c1, 256 * c2 + c3);
    DivMod(n, 256, 256 * c1 + c2, c3);
    DivMod(256 * c1 + c2, 256, c1, c2);
  }

  /** Decoding a quantum gives the bytes back. */
  lemma QuantumRoundTrip(bs: seq<byte>)
    requires 1 <= |bs| <= 3
    ensures Alphabetic(Quantum(bs)) && Bytes(Quantum(bs)) == bs
  {
    QuantumIsGroup(bs);
    GroupBytes(bs);
  }

  lemma {:induction false} TextRoundTrip(bs: seq<byte>)
    ensures Alphabetic(Text(bs)) && Decoded(Text(bs)) == bs
    decreases |bs|
  {
    if bs != [] {
      var q, rest := if |bs| <= 3 then bs else bs[..3], if |bs| <= 3 then [] else bs[3..];
      QuantumRoundTrip(q);
      TextRoundTrip(rest);
      assert Text(bs) == Quantum(q) + Text(rest) && bs == q + rest;
      assert Text(bs)[..4] == Quantum(q) && Text(bs)[4..] == Text(rest);
    }
  }

  lemma {:induction false} CharsConcat(x: seq<byte>, y: seq<byte>)
    ensures Chars(x + y) == Chars(x) + Chars(y)
  {
    if y == [] {
      assert x + y == x;
    } else {
      CharsConcat(x, y[..|y| - 1]);
      assert (x + y)[..|x + y| - 1] == x + y[..|y| - 1];
    }
  }

  lemma {:induction false} CharsAll(cs: seq<byte>)
    requires Alphabetic(cs)
    ensures Chars(cs) == cs
  {
    if cs != [] { CharsAll(cs[..|cs| - 1]); }
  }

  lemma {:induction false} QuantaChars(bs: seq<byte>, brk: bool, already: nat)
    ensures Chars(Quanta(bs, brk, already)) == Quanta(bs, false, 0)
  {
    if |bs| >= 3 {
      var q, b, rest := Quantum(bs[..3]), Break(brk, already), Quanta(bs[3..], brk, Next(brk, already));
      QuantaChars(bs[3..], brk, Next(brk, already));
      QuantumRoundTrip(bs[..3]);
      CharsAll(q);
      assert b == [] || b[..0] == [];
      assert Chars(b) == [];
      CharsConcat(q, b);
      CharsConcat(q + b, rest);
    }
  }

  /** Decoding undoes encoding, with and without line breaks. */
  lemma RoundTrip(bs: seq<byte>, breakLines: bool)
    ensures Decoded(Chars(Encoded(bs, breakLines))) == bs
  {
    var front, tail, end := Quanta(bs, breakLines, 0), Tail(Rest(bs), false), if breakLines then [NEWLINE] else [];
    assert Tail(Rest(bs), breakLines) == tail + end;
    assert Encoded(bs, breakLines) == front + (tail + end);
    CharsConcat(front, tail + end);
    CharsConcat(tail, end);
    assert end == [] || end[..0] == [];
    assert Chars(end) == [];
    QuantaChars(bs, breakLines, 0);
    if Rest(bs) != [] { QuantumRoundTrip(Rest(bs)); }
    CharsAll(tail);
    EncodedIsText(bs, 0);
    TextRoundTrip(bs);
  }

  // ---------- the decoder ----------

  const WORD: nat := 0x1_0000_0000

  /** 1 << 6 * i */
  function Power(i: nat): nat
    requires i <= 4
  {
    if i == 0 then 1 else if i == 1 then 64 else if i == 2 then 4096 else if i == 3 then 262144 else 0x100_0000
  }

  /** Between two calls, a padding character that is the third one of its quantum is
      forgotten: it will count as an 'A'. */
  function Forget(left: seq<byte>): (r: seq<byte>)
    ensures |r| == |left| && (Alphabetic(left) ==> Alphabetic(r))
  {
    if |left| == 3 && left[2] == EQUALS then left[2 := 65] else left
  }

  lemma ForgetBits(left: seq<byte>)
    requires Alphabetic(left) && |left| < 4
    ensures Bits(Forget(left)) == Bits(left)
  {
    if Forget(left) != left { assert Forget(left)[..2] == left[..2]; }
  }

  lemma ShiftIn(v: nat, m: nat, rank: nat)
    requires rank < 64 && m > 0
    ensures (64 * v + rank) % (64 * m) == 64 * (v % m) + rank
  {
    assert v == m * (v / m) + v % m;
    DivMod(64 * v + rank, 64 * m, v / m, 64 * (v % m) + rank);
  }

  /** v << 6 | rank, in 32 bits, keeps the bits of the quantum. */
  lemma Shift(v: nat, i: nat, rank: nat)
    requires i < 4 && rank < 64
    ensures (64 * v + rank) % WORD % Power(i + 1) == 64 * (v % Power(i)) + rank
  {
    var w := v % 0x400_0000;
    assert WORD == 64 * 0x400_0000;
    ShiftIn(v, 0x400_0000, rank);
    ShiftIn(w, Power(i), rank);
    var h := v / 0x400_0000;
    DivMod(v, 64, 0x10_0000 * h + w / 64, w % 64);
    DivMod(v, 4096, 0x4000 * h + w / 4096, w % 4096);
    DivMod(v, 262144, 0x100 * h + w / 262144, w % 262144);
  }

  lemma ShiftChar(v: nat, q: seq<byte>, c: byte)
    requires |q| < 4 && Alphabetic(q) && Rank(c) != SKIP && v % Power(|q|) == Bits(q)
    ensures Alphabetic(q + [c]) && (64 * v + Rank(c)) % WORD % Power(|q| + 1) == Bits(q + [c])
  {
    Shift(v, |q|, Rank(c));
    assert (q + [c])[..|q|] == q;
  }

  /** The word after some characters. */
  function Shifted(v: nat, cs: seq<byte>): nat
    requires Alphabetic(cs)
  {
    if cs == [] then v else (64 * Shifted(v, cs[..|cs| - 1]) + Rank(cs[|cs| - 1])) % WORD
  }

  /** Its low bits are those of the quantum that is not complete. */
  ghost predicate LowBits(v: nat, w: nat, cs: seq<byte>)
    requires Alphabetic(cs)
  {
    w % Power(|Left(cs)|) == Bits(Left(cs)) && (v < WORD ==> w < WORD)
  }

  lemma LowBitsNext(v: nat, w: nat, cs: seq<byte>, c: byte)
    requires Alphabetic(cs) && Rank(c) != SKIP && LowBits(v, w, cs)
    ensures LowBits(v, (64 * w + Rank(c)) % WORD, cs + [c])
  {
    DecodedNext(cs, c);
    ShiftChar(w, Left(cs), c);
  }

  lemma {:induction false} ShiftedBits(v: nat, was: seq<byte>, cs: seq<byte>)
    requires Alphabetic(was) && Alphabetic(cs) && |was| < 4 && v % Power(|was|) == Bits(was)
    ensures LowBits(v, Shifted(v, cs), was + cs)
  {
    if cs == [] {
      assert was + cs == was;
    } else {
      var front, c := cs[..|cs| - 1], cs[|cs| - 1];
      ShiftedBits(v, was, front);
      LowBitsNext(v, Shifted(v, front), was + front, c);
      assert cs == front + [c];
      Together(was, front, [c]);
    }
  }

  /** v >> 16, v >> 8 and v, in 8 bits. */
  lemma LowBytes(v: nat, x: nat)
    requires v % 0x100_0000 == x
    ensures v / 65536 % 256 == x / 65536 && v / 256 % 256 == x / 256 % 256 && v % 256 == x % 256
  {
    var h := v / 0x100_0000;
    var a, b, c := x / 65536, x / 256 % 256, x % 256;
    assert x / 256 == 256 * a + b && x == 65536 * a + 256 * b + c;
    DivMod(v, 65536, 256 * h + a, 256 * b + c);
    DivMod(256 * h + a, 256, h, a);
    DivMod(v, 256, 65536 * h + 256 * a + b, c);
    DivMod(65536 * h + 256 * a + b, 256, 256 * h + a, b);
  }

  /** What the caller keeps between the steps. */
  class Decoder {
    var state: nat
    var save: nat
    ghost var left: seq<byte>   // the characters of the quantum that is not complete

    ghost predicate Valid()
      reads this
    {
      && |left| == state < 4 && Alphabetic(left)
      && save < WORD && save % Power(state) == Bits(left)
    }

    constructor ()
      ensures Valid() && left == []
    {
      state, save, left := 0, 0, [];
    }

    /** The three assignments of g_base64_decode_step to its output. */
    static method Put(out: array<byte>, w: nat, v: nat, third: byte, fourth: byte, ghost q: seq<byte>) returns (n: nat)
      requires |q| == 4 && Alphabetic(q) && v % 0x100_0000 == Bits(q) && w + 3 <= out.Length
      requires (third == EQUALS <==> q[2] == EQUALS) && fourth == q[3]
      modifies out
      ensures w <= n <= w + 3 && out[..n] == old(out[..w]) + Bytes(q)
      ensures forall i | n <= i < out.Length :: out[i] == old(out[i])
    {
      LowBytes(v, Bits(q));
      QuantumBits(q);
      n := w;
      out[n] := v / 65536 % 256;
      n := n + 1;
      if third != EQUALS {
        out[n] := v / 256 % 256;
        n := n + 1;
      }
      if fourth != EQUALS {
        out[n] := v % 256;
        n := n + 1;
      }
    }

    /** g_base64_decode_step. */
    method Step(input: array<byte>, len: nat, out: array<byte>) returns (n: nat)
      requires Valid() && len <= input.Length
      requires out.Length >= (state + len) / 4 * 3
      requires input == out ==> state == 0
      modifies this, out
      ensures Valid() && n <= (old(state) + len) / 4 * 3
      ensures var cs := Forget(old(left)) + Chars(old(input[..len]));
        out[..n] == Decoded(cs) && left == Left(cs)
      ensures forall i | n <= i < out.Length :: out[i] == old(out[i])
    {
      ForgetBits(left);
      left := Forget(left);
      if len <= 0 {
        assert left + Chars(input[..len]) == left;
        return 0;
      }
      ShiftedBits(save, left, Chars(input[..len]));
      n, save, state, left := Loop(input, len, out, save, state, left);
    }

    /** The body of the loop of g_base64_decode_step, for a character of the alphabet. */
    static method Accept(c: byte, v0: nat, i0: nat, last1: byte, out: array<byte>, n0: nat,
                         ghost save: nat, ghost was: seq<byte>, ghost cs: seq<byte>)
      returns (v: nat, i: nat, n: nat)
      requires Rank(c) != SKIP && Alphabetic(cs) && Alphabetic(was) && |was| < 4 && save % Power(|was|) == Bits(was)
      requires i0 == |Left(was + cs)| && v0 == Shifted(save, cs)
      requires i0 == 3 ==> n0 + 3 <= out.Length && (last1 == EQUALS <==> Left(was + cs)[2] == EQUALS)
      requires n0 <= out.Length && out[..n0] == Decoded(was + cs)
      modifies out
      ensures i == |Left(was + (cs + [c]))| == (if i0 == 3 then 0 else i0 + 1) && v == Shifted(save, cs + [c])
      ensures i > 0 ==> Left(was + (cs + [c]))[i - 1] == c
      ensures n0 <= n <= (if i0 == 3 then n0 + 3 else n0) <= out.Length && out[..n] == Decoded(was + (cs + [c]))
      ensures forall k | n <= k < out.Length :: out[k] == old(out[k])
    {
      ghost var q := Left(was + cs) + [c];
      ShiftedBits(save, was, cs);
      DecodedNext(was + cs, c);
      assert was + (cs + [c]) == was + cs + [c];
      ShiftedNext(save, cs, c);
      ShiftChar(v0, Left(was + cs), c);
      v := (64 * v0 + Rank(c)) % WORD;
      i, n := i0 + 1, n0;
      if i == 4 {
        n := Put(out, n, v, last1, c, q);
        i := 0;
      }
    }

    /** What has been decoded when `at` characters of the text have been read. */
    static ghost predicate Going(text: seq<byte>, at: nat, save: nat, was: seq<byte>, v: nat, i: nat, n: nat,
                                 last0: byte, out: seq<byte>)
      requires at <= |text| && Alphabetic(was)
    {
      var cs := Chars(text[..at]);
      && v == Shifted(save, cs) && i == |Left(was + cs)|
      && n <= |out| && out[..n] == Decoded(was + cs)
      && (i == 3 ==> (last0 == EQUALS <==> Left(was + cs)[2] == EQUALS))
    }

    /** The output so far is that of `quanta` complete quanta. */
    static ghost predicate Sparing(n: nat, i: nat, read: nat, quanta: nat) { n <= 3 * quanta && 4 * quanta + i <= read }

    /** There is room for one more quantum while characters are left. */
    static lemma RoomLeft(n: nat, i: nat, read: nat, quanta: nat, total: nat)
      requires Sparing(n, i, read, quanta) && read <= total
      ensures n <= total / 4 * 3 && (i == 3 && read < total ==> n + 3 <= total / 4 * 3)
    {
      assert quanta <= total / 4 && (i == 3 && read < total ==> quanta + 1 <= total / 4);
    }

    /** One round of the loop of g_base64_decode_step. */
    static method Round(c: byte, v0: nat, i0: nat, n0: nat, last: byte, out: array<byte>,
                        ghost text: seq<byte>, ghost at: nat, ghost save: nat, ghost was: seq<byte>,
                        ghost quanta: nat, ghost total: nat)
      returns (v: nat, i: nat, n: nat, last0: byte, ghost quanta': nat)
      requires at < |text| && text[at] == c && Alphabetic(was) && |was| < 4 && save % Power(|was|) == Bits(was)
      requires Going(text, at, save, was, v0, i0, n0, last, out[..])
      requires Sparing(n0, i0, |was| + at, quanta) && |was| + at < total && total / 4 * 3 <= out.Length
      modifies out
      ensures Going(text, at + 1, save, was, v, i, n, last0, out[..])
      ensures Sparing(n, i, |was| + at + 1, quanta')
      ensures n0 <= n <= (if i0 == 3 then n0 + 3 else n0) && forall k | n <= k < out.Length :: out[k] == old(out[k])
    {
      ghost var cs := Chars(text[..at]);
      CharsNext(text, at);
      RoomLeft(n0, i0, |was| + at, quanta, total);
      v, i, n, last0, quanta' := v0, i0, n0, last, quanta;
      if Rank(c) == SKIP {
        assert Chars(text[..at + 1]) == cs;
      } else {
        var last1 := last;
        last0 := c;
        assert out[..n0] == out[..][..n0];
        v, i, n := Accept(c, v, i, last1, out, n, save, was, cs);
        quanta' := if i == 0 then quanta + 1 else quanta;
        assert out[..n] == out[..][..n];
      }
    }

    /** The loop of g_base64_decode_step. The output may be the input itself, at the start of
        a quantum: a byte is only written where all has been read. */
    static method Loop(input: array<byte>, len: nat, out: array<byte>, save: nat, state: nat, ghost was: seq<byte>)
      returns (n: nat, v: nat, i: nat, ghost q: seq<byte>)
      requires len <= input.Length && out.Length >= (state + len) / 4 * 3
      requires |was| == state < 4 && Alphabetic(was) && save % Power(state) == Bits(was)
      requires Forget(was) == was && (input == out ==> state == 0)
      modifies out
      ensures var cs := Chars(old(input[..len]));
        n <= out.Length && out[..n] == Decoded(was + cs) && q == Left(was + cs) && i == |q| && v == Shifted(save, cs)
      ensures n <= (state + len) / 4 * 3 && forall k | n <= k < out.Length :: out[k] == old(out[k])
    {
      ghost var before, text, quanta := out[..], input[..len], 0;
      assert was + [] == was && text[..0] == [];
      n, v, i := 0, save, state;
      var inptr := 0;
      var last0: byte := 0;
      while inptr < len
        invariant inptr <= len && Going(text, inptr, save, was, v, i, n, last0, out[..])
        invariant Sparing(n, i, state + inptr, quanta)
        invariant if input == out then n <= inptr else input[..len] == text
        invariant forall k | n <= k < out.Length :: out[k] == before[k]
      {
        var c := input[inptr];
        assert c == text[inptr];
        v, i, n, last0, quanta := Round(c, v, i, n, last0, out, text, inptr, save, was, quanta, state + len);
        inptr := inptr + 1;
      }
      assert text[..inptr] == text && out[..n] == out[..][..n];
      RoomLeft(n, i, state + len, quanta, state + len);
      q := Left(was + Chars(text));
    }
  }

  /** g_base64_decode */
  method Decode(text: array<byte>) returns (ret: array<byte>, outLen: nat)
    ensures fresh(ret) && outLen <= ret.Length && ret[..outLen] == Decoded(Chars(text[..]))
  {
    ret := new byte[text.Length / 4 * 3 + 1](_ => 0);
    var decoder := new Decoder();
    assert [] + Chars(text[..]) == Chars(text[..]) && text[..text.Length] == text[..];
    outLen := decoder.Step(text, text.Length, ret);
  }

  /** g_base64_decode_inplace: the same bytes, written over the text. A text of at most one
      character is refused. */
  method DecodeInPlace(text: array<byte>) returns (ok: bool, outLen: nat)
    modifies text
    ensures ok <==> text.Length > 1
    ensures ok ==> outLen <= text.Length / 4 * 3 && text[..outLen] == Decoded(Chars(old(text[..])))
    ensures forall i | (if ok then outLen else 0) <= i < text.Length :: text[i] == old(text[i])
  {
    if text.Length <= 1 {
      return false, 0;
    }
    var decoder := new Decoder();
    assert [] + Chars(text[..]) == Chars(text[..]) && text[..text.Length] == text[..];
    outLen := decoder.Step(text, text.Length, text);
    ok := true;
  }

  // ---------- decoding in chunks ----------

  /** The characters that wait for the rest of their quantum after some chunks. */
  function LeftAfter(chunks: seq<seq<byte>>): (left: seq<byte>)
    ensures Alphabetic(left) && |left| < 4
  {
    if chunks == [] then []
    else Left(Forget(LeftAfter(chunks[..|chunks| - 1])) + Chars(chunks[|chunks| - 1]))
  }

  /** What the calls write for some chunks. */
  function DecodedChunks(chunks: seq<seq<byte>>): seq<byte>
  {
    if chunks == [] then [] else
      var (front, last) := (chunks[..|chunks| - 1], chunks[|chunks| - 1]);
      DecodedChunks(front) + Decoded(Forget(LeftAfter(front)) + Chars(last))
  }

  predicate PadPending(cs: seq<byte>) { |Left(cs)| == 3 && Left(cs)[2] == EQUALS }

  /** How many quanta are cut by a chunk boundary between a padding character in the third
      place and the fourth character. */
  function LostPads(chunks: seq<seq<byte>>): nat
  {
    if chunks == [] then 0 else
      var (front, last) := (chunks[..|chunks| - 1], chunks[|chunks| - 1]);
      LostPads(front) + if PadPending(Chars(Concat(front))) && Chars(last) != [] then 1 else 0
  }

  /** A forgotten padding character becomes one more byte. */
  lemma ForgetDecodes(left: seq<byte>, cs: seq<byte>)
    requires Alphabetic(left) && Alphabetic(cs) && |left| < 4
    ensures Decoded(left + cs) == Decoded(Forget(left) + cs)
            || (PadPending(left) && cs != [] && |Decoded(Forget(left) + cs)| == |Decoded(left + cs)| + 1)
    ensures PadPending(left) && cs != [] ==> Decoded(left + cs) != Decoded(Forget(left) + cs)
    ensures Forget(Left(Forget(left) + cs)) == Forget(Left(left + cs))
  {
    if PadPending(left) && cs != [] {
      var x, y := left + cs, Forget(left) + cs;
      assert x[4..] == y[4..];
      assert x[..4] == left + cs[..1] && y[..4] == Forget(left) + cs[..1];
      assert x[2] == EQUALS && y[2] != EQUALS && x[3] == y[3];
      assert |Bytes(y[..4])| == |Bytes(x[..4])| + 1;
    }
  }

  /** Decoding in chunks gives the bytes of the whole text exactly if no quantum is cut behind
      a padding character in the third place; otherwise each such cut adds a byte. */
  lemma {:induction false} ChunkedDecoding(chunks: seq<seq<byte>>)
    ensures DecodedChunks(chunks) == Decoded(Chars(Concat(chunks))) <==> LostPads(chunks) == 0
    ensures |DecodedChunks(chunks)| == |Decoded(Chars(Concat(chunks)))| + LostPads(chunks)
    ensures Forget(LeftAfter(chunks)) == Forget(Left(Chars(Concat(chunks))))
  {
    if chunks != [] {
      var front, last := chunks[..|chunks| - 1], chunks[|chunks| - 1];
      ChunkedDecoding(front);
      var cs, more := Chars(Concat(front)), Chars(last);
      CharsConcat(Concat(front), last);
      DecodedSplit(cs, more);
      assert Left(Left(cs)) == Left(cs);
      ForgetDecodes(Left(cs), more);
      ForgetDecodes(LeftAfter(front), more);
    }
  }

  /** The boundary does matter: the two calls for "AA=" and "=" write two zero bytes, where one
      call for "AA==" writes one. */
  lemma DecodingMatters()
    ensures var chunks := [[65, 65, EQUALS], [EQUALS]];
      LostPads(chunks) == 1 && DecodedChunks(chunks) == [0, 0] && Decoded(Chars(Concat(chunks))) == [0]
  {
    var first: seq<byte>, chunks: seq<seq<byte>> := [65, 65, EQUALS], [[65, 65, EQUALS], [EQUALS]];
    assert chunks[..1] == [first] && Concat([first]) == first;
    assert first[..2] == [65, 65] && [65, 65][..1] == [65] && Chars(first) == first;
    assert first + [EQUALS] == [65, 65, EQUALS, EQUALS];
    assert [65, 65, EQUALS, EQUALS][..3] == first && Chars(first + [EQUALS]) == first + [EQUALS];
    assert Chars([EQUALS]) == [EQUALS];
    DecodesZero(first + [EQUALS], [0]);
    DecodesZero([65, 65, 65, EQUALS], [0, 0]);
    assert [first][..0] == [] && [] + first == first && LeftAfter([first]) == first;
    assert DecodedChunks([first]) == [] && Forget(first) + [EQUALS] == [65, 65, 65, EQUALS];
    assert LostPads([first]) == 0;
  }

  lemma DecodesZero(q: seq<byte>, bs: seq<byte>)
    requires (q == [65, 65, 65, EQUALS] && bs == [0, 0]) || (q == [65, 65, EQUALS, EQUALS] && bs == [0])
    ensures Alphabetic(q) && Decoded(q) == bs
  {
    assert Group(bs) == 0 && Quantum(bs) == q;
    QuantumRoundTrip(bs);
    assert q[..4] == q && q[4..] == [];
  }

  /** One call of g_base64_decode_step, with a new buffer of the size that it needs. */
  method DecodeChunk(decoder: Decoder, chunk: seq<byte>) returns (bytes: seq<byte>)
    requires decoder.Valid()
    modifies decoder
    ensures decoder.Valid() && bytes == old(Decoded(Forget(decoder.left) + Chars(chunk)))
    ensures decoder.left == old(Left(Forget(decoder.left) + Chars(chunk)))
  {
    var input := new byte[|chunk|](k requires 0 <= k < |chunk| => chunk[k]);
    var out := new byte[(3 + |chunk|) / 4 * 3];
    assert input[..|chunk|] == chunk;
    var n := decoder.Step(input, |chunk|, out);
    bytes := out[..n];
  }

  lemma ChunksStep(chunks: seq<seq<byte>>, i: nat)
    requires i < |chunks|
    ensures DecodedChunks(chunks[..i + 1])
        == DecodedChunks(chunks[..i]) + Decoded(Forget(LeftAfter(chunks[..i])) + Chars(chunks[i]))
    ensures LeftAfter(chunks[..i + 1]) == Left(Forget(LeftAfter(chunks[..i])) + Chars(chunks[i]))
  {
    assert chunks[..i + 1][..i] == chunks[..i];
  }

  /** g_base64_decode_step over some chunks, with a fresh state. */
  method DecodeChunks(chunks: seq<seq<byte>>) returns (bytes: seq<byte>)
    ensures bytes == DecodedChunks(chunks)
  {
    var decoder := new Decoder();
    bytes := [];
    for i := 0 to |chunks|
      invariant decoder.Valid() && fresh(decoder)
      invariant bytes == DecodedChunks(chunks[..i]) && decoder.left == LeftAfter(chunks[..i])
    {
      ChunksStep(chunks, i);
      var more := DecodeChunk(decoder, chunks[i]);
      bytes := bytes + more;
    }
    assert chunks[..|chunks|] == chunks;
  }
}
