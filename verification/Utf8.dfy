/** Mini-XML's UTF-8 codec: reading a character with `mxml_string_getc`, and adding one to a
    growing buffer with `mxml_add_char`. */
module Utf8 {
  import opened Octets

  /** The characters that `mxml_add_char` can write in at most four bytes. */
  const LIMIT: nat := 0x20_0000

  /** What mxml_add_char writes for a character: the leading byte, and six bits for each
      other byte. */
  function Encode(ch: nat): (bytes: seq<byte>)
    requires ch < LIMIT
    ensures 1 <= |bytes| <= 4
  {
    if ch < 0x80 then [ch]
    else if ch < 0x800 then [0xC0 + ch / 64, 0x80 + ch % 64]
    else if ch < 0x1_0000 then [0xE0 + ch / 4096, 0x80 + ch / 64 % 64, 0x80 + ch % 64]
    else [0xF0 + ch / 0x4_0000, 0x80 + ch / 4096 % 64, 0x80 + ch / 64 % 64, 0x80 + ch % 64]
  }

  /** The table in section 3 of RFC 3629, with 21 bits: the length by the size of the number, the
      marks of the first and the other bytes, and the bits in order. */
  lemma EncodeTable(ch: nat)
    requires ch < LIMIT
    ensures
      var e := Encode(ch);
      && (forall i | 1 <= i < |e| :: 0x80 <= e[i] < 0xC0)
      && if ch < 0x80 then e == [ch]
         else if ch < 0x800 then
           |e| == 2 && 0xC0 <= e[0] < 0xE0 && ch == 64 * (e[0] as int - 0xC0) + (e[1] as int - 0x80)
         else if ch < 0x1_0000 then
           && |e| == 3 && 0xE0 <= e[0] < 0xF0
           && ch == 4096 * (e[0] as int - 0xE0) + 64 * (e[1] as int - 0x80) + (e[2] as int - 0x80)
         else
           && |e| == 4 && 0xF0 <= e[0] < 0xF8
           && ch == 0x4_0000 * (e[0] as int - 0xF0) + 4096 * (e[1] as int - 0x80)
                    + 64 * (e[2] as int - 0x80) + (e[3] as int - 0x80)
  {
    Digits(ch);
  }

  /** mxml_bad_char */
  predicate BadChar(ch: int) { ch < 32 && ch != 10 && ch != 13 && ch != 9 }

  /** The characters that can be read. */
  predicate Readable(ch: nat) { ch < LIMIT && !BadChar(ch) }

  /** A character and the number of its bytes; the end of the text, or an error; or a byte
      order mark of UTF-16. */
  datatype Read = Char(ch: nat, size: nat) | Eof | Utf16

  predicate Continues(s: seq<byte>, i: nat) { i < |s| && s[i] / 64 == 2 }

  /** mxml_string_getc, for UTF-8; the string ends at its first zero. */
  function Getc(s: seq<byte>): Read
  {
    if s == [] || s[0] == 0 then Eof else
      var b: nat := s[0];
      if b < 0x80 then (if BadChar(b) then Eof else Char(b, 1))
      else if b == 0xFE then (if |s| > 1 && s[1] == 0xFF then Utf16 else Eof)
      else if b == 0xFF then (if |s| > 1 && s[1] == 0xFE then Utf16 else Eof)
      else if b / 32 == 6 then
        if !Continues(s, 1) then Eof else
          var ch := b % 32 * 64 + s[1] % 64;
          if ch < 0x80 then Eof else Char(ch, 2)
      else if b / 16 == 14 then
        if !Continues(s, 1) || !Continues(s, 2) then Eof else
          var ch := (b % 16 * 64 + s[1] % 64) * 64 + s[2] % 64;
          if ch < 0x800 then Eof else Char(ch, 3)
      else if b / 8 == 30 then
        if !Continues(s, 1) || !Continues(s, 2) || !Continues(s, 3) then Eof else
          var ch := ((b % 8 * 64 + s[1] % 64) * 64 + s[2] % 64) * 64 + s[3] % 64;
          if ch < 0x1_0000 then Eof else Char(ch, 4)
      else Eof
  }

  /** A byte after the first one holds six bits. */
  lemma Continuation(r: nat)
    requires r < 64
    ensures (0x80 + r) / 64 == 2 && (0x80 + r) % 64 == r
  {
    DivMod(0x80 + r, 64, 2, r);
  }

  lemma Leading(mark: nat, size: nat, q: nat)
    requires q < size
    ensures (mark * size + q) / size == mark && (mark * size + q) % size == q
  {
    DivMod(mark * size + q, size, mark, q);
  }

  /** What is written is read back. */
  lemma EncodeThenGetc(ch: nat, rest: seq<byte>)
    requires Readable(ch)
    ensures Getc(Encode(ch) + rest) == Char(ch, |Encode(ch)|)
  {
    var q1, q2, q3 := ch / 64, ch / 4096, ch / 0x4_0000;
    Digits(ch);
    Continuation(ch % 64);
    Continuation(q1 % 64);
    Continuation(q2 % 64);
    if 0x80 <= ch < 0x800 { Leading(6, 32, q1); }
    else if 0x800 <= ch < 0x1_0000 { Leading(14, 16, q2); }
    else if 0x1_0000 <= ch { Leading(30, 8, q3); }
  }

  lemma Digits(ch: nat)
    ensures ch == ch / 64 * 64 + ch % 64
    ensures ch / 64 == ch / 4096 * 64 + ch / 64 % 64 && ch / 4096 == ch / 0x4_0000 * 64 + ch / 4096 % 64
  {
  }

  /** Only what would be written is read: a sequence that is not the shortest one is refused. */
  lemma GetcThenEncode(s: seq<byte>)
    requires Getc(s).Char?
    ensures var r := Getc(s);
      Readable(r.ch) && r.size <= |s| && s[..r.size] == Encode(r.ch)
  {
    match Getc(s).size {
      case 1 =>
      case 2 => TwoBytes(s);
      case 3 => ThreeBytes(s);
      case _ => FourBytes(s);
    }
  }

  lemma TwoBytes(s: seq<byte>)
    requires Getc(s).Char? && Getc(s).size == 2
    ensures |s| >= 2 && s[..2] == Encode(Getc(s).ch)
  {
    var ch, b: nat := Getc(s).ch, s[0];
    DivMod(ch, 64, b % 32, s[1] % 64);
  }

  lemma ThreeBytes(s: seq<byte>)
    requires Getc(s).Char? && Getc(s).size == 3
    ensures |s| >= 3 && s[..3] == Encode(Getc(s).ch)
  {
    var ch, b: nat := Getc(s).ch, s[0];
    Digits(ch);
    Joined(b % 16, s[1] % 64, s[2] % 64, 0);
  }

  lemma FourBytes(s: seq<byte>)
    requires Getc(s).Char? && Getc(s).size == 4
    ensures |s| >= 4 && Getc(s).ch < LIMIT && s[..4] == Encode(Getc(s).ch)
  {
    var ch, b: nat := Getc(s).ch, s[0];
    Joined(b % 8, s[1] % 64, s[2] % 64, s[3] % 64);
  }

  /** Six bits at a time. */
  lemma Joined(a: nat, b: nat, c: nat, d: nat)
    requires b < 64 && c < 64 && d < 64
    ensures var (y, z) := ((a * 64 + b) * 64 + c, ((a * 64 + b) * 64 + c) * 64 + d);
      && y / 64 % 64 == b && y / 4096 == a && y % 64 == c
      && z / 4096 % 64 == b && z / 0x4_0000 == a && z / 64 % 64 == c && z % 64 == d
  {
    var x, y, z := a * 64 + b, (a * 64 + b) * 64 + c, ((a * 64 + b) * 64 + c) * 64 + d;
    DivMod(x, 64, a, b);
    DivMod(y, 64, x, c);
    DivMod(z, 64, y, d);
    DivMod(y, 4096, a, 64 * b + c);
    DivMod(z, 4096, x, 64 * c + d);
    DivMod(z, 0x4_0000, a, 4096 * b + 64 * c + d);
  }

  /** So a read accepts exactly the encodings of readable characters. */
  lemma GetcIffEncoded(s: seq<byte>, ch: nat)
    ensures (exists n :: Getc(s) == Char(ch, n)) <==> Readable(ch) && Encode(ch) <= s
  {
    if Readable(ch) && Encode(ch) <= s {
      EncodeThenGetc(ch, s[|Encode(ch)|..]);
      assert s == Encode(ch) + s[|Encode(ch)|..];
      assert Getc(s) == Char(ch, |Encode(ch)|);
    }
    if n :| Getc(s) == Char(ch, n) { GetcThenEncode(s); }
  }

  // ---------- texts ----------

  predicate Encodable(text: seq<nat>) { forall i | 0 <= i < |text| :: text[i] < LIMIT }

  predicate AllReadable(text: seq<nat>) { forall i | 0 <= i < |text| :: Readable(text[i]) }

  function EncodeAll(text: seq<nat>): seq<byte>
    requires Encodable(text)
  {
    if text == [] then [] else Encode(text[0]) + EncodeAll(text[1..])
  }

  /** The characters that a reader gets, up to the first end of the text or error. */
  function DecodeAll(s: seq<byte>): (text: seq<nat>)
    ensures AllReadable(text)
  {
    match Getc(s)
    case Char(ch, size) => GetcThenEncode(s); [ch] + DecodeAll(s[size..])
    case _ => []
  }

  /** A reader gets back the text that was encoded. */
  lemma {:induction false} DecodeEncoded(text: seq<nat>)
    requires AllReadable(text)
    ensures DecodeAll(EncodeAll(text)) == text
  {
    if text != [] {
      var first, rest := Encode(text[0]), EncodeAll(text[1..]);
      EncodeThenGetc(text[0], rest);
      DecodeEncoded(text[1..]);
      assert (first + rest)[|first|..] == rest;
    }
  }

  /** What a reader gets is encoded as the bytes that it has read. */
  lemma {:induction false} EncodeDecoded(s: seq<byte>)
    ensures EncodeAll(DecodeAll(s)) <= s
  {
    if Getc(s).Char? {
      var r := Getc(s);
      GetcThenEncode(s);
      EncodeDecoded(s[r.size..]);
      assert s == s[..r.size] + s[r.size..];
    }
  }

  lemma {:induction false} EncodeConcat(x: seq<nat>, y: seq<nat>)
    requires Encodable(x) && Encodable(y)
    ensures EncodeAll(x + y) == EncodeAll(x) + EncodeAll(y)
  {
    if x == [] {
      assert x + y == y;
    } else {
      EncodeConcat(x[1..], y);
      assert (x + y)[0] == x[0] && (x + y)[1..] == x[1..] + y;
      assert Encode(x[0]) + (EncodeAll(x[1..]) + EncodeAll(y)) == Encode(x[0]) + EncodeAll(x[1..]) + EncodeAll(y);
    }
  }

  // ---------- the growing buffer ----------

  /** The buffer, its size and the position in it, which `mxml_add_char` gets as three
      pointers. */
  class Buffer {
    var buffer: array<byte>
    var pos: nat
    ghost var text: seq<nat>   // the characters that were added

    ghost predicate Valid()
      reads this, buffer
    {
      && 64 <= buffer.Length && pos < buffer.Length
      && Encodable(text) && buffer[..pos] == EncodeAll(text)
    }

    /** The buffer of mxml_load_data, and those of mxml_parse_element. */
    constructor ()
      ensures Valid() && text == [] && fresh(buffer)
    {
      buffer, pos, text := new byte[64](_ => 0), 0, [];
    }

    /** The first part of mxml_add_char: room for four bytes and a zero. */
    method MakeRoom()
      requires Valid()
      modifies this`buffer
      ensures Valid() && pos + 4 < buffer.Length && (buffer == old(buffer) || fresh(buffer))
      ensures old(buffer).Length <= buffer.Length
    {
      if pos >= buffer.Length - 4 {
        var bufsize := if buffer.Length < 1024 then buffer.Length * 2 else buffer.Length + 1024;
        var was := buffer;
        var newBuffer := new byte[bufsize](
          i requires 0 <= i < bufsize reads was => if i < was.Length then was[i] else 0);
        assert newBuffer[..pos] == was[..pos];
        buffer := newBuffer;
      }
    }

    /** The second part of mxml_add_char: the bytes of the character. */
    method Store(ch: nat)
      requires pos + 4 < buffer.Length && ch < LIMIT
      modifies this`pos, buffer
      ensures pos < buffer.Length && buffer[..pos] == old(buffer[..pos]) + Encode(ch)
    {
      if ch < 0x80 {
        buffer[pos] := ch;
        pos := pos + 1;
      } else if ch < 0x800 {
        buffer[pos], buffer[pos + 1] := 0xC0 + ch / 64, 0x80 + ch % 64;
        pos := pos + 2;
      } else if ch < 0x1_0000 {
        buffer[pos], buffer[pos + 1], buffer[pos + 2] := 0xE0 + ch / 4096, 0x80 + ch / 64 % 64, 0x80 + ch % 64;
        pos := pos + 3;
      } else {
        buffer[pos], buffer[pos + 1] := 0xF0 + ch / 0x4_0000, 0x80 + ch / 4096 % 64;
        buffer[pos + 2], buffer[pos + 3] := 0x80 + ch / 64 % 64, 0x80 + ch % 64;
        pos := pos + 4;
      }
    }

    /** mxml_add_char: all that was in the buffer stays, and the character follows. */
    method AddChar(ch: nat)
      requires Valid() && ch < LIMIT
      modifies this, buffer
      ensures Valid() && text == old(text) + [ch] && (buffer == old(buffer) || fresh(buffer))
    {
      MakeRoom();
      EncodeConcat(text, [ch]);
      assert EncodeAll([ch]) == Encode(ch) + EncodeAll([]) == Encode(ch);
      Store(ch);
      text := text + [ch];
    }

    /** The assignment of a zero at the position: the string is the text that was added. */
    method Terminate() returns (s: seq<byte>)
      requires Valid()
      modifies buffer
      ensures Valid() && s == EncodeAll(text) && buffer[pos] == 0
    {
      buffer[pos] := 0;
      assert buffer[..pos] == old(buffer[..pos]);
      s := buffer[..pos];
    }
  }

  /** A run of mxml_add_char and the zero at its end, as for a name or a word: the string reads
      back as the characters. */
  method AddAll(chars: seq<nat>) returns (s: seq<byte>)
    requires Encodable(chars)
    ensures s == EncodeAll(chars) && (AllReadable(chars) ==> DecodeAll(s) == chars)
  {
    var b := new Buffer();
    for i := 0 to |chars|
      invariant b.Valid() && b.text == chars[..i] && fresh(b) && fresh(b.buffer)
    {
      b.AddChar(chars[i]);
      assert chars[..i + 1] == chars[..i] + [chars[i]];
    }
    assert chars[..|chars|] == chars;
    s := b.Terminate();
    if AllReadable(chars) { DecodeEncoded(chars); }
  }
}
