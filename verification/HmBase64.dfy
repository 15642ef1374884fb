/** The one-shot Base64 encoder and decoder of hmlib. */
module HmBase64 {
  import opened Base64
  import opened Octets
  import GBase64

  const WORD: nat := 0x1_0000_0000

  /** The size that is allocated for the text, computed in 32 bits. */
  function OutputSize(dataLen: nat): nat { dataLen * 4 % WORD / 3 + 4 }

  /** The text and its terminating zero fit in that size exactly if the product does not wrap. */
  lemma TextFits(data: seq<byte>)
    requires |data| < WORD
    ensures |Text(data)| + 1 <= OutputSize(|data|) <==> |data| < 0x4000_0000
  {
    TextLength(data);
    var n := |data|;
    var w := n * 4 % WORD;
    assert w == n * 4 - WORD * (n * 4 / WORD);
    Fits(n, (n + 2) / 3, w, n * 4 / WORD, w / 3);
  }

  /** From 2^30 bytes on it does wrap: four bytes are allocated for more than a thousand million. */
  lemma TooLittle(data: seq<byte>)
    requires |data| == 0x4000_0000
    ensures OutputSize(|data|) == 4 && |Text(data)| == 1_431_655_768
  {
    TextLength(data);
  }

  lemma Fits(n: nat, quanta: nat, wrapped: nat, carry: nat, third: nat)
    requires n <= 3 * quanta <= n + 2
    requires wrapped == n * 4 - WORD * carry && wrapped < WORD
    requires 3 * third <= wrapped <= 3 * third + 2
    ensures 4 * quanta + 1 <= third + 4 <==> n < 0x4000_0000
  {
    if carry > 0 { assert wrapped <= WORD - 4; }
  }

  lemma TextNext(data: seq<byte>, pos: nat, n: nat)
    requires pos < |data| && n == if |data| - pos < 3 then |data| - pos else 3
    ensures Text(data[pos..]) == Quantum(data[pos..pos + n]) + Text(data[pos + n..])
  {
    var rest := data[pos..];
    assert rest[..n] == data[pos..pos + n] && rest[n..] == data[pos + n..];
    if n == |rest| { assert rest[..n] == rest && rest[n..] == []; }
  }

  /** base64_encode */
  method Encode(data: seq<byte>) returns (encData: array<byte>, encDataLen: nat)
    requires |data| < 0x4000_0000
    ensures encDataLen < encData.Length == OutputSize(|data|)
    ensures encData[..encDataLen] == Text(data) && encData[encDataLen] == 0
  {
    TextFits(data);
    encData := new byte[OutputSize(|data|)](_ => 0);
    encDataLen := EncodeInto(data, encData);
  }

  /** The loop of base64_encode. */
  method EncodeInto(data: seq<byte>, encData: array<byte>) returns (output: nat)
    requires |Text(data)| + 1 <= encData.Length
    modifies encData
    ensures output < encData.Length && encData[..output] == Text(data) && encData[output] == 0
  {
    output := 0;
    var pos := 0;
    ghost var done, rest := [], Text(data);
    assert data[0..] == data;
    while pos < |data|
      invariant pos <= |data| && rest == Text(data[pos..])
      invariant output + |rest| == |Text(data)| && encData[..output] == done && done + rest == Text(data)
    {
      var ibuf, inputparts := Fill(data, pos);
      ghost var quantum := Quantum(data[pos..pos + inputparts]);
      TextNext(data, pos, inputparts);
      assert done + (quantum + Text(data[pos + inputparts..])) == done + quantum + Text(data[pos + inputparts..]);
      done, rest := done + quantum, Text(data[pos + inputparts..]);
      Put(encData, output, ibuf, inputparts);
      pos := pos + inputparts;
      output := output + 4;
    }
    assert rest == [] && done + [] == done;
    encData[output] := 0;
  }

  /** The inner loop of base64_encode: the next bytes of the data, and zeros after its end. */
  method Fill(data: seq<byte>, start: nat) returns (ibuf: seq<byte>, inputparts: nat)
    requires start < |data|
    ensures inputparts == (if |data| - start < 3 then |data| - start else 3)
    ensures |ibuf| == 3 && ibuf[..inputparts] == data[start..start + inputparts]
    ensures forall k | inputparts <= k < 3 :: ibuf[k] == 0
  {
    var pos := start;
    ibuf, inputparts := [], 0;
    for i := 0 to 3
      invariant |ibuf| == i && pos == start + inputparts <= |data|
      invariant inputparts == if |data| - start < i then |data| - start else i
      invariant ibuf[..inputparts] == data[start..pos] && forall k | inputparts <= k < i :: ibuf[k] == 0
    {
      if pos < |data| {
        assert inputparts == i && data[start..pos + 1] == data[start..pos] + [data[pos]];
        inputparts := inputparts + 1;
        ibuf := ibuf + [data[pos]];
        pos := pos + 1;
      } else {
        ibuf := ibuf + [0];
      }
    }
  }

  /** The four assignments to obuf, and the call of snprintf, which also writes a zero. */
  method Put(encData: array<byte>, output: nat, ibuf: seq<byte>, inputparts: nat)
    requires output + 5 <= encData.Length && |ibuf| == 3 && 1 <= inputparts <= 3
    requires forall k | inputparts <= k < 3 :: ibuf[k] == 0
    modifies encData
    ensures encData[..output + 4] == old(encData[..output]) + Quantum(ibuf[..inputparts])
  {
    var obuf := [ibuf[0] / 4, ibuf[0] % 4 * 16 + ibuf[1] / 16, ibuf[1] % 16 * 4 + ibuf[2] / 64, ibuf[2] % 64];
    GBase64.ShiftsAreDigits(ibuf[0], ibuf[1], ibuf[2]);
    GBase64.ShortQuanta(ibuf[0], ibuf[1]);
    assert inputparts == 3 ==> ibuf[..inputparts] == [ibuf[0], ibuf[1], ibuf[2]];
    assert inputparts == 2 ==> ibuf[..inputparts] == [ibuf[0], ibuf[1]];
    assert inputparts == 1 ==> ibuf[..inputparts] == [ibuf[0]];
    encData[output] := Digit(obuf[0]);
    encData[output + 1] := Digit(obuf[1]);
    encData[output + 2] := if inputparts == 1 then EQUALS else Digit(obuf[2]);
    encData[output + 3] := if inputparts < 3 then EQUALS else Digit(obuf[3]);
    encData[output + 4] := 0;
  }

  /** decodeQuantum: a character outside the alphabet is passed over, and leaves the others
      where they are. */
  function QuantumValue(src: seq<byte>): (x: nat)
  {
    if src == [] then 0 else
      var (x, c) := (QuantumValue(src[..|src| - 1]), src[|src| - 1]);
      if 65 <= c <= 90 then x * 64 + (c - 65)
      else if 97 <= c <= 122 then x * 64 + (c - 97 + 26)
      else if 48 <= c <= 57 then x * 64 + (c - 48 + 52)
      else if c == 43 then x * 64 + 62
      else if c == 47 then x * 64 + 63
      else if c == EQUALS then x * 64
      else x
  }

  lemma {:induction false} QuantumValueIsBits(src: seq<byte>)
    requires GBase64.Alphabetic(src)
    ensures QuantumValue(src) == GBase64.Bits(src)
  {
    if src != [] { QuantumValueIsBits(src[..|src| - 1]); }
  }

  function Triple(src: seq<byte>): (dest: seq<byte>)
    ensures |dest| == 3
  {
    var x := QuantumValue(src);
    [x / 65536 % 256, x / 256 % 256, x % 256]
  }

  method DecodeQuantum(src: seq<byte>) returns (dest: seq<byte>)
    requires |src| == 4
    ensures dest == Triple(src)
  {
    var x: nat := 0;
    for i := 0 to 4
      invariant x == QuantumValue(src[..i])
    {
      var c := src[i];
      assert src[..i + 1][..i] == src[..i];
      if 65 <= c <= 90 { x := x * 64 + (c - 65); }
      else if 97 <= c <= 122 { x := x * 64 + (c - 97 + 26); }
      else if 48 <= c <= 57 { x := x * 64 + (c - 48 + 52); }
      else if c == 43 { x := x * 64 + 62; }
      else if c == 47 { x := x * 64 + 63; }
      else if c == EQUALS { x := x * 64; }
    }
    assert src[..4] == src;
    var low, middle, high := x % 256, x / 256 % 256, x / 256 / 256 % 256;
    dest := [high, middle, low];
  }

  /** The bytes of all quanta. */
  function Triples(data: seq<byte>): (bytes: seq<byte>)
    ensures |bytes| == |data| / 4 * 3
  {
    if |data| < 4 then [] else Triple(data[..4]) + Triples(data[4..])
  }

  /** The padding characters at the end, at most two. */
  function Padding(data: seq<byte>): nat
    requires |data| >= 4
  {
    if data[|data| - 1] != EQUALS then 0 else if data[|data| - 2] != EQUALS then 1 else 2
  }

  function Decoded(data: seq<byte>): seq<byte>
    requires |data| >= 4
  {
    Triples(data)[..|data| / 4 * 3 - Padding(data)]
  }

  lemma {:induction false} TriplesNext(x: seq<byte>, q: seq<byte>)
    requires |x| % 4 == 0 && |q| == 4
    ensures Triples(x + q) == Triples(x) + Triple(q)
  {
    if x == [] {
      assert x + q == q && q[..4] == q && q[4..] == [];
    } else {
      TriplesNext(x[4..], q);
      assert (x + q)[..4] == x[..4] && (x + q)[4..] == x[4..] + q;
    }
  }

  method PutTriple(dest: array<byte>, at: nat, bytes: seq<byte>)
    requires |bytes| == 3 && at + 3 <= dest.Length
    modifies dest
    ensures dest[..at + 3] == old(dest[..at]) + bytes
  {
    dest[at], dest[at + 1], dest[at + 2] := bytes[0], bytes[1], bytes[2];
  }

  /** base64_decode; -1 stands for a refused text, and no text at all is refused. */
  method Decode(data: seq<byte>) returns (r: int, decData: array?<byte>, decDataLen: nat)
    ensures r == -1 <==> |data| % 4 != 0 || data == []
    ensures r != -1 ==> decData != null && decData.Length == r == decDataLen + 4
                        && decData[..decDataLen] == Decoded(data) && decData[decDataLen] == 0
  {
    var equalsTerm := 0;
    if |data| % 4 != 0 {
      return -1, null, 0;
    }
    var numQuantums := |data| / 4;
    if numQuantums <= 0 {
      return -1, null, 0;
    }
    if data[|data| - 1] == EQUALS {
      equalsTerm := equalsTerm + 1;
      if data[|data| - 2] == EQUALS {
        equalsTerm := equalsTerm + 1;
      }
    }
    decDataLen := numQuantums * 3 - equalsTerm;
    r := decDataLen + 4;
    decData := new byte[r](_ => 0);
    var newstr := 0;
    for i := 0 to numQuantums - 1
      invariant newstr == 3 * i && decData[..newstr] == Triples(data[..4 * i])
    {
      var bytes := DecodeQuantum(data[4 * i..4 * i + 4]);
      TriplesNext(data[..4 * i], data[4 * i..4 * i + 4]);
      assert data[..4 * (i + 1)] == data[..4 * i] + data[4 * i..4 * i + 4];
      PutTriple(decData, newstr, bytes);
      newstr := newstr + 3;
    }
    DecodeLast(data, decData, newstr, equalsTerm);
  }

  lemma LastTriple(data: seq<byte>)
    requires |data| >= 4 && |data| % 4 == 0
    ensures Decoded(data) == Triples(data[..|data| - 4]) + Triple(data[|data| - 4..])[..3 - Padding(data)]
  {
    var front, last := data[..|data| - 4], data[|data| - 4..];
    assert data == front + last;
    TriplesNext(front, last);
  }

  /** The end of base64_decode: the last quantum, without its padding, and the zero. */
  method DecodeLast(data: seq<byte>, decData: array<byte>, newstr: nat, equalsTerm: nat)
    requires |data| >= 4 && |data| % 4 == 0 && equalsTerm == Padding(data)
    requires newstr + 3 == |data| / 4 * 3 && newstr + 4 - equalsTerm <= decData.Length
    requires decData[..newstr] == Triples(data[..|data| - 4])
    modifies decData
    ensures decData[..newstr + 3 - equalsTerm] == Decoded(data) && decData[newstr + 3 - equalsTerm] == 0
  {
    ghost var front := data[..|data| - 4];
    LastTriple(data);
    var lastQuantum := DecodeQuantum(data[|data| - 4..]);
    for i := 0 to 3 - equalsTerm
      invariant decData[..newstr + i] == Triples(front) + lastQuantum[..i]
    {
      decData[newstr + i] := lastQuantum[i];
    }
    decData[newstr + 3 - equalsTerm] := 0;
  }

  lemma DecodedCons(q: seq<byte>, text: seq<byte>)
    requires |q| == 4 && |text| >= 4 && |text| % 4 == 0
    ensures Padding(q + text) == Padding(text) && Decoded(q + text) == Triple(q) + Decoded(text)
  {
    assert (q + text)[..4] == q && (q + text)[4..] == text;
    var k := |text| / 4 * 3 - Padding(text);
    assert (Triple(q) + Triples(text))[..3 + k] == Triple(q) + Triples(text)[..k];
  }

  /** Decoding undoes encoding, of at least one byte. */
  lemma {:induction false} RoundTrip(bs: seq<byte>)
    requires bs != []
    ensures |Text(bs)| % 4 == 0 && |Text(bs)| >= 4 && Decoded(Text(bs)) == bs
    ensures |Text(bs)| / 4 * 3 - Padding(Text(bs)) == |bs|
  {
    if |bs| <= 3 {
      LastQuantum(bs);
      assert Text(bs)[..4] == Text(bs);
    } else {
      RoundTrip(bs[3..]);
      LastQuantum(bs[..3]);
      DecodedCons(Quantum(bs[..3]), Text(bs[3..]));
    }
  }

  lemma LastQuantum(bs: seq<byte>)
    requires 1 <= |bs| <= 3
    ensures Triple(Quantum(bs))[..|bs|] == bs && Padding(Quantum(bs)) == 3 - |bs|
  {
    GBase64.QuantumIsGroup(bs);
    QuantumValueIsBits(Quantum(bs));
    GBase64.GroupBytes(bs);
    TripleBytes(Quantum(bs), Group(bs), bs);
  }

  lemma TripleBytes(q: seq<byte>, n: nat, bs: seq<byte>)
    requires QuantumValue(q) == n < 0x100_0000 && 1 <= |bs| <= 3
    requires n / 65536 == bs[0] && (|bs| > 1 ==> n / 256 % 256 == bs[1]) && (|bs| > 2 ==> n % 256 == bs[2])
    ensures Triple(q)[..|bs|] == bs
  {
    var t := Triple(q);
    assert t[0] == bs[0] && (|bs| > 1 ==> t[1] == bs[1]) && (|bs| > 2 ==> t[2] == bs[2]);
  }
}
