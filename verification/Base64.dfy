/** The Base64 text of a byte string, after section 4 of RFC 4648, with the line breaks that
    GLib's encoder can add. */
module Base64 {
  import opened Octets

  const EQUALS: byte := 61
  const NEWLINE: byte := 10

  /** The tables base64_alphabet and table64: the letters, the digits, '+' and '/'. */
  function Digit(d: nat): byte
    requires d < 64
  {
    if d < 26 then 65 + d
    else if d < 52 then 97 + d - 26
    else if d < 62 then 48 + d - 52
    else if d == 62 then 43 else 47
  }

  /** Table 1 of RFC 4648 */
  const UPPER: string := "ABCDEFGHIJKLMNOPQRSTUVWXYZ"
  const LOWER: string := "abcdefghijklmnopqrstuvwxyz"
  const DIGITS: string := "0123456789"
  const ALPHABET: string := UPPER + LOWER + DIGITS + "+/"

  lemma UpperCodes(i: nat)
    requires i < 26
    ensures |UPPER| == 26 && UPPER[i] as int == 65 + i
  {
  }

  lemma LowerCodes(i: nat)
    requires i < 26
    ensures |LOWER| == 26 && LOWER[i] as int == 97 + i
  {
  }

  lemma DigitIsAlphabet(d: nat)
    requires d < 64
    ensures |ALPHABET| == 64 && Digit(d) == ALPHABET[d] as int
  {
    UpperCodes(if d < 26 then d else 0);
    LowerCodes(if 26 <= d < 52 then d - 26 else 0);
    assert |DIGITS| == 10 && forall i | 0 <= i < 10 :: DIGITS[i] as int == 48 + i;
  }

  /** The 24-bit input group of one to three bytes, with zero bits on the right. */
  function Group(bs: seq<byte>): (n: nat)
    requires 1 <= |bs| <= 3
    ensures n < 0x100_0000
  {
    65536 * bs[0] as int + (if |bs| > 1 then 256 * bs[1] as int else 0) + (if |bs| > 2 then bs[2] as int else 0)
  }

  /** The text of one quantum of one to three bytes. */
  function Quantum(bs: seq<byte>): (text: seq<byte>)
    requires 1 <= |bs| <= 3
    ensures |text| == 4
  {
    var n := Group(bs);
    [Digit(n / 262144), Digit(n / 4096 % 64),
     if |bs| > 1 then Digit(n / 64 % 64) else EQUALS, if |bs| > 2 then Digit(n % 64) else EQUALS]
  }

  /** The text of all the bytes, without line breaks. */
  function Text(bs: seq<byte>): seq<byte>
  {
    if bs == [] then [] else if |bs| <= 3 then Quantum(bs) else Quantum(bs[..3]) + Text(bs[3..])
  }

  lemma {:induction false} TextLength(bs: seq<byte>)
    ensures |Text(bs)| == (|bs| + 2) / 3 * 4
  {
    if |bs| > 3 { TextLength(bs[3..]); }
  }

  function Concat(chunks: seq<seq<byte>>): seq<byte>
  {
    if chunks == [] then [] else Concat(chunks[..|chunks| - 1]) + chunks[|chunks| - 1]
  }
}
