/**
  Hexadecimal digits and their values, as Python's `int(text, 16)` reads
  them when every character of `text` is an ASCII hex digit (either case,
  most significant digit first).
 */
module Hex {

  /** An ASCII hexadecimal digit, upper or lower case. */
  predicate IsHexDigit(c: char) {
    ('0' <= c <= '9') || ('a' <= c <= 'f') || ('A' <= c <= 'F')
  }

  predicate AllHex(s: string) {
    forall i :: 0 <= i < |s| ==> IsHexDigit(s[i])
  }

  /** The value of one hex digit. */
  function DigitValue(c: char): (v: nat)
    requires IsHexDigit(c)
    ensures v < 16
  {
    if '0' <= c <= '9' then c as int - '0' as int
    else if 'a' <= c <= 'f' then c as int - 'a' as int + 10
    else c as int - 'A' as int + 10
  }

  /** The lower-case digit for a value below 16; it reads back as that value. */
  function DigitChar(v: nat): (c: char)
    requires v < 16
    ensures IsHexDigit(c) && !('A' <= c <= 'F')
    ensures DigitValue(c) == v
  {
    "0123456789abcdef"[v]
  }

  /** A hex digit folded to lower case; other characters are left alone. */
  function LowerDigit(c: char): char {
    if 'A' <= c <= 'F' then (c as int - 'A' as int + 'a' as int) as char else c
  }

  function LowerHex(s: string): (t: string)
    ensures |t| == |s|
  {
    seq(|s|, i requires 0 <= i < |s| => LowerDigit(s[i]))
  }

  /** Lower-casing works piece by piece. */
  lemma LowerHexConcat(a: string, b: string)
    ensures LowerHex(a + b) == LowerHex(a) + LowerHex(b)
  {
  }

  /** Writing a digit's value back gives the digit itself, folded to lower case. */
  lemma DigitRoundTrip(c: char)
    requires IsHexDigit(c)
    ensures DigitChar(DigitValue(c)) == LowerDigit(c)
  {
  }

  function Pow16(n: nat): (p: nat)
    ensures p >= 1
  {
    if n == 0 then 1 else 16 * Pow16(n - 1)
  }

  /** The number a hex-digit string denotes, most significant digit first;
      it always fits in as many hex places as the string has characters. */
  function HexValue(s: string): (v: nat)
    requires AllHex(s)
    ensures v < Pow16(|s|)
    decreases |s|
  {
    if |s| == 0 then 0
    else
      var prefix := s[..|s| - 1];
      assert AllHex(prefix);
      var high := HexValue(prefix);
      var low := DigitValue(s[|s| - 1]);
      assert high + 1 <= Pow16(|s| - 1);
      assert 16 * high + low < 16 * (high + 1);
      16 * high + low
  }

  /** A two-digit string has the value 16 * first digit + second digit. */
  lemma {:induction false} PairValue(p: string)
    requires |p| == 2 && AllHex(p)
    ensures HexValue(p) == 16 * DigitValue(p[0]) + DigitValue(p[1])
    ensures HexValue(p) < 256
  {
    assert p[..1][..0] == [];
    assert HexValue(p[..1]) == DigitValue(p[0]);
  }

  /** The two lower-case hex digits of a byte. */
  function EncodeByte(n: nat): (p: string)
    requires n < 256
    ensures |p| == 2 && AllHex(p)
    ensures HexValue(p) == n
  {
    var p := [DigitChar(n / 16), DigitChar(n % 16)];
    PairValue(p);
    p
  }

  /** Decoding a pair and encoding the value again gives the pair back,
      folded to lower case. */
  lemma {:induction false} EncodeDecodePair(p: string)
    requires |p| == 2 && AllHex(p)
    ensures EncodeByte(HexValue(p)) == LowerHex(p)
  {
    PairValue(p);
    var v := HexValue(p);
    assert v / 16 == DigitValue(p[0]) && v % 16 == DigitValue(p[1]);
    DigitRoundTrip(p[0]);
    DigitRoundTrip(p[1]);
  }
}
