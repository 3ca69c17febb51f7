/**
 * The `%08x` conversion used by the show handler: an unsigned 32-bit value
 * written as exactly eight lower-case hexadecimal digits, most significant
 * first, zero padded. The decoder is its inverse on well-formed tokens.
 */
module Hex {
  import opened Wrappers

  /** 2^32: the number of values of a C `unsigned int`. */
  const WORD: nat := 0x1_0000_0000

  /** A C `unsigned int`. */
  type u32 = x: nat | x < WORD

  /** Number of digits `%08x` produces for any `unsigned int`. */
  const WIDTH: nat := 8

  predicate IsHexDigit(c: char) {
    '0' <= c <= '9' || 'a' <= c <= 'f'
  }

  predicate AllHexDigits(s: string) {
    forall i :: 0 <= i < |s| ==> IsHexDigit(s[i])
  }

  /** The value of one lower-case hexadecimal digit. */
  function DigitValue(c: char): (d: nat)
    requires IsHexDigit(c)
    ensures d < 16
  {
    if c <= '9' then c as int - '0' as int else c as int - 'a' as int + 10
  }

  /** The lower-case digit for a value below 16; inverse of DigitValue. */
  function Digit(d: nat): (c: char)
    requires d < 16
    ensures IsHexDigit(c)
    ensures DigitValue(c) == d
  {
    if d < 10 then ('0' as int + d) as char else ('a' as int + d - 10) as char
  }

  lemma DigitOfValue(c: char)
    requires IsHexDigit(c)
    ensures Digit(DigitValue(c)) == c
  {
  }

  function Pow16(k: nat): (r: nat)
    ensures r > 0
  {
    if k == 0 then 1 else 16 * Pow16(k - 1)
  }

  /** The low `width` hexadecimal digits of `v`, most significant first. */
  function EncodeWidth(v: nat, width: nat): (s: string)
    ensures |s| == width
    ensures AllHexDigits(s)
  {
    if width == 0 then "" else EncodeWidth(v / 16, width - 1) + [Digit(v % 16)]
  }

  /** Reads a string of lower-case hexadecimal digits as a number; None on any other character. */
  function DecodeHex(s: string): (r: Option<nat>)
    ensures r.Some? <==> AllHexDigits(s)
    ensures r.Some? ==> r.value < Pow16(|s|)
  {
    if |s| == 0 then Some(0)
    else
      var prefix := s[..|s| - 1];
      var c := s[|s| - 1];
      assert forall i :: 0 <= i < |prefix| ==> prefix[i] == s[i];
      match DecodeHex(prefix)
      case None => None
      case Some(hi) =>
        if IsHexDigit(c) then Some(16 * hi + DigitValue(c)) else None
  }

  /** The `%08x` rendering of an unsigned int. */
  function Hex8(v: u32): (s: string)
    ensures |s| == WIDTH
    ensures AllHexDigits(s)
  {
    EncodeWidth(v, WIDTH)
  }

  /** Zero renders as all zero digits at any width (the `0` flag of `%08x`). */
  lemma {:induction false} ZeroDigits(width: nat)
    ensures EncodeWidth(0, width) == seq(width, _ => '0')
  {
    if width > 0 {
      ZeroDigits(width - 1);
    }
  }

  lemma Pow16Eight()
    ensures Pow16(WIDTH) == WORD
  {
  }

  /** Decoding a fixed-width encoding gives back the value, when it fits the width. */
  lemma {:induction false} DecodeEncodeWidth(v: nat, width: nat)
    requires v < Pow16(width)
    ensures DecodeHex(EncodeWidth(v, width)) == Some(v)
  {
    if width > 0 {
      var s := EncodeWidth(v, width);
      assert s[..|s| - 1] == EncodeWidth(v / 16, width - 1);
      assert s[|s| - 1] == Digit(v % 16);
      DecodeEncodeWidth(v / 16, width - 1);
    }
  }

  /** Encoding a decoded digit string at its own width gives back the string. */
  lemma {:induction false} EncodeDecodeWidth(s: string)
    requires AllHexDigits(s)
    ensures EncodeWidth(DecodeHex(s).value, |s|) == s
  {
    if |s| > 0 {
      var prefix := s[..|s| - 1];
      var c := s[|s| - 1];
      assert AllHexDigits(prefix) by {
        assert forall i :: 0 <= i < |prefix| ==> prefix[i] == s[i];
      }
      EncodeDecodeWidth(prefix);
      var hi := DecodeHex(prefix).value;
      var v := DecodeHex(s).value;
      assert v == 16 * hi + DigitValue(c);
      assert v / 16 == hi && v % 16 == DigitValue(c);
      DigitOfValue(c);
      assert s == prefix + [c];
    }
  }

  /** Round trip: every unsigned int survives `%08x` followed by decoding. */
  lemma DecodeHex8(v: u32)
    ensures DecodeHex(Hex8(v)) == Some(v)
  {
    Pow16Eight();
    DecodeEncodeWidth(v, WIDTH);
  }

  /** Round trip the other way: every eight-digit token is the `%08x` of its value. */
  lemma Hex8OfDecode(s: string)
    requires |s| == WIDTH && AllHexDigits(s)
    ensures DecodeHex(s).Some? && DecodeHex(s).value < WORD
    ensures Hex8(DecodeHex(s).value) == s
  {
    Pow16Eight();
    EncodeDecodeWidth(s);
  }
}
