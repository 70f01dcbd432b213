/** Bytes and their lower-case hexadecimal rendering (PHP's bin2hex). */
module Bytes {

  newtype byte = x: int | 0 <= x < 256

  predicate IsHexChar(c: char) {
    '0' <= c <= '9' || 'a' <= c <= 'f'
  }

  /** The lower-case hexadecimal digit for `d`. */
  function HexDigit(d: int): (c: char)
    requires 0 <= d < 16
    ensures IsHexChar(c)
  {
    if d < 10 then ('0' as int + d) as char else ('a' as int + d - 10) as char
  }

  /** The value of a hexadecimal digit; inverts HexDigit. */
  function DigitValue(c: char): (d: int)
    requires IsHexChar(c)
    ensures 0 <= d < 16 && HexDigit(d) == c
  {
    if c <= '9' then c as int - '0' as int else c as int - 'a' as int + 10
  }

  /** bin2hex: two lower-case digits per byte, high nibble first. */
  function Bin2Hex(bs: seq<byte>): (s: string)
    ensures |s| == 2 * |bs|
    ensures forall i | 0 <= i < |s| :: IsHexChar(s[i])
  {
    if bs == [] then ""
    else [HexDigit(bs[0] as int / 16), HexDigit(bs[0] as int % 16)] + Bin2Hex(bs[1..])
  }

  /** hex2bin on a well-formed lower-case hexadecimal string. */
  function Hex2Bin(s: string): (bs: seq<byte>)
    requires |s| % 2 == 0
    requires forall i | 0 <= i < |s| :: IsHexChar(s[i])
    ensures |bs| == |s| / 2
  {
    if s == "" then []
    else [(DigitValue(s[0]) * 16 + DigitValue(s[1])) as byte] + Hex2Bin(s[2..])
  }

  lemma {:induction false} HexRoundTrip(bs: seq<byte>)
    ensures Hex2Bin(Bin2Hex(bs)) == bs
  {
    if bs != [] {
      var s := Bin2Hex(bs);
      var hi, lo := bs[0] as int / 16, bs[0] as int % 16;
      assert s[0] == HexDigit(hi) && s[1] == HexDigit(lo);
      assert DigitValue(HexDigit(hi)) == hi by {
        if hi < 10 {} else {}
      }
      assert DigitValue(HexDigit(lo)) == lo by {
        if lo < 10 {} else {}
      }
      assert s[2..] == Bin2Hex(bs[1..]);
      HexRoundTrip(bs[1..]);
    }
  }

  /** Distinct byte strings render to distinct names. */
  lemma Bin2HexInjective(a: seq<byte>, b: seq<byte>)
    requires Bin2Hex(a) == Bin2Hex(b)
    ensures a == b
  {
    HexRoundTrip(a);
    HexRoundTrip(b);
  }
}
