/** Base16 (section 8 of RFC 4648) as the encoding detector uses it: the
    `_is_hex` test and `bytes.fromhex` on a text that passed it. `bytes.hex`
    is the partner used for the round trip. */
module Hex {
  import opened Text

  predicate IsHexDigit(c: char) {
    '0' <= c <= '9' || 'a' <= c <= 'f' || 'A' <= c <= 'F'
  }

  /** The character set `_is_hex` tests against. */
  const HexDigitChars: string := "0123456789abcdefABCDEF"

  predicate IsListedDigit(c: char) {
    c in HexDigitChars
  }

  lemma HexDigitIsListed(c: char)
    ensures IsHexDigit(c) <==> IsListedDigit(c)
  {
    if '0' <= c <= '9' {
      assert HexDigitChars[c as int - '0' as int] == c;
    } else if 'a' <= c <= 'f' {
      assert HexDigitChars[c as int - 'a' as int + 10] == c;
    } else if 'A' <= c <= 'F' {
      assert HexDigitChars[c as int - 'A' as int + 16] == c;
    }
  }

  lemma AllDigitsListed(s: string)
    ensures (forall i :: 0 <= i < |s| ==> IsHexDigit(s[i]))
            <==> (forall i :: 0 <= i < |s| ==> IsListedDigit(s[i]))
  {
    forall i | 0 <= i < |s| {
      HexDigitIsListed(s[i]);
    }
  }

  /** `EncodingPatternDetector._is_hex`: even length, hex digits only. */
  predicate IsHex(s: string) {
    |s| % 2 == 0 && forall i :: 0 <= i < |s| ==> IsHexDigit(s[i])
  }

  /** `IsHex` is the test as the code writes it: even length, and every
      character one of the listed digits. */
  lemma IsHexIsListedTest(s: string)
    ensures IsHex(s) <==> |s| % 2 == 0 && forall i :: 0 <= i < |s| ==> IsListedDigit(s[i])
  {
    AllDigitsListed(s);
  }

  function DigitValue(c: char): (v: nat)
    requires IsHexDigit(c)
    ensures v < 16
  {
    if '0' <= c <= '9' then c as int - '0' as int
    else if 'a' <= c <= 'f' then c as int - 'a' as int + 10
    else c as int - 'A' as int + 10
  }

  /** Lower-case digit of a value below 16; the inverse of `DigitValue`. */
  function DigitOf(v: nat): (c: char)
    requires v < 16
    ensures IsHexDigit(c) && DigitValue(c) == v
  {
    if v < 10 then ('0' as int + v) as char else ('a' as int + v - 10) as char
  }

  /** `bytes.fromhex(s)` for a text `_is_hex` accepted: every digit pair is
      one byte, high digit first. */
  function FromHex(s: string): (r: seq<byte>)
    requires IsHex(s)
    ensures |r| * 2 == |s|
  {
    if |s| == 0 then []
    else [(DigitValue(s[0]) * 16 + DigitValue(s[1])) as byte] + FromHex(s[2..])
  }

  /** Byte `i` of `bytes.fromhex(s)` is made from digits `2i` (high) and
      `2i + 1` (low). */
  lemma {:induction false} FromHexPairs(s: string, i: nat)
    requires IsHex(s) && i < |FromHex(s)|
    ensures FromHex(s)[i] as int == DigitValue(s[2 * i]) * 16 + DigitValue(s[2 * i + 1])
  {
    if i > 0 {
      var t := s[2..];
      assert forall k :: 0 <= k < |t| ==> t[k] == s[k + 2];
      FromHexPairs(t, i - 1);
      assert t[2 * (i - 1)] == s[2 * i] && t[2 * (i - 1) + 1] == s[2 * i + 1];
    }
  }

  /** `bs.hex()`: two lower-case digits per byte. */
  function ToHex(bs: seq<byte>): (r: string)
    ensures IsHex(r) && |r| == 2 * |bs|
  {
    if |bs| == 0 then []
    else [DigitOf(bs[0] as int / 16), DigitOf(bs[0] as int % 16)] + ToHex(bs[1..])
  }

  /** Round trip: `bytes.fromhex(bs.hex()) == bs`. */
  lemma {:induction false} FromToHex(bs: seq<byte>)
    ensures FromHex(ToHex(bs)) == bs
  {
    if |bs| > 0 {
      var h := ToHex(bs);
      var b := bs[0] as int;
      FromToHex(bs[1..]);
      assert h[0] == DigitOf(b / 16) && h[1] == DigitOf(b % 16);
      assert h[2..] == ToHex(bs[1..]);
      ByteDigits(b);
      assert FromHex(h) == [(DigitValue(h[0]) * 16 + DigitValue(h[1])) as byte] + FromHex(h[2..]);
      assert [bs[0]] + bs[1..] == bs;
    }
  }

  /** A byte's two digits give the byte back. */
  lemma ByteDigits(b: int)
    requires 0 <= b < 256
    ensures DigitValue(DigitOf(b / 16)) * 16 + DigitValue(DigitOf(b % 16)) == b
  {
  }
}
