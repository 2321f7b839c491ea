/** The obfuscation detector (src/filters/encoding_check.py): a length gate,
    then a Base64 attempt, then a hex attempt, each kept only when the decoded
    text is mostly printable. Failed decodes fall through to "not encoded". */
module EncodingCheck {
  import opened Text
  import opened FirstMatch
  import Base64
  import Hex
  import Utf8

  /** `self.min_length`. */
  const MinLength: nat := 16

  /** The share of printable characters a decode must exceed. */
  const ReadableRatio: real := 0.7

  datatype Method = Base64Method | HexMethod

  /** Python's `(is_encoded, decoded_text, method_name)` triple. */
  datatype DecodeResult = NotEncoded | Encoded(text: string, methodName: Method)

  /** Number of printable characters in `t`. */
  function PrintableCount(t: string): (n: nat)
    ensures n <= |t|
  {
    if |t| == 0 then 0 else (if IsPrintable(t[0]) then 1 else 0) + PrintableCount(t[1..])
  }

  /** `_is_readable`: more than 70% printable; the empty text is not
      readable. In whole numbers: ten times the printable count exceeds seven
      times the length. */
  predicate IsReadable(t: string): (b: bool)
    ensures b <==> |t| > 0 && 10 * PrintableCount(t) > 7 * |t|
  {
    if |t| > 0 then
      RatioAboveThreshold(PrintableCount(t) as real, |t| as real);
      (PrintableCount(t) as real) / (|t| as real) > ReadableRatio
    else false
  }

  /** For a positive denominator, the ratio exceeds 0.7 exactly when ten
      times the numerator exceeds seven times the denominator. */
  lemma RatioAboveThreshold(p: real, n: real)
    requires n > 0.0
    ensures p / n > ReadableRatio <==> 10.0 * p > 7.0 * n
  {
    var q := p / n;
    assert q * n == p;
    if q > 0.7 {
      assert (q - 0.7) * n > 0.0;
    } else {
      assert (0.7 - q) * n >= 0.0;
    }
  }

  /** A text made only of printable characters is readable when not empty. */
  lemma {:induction false} AllPrintableIsReadable(t: string)
    requires |t| > 0 && forall i :: 0 <= i < |t| ==> IsPrintable(t[i])
    ensures PrintableCount(t) == |t|
    ensures IsReadable(t)
  {
    if |t| > 1 {
      AllPrintableIsReadable(t[1..]);
    }
  }

  /** Line 21: Base64 is tried when the stripped length is a multiple of four
      or the text ends with padding. */
  predicate IsBase64Candidate(cleaned: string) {
    |cleaned| % 4 == 0 || EndsWith(cleaned, "=")
  }

  /** The Base64 branch once `b64decode` accepted its argument as ASCII: a
      strict decode, a UTF-8 decode, the readability filter. `None` is every
      way the branch falls through. */
  function TryBase64(cleaned: string): (r: Option<string>)
    ensures r.Some? ==> IsReadable(r.value)
    ensures r.Some? <==> Base64.Decode(cleaned).Some?
                         && Utf8.Decode(Base64.Decode(cleaned).value).Some?
                         && IsReadable(Utf8.Decode(Base64.Decode(cleaned).value).value)
    ensures r.Some? ==> r.value == Utf8.Decode(Base64.Decode(cleaned).value).value
    ensures r.Some? ==> Base64.Decode(cleaned) == Some(Utf8.Encode(r.value))
  {
    match Base64.Decode(cleaned)
    case None => None
    case Some(bs) =>
      match Utf8.Decode(bs)
      case None => None
      case Some(t) =>
        if IsReadable(t) then Some(t) else None
  }

  /** The hex branch: `bytes.fromhex`, a UTF-8 decode, the readability filter. */
  function TryHex(cleaned: string): (r: Option<string>)
    requires Hex.IsHex(cleaned)
    ensures r.Some? ==> IsReadable(r.value)
    ensures r.Some? <==> Utf8.Decode(Hex.FromHex(cleaned)).Some?
                         && IsReadable(Utf8.Decode(Hex.FromHex(cleaned)).value)
    ensures r.Some? ==> r.value == Utf8.Decode(Hex.FromHex(cleaned)).value
    ensures r.Some? ==> Hex.FromHex(cleaned) == Utf8.Encode(r.value)
  {
    match Utf8.Decode(Hex.FromHex(cleaned))
    case None => None
    case Some(t) =>
      if IsReadable(t) then Some(t) else None
  }

  /** Everything after the length gate and the strip, with every decode
      failure swallowed. Base64 is tried first and wins when it succeeds. */
  function Detect(cleaned: string): (r: DecodeResult)
    ensures r.Encoded? ==> IsReadable(r.text)
    ensures IsBase64Candidate(cleaned) && AllAscii(cleaned) && TryBase64(cleaned).Some?
            ==> r == Encoded(TryBase64(cleaned).value, Base64Method)
    ensures r.Encoded? && r.methodName == HexMethod
            ==> Hex.IsHex(cleaned) && TryHex(cleaned) == Some(r.text)
    ensures r.Encoded? && r.methodName == Base64Method
            ==> IsBase64Candidate(cleaned) && TryBase64(cleaned) == Some(r.text)
    ensures r == NotEncoded
            <==> !(IsBase64Candidate(cleaned) && AllAscii(cleaned) && TryBase64(cleaned).Some?)
                 && !(Hex.IsHex(cleaned) && TryHex(cleaned).Some?)
  {
    if IsBase64Candidate(cleaned) && AllAscii(cleaned) && TryBase64(cleaned).Some? then
      Encoded(TryBase64(cleaned).value, Base64Method)
    else if Hex.IsHex(cleaned) && TryHex(cleaned).Some? then
      Encoded(TryHex(cleaned).value, HexMethod)
    else NotEncoded
  }

  /** `EncodingPatternDetector.scan` as the handlers evidently intend: total,
      every decode failure reported as not encoded. */
  function Scan(text: string): (r: DecodeResult)
    ensures |text| < MinLength ==> r == NotEncoded
    ensures r.Encoded? ==> IsReadable(r.text)
    ensures |text| >= MinLength ==> r == Detect(Strip(text))
  {
    if |text| < MinLength then NotEncoded   // `not text` is covered: "" is shorter
    else Detect(Strip(text))
  }

  /** What `scan` can do instead of returning. */
  datatype PyError = ValueError

  datatype Outcome = Returned(result: DecodeResult) | Raised(error: PyError)

  /** `EncodingPatternDetector.scan` as written. `base64.b64decode` first
      turns a `str` argument into ASCII bytes and raises `ValueError` when it
      cannot; the handler names only `binascii.Error` and `UnicodeDecodeError`,
      so that exception leaves `scan`. */
  function ScanAsWritten(text: string): (r: Outcome)
    ensures r.Raised? <==> |text| >= MinLength && IsBase64Candidate(Strip(text)) && !AllAscii(Strip(text))
    ensures r.Returned? ==> r.result == Scan(text)
  {
    if |text| < MinLength then Returned(NotEncoded)
    else
      var cleaned := Strip(text);
      if IsBase64Candidate(cleaned) && !AllAscii(cleaned) then Raised(ValueError)
      else Returned(Detect(cleaned))
  }

  /** The code as written raises exactly on long non-ASCII Base64 candidates
      and otherwise agrees with `Scan`. */
  lemma AsWrittenVersusScan(text: string)
    ensures ScanAsWritten(text).Raised?
            <==> |text| >= MinLength && IsBase64Candidate(Strip(text)) && !AllAscii(Strip(text))
    ensures ScanAsWritten(text).Returned? ==> ScanAsWritten(text).result == Scan(text)
  {
  }

  /** Sixteen accented letters (`"é" * 16`): long enough, a multiple of
      four, not ASCII. `scan` raises where it should report "not encoded". */
  lemma NonAsciiPromptRaises(t: string)
    requires |t| == 16 && forall i :: 0 <= i < |t| ==> t[i] == 'é'
    ensures ScanAsWritten(t) == Raised(ValueError)
    ensures Scan(t) == NotEncoded
  {
    assert !IsSpace(t[0]) && !IsSpace(t[15]) && !IsAscii(t[0]);
    StripUnchanged(t);
    NonAsciiIsNotEncoded(t);
  }

  /** Corrected behaviour: a text whose stripped form is not ASCII can be
      neither Base64 nor hex, so it is reported as not encoded. */
  lemma NonAsciiIsNotEncoded(text: string)
    requires !AllAscii(Strip(text))
    ensures Scan(text) == NotEncoded
  {
    if |text| >= MinLength {
      var cleaned := Strip(text);
      var i :| 0 <= i < |cleaned| && !IsAscii(cleaned[i]);
      assert !Hex.IsHexDigit(cleaned[i]);
    }
  }

  /** Encoded Base64 text has no whitespace to strip. */
  lemma Base64TextIsStripped(bs: seq<byte>)
    ensures Strip(Base64.Encode(bs)) == Base64.Encode(bs)
    ensures AllAscii(Base64.Encode(bs))
  {
    var e := Base64.Encode(bs);
    forall i | 0 <= i < |e|
      ensures '!' <= e[i] <= '~'
    {
      assert Base64.IsAlphabet(e[i]) || e[i] == '=';
    }
    if |e| > 0 {
      VisibleAsciiNotSpace(e[0]);
      VisibleAsciiNotSpace(e[|e| - 1]);
    }
    StripUnchanged(e);
  }

  /** Round trip: Base64 of the UTF-8 bytes of a readable text, at least
      sixteen characters long, is detected as Base64 and decoded to that text. */
  lemma Base64RoundTrip(s: string)
    requires IsReadable(s)
    requires |Base64.Encode(Utf8.Encode(s))| >= MinLength
    ensures Scan(Base64.Encode(Utf8.Encode(s))) == Encoded(s, Base64Method)
  {
    var bs := Utf8.Encode(s);
    var e := Base64.Encode(bs);
    Base64TextIsStripped(bs);
    Base64.DecodeEncode(bs);
    Utf8.DecodeEncode(s);
  }

  /** Hex text is ASCII without whitespace, so stripping leaves it alone. */
  lemma HexTextIsStripped(bs: seq<byte>)
    ensures Strip(Hex.ToHex(bs)) == Hex.ToHex(bs)
  {
    var h := Hex.ToHex(bs);
    if |h| > 0 {
      assert Hex.IsHexDigit(h[0]) && Hex.IsHexDigit(h[|h| - 1]);
      VisibleAsciiNotSpace(h[0]);
      VisibleAsciiNotSpace(h[|h| - 1]);
    }
    StripUnchanged(h);
  }

  /** The hex text of an odd number of bytes is two more than a multiple of
      four long and ends in a digit, so Base64 is not attempted on it. */
  lemma OddHexIsNotBase64Candidate(bs: seq<byte>)
    requires |bs| % 2 == 1
    ensures !IsBase64Candidate(Hex.ToHex(bs))
  {
    var h := Hex.ToHex(bs);
    var m := |bs| / 2;
    assert |bs| == 2 * m + 1;
    assert |h| == 4 * m + 2;
    TwoMoreThanMultipleOfFour(m);
    assert Hex.IsHexDigit(h[|h| - 1]);
    assert h[|h| - 1..] == [h[|h| - 1]];
  }

  lemma TwoMoreThanMultipleOfFour(m: nat)
    ensures (4 * m + 2) % 4 == 2
  {
  }

  /** Round trip for hex: when the hex text is not a Base64 candidate (its
      length is not a multiple of four) it is detected as hex and decoded. */
  lemma HexRoundTrip(s: string)
    requires IsReadable(s)
    requires |Utf8.Encode(s)| % 2 == 1
    requires |Hex.ToHex(Utf8.Encode(s))| >= MinLength
    ensures Scan(Hex.ToHex(Utf8.Encode(s))) == Encoded(s, HexMethod)
  {
    var bs := Utf8.Encode(s);
    var h := Hex.ToHex(bs);
    HexTextIsStripped(bs);
    OddHexIsNotBase64Candidate(bs);
    Hex.FromToHex(bs);
    Utf8.DecodeEncode(s);
    assert TryHex(h) == Some(s);
  }

  /** Sixteen spaces pass the length gate but strip to nothing; the empty
      decode is not readable, so the text is not encoded. */
  lemma BlankTextIsNotEncoded()
    ensures Scan("                ") == NotEncoded
  {
    var t := "                ";
    assert |t| == 16;
    assert forall k :: 0 <= k < |t| ==> IsSpace(t[k]);
    BlankStripsToEmpty(t);
    assert !IsReadable("");
  }
}
