/** Base64 with the standard alphabet and `=` padding (section 4 of RFC 4648),
    as Python's `base64.b64decode(s, validate=True)` decodes it (CPython 3.11
    and later, where `validate=True` selects binascii's strict mode) and as
    `base64.b64encode` produces it.

    Strict decoding accepts exactly: alphabet characters, then no padding when
    their number is a multiple of four, one `=` when it is three more than a
    multiple of four, two `=` when it is two more. Anything else (another
    character, padding in the middle or at the front, too much or too little
    padding, a lone trailing character) is `binascii.Error`, here `None`. As in
    binascii, the unused low bits of the last character are not checked. */
module Base64 {
  import opened Text
  import opened FirstMatch

  predicate IsAlphabet(c: char) {
    IsAsciiAlnum(c) || c == '+' || c == '/'
  }

  predicate AllAlphabet(s: string) {
    forall i :: 0 <= i < |s| ==> IsAlphabet(s[i])
  }

  /** The 6-bit value of an alphabet character. */
  function SextetOf(c: char): (v: nat)
    requires IsAlphabet(c)
    ensures v < 64
  {
    if 'A' <= c <= 'Z' then c as int - 'A' as int
    else if 'a' <= c <= 'z' then c as int - 'a' as int + 26
    else if '0' <= c <= '9' then c as int - '0' as int + 52
    else if c == '+' then 62
    else 63
  }

  /** The alphabet character of a 6-bit value; the inverse of `SextetOf`. */
  function CharOf(v: nat): (c: char)
    requires v < 64
    ensures IsAlphabet(c) && SextetOf(c) == v
  {
    if v < 26 then ('A' as int + v) as char
    else if v < 52 then ('a' as int + v - 26) as char
    else if v < 62 then ('0' as int + v - 52) as char
    else if v == 62 then '+'
    else '/'
  }

  /** How many trailing `=` the decoder reads as padding. */
  function PadCount(s: string): (p: nat)
    ensures p <= 2 && p <= |s|
  {
    if EndsWith(s, "==") then 2 else if EndsWith(s, "=") then 1 else 0
  }

  /** The characters before the padding. */
  function DataPart(s: string): string {
    s[..|s| - PadCount(s)]
  }

  /** The texts strict decoding accepts. */
  predicate IsCanonical(s: string) {
    var d := DataPart(s);
    var p := PadCount(s);
    AllAlphabet(d)
    && (p == 0 ==> |d| % 4 == 0)
    && (p == 1 ==> |d| % 4 == 3)
    && (p == 2 ==> |d| % 4 == 2)
  }

  /** The three bytes four alphabet characters stand for. */
  function DecodeQuad(q: string): (r: seq<byte>)
    requires |q| == 4 && AllAlphabet(q)
    ensures |r| == 3
  {
    var a, b, c, d := SextetOf(q[0]), SextetOf(q[1]), SextetOf(q[2]), SextetOf(q[3]);
    [(a * 4 + b / 16) as byte, ((b % 16) * 16 + c / 4) as byte, ((c % 4) * 64 + d) as byte]
  }

  /** Bytes of a run of alphabet characters, four characters to three bytes; a
      final group of two or three characters gives one or two bytes. */
  function DecodeData(d: string): (r: seq<byte>)
    requires AllAlphabet(d) && |d| % 4 != 1
    decreases |d|
  {
    if |d| >= 4 then DecodeQuad(d[..4]) + DecodeData(d[4..])
    else if |d| == 0 then []
    else
      var a := SextetOf(d[0]);
      var b := SextetOf(d[1]);
      var x := (a * 4 + b / 16) as byte;
      if |d| == 2 then [x]
      else [x, ((b % 16) * 16 + SextetOf(d[2]) / 4) as byte]
  }

  /** `b64decode(s, validate=True)` on an ASCII text. */
  function Decode(s: string): (r: Option<seq<byte>>)
    ensures r.Some? <==> IsCanonical(s)
  {
    if IsCanonical(s) then Some(DecodeData(DataPart(s))) else None
  }

  /** The four alphabet characters of three bytes. */
  function EncodeTriple(x: int, y: int, z: int): (r: string)
    requires 0 <= x < 256 && 0 <= y < 256 && 0 <= z < 256
    ensures |r| == 4 && AllAlphabet(r)
  {
    [CharOf(x / 4), CharOf((x % 4) * 16 + y / 16), CharOf((y % 16) * 4 + z / 64), CharOf(z % 64)]
  }

  /** Alphabet characters for `bs`, without padding. */
  function EncodeData(bs: seq<byte>): (r: string)
    ensures AllAlphabet(r)
    ensures FitsPadding(r, |bs|)
    ensures |bs| > 0 ==> |r| > 0
  {
    if |bs| >= 3 then
      var rest := EncodeData(bs[3..]);
      ShiftMod(|bs[3..]|, |rest|);
      EncodeTriple(bs[0] as int, bs[1] as int, bs[2] as int) + rest
    else if |bs| == 0 then []
    else
      var x := bs[0] as int;
      if |bs| == 1 then [CharOf(x / 4), CharOf((x % 4) * 16)]
      else
        var y := bs[1] as int;
        [CharOf(x / 4), CharOf((x % 4) * 16 + y / 16), CharOf((y % 16) * 4)]
  }

  lemma ShiftMod(x: nat, y: nat)
    ensures (x + 3) % 3 == x % 3 && (y + 4) % 4 == y % 4
  {
  }

  /** The `=` characters that complete the last group of `n` bytes. */
  function Padding(n: nat): (p: string)
    ensures |p| == if n % 3 == 0 then 0 else 3 - n % 3
    ensures forall i :: 0 <= i < |p| ==> p[i] == '='
  {
    if n % 3 == 1 then "==" else if n % 3 == 2 then "=" else ""
  }

  /** `base64.b64encode(bs)`. */
  function Encode(bs: seq<byte>): (r: string)
    ensures |r| % 4 == 0
    ensures forall i :: 0 <= i < |r| ==> IsAlphabet(r[i]) || r[i] == '='
  {
    PaddedShape(EncodeData(bs), |bs|);
    EncodeData(bs) + Padding(|bs|)
  }

  /** The length of the unpadded encoding of `n` bytes, modulo four. */
  predicate FitsPadding(d: string, n: nat) {
    |d| % 4 == if n % 3 == 0 then 0 else n % 3 + 1
  }

  /** Alphabet characters padded for their byte count are whole groups of
      alphabet characters and `=`. */
  lemma PaddedShape(d: string, n: nat)
    requires AllAlphabet(d) && FitsPadding(d, n)
    ensures |d + Padding(n)| % 4 == 0
    ensures var r := d + Padding(n);
            forall i :: 0 <= i < |r| ==> IsAlphabet(r[i]) || r[i] == '='
  {
    var p := Padding(n);
    FillsGroup(|d|, |p|);
    forall i | 0 <= i < |d + p|
      ensures IsAlphabet((d + p)[i]) || (d + p)[i] == '='
    {
      if i < |d| {
        assert (d + p)[i] == d[i];
      } else {
        assert (d + p)[i] == p[i - |d|];
      }
    }
  }

  lemma FillsGroup(n: nat, k: nat)
    requires n % 4 + k == 4 || (n % 4 == 0 && k == 0)
    ensures (n + k) % 4 == 0
  {
  }

  /** Three bytes split into four sextets and joined again are unchanged. */
  lemma TripleSplitJoin(x: int, y: int, z: int)
    requires 0 <= x < 256 && 0 <= y < 256 && 0 <= z < 256
    ensures var b := x % 4 * 16 + y / 16;
            var c := y % 16 * 4 + z / 64;
            x / 4 * 4 + b / 16 == x && b % 16 * 16 + c / 4 == y && c % 4 * 64 + z % 64 == z
  {
  }

  /** Two bytes (one padding `=`) and one byte (two) likewise. */
  lemma PairSplitJoin(x: int, y: int)
    requires 0 <= x < 256 && 0 <= y < 256
    ensures var b := x % 4 * 16 + y / 16;
            x / 4 * 4 + b / 16 == x && b % 16 * 16 + (y % 16 * 4) / 4 == y
  {
  }

  lemma DecodeEncodeTriple(x: int, y: int, z: int)
    requires 0 <= x < 256 && 0 <= y < 256 && 0 <= z < 256
    ensures DecodeQuad(EncodeTriple(x, y, z)) == [x as byte, y as byte, z as byte]
  {
    TripleSplitJoin(x, y, z);
  }

  lemma {:induction false} DecodeEncodeData(bs: seq<byte>)
    ensures DecodeData(EncodeData(bs)) == bs
  {
    if |bs| >= 3 {
      var t := EncodeTriple(bs[0] as int, bs[1] as int, bs[2] as int);
      var rest := EncodeData(bs[3..]);
      assert DecodeData(EncodeData(bs)) == DecodeQuad(t) + DecodeData(rest) by {
        assert EncodeData(bs) == t + rest;
        DecodeGroupThenRest(t, rest);
      }
      assert DecodeQuad(t) == bs[..3] by {
        DecodeEncodeTriple(bs[0] as int, bs[1] as int, bs[2] as int);
      }
      assert DecodeData(rest) == bs[3..] by {
        DecodeEncodeData(bs[3..]);
      }
      assert bs[..3] + bs[3..] == bs;
    } else if |bs| == 2 {
      DecodeEncodePair(bs[0], bs[1]);
      assert bs == [bs[0], bs[1]];
    } else if |bs| == 1 {
      DecodeEncodeSingle(bs[0]);
      assert bs == [bs[0]];
    }
  }

  lemma DecodeEncodePair(x: byte, y: byte)
    ensures DecodeData(EncodeData([x, y])) == [x, y]
  {
    PairSplitJoin(x as int, y as int);
  }

  lemma DecodeEncodeSingle(x: byte)
    ensures DecodeData(EncodeData([x])) == [x]
  {
  }

  /** Decoding reads a leading whole group on its own. */
  lemma DecodeGroupThenRest(t: string, rest: string)
    requires |t| == 4 && AllAlphabet(t) && AllAlphabet(rest) && |rest| % 4 != 1
    ensures AllAlphabet(t + rest) && |t + rest| % 4 != 1
    ensures DecodeData(t + rest) == DecodeQuad(t) + DecodeData(rest)
  {
    var e := t + rest;
    assert e[..4] == t;
    assert e[4..] == rest;
  }

  /** Round trip: strict decoding undoes encoding, for every byte string. */
  lemma DecodeEncode(bs: seq<byte>)
    ensures Decode(Encode(bs)) == Some(bs)
  {
    var d := EncodeData(bs);
    var e := Encode(bs);
    DecodeEncodeData(bs);
    PaddingOfEncode(bs);
    assert IsCanonical(e);
  }

  /** The padding `Encode` appends is exactly what `DataPart` strips. */
  lemma PaddingOfEncode(bs: seq<byte>)
    ensures DataPart(Encode(bs)) == EncodeData(bs)
    ensures PadCount(Encode(bs)) == if |bs| % 3 == 0 then 0 else 3 - |bs| % 3
  {
    PaddingIsStripped(EncodeData(bs), |bs|);
  }

  lemma PaddingIsStripped(d: string, n: nat)
    requires AllAlphabet(d) && FitsPadding(d, n)
    ensures DataPart(d + Padding(n)) == d
    ensures PadCount(d + Padding(n)) == if n % 3 == 0 then 0 else 3 - n % 3
  {
    if n % 3 == 0 {
      assert d + Padding(n) == d;
      UnpaddedData(d);
    } else if n % 3 == 1 {
      PaddedData(d, Padding(n));
    } else {
      assert Padding(n) == "=";
      OnePadData(d);
    }
  }

  lemma UnpaddedData(d: string)
    requires AllAlphabet(d)
    ensures PadCount(d) == 0 && DataPart(d) == d
  {
    if |d| > 0 {
      assert IsAlphabet(d[|d| - 1]);
    }
  }

  lemma PaddedData(d: string, pad: string)
    requires pad == "=="
    ensures PadCount(d + pad) == 2 && DataPart(d + pad) == d
  {
    assert (d + pad)[|d + pad| - 2..] == pad;
  }

  lemma OnePadData(d: string)
    requires |d| > 0 && AllAlphabet(d)
    ensures PadCount(d + "=") == 1 && DataPart(d + "=") == d
  {
    var e := d + "=";
    assert e[|e| - 1..] == "=";
    assert e[|e| - 2] == d[|d| - 1];
    assert IsAlphabet(d[|d| - 1]);
    assert e[|e| - 2..] != "==" by {
      assert e[|e| - 2..][0] == d[|d| - 1];
    }
  }

  /** Padding only at the front, or a character outside the alphabet, is
      refused; so is a text one character too long for whole groups. */
  lemma StrictRejections()
    ensures Decode("=QUJD") == None
    ensures Decode("QU JD") == None
    ensures Decode("QUJDR") == None
    ensures Decode("QUI==") == None
    ensures Decode("QUJD") == Some([65 as byte, 66, 67])
  {
    FrontPaddingIsRefused();
    SpaceIsRefused();
    LoneCharacterIsRefused();
    TooMuchPaddingIsRefused();
    ThreeLettersDecode();
  }

  lemma FrontPaddingIsRefused()
    ensures Decode("=QUJD") == None
  {
    var s := "=QUJD";
    assert PadCount(s) == 0 by {
      assert s[|s| - 1..] == "D";
      assert s[|s| - 2..] == "JD";
    }
    assert !IsAlphabet(DataPart(s)[0]);
  }

  lemma LoneCharacterIsRefused()
    ensures Decode("QUJDR") == None
  {
    var s := "QUJDR";
    assert PadCount(s) == 0 by {
      assert s[|s| - 1..] == "R";
      assert s[|s| - 2..] == "DR";
    }
  }

  lemma TooMuchPaddingIsRefused()
    ensures Decode("QUI==") == None
  {
    var s := "QUI==";
    assert s[|s| - 2..] == "==";
    assert DataPart(s) == "QUI";
  }

  lemma SpaceIsRefused()
    ensures Decode("QU JD") == None
  {
    assert DataPart("QU JD") == "QU JD";
    assert !IsAlphabet("QU JD"[2]);
  }

  lemma ThreeLettersDecode()
    ensures Decode("QUJD") == Some([65 as byte, 66, 67])
  {
    var q := "QUJD";
    assert DataPart(q) == q;
    assert SextetOf('Q') == 16 && SextetOf('U') == 20 && SextetOf('J') == 9 && SextetOf('D') == 3;
    assert AllAlphabet(q);
    assert DecodeQuad(q) == [65 as byte, 66, 67];
    assert q[..4] == q && q[4..] == "";
    assert DecodeData(q) == DecodeQuad(q) + DecodeData("");
    assert DecodeData(q) == [65 as byte, 66, 67];
    assert IsCanonical(q);
    assert Decode(q) == Some(DecodeData(q));
  }
}
