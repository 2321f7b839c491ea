/** Python's strict `bytes.decode('utf-8')`: a byte string decodes only if it
    is a concatenation of well-formed UTF-8 sequences (table 3-7 of the Unicode
    Standard: no overlong forms, no surrogates, nothing above U+10FFFF);
    otherwise the call raises `UnicodeDecodeError`, modelled as `None`. */
module Utf8 {
  import opened Text
  import opened FirstMatch

  predicate IsCont(b: byte) {
    0x80 <= b < 0xC0
  }

  /** Length of the well-formed sequence at the head of `bs`; 0 if there is none. */
  function HeadLength(bs: seq<byte>): (n: nat)
    ensures n <= 4 && n <= |bs|
    ensures |bs| == 0 ==> n == 0
  {
    if |bs| == 0 then 0
    else
      var b0 := bs[0];
      if b0 < 0x80 then 1
      else if 0xC2 <= b0 <= 0xDF then
        if |bs| >= 2 && IsCont(bs[1]) then 2 else 0
      else if 0xE0 <= b0 <= 0xEF then
        var lo: byte := if b0 == 0xE0 then 0xA0 else 0x80;
        var hi: byte := if b0 == 0xED then 0x9F else 0xBF;
        if |bs| >= 3 && lo <= bs[1] <= hi && IsCont(bs[2]) then 3 else 0
      else if 0xF0 <= b0 <= 0xF4 then
        var lo: byte := if b0 == 0xF0 then 0x90 else 0x80;
        var hi: byte := if b0 == 0xF4 then 0x8F else 0xBF;
        if |bs| >= 4 && lo <= bs[1] <= hi && IsCont(bs[2]) && IsCont(bs[3]) then 4 else 0
      else 0
  }

  /** A Unicode scalar value, i.e. a code point Dafny's `char` can hold. */
  predicate IsScalar(n: int) {
    (0 <= n < 0xD800) || (0xE000 <= n < 0x110000)
  }

  /** The code point of the well-formed sequence at the head of `bs`. */
  function HeadCodePoint(bs: seq<byte>): (n: int)
    requires HeadLength(bs) > 0
    ensures IsScalar(n)
  {
    var len := HeadLength(bs);
    if len == 1 then bs[0] as int
    else if len == 2 then (bs[0] as int - 0xC0) * 64 + (bs[1] as int - 0x80)
    else if len == 3 then
      (bs[0] as int - 0xE0) * 4096 + (bs[1] as int - 0x80) * 64 + (bs[2] as int - 0x80)
    else
      (bs[0] as int - 0xF0) * 262144 + (bs[1] as int - 0x80) * 4096
      + (bs[2] as int - 0x80) * 64 + (bs[3] as int - 0x80)
  }

  /** `bs.decode('utf-8')`, strict: whatever it accepts is the encoding of
      the text it returns, so it accepts nothing outside the image of
      `Encode`. */
  function Decode(bs: seq<byte>): (r: Option<string>)
    ensures r.Some? ==> Encode(r.value) == bs
    decreases |bs|
  {
    if |bs| == 0 then Some([])
    else
      var n := HeadLength(bs);
      if n == 0 then None
      else
        match Decode(bs[n..])
        case None => None
        case Some(rest) =>
          EncodeHeadThen(bs, rest);
          Some([HeadCodePoint(bs) as char] + rest)
  }

  /** `s.encode('utf-8')`, the partner of `Decode`. */
  function Encode(s: string): (r: seq<byte>)
    ensures |r| >= |s|
  {
    if |s| == 0 then [] else EncodeChar(s[0]) + Encode(s[1..])
  }

  function EncodeChar(c: char): (r: seq<byte>)
    ensures 1 <= |r| <= 4
  {
    var n := c as int;
    if n < 0x80 then [n as byte]
    else if n < 0x800 then [(0xC0 + n / 64) as byte, (0x80 + n % 64) as byte]
    else if n < 0x10000 then
      [(0xE0 + n / 4096) as byte, (0x80 + (n / 64) % 64) as byte, (0x80 + n % 64) as byte]
    else
      [(0xF0 + n / 262144) as byte, (0x80 + (n / 4096) % 64) as byte,
       (0x80 + (n / 64) % 64) as byte, (0x80 + n % 64) as byte]
  }

  /** The bytes of one encoded character form one well-formed sequence that
      decodes back to that character, whatever follows it. */
  lemma EncodeCharHead(c: char, rest: seq<byte>)
    ensures HeadLength(EncodeChar(c) + rest) == |EncodeChar(c)|
    ensures HeadCodePoint(EncodeChar(c) + rest) == c as int
  {
    var n := c as int;
    var bs := EncodeChar(c) + rest;
    if n < 0x80 {
    } else if n < 0x800 {
      assert n / 64 * 64 + n % 64 == n;
    } else if n < 0x10000 {
      var q := n / 64;
      assert q / 64 == n / 4096;
      assert n / 4096 * 4096 + q % 64 * 64 + n % 64 == n;
    } else {
      var q := n / 64;
      var q2 := q / 64;
      assert q2 == n / 4096;
      assert q2 / 64 == n / 262144;
      assert n / 262144 * 262144 + q2 % 64 * 4096 + q % 64 * 64 + n % 64 == n;
    }
  }

  /** Round trip: decoding the encoding of any text gives the text back. */
  lemma {:induction false} DecodeEncode(s: string)
    ensures Decode(Encode(s)) == Some(s)
  {
    if |s| > 0 {
      var e := EncodeChar(s[0]);
      var tail := Encode(s[1..]);
      EncodeCharHead(s[0], tail);
      assert (e + tail)[|e|..] == tail;
      DecodeEncode(s[1..]);
      assert [s[0]] + s[1..] == s;
    }
  }

  /** Decoding and encoding are inverse relations: a byte string decodes to
      a text exactly when it is that text's encoding. */
  lemma DecodeIffEncode(bs: seq<byte>, s: string)
    ensures Decode(bs) == Some(s) <==> Encode(s) == bs
  {
    if Encode(s) == bs {
      DecodeEncode(s);
    }
  }

  /** Division by 64 undoes `q * 64 + r` for a digit `r`. */
  lemma DivMod64(q: int, r: int)
    requires 0 <= r < 64
    ensures (q * 64 + r) / 64 == q && (q * 64 + r) % 64 == r
  {
  }

  /** A well-formed two-byte head is the encoding of its code point. */
  lemma EncodeHead2(bs: seq<byte>)
    requires HeadLength(bs) == 2
    ensures EncodeChar(HeadCodePoint(bs) as char) == bs[..2]
  {
    var a := bs[0] as int - 0xC0;
    var b := bs[1] as int - 0x80;
    var n := HeadCodePoint(bs);
    assert n == a * 64 + b;
    assert 0x80 <= n < 0x800;
    DivMod64(a, b);
  }

  /** A well-formed three-byte head is the encoding of its code point. */
  lemma EncodeHead3(bs: seq<byte>)
    requires HeadLength(bs) == 3
    ensures EncodeChar(HeadCodePoint(bs) as char) == bs[..3]
  {
    var a := bs[0] as int - 0xE0;
    var b := bs[1] as int - 0x80;
    var c := bs[2] as int - 0x80;
    var n := HeadCodePoint(bs);
    var q := a * 64 + b;
    assert n == q * 64 + c;
    assert 0x800 <= n < 0x10000;
    DivMod64(q, c);
    DivMod64(a, b);
    assert n / 4096 == a by {
      assert n / 4096 == (n / 64) / 64;
    }
  }

  /** A well-formed four-byte head is the encoding of its code point. */
  lemma EncodeHead4(bs: seq<byte>)
    requires HeadLength(bs) == 4
    ensures EncodeChar(HeadCodePoint(bs) as char) == bs[..4]
  {
    var a := bs[0] as int - 0xF0;
    var b := bs[1] as int - 0x80;
    var c := bs[2] as int - 0x80;
    var d := bs[3] as int - 0x80;
    var n := HeadCodePoint(bs);
    var q2 := a * 64 + b;
    var q := q2 * 64 + c;
    assert n == q * 64 + d;
    assert 0x10000 <= n < 0x110000;
    DivMod64(q, d);
    DivMod64(q2, c);
    DivMod64(a, b);
    assert n / 4096 == q2 by {
      assert n / 4096 == (n / 64) / 64;
    }
    assert n / 262144 == a by {
      assert n / 262144 == (n / 4096) / 64;
    }
  }

  /** The well-formed sequence at the head of `bs` is the encoding of the
      character it decodes to. */
  lemma EncodeHead(bs: seq<byte>)
    requires HeadLength(bs) > 0
    ensures EncodeChar(HeadCodePoint(bs) as char) == bs[..HeadLength(bs)]
  {
    var len := HeadLength(bs);
    if len == 1 {
    } else if len == 2 {
      EncodeHead2(bs);
    } else if len == 3 {
      EncodeHead3(bs);
    } else {
      EncodeHead4(bs);
    }
  }

  lemma EncodeHeadThen(bs: seq<byte>, rest: string)
    requires HeadLength(bs) > 0 && Encode(rest) == bs[HeadLength(bs)..]
    ensures Encode([HeadCodePoint(bs) as char] + rest) == bs
  {
    EncodeHead(bs);
    Glue(bs, HeadLength(bs), HeadCodePoint(bs) as char, rest);
  }

  lemma Glue(bs: seq<byte>, n: nat, c: char, rest: string)
    requires n <= |bs| && EncodeChar(c) == bs[..n] && Encode(rest) == bs[n..]
    ensures Encode([c] + rest) == bs
  {
    EncodeCons(c, rest);
    assert bs[..n] + bs[n..] == bs;
  }

  lemma EncodeCons(c: char, rest: string)
    ensures Encode([c] + rest) == EncodeChar(c) + Encode(rest)
  {
    assert ([c] + rest)[1..] == rest;
  }

  /** An overlong form, an encoded surrogate and a sequence above U+10FFFF
      are each refused. */
  lemma IllFormedRejections()
    ensures Decode([0xC0, 0x80]) == None
    ensures Decode([0xED, 0xA0, 0x80]) == None
    ensures Decode([0xF4, 0x90, 0x80, 0x80]) == None
  {
    assert HeadLength([0xC0, 0x80]) == 0;
    assert HeadLength([0xED, 0xA0, 0x80]) == 0;
    assert HeadLength([0xF4, 0x90, 0x80, 0x80]) == 0;
  }

  /** An ASCII text encodes to one byte per character, its code. */
  lemma {:induction false} EncodeAscii(s: string)
    requires AllAscii(s)
    ensures |Encode(s)| == |s|
    ensures forall i :: 0 <= i < |s| ==> Encode(s)[i] as int == s[i] as int
  {
    if |s| > 0 {
      EncodeAscii(s[1..]);
    }
  }
}
