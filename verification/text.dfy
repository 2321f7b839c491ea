/** Characters, strings and bytes as the detectors see them.

    A Python `str` is modelled as a Dafny `string`, a sequence of Unicode
    scalar values; a `str` holding lone surrogates has no counterpart (see
    README). Whitespace follows Python's `str.isspace` (also the set that
    `re`'s `\s`, `str.split()` and `str.strip()` use for `str` arguments).
    Lower-casing and printability are exact on ASCII; see README for the
    approximation above ASCII. */
module Text {

  newtype byte = x: int | 0 <= x < 256

  /** Python's `str.isspace` for a single character. */
  predicate IsSpace(c: char) {
    var n := c as int;
    (9 <= n <= 13) || (28 <= n <= 32) || n == 0x85 || n == 0xA0 || n == 0x1680
    || (0x2000 <= n <= 0x200A) || n == 0x2028 || n == 0x2029 || n == 0x202F
    || n == 0x205F || n == 0x3000
  }

  /** Visible ASCII characters are not whitespace. */
  lemma VisibleAsciiNotSpace(c: char)
    requires '!' <= c <= '~'
    ensures !IsSpace(c)
  {
  }

  predicate IsAscii(c: char) {
    c as int < 128
  }

  predicate AllAscii(s: string) {
    forall i :: 0 <= i < |s| ==> IsAscii(s[i])
  }

  predicate IsAsciiUpper(c: char) {
    'A' <= c <= 'Z'
  }

  predicate IsAsciiLetter(c: char) {
    'A' <= c <= 'Z' || 'a' <= c <= 'z'
  }

  predicate IsDigit(c: char) {
    '0' <= c <= '9'
  }

  predicate IsAsciiAlnum(c: char) {
    IsAsciiLetter(c) || IsDigit(c)
  }

  /** `str.isprintable` for one character: exact on ASCII (0x20..0x7E). Above
      ASCII the C1 controls, the non-ASCII separators, the common format
      characters and the private-use areas are rejected; everything else is
      taken as printable. */
  predicate IsPrintable(c: char) {
    var n := c as int;
    if n < 128 then 0x20 <= n < 0x7F
    else
      !(0x80 <= n <= 0xA0) && n != 0xAD && !IsSpace(c)
      && !(0x200B <= n <= 0x200F) && !(0x2028 <= n <= 0x202E)
      && !(0x2060 <= n <= 0x206F) && n != 0xFEFF
      && !(0xE000 <= n <= 0xF8FF) && n < 0xF0000
  }

  /** Python's `str.lower()` on one character, ASCII letters only. */
  function LowerChar(c: char): (r: char)
    ensures IsAsciiUpper(c) ==> r as int == c as int + 32
    ensures !IsAsciiUpper(c) ==> r == c
    ensures !IsAsciiUpper(r)
  {
    if IsAsciiUpper(c) then (c as int + 32) as char else c
  }

  function Lower(s: string): (r: string)
    ensures |r| == |s|
    ensures forall i :: 0 <= i < |s| ==> r[i] == LowerChar(s[i])
  {
    seq(|s|, i requires 0 <= i < |s| => LowerChar(s[i]))
  }

  /** A string none of whose characters an ASCII lower-casing would change. */
  predicate IsLower(s: string) {
    forall i :: 0 <= i < |s| ==> !IsAsciiUpper(s[i])
  }

  lemma LowerIsLower(s: string)
    ensures IsLower(Lower(s))
  {
  }

  /** Lower-casing an already lower-case string changes nothing, so lowering is
      idempotent. */
  lemma LowerOfLower(s: string)
    requires IsLower(s)
    ensures Lower(s) == s
  {
  }

  lemma LowerIdempotent(s: string)
    ensures Lower(Lower(s)) == Lower(s)
  {
    LowerIsLower(s);
    LowerOfLower(Lower(s));
  }

  /** `needle` occurs in `hay` starting at position `i`. */
  predicate OccursAt(needle: string, hay: string, i: int) {
    0 <= i && i + |needle| <= |hay| && hay[i..i + |needle|] == needle
  }

  /** Python's `needle in hay` on strings. */
  predicate Contains(needle: string, hay: string) {
    exists i :: 0 <= i <= |hay| && OccursAt(needle, hay, i)
  }

  lemma ContainsWitness(needle: string, hay: string, i: int)
    requires OccursAt(needle, hay, i)
    ensures Contains(needle, hay)
  {
  }

  /** Any string contains itself, and a string contains what its parts contain. */
  lemma ContainsInMiddle(a: string, needle: string, b: string)
    ensures Contains(needle, a + needle + b)
  {
    assert (a + needle + b)[|a|..|a| + |needle|] == needle;
    ContainsWitness(needle, a + needle + b, |a|);
  }

  /** What a text contains, any text around it contains too. */
  lemma ContainsInContext(needle: string, mid: string, a: string, b: string)
    requires Contains(needle, mid)
    ensures Contains(needle, a + mid + b)
  {
    var i :| 0 <= i <= |mid| && OccursAt(needle, mid, i);
    assert (a + mid + b)[|a| + i..|a| + i + |needle|] == mid[i..i + |needle|];
    ContainsWitness(needle, a + mid + b, |a| + i);
  }

  /** A needle cannot occur in a shorter text, nor in an equally long text it
      differs from. */
  lemma NotContainsSameLength(needle: string, hay: string)
    requires |hay| <= |needle| && hay != needle
    ensures !Contains(needle, hay)
  {
  }

  /** Positions `a` up to `b` of `t` are all whitespace (a run of `\s`). */
  predicate SpaceRun(t: string, a: int, b: int) {
    0 <= a <= b <= |t| && forall k :: a <= k < b ==> IsSpace(t[k])
  }

  /** A needle occurring somewhere has its first character somewhere. */
  lemma ContainsHead(needle: string, hay: string)
    requires |needle| > 0 && Contains(needle, hay)
    ensures exists i :: 0 <= i < |hay| && hay[i] == needle[0]
  {
    var i :| 0 <= i <= |hay| && OccursAt(needle, hay, i);
    assert hay[i] == hay[i..i + |needle|][0];
  }

  /** Python's `s.endswith(suffix)`. */
  predicate EndsWith(s: string, suffix: string) {
    |suffix| <= |s| && s[|s| - |suffix|..] == suffix
  }

  /** `s.lstrip()`: the suffix left after dropping leading whitespace. */
  function TrimStart(s: string): (r: string)
    ensures |r| <= |s| && r == s[|s| - |r|..]
    ensures |r| > 0 ==> !IsSpace(r[0])
    ensures forall k :: 0 <= k < |s| - |r| ==> IsSpace(s[k])
  {
    if |s| > 0 && IsSpace(s[0]) then TrimStart(s[1..]) else s
  }

  /** `s.rstrip()`: the prefix left after dropping trailing whitespace. */
  function TrimEnd(s: string): (r: string)
    ensures |r| <= |s| && r == s[..|r|]
    ensures |r| > 0 ==> !IsSpace(r[|r| - 1])
    ensures forall k :: |r| <= k < |s| ==> IsSpace(s[k])
  {
    if |s| > 0 && IsSpace(s[|s| - 1]) then TrimEnd(s[..|s| - 1]) else s
  }

  /** Python's `s.strip()`: the slice left after dropping whitespace at both
      ends; it neither starts nor ends with whitespace. */
  function Strip(s: string): (r: string)
    ensures |r| > 0 ==> !IsSpace(r[0]) && !IsSpace(r[|r| - 1])
    ensures exists i :: OccursAt(r, s, i) && (forall k :: 0 <= k < i ==> IsSpace(s[k]))
                        && (forall k :: i + |r| <= k < |s| ==> IsSpace(s[k]))
  {
    var t := TrimStart(s);
    SliceBetweenSpaces(s, t, TrimEnd(t));
    TrimEnd(t)
  }

  /** A prefix `r` of a suffix `t` of `s`, with only whitespace cut off on
      either side, occurs in `s` where `t` starts. */
  lemma SliceBetweenSpaces(s: string, t: string, r: string)
    requires |t| <= |s| && t == s[|s| - |t|..] && |r| <= |t| && r == t[..|r|]
    requires forall k :: 0 <= k < |s| - |t| ==> IsSpace(s[k])
    requires forall k :: |r| <= k < |t| ==> IsSpace(t[k])
    ensures exists i :: OccursAt(r, s, i) && (forall k :: 0 <= k < i ==> IsSpace(s[k]))
                        && (forall k :: i + |r| <= k < |s| ==> IsSpace(s[k]))
  {
    var i := |s| - |t|;
    SliceOfSuffix(s, i, |r|);
    forall k | i + |r| <= k < |s|
      ensures IsSpace(s[k])
    {
      assert s[k] == t[k - i];
    }
    assert OccursAt(r, s, i);
  }

  lemma SliceOfSuffix(s: string, i: nat, n: nat)
    requires i + n <= |s|
    ensures s[i..][..n] == s[i..i + n]
  {
  }

  /** A text that neither starts nor ends with whitespace is its own strip. */
  lemma StripUnchanged(s: string)
    requires |s| > 0 ==> !IsSpace(s[0]) && !IsSpace(s[|s| - 1])
    ensures Strip(s) == s
  {
  }

  /** A text of whitespace only strips to nothing. */
  lemma BlankStripsToEmpty(s: string)
    requires forall k :: 0 <= k < |s| ==> IsSpace(s[k])
    ensures Strip(s) == []
  {
    BlankTrimsToEmpty(s);
  }

  lemma {:induction false} BlankTrimsToEmpty(s: string)
    requires forall k :: 0 <= k < |s| ==> IsSpace(s[k])
    ensures TrimStart(s) == []
  {
    if |s| > 0 {
      assert forall k :: 0 <= k < |s| - 1 ==> s[1..][k] == s[k + 1];
      BlankTrimsToEmpty(s[1..]);
    }
  }
}
