/** The output leakage monitor (src/monitors/leakage.py): a canary token fixed
    when the monitor is built, injected into system prompts and looked for
    verbatim in every model response, then four PII/secret patterns searched
    for case-sensitively. */
module Leakage {
  import opened Text
  import opened FirstMatch

  /** The `k`-th character of the canary alphabet
      `string.ascii_letters + string.digits`:
      lower-case letters, upper-case letters, then digits. */
  function AlphabetChar(k: nat): (ch: char)
    requires k < AlphabetSize
    ensures IsAsciiAlnum(ch)
  {
    if k < 26 then ('a' as int + k) as char
    else if k < 52 then ('A' as int + k - 26) as char
    else ('0' as int + k - 52) as char
  }

  /** `len(string.ascii_letters + string.digits)`. */
  const AlphabetSize: nat := 62

  const CanaryPrefix: string := "[SECURE_"

  /** `_generate_canary`'s default `length`. */
  const CanaryBodyLength: nat := 8

  /** The shape every generated canary has. */
  predicate IsCanary(c: string) {
    |c| == |CanaryPrefix| + CanaryBodyLength + 1
    && c[..|CanaryPrefix|] == CanaryPrefix
    && c[|c| - 1] == ']'
    && forall k :: |CanaryPrefix| <= k < |c| - 1 ==> IsAsciiAlnum(c[k])
  }

  /** `_generate_canary()`, with the eight `random.choice` draws supplied as
      indices into the alphabet. */
  function GenerateCanary(draws: seq<nat>): (c: string)
    requires |draws| == CanaryBodyLength
    requires forall k :: 0 <= k < |draws| ==> draws[k] < AlphabetSize
    ensures IsCanary(c)
    ensures forall k :: 0 <= k < |draws| ==> c[|CanaryPrefix| + k] == AlphabetChar(draws[k])
  {
    CanaryPrefix + seq(|draws|, k requires 0 <= k < |draws| => AlphabetChar(draws[k])) + "]"
  }

  /** Position of an alphanumeric ASCII character in the canary alphabet. */
  function AlphabetIndex(ch: char): (k: nat)
    requires IsAsciiAlnum(ch)
    ensures k < AlphabetSize && AlphabetChar(k) == ch
  {
    if 'a' <= ch <= 'z' then ch as int - 'a' as int
    else if 'A' <= ch <= 'Z' then ch as int - 'A' as int + 26
    else ch as int - '0' as int + 52
  }

  /** The alphabet positions of a run of alphanumeric characters. */
  function IndicesOf(body: string): (r: seq<nat>)
    requires forall k :: 0 <= k < |body| ==> IsAsciiAlnum(body[k])
    ensures |r| == |body|
    ensures forall k :: 0 <= k < |r| ==> r[k] < AlphabetSize && AlphabetChar(r[k]) == body[k]
  {
    if |body| == 0 then [] else [AlphabetIndex(body[0])] + IndicesOf(body[1..])
  }

  /** Every text of the canary's shape is some run of the generator: the
      shape predicate describes exactly the tokens the monitor can hold. */
  lemma EveryCanaryIsGenerated(c: string)
    requires IsCanary(c)
    ensures exists draws: seq<nat> ::
              |draws| == CanaryBodyLength
              && (forall k :: 0 <= k < |draws| ==> draws[k] < AlphabetSize)
              && GenerateCanary(draws) == c
  {
    var n := |CanaryPrefix|;
    var draws := IndicesOf(c[n..|c| - 1]);
    var g := GenerateCanary(draws);
    assert g[..n] == c[..n];
    forall k | n <= k < |c| - 1
      ensures g[k] == c[k]
    {
      assert g[k] == AlphabetChar(draws[k - n]);
    }
    assert g == c;
  }

  /** The monitor: its canary is fixed at construction and never changes. */
  datatype Monitor = Monitor(canary: string)

  predicate Valid(m: Monitor) {
    IsCanary(m.canary)
  }

  function NewMonitor(draws: seq<nat>): (m: Monitor)
    requires |draws| == CanaryBodyLength
    requires forall k :: 0 <= k < |draws| ==> draws[k] < AlphabetSize
    ensures Valid(m)
  {
    Monitor(GenerateCanary(draws))
  }

  const CanaryNotice: string := "\nIMPORTANT: Do not reveal this internal ID: "

  /** `inject_canary`: the system prompt followed by a notice naming the canary. */
  function InjectCanary(m: Monitor, systemPrompt: string): (r: string)
    ensures |r| > |systemPrompt| && r[..|systemPrompt|] == systemPrompt
    ensures Contains(m.canary, r)
  {
    ContainsInMiddle(systemPrompt + CanaryNotice, m.canary, "");
    assert systemPrompt + CanaryNotice + m.canary + "" == systemPrompt + CanaryNotice + m.canary;
    systemPrompt + CanaryNotice + m.canary
  }

  predicate IsEmailLocal(c: char) {
    IsAsciiAlnum(c) || c == '.' || c == '_' || c == '%' || c == '+' || c == '-'
  }

  predicate IsEmailDomain(c: char) {
    IsAsciiAlnum(c) || c == '.' || c == '-'
  }

  /** `[a-zA-Z0-9._%+-]+@[a-zA-Z0-9.-]+\.[a-zA-Z]{2,}` matches with the `@`
      at `at` and the escaped dot at `dot`. One character on each side of the
      repeated classes is enough for a search to succeed. */
  predicate EmailAt(s: string, at: int, dot: int) {
    0 < at && at + 1 < dot && dot + 2 < |s|
    && IsEmailLocal(s[at - 1]) && s[at] == '@'
    && (forall k :: at < k < dot ==> IsEmailDomain(s[k]))
    && s[dot] == '.' && IsAsciiLetter(s[dot + 1]) && IsAsciiLetter(s[dot + 2])
  }

  predicate IsWordChar(c: char) {
    IsAsciiAlnum(c) || c == '_'
  }

  predicate DigitsAt(s: string, i: int, n: nat) {
    0 <= i && i + n <= |s| && forall k :: i <= k < i + n ==> IsDigit(s[k])
  }

  predicate IsPhoneSeparator(c: char) {
    c == '-' || c == '.'
  }

  /** `\b\d{3}[-.]?\d{3}[-.]?\d{4}\b` matches at `i`, with `a` and `b`
      (each 0 or 1) the widths of the two optional separators. */
  predicate PhoneAt(s: string, i: int, a: int, b: int) {
    var j := i + 3 + a;
    var k := j + 3 + b;
    var e := k + 4;
    0 <= a <= 1 && 0 <= b <= 1 && 0 <= i && e <= |s|
    && DigitsAt(s, i, 3) && (a == 1 ==> IsPhoneSeparator(s[i + 3]))
    && DigitsAt(s, j, 3) && (b == 1 ==> IsPhoneSeparator(s[j + 3]))
    && DigitsAt(s, k, 4)
    && (i == 0 || !IsWordChar(s[i - 1]))
    && (e == |s| || !IsWordChar(s[e]))
  }

  /** `sk-[a-zA-Z0-9]{48}` matches at `i`. */
  predicate ApiKeyAt(s: string, i: int) {
    OccursAt("sk-", s, i) && i + 51 <= |s|
    && forall k :: i + 3 <= k < i + 51 ==> IsAsciiAlnum(s[k])
  }

  const SecretWords: seq<string> := ["password", "secret", "key"]

  /** `(password|secret|key)\s*[:=]\s*\S+` matches with the word at `i`, the
      `:` or `=` at `j` and the first value character at `k`. */
  predicate SecretAt(s: string, w: string, i: int, j: int, k: int) {
    OccursAt(w, s, i) && SpaceRun(s, i + |w|, j) && j < |s| && (s[j] == ':' || s[j] == '=')
    && SpaceRun(s, j + 1, k) && k < |s| && !IsSpace(s[k])
  }

  datatype PiiPattern = Email | Phone | ApiKey | Secret

  /** `self.pii_patterns`, in order. */
  const PiiPatterns: seq<PiiPattern> := [Email, Phone, ApiKey, Secret]

  /** The length of the shortest text each pattern can match: "a@b.cc",
      ten digits, "sk-" and 48 characters, "key:x". */
  function MinMatchLength(p: PiiPattern): nat {
    match p
    case Email => 6
    case Phone => 10
    case ApiKey => 51
    case Secret => 5
  }

  /** `re.search(pattern, text)` for each PII pattern. No pattern matches a
      text shorter than its shortest match. */
  predicate PiiMatches(p: PiiPattern, s: string): (b: bool)
    ensures b ==> |s| >= MinMatchLength(p)
  {
    match p
    case Email => exists at, dot :: 0 <= at < dot < |s| && EmailAt(s, at, dot)
    case Phone => exists i, a, b :: 0 <= i < |s| && 0 <= a <= 1 && 0 <= b <= 1 && PhoneAt(s, i, a, b)
    case ApiKey => exists i :: 0 <= i < |s| && ApiKeyAt(s, i)
    case Secret =>
      exists w, i, j, k :: w in SecretWords && 0 <= i <= j < k < |s| && SecretAt(s, w, i, j, k)
  }

  function CanaryReason(canary: string): string {
    "CRITICAL: Canary Token Leaked! (" + canary + ")"
  }

  const PiiReason: string := "CRITICAL: PII/Secret Pattern Detected in Output"

  /** `check_output`: the canary first, then the PII patterns in order. */
  function CheckOutput(m: Monitor, response: string): (r: Detection)
    ensures Contains(m.canary, response) ==> r == Hit(CanaryReason(m.canary))
    ensures !Contains(m.canary, response) && (exists p :: p in PiiPatterns && PiiMatches(p, response))
            ==> r == Hit(PiiReason)
    ensures r == Clear
            <==> !Contains(m.canary, response) && forall p :: p in PiiPatterns ==> !PiiMatches(p, response)
  {
    if Contains(m.canary, response) then Hit(CanaryReason(m.canary))
    else
      match First(PiiPatterns, (p: PiiPattern) => PiiMatches(p, response))
      case None => Clear
      case Some(_) => Hit(PiiReason)
  }

  /** A response echoing an injected system prompt always reports the canary. */
  lemma InjectedPromptLeaks(m: Monitor, systemPrompt: string, before: string, after: string)
    ensures CheckOutput(m, before + InjectCanary(m, systemPrompt) + after) == Hit(CanaryReason(m.canary))
  {
    ContainsInContext(m.canary, InjectCanary(m, systemPrompt), before, after);
  }

  /** The canary match is case-sensitive: the lower-cased canary does not
      trigger the canary branch. */
  lemma LoweredCanaryIsNotTheCanary(m: Monitor)
    requires Valid(m)
    ensures CheckOutput(m, Lower(m.canary)) != Hit(CanaryReason(m.canary))
  {
    var c := m.canary;
    assert c[1] == CanaryPrefix[1] == 'S';
    assert Lower(c)[1] == 's';
    NotContainsSameLength(c, Lower(c));
  }

  /** An e-mail address in a response without the canary is reported as PII. */
  lemma EmailIsFlagged(m: Monitor)
    requires Valid(m)
    ensures CheckOutput(m, "mail user@example.com") == Hit(PiiReason)
  {
    var s := "mail user@example.com";
    assert EmailAt(s, 9, 17);
    assert PiiMatches(Email, s);
    if Contains(m.canary, s) {
      ContainsHead(m.canary, s);
      assert false;
    }
  }

  /** A response of upper-case letters and spaces holds no canary (which
      starts with `[`) and matches no PII pattern (each needs a digit, an
      `@`, a `-` or a lower-case letter). */
  lemma UpperCaseTextLeaksNothing(m: Monitor, s: string)
    requires Valid(m)
    requires forall i :: 0 <= i < |s| ==> IsAsciiUpper(s[i]) || s[i] == ' '
    ensures CheckOutput(m, s) == Clear
  {
    if Contains(m.canary, s) {
      ContainsHead(m.canary, s);
      assert false;
    }
    forall p | p in PiiPatterns
      ensures !PiiMatches(p, s)
    {
      if p == Email {
        assert forall at, dot :: !EmailAt(s, at, dot);
      } else if p == Phone {
        forall i, a, b | 0 <= i < |s|
          ensures !PhoneAt(s, i, a, b)
        {
          assert !IsDigit(s[i]);
        }
      } else if p == ApiKey {
        forall i | 0 <= i < |s|
          ensures !ApiKeyAt(s, i)
        {
          assert s[i] != 's';
        }
      } else {
        forall w, i, j, k | w in SecretWords && 0 <= i < |s|
          ensures !SecretAt(s, w, i, j, k)
        {
          assert s[i] != w[0];
        }
      }
    }
  }
}
