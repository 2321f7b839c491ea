/** The regex rule engine (src/filters/regexfilters.py). Each of the eleven
    patterns is searched for with `re.IGNORECASE`; the first pattern in list
    order that is found anywhere in the text decides the detail message.

    The patterns are hand-coded: `import\s+os` and `import\s+sys` need one or
    more whitespace characters between the two words, every other pattern is a
    plain substring once its escapes are removed. Ignoring case is modelled as
    comparing the lowered pattern against the lowered text. */
module RegexFilter {
  import opened Text
  import opened FirstMatch

  datatype Pattern =
    | ImportWord(word: string)   // `import\s+<word>`
    | Literal(needle: string)    // an escaped literal, escapes removed

  /** A rule keeps the pattern's source text, which the detail message quotes. */
  datatype Rule = Rule(source: string, pattern: Pattern)

  const Rules: seq<Rule> := [
    Rule("import\\s+os", ImportWord("os")),
    Rule("import\\s+sys", ImportWord("sys")),
    Rule("os\\.system\\(", Literal("os.system(")),
    Rule("subprocess\\.", Literal("subprocess.")),
    Rule("exec\\(", Literal("exec(")),
    Rule("eval\\(", Literal("eval(")),
    Rule("<script>", Literal("<script>")),
    Rule("javascript:", Literal("javascript:")),
    Rule("\\/jailbreak", Literal("/jailbreak")),
    Rule("\\[System Mode\\]", Literal("[System Mode]")),
    Rule("ADMIN_Override", Literal("ADMIN_Override"))
  ]

  /** `import\s+<word>` matches `t` with "import" at `i` and `<word>` at `j`. */
  predicate ImportAt(t: string, word: string, i: int, j: int) {
    OccursAt("import", t, i) && i + 6 < j && SpaceRun(t, i + 6, j) && OccursAt(word, t, j)
  }

  /** `re.search(pattern, t)` without the case flag, on an already lowered `t`. */
  predicate MatchesLowered(p: Pattern, t: string) {
    match p
    case ImportWord(w) => exists i, j :: 0 <= i < j <= |t| && ImportAt(t, w, i, j)
    case Literal(s) => Contains(Lower(s), t)
  }

  /** `re.search(pattern, text, re.IGNORECASE)`. */
  predicate Matches(p: Pattern, text: string) {
    MatchesLowered(p, Lower(text))
  }

  function Detail(r: Rule): string {
    "Regex Match: Detected suspicious pattern '" + r.source + "'"
  }

  /** `RegexRuleEngine.scan`. */
  function Scan(text: string): (r: Detection)
    ensures r.Hit? <==> exists i :: 0 <= i < |Rules| && Matches(Rules[i].pattern, text)
    ensures r.Hit? ==> exists i :: 0 <= i < |Rules| && Matches(Rules[i].pattern, text)
                                   && r.detail == Detail(Rules[i])
                                   && forall j :: 0 <= j < i ==> !Matches(Rules[j].pattern, text)
  {
    match First(Rules, (rule: Rule) => Matches(rule.pattern, text))
    case None => Clear
    case Some(i) => Hit(Detail(Rules[i]))
  }

  /** The verdict and the reported pattern do not change when letters of the
      text change case. */
  lemma ScanIgnoresCase(a: string, b: string)
    requires Lower(a) == Lower(b)
    ensures Scan(a) == Scan(b)
  {
  }

  /** The first index at or after `k` that is not whitespace. */
  function SkipSpaces(t: string, k: nat): (r: nat)
    requires k <= |t|
    ensures k <= r <= |t| && SpaceRun(t, k, r)
    ensures r < |t| ==> !IsSpace(t[r])
    decreases |t| - k
  {
    if k < |t| && IsSpace(t[k]) then SkipSpaces(t, k + 1) else k
  }

  /** A backtracking-free matcher for `import\s+<word>` at `i`: consume the
      whole whitespace run, then look for the word. */
  predicate GreedyImportAt(t: string, word: string, i: nat) {
    OccursAt("import", t, i) && i + 6 < |t| && IsSpace(t[i + 6])
    && OccursAt(word, t, SkipSpaces(t, i + 6))
  }

  /** Because neither "os" nor "sys" starts with whitespace, `\s+` can only
      end where the whitespace run ends, so greedy matching finds exactly the
      matches the pattern has. */
  lemma GreedyImportExact(t: string, word: string, i: nat)
    requires |word| > 0 && !IsSpace(word[0])
    ensures GreedyImportAt(t, word, i) <==> exists j :: i < j <= |t| && ImportAt(t, word, i, j)
  {
    if GreedyImportAt(t, word, i) {
      var j := SkipSpaces(t, i + 6);
      assert ImportAt(t, word, i, j);
    }
    if exists j :: i < j <= |t| && ImportAt(t, word, i, j) {
      var j :| i < j <= |t| && ImportAt(t, word, i, j);
      var m := SkipSpaces(t, i + 6);
      assert t[j] == word[0];
      assert m == j;
    }
  }

  /** `import os` with any whitespace between the words is caught, whatever
      the case; the words run together are not. */
  lemma ImportNeedsWhitespace()
    ensures Scan("IMPORT \t os").Hit?
    ensures !Matches(ImportWord("os"), "importos")
  {
    var t := Lower("IMPORT \t os");
    assert t == "import \t os";
    assert ImportAt(t, "os", 0, 9);
    assert Matches(Rules[0].pattern, "IMPORT \t os");
    var u := Lower("importos");
    assert u == "importos";
  }
}
