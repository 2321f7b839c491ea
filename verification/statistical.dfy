/** The statistical analyser (src/analysis/statistical.py): Shannon entropy of
    the character distribution, and the length and word count of a text.

    `math.log2` is a parameter; the lemmas state what they need of it. Reals
    stand for Python floats. */
module Statistical {
  import opened Text

  /** Occurrences of `c` in `text`: `Counter(text)[c]`. */
  function Count(text: string, c: char): nat {
    multiset(text)[c]
  }

  predicate NoDuplicates(cs: seq<char>) {
    forall i, j :: 0 <= i < j < |cs| ==> cs[i] != cs[j]
  }

  /** The keys of `Counter(text)`, in order of first occurrence. */
  function Distinct(text: string): (r: seq<char>)
    ensures forall c :: c in r <==> c in text
    ensures NoDuplicates(r)
    decreases |text|
  {
    if |text| == 0 then []
    else
      var d := Distinct(text[..|text| - 1]);
      var last := text[|text| - 1];
      assert forall c :: c in text <==> c in text[..|text| - 1] || c == last by {
        assert text == text[..|text| - 1] + [last];
      }
      if last in d then d else d + [last]
  }

  /** Sum of the counts of the characters `cs`. */
  function SumCounts(cs: seq<char>, text: string): nat {
    if |cs| == 0 then 0 else Count(text, cs[0]) + SumCounts(cs[1..], text)
  }

  /** `count / total_len`. */
  function Probability(text: string, c: char): real
    requires |text| > 0
  {
    Count(text, c) as real / |text| as real
  }

  /** The `if p_x > 0` guarded summand `-p_x * log2(p_x)`. */
  function Term(p: real, log2: real -> real): real {
    if p > 0.0 then -p * log2(p) else 0.0
  }

  function Terms(cs: seq<char>, text: string, log2: real -> real): real
    requires |text| > 0
  {
    if |cs| == 0 then 0.0 else Term(Probability(text, cs[0]), log2) + Terms(cs[1..], text, log2)
  }

  /** `calculate_entropy(text)`; the empty text has entropy 0. */
  function Entropy(text: string, log2: real -> real): (e: real)
    ensures |text| == 0 ==> e == 0.0
  {
    if |text| == 0 then 0.0 else Terms(Distinct(text), text, log2)
  }

  /** What the lemmas need of `log2`: zero at one, never positive on (0, 1]. */
  ghost predicate IsLog2Like(log2: real -> real) {
    log2(1.0) == 0.0 && forall p :: 0.0 < p <= 1.0 ==> log2(p) <= 0.0
  }

  /** Adding one character to the text adds one to the count sum exactly
      when the character is listed. */
  lemma {:induction false} SumCountsAppend(cs: seq<char>, text: string, x: char)
    requires NoDuplicates(cs)
    ensures SumCounts(cs, text + [x]) == SumCounts(cs, text) + (if x in cs then 1 else 0)
  {
    if |cs| > 0 {
      SumCountsAppend(cs[1..], text, x);
      assert multiset(text + [x]) == multiset(text) + multiset{x};
      if cs[0] == x {
        assert x !in cs[1..];
      } else {
        assert x in cs <==> x in cs[1..];
      }
    }
  }

  /** The counts over a duplicate-free list covering every character of the
      text add up to the text's length. */
  lemma {:induction false} SumCountsCovering(cs: seq<char>, text: string)
    requires NoDuplicates(cs) && forall c :: c in text ==> c in cs
    ensures SumCounts(cs, text) == |text|
    decreases |text|
  {
    if |text| == 0 {
      SumCountsEmpty(cs);
    } else {
      var init := text[..|text| - 1];
      var x := text[|text| - 1];
      assert text == init + [x];
      SumCountsCovering(cs, init);
      SumCountsAppend(cs, init, x);
    }
  }

  lemma {:induction false} SumCountsEmpty(cs: seq<char>)
    ensures SumCounts(cs, []) == 0
  {
    if |cs| > 0 {
      SumCountsEmpty(cs[1..]);
    }
  }

  /** The counts of `Counter(text)` add up to `len(text)`. */
  lemma CountsSumToLength(text: string)
    ensures SumCounts(Distinct(text), text) == |text|
  {
    SumCountsCovering(Distinct(text), text);
  }

  function SumProbabilities(cs: seq<char>, text: string): real
    requires |text| > 0
  {
    if |cs| == 0 then 0.0 else Probability(text, cs[0]) + SumProbabilities(cs[1..], text)
  }

  lemma {:induction false} SumProbabilitiesIsRatio(cs: seq<char>, text: string)
    requires |text| > 0
    ensures SumProbabilities(cs, text) == SumCounts(cs, text) as real / |text| as real
  {
    if |cs| > 0 {
      SumProbabilitiesIsRatio(cs[1..], text);
      AddFractions(Count(text, cs[0]) as real, SumCounts(cs[1..], text) as real, |text| as real);
    }
  }

  lemma AddFractions(a: real, b: real, n: real)
    requires n > 0.0
    ensures a / n + b / n == (a + b) / n
  {
    var x, y := a / n, b / n;
    assert x * n == a && y * n == b;
    assert (x + y) * n == a + b;
  }

  /** The probabilities `p_x` of a non-empty text add up to one. */
  lemma ProbabilitiesSumToOne(text: string)
    requires |text| > 0
    ensures SumProbabilities(Distinct(text), text) == 1.0
  {
    var d := Distinct(text);
    CountsSumToLength(text);
    SumProbabilitiesIsRatio(d, text);
    SelfRatio(|text| as real);
  }

  lemma SelfRatio(n: real)
    requires n > 0.0
    ensures n / n == 1.0
  {
  }

  lemma CountAtMostLength(text: string, c: char)
    ensures Count(text, c) <= |text|
  {
    assert multiset(text)[c] <= |multiset(text)|;
  }

  /** A summand is never negative when `log2` is not positive on (0, 1]. */
  lemma TermNonNegative(p: real, log2: real -> real)
    requires IsLog2Like(log2) && p <= 1.0
    ensures Term(p, log2) >= 0.0
  {
    if p > 0.0 {
      var l := log2(p);
      assert l <= 0.0;
      assert -p * l == p * (-l);
    }
  }

  lemma {:induction false} TermsNonNegative(cs: seq<char>, text: string, log2: real -> real)
    requires |text| > 0 && IsLog2Like(log2)
    ensures Terms(cs, text, log2) >= 0.0
  {
    if |cs| > 0 {
      CountAtMostLength(text, cs[0]);
      TermNonNegative(Probability(text, cs[0]), log2);
      TermsNonNegative(cs[1..], text, log2);
    }
  }

  /** Entropy is never negative. */
  lemma EntropyNonNegative(text: string, log2: real -> real)
    requires IsLog2Like(log2)
    ensures Entropy(text, log2) >= 0.0
  {
    if |text| > 0 {
      TermsNonNegative(Distinct(text), text, log2);
    }
  }

  /** The only key of a text of one repeated character is that character. */
  lemma DistinctOfRepeated(text: string)
    requires |text| > 0
    requires forall i :: 0 <= i < |text| ==> text[i] == text[0]
    ensures Distinct(text) == [text[0]]
  {
    var d := Distinct(text);
    assert text[0] in d;
    forall i | 0 <= i < |d|
      ensures d[i] == text[0]
    {
      assert d[i] in text;
    }
    if |d| > 1 {
      assert false;
    }
  }

  /** In a text of one repeated character, that character occurs everywhere. */
  lemma CountOfRepeated(text: string)
    requires |text| > 0
    requires forall i :: 0 <= i < |text| ==> text[i] == text[0]
    ensures Count(text, text[0]) == |text|
  {
    DistinctOfRepeated(text);
    CountsSumToLength(text);
    assert SumCounts([text[0]], text) == Count(text, text[0]) + SumCounts([], text);
  }

  /** A text made of one repeated character has entropy 0. */
  lemma RepeatedCharacterHasNoEntropy(text: string, log2: real -> real)
    requires IsLog2Like(log2) && |text| > 0
    requires forall i :: 0 <= i < |text| ==> text[i] == text[0]
    ensures Entropy(text, log2) == 0.0
  {
    var c := text[0];
    DistinctOfRepeated(text);
    CountOfRepeated(text);
    SelfRatio(|text| as real);
    assert Probability(text, c) == 1.0;
    assert Terms([c], text, log2) == Term(1.0, log2) + Terms([], text, log2);
  }

  /** Length of the whitespace-free run at the front of `s`. */
  function RunLength(s: string): (n: nat)
    requires |s| > 0 && !IsSpace(s[0])
    ensures 1 <= n <= |s|
    ensures forall k :: 0 <= k < n ==> !IsSpace(s[k])
    ensures n == |s| || IsSpace(s[n])
    decreases |s|
  {
    if |s| == 1 || IsSpace(s[1]) then 1 else 1 + RunLength(s[1..])
  }

  /** `text.split()`: the maximal whitespace-free runs, in order. Every word
      is a non-empty whitespace-free run, and there is one word per position
      where such a run starts, so `len(text.split())` counts run starts. */
  function Split(s: string): (words: seq<string>)
    ensures forall w :: w in words ==> |w| > 0 && forall k :: 0 <= k < |w| ==> !IsSpace(w[k])
    ensures |words| == RunStarts(s, true)
    decreases |s|
  {
    if |s| == 0 then []
    else if IsSpace(s[0]) then Split(s[1..])
    else
      var n := RunLength(s);
      RunStartsInsideRun(s, 1, n);
      [s[..n]] + Split(s[n..])
  }

  /** Positions where a run starts: a non-whitespace character at the start
      of the text or after whitespace. `atStart` says whether the character
      before `s` was whitespace (or there was none). */
  function RunStarts(s: string, atStart: bool): nat
    decreases |s|
  {
    if |s| == 0 then 0
    else (if atStart && !IsSpace(s[0]) then 1 else 0) + RunStarts(s[1..], IsSpace(s[0]))
  }

  /** Inside a run no new run starts until after its end. */
  lemma {:induction false} RunStartsInsideRun(s: string, k: nat, n: nat)
    requires 1 <= k <= n <= |s|
    requires forall i :: 0 <= i < n ==> !IsSpace(s[i])
    requires n == |s| || IsSpace(s[n])
    ensures RunStarts(s[k..], false) == RunStarts(s[n..], true)
    decreases n - k
  {
    if k < n {
      assert s[k..][1..] == s[k + 1..];
      RunStartsInsideRun(s, k + 1, n);
    } else if n < |s| {
      assert s[n..][1..] == s[n + 1..];
    }
  }

  datatype Metrics = Metrics(entropy: real, length: nat, wordCount: nat)

  /** `get_token_metrics(text)`. */
  function TokenMetrics(text: string, log2: real -> real): (m: Metrics)
    ensures m.length == |text|
    ensures m.wordCount == RunStarts(text, true)
    ensures m.entropy == Entropy(text, log2)
  {
    Metrics(Entropy(text, log2), |text|, |Split(text)|)
  }

  lemma SplitSkipsSpace(s: string)
    requires |s| > 0 && IsSpace(s[0])
    ensures Split(s) == Split(s[1..])
  {
  }

  lemma SplitOfOneLetter(s: string)
    requires |s| == 1 && !IsSpace(s[0])
    ensures Split(s) == [s]
  {
    assert s[..1] == s && s[1..] == [];
  }

  lemma SplitLastWord()
    ensures Split(" \t c") == ["c"]
  {
    var s := " \t c";
    SplitSkipsSpace(s);
    SplitSkipsSpace(s[1..]);
    SplitSkipsSpace(s[2..]);
    assert s[1..][1..] == s[2..] && s[2..][1..] == s[3..];
    SplitOfOneLetter(s[3..]);
    assert s[3..] == "c";
  }

  /** Leading whitespace is dropped, and two words separated by a run of
      mixed whitespace come out as two words. */
  lemma TwoWords()
    ensures Split(" ab \t c") == ["ab", "c"]
  {
    LeadingSpace();
    SplitSkipsSpace(" ab \t c");
    FirstWordSplit();
    SplitLastWord();
  }

  lemma LeadingSpace()
    ensures IsSpace(" ab \t c"[0]) && " ab \t c"[1..] == "ab \t c"
  {
  }

  lemma FirstWordSplit()
    ensures Split("ab \t c") == ["ab"] + Split(" \t c")
  {
    FirstWordLength();
    SplitTakesWord("ab \t c", 2);
    FirstWordHalves();
  }

  lemma FirstWordHalves()
    ensures "ab \t c"[..2] == "ab" && "ab \t c"[2..] == " \t c"
  {
  }

  lemma SplitTakesWord(s: string, n: nat)
    requires |s| > 0 && !IsSpace(s[0]) && RunLength(s) == n
    ensures Split(s) == [s[..n]] + Split(s[n..])
  {
  }

  lemma FirstWordLength()
    ensures RunLength("ab \t c") == 2
  {
    var s := "ab \t c";
    assert !IsSpace(s[0]) && !IsSpace(s[1]) && IsSpace(s[2]);
    assert s[1..][1..] == s[2..];
    assert RunLength(s[1..]) == 1;
  }
}
