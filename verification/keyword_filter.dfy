/** The keyword blocklist (src/filters/keyword_filter.py): case-insensitive
    substring search for known jailbreak phrases, first entry in list order wins. */
module KeywordFilter {
  import opened Text
  import opened FirstMatch

  const Blocklist: seq<string> := [
    "ignore previous instructions",
    "ignore all instructions",
    "system prompt",
    "you are not a language model",
    "do anything now",
    "dan mode",
    "jailbreak",
    "unfiltered",
    "never refuse",
    "act as an adversary",
    "admin access",
    "developer mode"
  ]

  /** Whether blocklist entry `keyword` fires on `text`. */
  predicate Fires(keyword: string, text: string) {
    Contains(keyword, Lower(text))
  }

  /** `KeywordFilter.scan`: the first blocklist entry occurring in the lowered
      text, or Clear. */
  function Scan(text: string): (r: Detection)
    ensures r.Hit? <==> exists k :: k in Blocklist && Contains(k, Lower(text))
    ensures r.Hit? ==> r.detail in Blocklist && Contains(r.detail, Lower(text))
    ensures r.Hit? ==> exists i :: 0 <= i < |Blocklist| && Blocklist[i] == r.detail
                                   && forall j :: 0 <= j < i ==> !Fires(Blocklist[j], text)
  {
    match First(Blocklist, k => Fires(k, text))
    case None => Clear
    case Some(i) => Hit(Blocklist[i])
  }

  /** Every blocklist entry is already lower case. */
  lemma BlocklistIsLower()
    ensures forall k :: k in Blocklist ==> IsLower(k)
  {
    forall i | 0 <= i < |Blocklist|
      ensures IsLower(Blocklist[i])
    {
      LowerEntry(i);
    }
  }

  /** One entry at a time. The twelve entries are checked in four groups of
      three only to keep each proof small for the solver; the groups say
      nothing beyond `LowerEntry`. */
  lemma LowerEntry(i: nat)
    requires i < |Blocklist|
    ensures IsLower(Blocklist[i])
  {
    if i < 3 { LowerEntriesFrom0(i); }
    else if i < 6 { LowerEntriesFrom3(i); }
    else if i < 9 { LowerEntriesFrom6(i); }
    else { LowerEntriesFrom9(i); }
  }

  lemma LowerEntriesFrom0(i: nat)
    requires 0 <= i < 3
    ensures IsLower(Blocklist[i])
  {
    if i == 0 { assert IsLower(Blocklist[0]); }
    else if i == 1 { assert IsLower(Blocklist[1]); }
    else { assert IsLower(Blocklist[2]); }
  }

  lemma LowerEntriesFrom3(i: nat)
    requires 3 <= i < 6
    ensures IsLower(Blocklist[i])
  {
    if i == 3 { assert IsLower(Blocklist[3]); }
    else if i == 4 { assert IsLower(Blocklist[4]); }
    else { assert IsLower(Blocklist[5]); }
  }

  lemma LowerEntriesFrom6(i: nat)
    requires 6 <= i < 9
    ensures IsLower(Blocklist[i])
  {
    if i == 6 { assert IsLower(Blocklist[6]); }
    else if i == 7 { assert IsLower(Blocklist[7]); }
    else { assert IsLower(Blocklist[8]); }
  }

  lemma LowerEntriesFrom9(i: nat)
    requires 9 <= i < 12
    ensures IsLower(Blocklist[i])
  {
    if i == 9 { assert IsLower(Blocklist[9]); }
    else if i == 10 { assert IsLower(Blocklist[10]); }
    else { assert IsLower(Blocklist[11]); }
  }

  /** Because every entry is lower case, lowering only the text is the same as
      comparing entry and text case-insensitively. */
  lemma ScanIsCaseInsensitiveMatch(text: string)
    ensures Scan(text).Hit? <==> exists k :: k in Blocklist && Contains(Lower(k), Lower(text))
  {
    BlocklistIsLower();
    forall k | k in Blocklist
      ensures Lower(k) == k
    {
      LowerOfLower(k);
    }
  }

  /** Upper-casing parts of the text never changes the verdict or the keyword
      reported: the scan sees only the lowered text. */
  lemma ScanIgnoresCase(text: string)
    ensures Scan(text) == Scan(Lower(text))
  {
    LowerIdempotent(text);
  }

  /** An upper-case attack phrase is caught as its lower-case form is. */
  lemma ShoutedPhraseIsCaught()
    ensures Scan("IGNORE PREVIOUS INSTRUCTIONS") == Hit("ignore previous instructions")
  {
    var t := "IGNORE PREVIOUS INSTRUCTIONS";
    assert Contains(Blocklist[0], Lower(t)) by {
      ShoutedPhraseLowered();
      ContainsWitness(Blocklist[0], Lower(t), 0);
    }
    FirstEntryWins(t);
  }

  lemma ShoutedPhraseLowered()
    ensures Lower("IGNORE PREVIOUS INSTRUCTIONS") == "ignore previous instructions"
  {
  }

  /** A text containing the first entry is reported with that entry. */
  lemma FirstEntryWins(text: string)
    requires Contains(Blocklist[0], Lower(text))
    ensures Scan(text) == Hit(Blocklist[0])
  {
    assert Fires(Blocklist[0], text);
  }
}
