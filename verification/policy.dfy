/** The output policy enforcer (src/monitors/policy.py): a response is a
    violation when it contains a banned phrase, compared case-insensitively;
    the reason names the first such phrase as it is written in the list. */
module Policy {
  import opened Text
  import opened FirstMatch

  /** `banned_output_keywords`, in list order and original casing. */
  const BannedPhrases: seq<string> := [
    "I can generate a bomb",
    "I can help you hack",
    "bypass security",
    "illegally",
    "unfiltered response",
    "DAN mode enabled"
  ]

  /** Whether banned phrase `phrase` occurs in `text`, ignoring case. */
  predicate Violates(phrase: string, text: string) {
    Contains(Lower(phrase), Lower(text))
  }

  function Reason(phrase: string): string {
    "Policy Violation: Response contained banned phrase '" + phrase + "'"
  }

  /** `PolicyEnforcer.validate_response`. */
  function ValidateResponse(text: string): (r: Detection)
    ensures r.Hit? <==> exists p :: p in BannedPhrases && Contains(Lower(p), Lower(text))
    ensures r.Hit? ==> exists i :: 0 <= i < |BannedPhrases|
                                   && r == Hit(Reason(BannedPhrases[i]))
                                   && Violates(BannedPhrases[i], text)
                                   && forall j :: 0 <= j < i ==> !Violates(BannedPhrases[j], text)
  {
    match First(BannedPhrases, p => Violates(p, text))
    case None => Clear
    case Some(i) => Hit(Reason(BannedPhrases[i]))
  }

  /** The verdict and the reason depend only on the lowered response, so
      changing the case of any letter changes neither. */
  lemma ValidateIgnoresCase(a: string, b: string)
    requires Lower(a) == Lower(b)
    ensures ValidateResponse(a) == ValidateResponse(b)
  {
    assert forall p :: Violates(p, a) == Violates(p, b);
    FirstCongruent(BannedPhrases, p => Violates(p, a), p => Violates(p, b));
  }

  /** An upper-case banned phrase is flagged, and the reason quotes the phrase
      as listed. */
  lemma ShoutedPhraseIsFlagged()
    ensures ValidateResponse("BYPASS SECURITY") == Hit(Reason("bypass security"))
  {
    var t := "BYPASS SECURITY";
    ShoutedPhraseLowered();
    assert Violates(BannedPhrases[2], t) by {
      ContainsWitness(Lower(BannedPhrases[2]), Lower(t), 0);
    }
    assert !Violates(BannedPhrases[0], t) && !Violates(BannedPhrases[1], t) by {
      LongPhrasesLowered();
      NotContainsSameLength(Lower(BannedPhrases[0]), Lower(t));
      NotContainsSameLength(Lower(BannedPhrases[1]), Lower(t));
    }
    ThirdPhraseWins(t);
  }

  lemma ShoutedPhraseLowered()
    ensures Lower("BYPASS SECURITY") == "bypass security"
    ensures Lower(BannedPhrases[2]) == "bypass security"
  {
  }

  lemma LongPhrasesLowered()
    ensures |Lower(BannedPhrases[0])| > 15 && |Lower(BannedPhrases[1])| > 15
  {
  }

  /** When only the third phrase of the first three is present, it is the
      one reported. */
  lemma ThirdPhraseWins(text: string)
    requires Violates(BannedPhrases[2], text)
    requires !Violates(BannedPhrases[0], text) && !Violates(BannedPhrases[1], text)
    ensures ValidateResponse(text) == Hit(Reason(BannedPhrases[2]))
  {
    var r := First(BannedPhrases, p => Violates(p, text));
    assert r.Some? && r.value <= 2;
    assert r.value != 0 && r.value != 1;
  }

  /** A mixed-case listed phrase is matched in any casing of the response. */
  lemma DanModeIsFlagged()
    ensures ValidateResponse("dan mode enabled").Hit?
  {
    var t := "dan mode enabled";
    assert Lower(t) == t;
    assert Lower(BannedPhrases[5]) == t;
    ContainsWitness(Lower(BannedPhrases[5]), Lower(t), 0);
  }
}
