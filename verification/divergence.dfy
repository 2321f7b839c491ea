/** The input mutator of the divergence analyser (src/analysis/divergence.py,
    `mutate_input`): a number of random swap/delete edits on the prompt's
    characters.

    The random source is an oracle: one `Choice` per step, standing for the
    `random.randint` index and the `random.choice` operation that step draws.
    The drawn index is taken modulo the current length, which covers exactly
    the range `randint(0, len(chars) - 1)` can return. */
module Divergence {

  /** The constructor's default `mutation_rate`. */
  const DefaultMutationRate: real := 0.1

  /** A delete happens only while the text is longer than this. */
  const MinDeleteLength: nat := 5

  datatype Op = Swap | Delete

  datatype Choice = Choice(index: nat, op: Op)

  /** Python's `int(x)` on a float: truncation toward zero. */
  function Truncate(x: real): (n: int)
    ensures x >= 0.0 ==> n as real <= x < n as real + 1.0
    ensures x < 0.0 ==> n as real - 1.0 < x <= n as real
  {
    if x >= 0.0 then x.Floor else -((-x).Floor)
  }

  /** `max(1, int(len(chars) * mutation_rate))`. */
  function NumMutations(length: nat, rate: real): (n: nat)
    ensures n >= 1
    ensures n == 1 || n as real <= length as real * rate < n as real + 1.0
  {
    var t := Truncate(length as real * rate);
    if t < 1 then 1 else t
  }

  /** Exchange position `i` with its right neighbour, wrapping to the front. */
  function SwapNext(chars: seq<char>, i: nat): (r: seq<char>)
    requires i < |chars|
    ensures |r| == |chars|
    ensures multiset(r) == multiset(chars)
    ensures var j := (i + 1) % |chars|;
            r[i] == chars[j] && r[j] == chars[i]
            && forall k :: 0 <= k < |chars| && k != i && k != j ==> r[k] == chars[k]
  {
    var j := (i + 1) % |chars|;
    chars[i := chars[j]][j := chars[i]]
  }

  /** One loop iteration on a list of at least two characters. */
  function Apply(chars: seq<char>, c: Choice): (r: seq<char>)
    requires |chars| >= 2
    ensures c.op == Swap ==> r == SwapNext(chars, c.index % |chars|)
    ensures c.op == Delete && |chars| <= MinDeleteLength ==> r == chars
    ensures c.op == Swap || |chars| <= MinDeleteLength ==> |r| == |chars| && multiset(r) == multiset(chars)
    ensures c.op == Delete && |chars| > MinDeleteLength
            ==> var i := c.index % |chars|;
                r == chars[..i] + chars[i + 1..] && multiset(r) + multiset{chars[i]} == multiset(chars)
  {
    var i := c.index % |chars|;
    match c.op
    case Swap => SwapNext(chars, i)
    case Delete =>
      if |chars| > MinDeleteLength then
        assert chars == chars[..i] + [chars[i]] + chars[i + 1..];
        chars[..i] + chars[i + 1..]
      else chars
  }

  /** The first `steps` iterations of the loop, drawing from `oracle`; the
      loop stops early once fewer than two characters remain. */
  function Run(chars: seq<char>, oracle: seq<Choice>, steps: nat): (r: seq<char>)
    requires |oracle| >= steps
    ensures |r| <= |chars|
    ensures |r| >= |chars| - steps
    ensures |r| >= if |chars| < MinDeleteLength then |chars| else MinDeleteLength
    ensures multiset(r) <= multiset(chars)
    ensures |r| == |chars| ==> multiset(r) == multiset(chars)
    ensures (forall k :: 0 <= k < steps ==> oracle[k].op == Swap) ==> |r| == |chars|
    decreases steps
  {
    if steps == 0 || |chars| < 2 then chars
    else
      var next := Apply(chars, oracle[0]);
      assert forall k :: 0 <= k < steps - 1 ==> oracle[1..][k] == oracle[k + 1];
      Run(next, oracle[1..], steps - 1)
  }

  /** `DivergenceAnalyzer(mutation_rate).mutate_input(text)`. */
  function MutateInput(text: string, rate: real, oracle: seq<Choice>): (r: string)
    requires |oracle| >= NumMutations(|text|, rate)
    ensures |text| < 2 ==> r == text
    ensures |text| - NumMutations(|text|, rate) <= |r| <= |text|
    ensures |r| >= if |text| < MinDeleteLength then |text| else MinDeleteLength
    ensures multiset(r) <= multiset(text)
    ensures |r| == |text| ==> multiset(r) == multiset(text)
  {
    Run(text, oracle, NumMutations(|text|, rate))
  }

  /** A run of swaps only is a permutation of the input. */
  lemma SwapsArePermutation(text: string, rate: real, oracle: seq<Choice>)
    requires |oracle| >= NumMutations(|text|, rate)
    requires forall k :: 0 <= k < |oracle| ==> oracle[k].op == Swap
    ensures multiset(MutateInput(text, rate, oracle)) == multiset(text)
  {
  }

  /** Swapping the same position twice restores the text. */
  lemma SwapNextTwice(chars: seq<char>, i: nat)
    requires i < |chars|
    ensures SwapNext(SwapNext(chars, i), i) == chars
  {
    var j := (i + 1) % |chars|;
    var once := SwapNext(chars, i);
    var twice := SwapNext(once, i);
    forall k | 0 <= k < |chars|
      ensures twice[k] == chars[k]
    {
      if k == i || k == j {
      } else {
        assert once[k] == chars[k];
      }
    }
  }

  /** At the default rate a text shorter than twenty characters gets one
      mutation; a 25-character text gets two. */
  lemma DefaultRateSteps()
    ensures NumMutations(19, DefaultMutationRate) == 1
    ensures NumMutations(25, DefaultMutationRate) == 2
  {
    assert (19 as real * 0.1).Floor == 1;
    assert (25 as real * 0.1).Floor == 2;
  }

  /** A delete on a six-character text removes the drawn character; on a
      five-character text it does nothing. */
  lemma DeleteNeedsSixCharacters()
    ensures Apply("abcdef", Choice(0, Delete)) == "bcdef"
    ensures Apply("abcde", Choice(0, Delete)) == "abcde"
  {
  }

  /** The swap at the last position wraps around to the first character. */
  lemma SwapWrapsAround()
    ensures Apply("abc", Choice(2, Swap)) == "cba"
  {
  }
}
