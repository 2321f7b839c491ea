/** The shape every string detector in the firewall shares: walk an ordered rule
    list and stop at the first rule that fires. List order is priority. */
module FirstMatch {

  datatype Option<T> = None | Some(value: T)

  /** What a detector returns: Python's `(False, None)` or `(True, detail)`. */
  datatype Detection = Clear | Hit(detail: string) {
    predicate Triggered() {
      Hit?
    }
  }

  /** Index of the first element of `xs` satisfying `p`, if any. */
  function First<T>(xs: seq<T>, p: T -> bool): (r: Option<nat>)
    ensures r.Some? ==> r.value < |xs| && p(xs[r.value])
    ensures r.Some? ==> forall j :: 0 <= j < r.value ==> !p(xs[j])
    ensures r.None? <==> forall j :: 0 <= j < |xs| ==> !p(xs[j])
  {
    if |xs| == 0 then None
    else if p(xs[0]) then Some(0)
    else
      match First(xs[1..], p)
      case None => None
      case Some(i) => Some(i + 1)
  }

  /** The first match depends only on which elements satisfy the predicate. */
  lemma {:induction false} FirstCongruent<T>(xs: seq<T>, p: T -> bool, q: T -> bool)
    requires forall j :: 0 <= j < |xs| ==> (p(xs[j]) <==> q(xs[j]))
    ensures First(xs, p) == First(xs, q)
  {
    if |xs| > 0 && !p(xs[0]) {
      FirstCongruent(xs[1..], p, q);
    }
  }
}
