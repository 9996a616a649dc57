/** The "scan in document order, stop at the first hit" loop that the code
    uses twice: once over the listing page's anchors and once over the
    detail page's divs. */
module Search {
  import opened Wrappers

  /** `i` is the position of the first element of `s` satisfying `p`. */
  predicate IsFirst<T>(s: seq<T>, p: T -> bool, i: int) {
    0 <= i < |s| && p(s[i]) && forall j :: 0 <= j < i ==> !p(s[j])
  }

  /** The first position whose element satisfies `p`, or `None` when no
      element does. */
  function FirstIndex<T>(s: seq<T>, p: T -> bool): (r: Option<nat>)
    ensures r.Some? ==> IsFirst(s, p, r.value)
    ensures r.None? <==> forall j :: 0 <= j < |s| ==> !p(s[j])
  {
    if |s| == 0 then None
    else if p(s[0]) then Some(0)
    else match FirstIndex(s[1..], p)
      case None => None
      case Some(k) => Some(k + 1)
  }

  /** There is only one first position. */
  lemma FirstUnique<T>(s: seq<T>, p: T -> bool, i: int, j: int)
    requires IsFirst(s, p, i) && IsFirst(s, p, j)
    ensures i == j
  {
  }

  /** Anything after the first hit is never looked at: once a prefix
      contains a hit, appending more elements changes nothing. */
  lemma {:induction false} FirstIndexPrefix<T>(a: seq<T>, b: seq<T>, p: T -> bool)
    requires exists j :: 0 <= j < |a| && p(a[j])
    ensures FirstIndex(a + b, p) == FirstIndex(a, p)
  {
    var i := FirstIndex(a, p).value;
    assert (a + b)[i] == a[i];
    assert forall j :: 0 <= j < i ==> (a + b)[j] == a[j];
    assert IsFirst(a + b, p, i);
    FirstUnique(a + b, p, i, FirstIndex(a + b, p).value);
  }

  /** When no element of the prefix is a hit, the search continues in the
      suffix, shifted by the length of the prefix. */
  lemma {:induction false} FirstIndexSkip<T>(a: seq<T>, b: seq<T>, p: T -> bool)
    requires forall j :: 0 <= j < |a| ==> !p(a[j])
    ensures FirstIndex(a + b, p) ==
      (match FirstIndex(b, p) case None => None case Some(k) => Some(|a| + k))
  {
    assert forall j :: 0 <= j < |a| ==> (a + b)[j] == a[j];
    assert forall j :: 0 <= j < |b| ==> (a + b)[|a| + j] == b[j];
    match FirstIndex(b, p)
    case None =>
    case Some(k) =>
      assert IsFirst(a + b, p, |a| + k);
      FirstUnique(a + b, p, |a| + k, FirstIndex(a + b, p).value);
  }

  /** Two tests that agree on every element find the same first position. */
  lemma {:induction false} FirstIndexAgree<T>(s: seq<T>, p: T -> bool, q: T -> bool)
    requires forall j :: 0 <= j < |s| ==> p(s[j]) == q(s[j])
    ensures FirstIndex(s, p) == FirstIndex(s, q)
  {
    match FirstIndex(s, p)
    case None =>
    case Some(i) =>
      assert IsFirst(s, q, i);
      FirstUnique(s, q, i, FirstIndex(s, q).value);
  }
}
