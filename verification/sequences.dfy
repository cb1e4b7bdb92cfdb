/** Linear scans over sequences, shared by the ledger lookup and the face matcher. */
module Sequences {
  import opened Optional

  /** Index of the first element of `s` at or after `i` that satisfies `p`. */
  function FirstIndexFrom<T>(s: seq<T>, p: T -> bool, i: nat): (r: Option<nat>)
    requires i <= |s|
    ensures r.Some? ==> i <= r.value < |s| && p(s[r.value])
    ensures r.Some? ==> forall j :: i <= j < r.value ==> !p(s[j])
    ensures r.None? ==> forall j :: i <= j < |s| ==> !p(s[j])
    decreases |s| - i
  {
    if i == |s| then None
    else if p(s[i]) then Some(i)
    else FirstIndexFrom(s, p, i + 1)
  }

  /** Index of the first element of `s` that satisfies `p`, scanning in sequence order. */
  function FirstIndex<T>(s: seq<T>, p: T -> bool): (r: Option<nat>)
    ensures r.Some? ==> r.value < |s| && p(s[r.value])
    ensures r.Some? ==> forall j :: 0 <= j < r.value ==> !p(s[j])
    ensures r.None? <==> forall j :: 0 <= j < |s| ==> !p(s[j])
  {
    FirstIndexFrom(s, p, 0)
  }

  /** Two scans whose predicates agree position by position stop at the same place. */
  lemma FirstIndexAgree<T, U>(s: seq<T>, p: T -> bool, s': seq<U>, p': U -> bool)
    requires |s| == |s'|
    requires forall j :: 0 <= j < |s| ==> p(s[j]) == p'(s'[j])
    ensures FirstIndex(s, p) == FirstIndex(s', p')
  {
  }
}
