/** The scan order of `re.search`: it tries every start from left to right
    and reports the first one at which the pattern matches. */
module Leftmost {
  import opened Wrappers

  /** The least index from `p` at which `hits` holds. */
  function FirstHit(hits: seq<bool>, p: nat): (r: Option<nat>)
    requires p <= |hits|
    ensures r.Some? ==> p <= r.value < |hits| && hits[r.value]
    decreases |hits| - p
  {
    if p == |hits| then None
    else if hits[p] then Some(p)
    else FirstHit(hits, p + 1)
  }

  /** The scan from `p` finds nothing exactly when nothing from `p` on holds. */
  lemma {:induction false} FirstHitFailsIffNoHit(hits: seq<bool>, p: nat)
    requires p <= |hits|
    ensures FirstHit(hits, p).None? <==> forall i | p <= i < |hits| :: !hits[i]
    decreases |hits| - p
  {
    if p < |hits| && !hits[p] {
      FirstHitFailsIffNoHit(hits, p + 1);
    }
  }

  /** The scan from `p` stops at the first index that holds. */
  lemma {:induction false} FirstHitIsLeast(hits: seq<bool>, p: nat, i: nat)
    requires p <= i < |hits| && hits[i]
    requires forall a | p <= a < i :: !hits[a]
    ensures FirstHit(hits, p) == Some(i)
    decreases i - p
  {
    if p < i {
      FirstHitIsLeast(hits, p + 1, i);
    }
  }
}
