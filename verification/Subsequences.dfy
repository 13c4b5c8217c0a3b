/** In-order selections from a sequence, with the positions they were taken from. */
module Subsequences {

  predicate StrictlyIncreasing(s: seq<int>) { forall i, j | 0 <= i < j < |s| :: s[i] < s[j] }

  /** `sub` is made of the elements of `whole` at the positions `at`, in order. */
  ghost predicate Picks<T>(sub: seq<T>, whole: seq<T>, at: seq<int>) {
    && |at| == |sub| && StrictlyIncreasing(at)
    && (forall i | 0 <= i < |at| :: 0 <= at[i] < |whole| && sub[i] == whole[at[i]])
  }

  ghost predicate Subsequence<T>(sub: seq<T>, whole: seq<T>) { exists at :: Picks(sub, whole, at) }

  lemma PicksGrow<T>(sub: seq<T>, whole: seq<T>, at: seq<int>, x: T)
    requires Picks(sub, whole, at)
    ensures Picks(sub, whole + [x], at)
    ensures Picks(sub + [x], whole + [x], at + [|whole|])
  {
  }

  lemma PicksOfPrefix<T>(sub: seq<T>, whole: seq<T>, at: seq<int>, k: nat)
    requires Picks(sub, whole, at) && k <= |sub|
    ensures Picks(sub[..k], whole, at[..k])
  {
  }

  /** A selection from a selection is a selection. */
  lemma PicksCompose<T>(sub: seq<T>, mid: seq<T>, whole: seq<T>, inMid: seq<int>, inWhole: seq<int>)
    requires Picks(sub, mid, inMid) && Picks(mid, whole, inWhole)
    ensures Subsequence(sub, whole)
  {
    var at := seq(|inMid|, i requires 0 <= i < |inMid| => inWhole[inMid[i]]);
    assert Picks(sub, whole, at);
  }
}
