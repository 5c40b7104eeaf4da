/** Facts about sequences that the solver does not find on its own. */
module Sequences {

  lemma {:induction false} ConcatAssoc<T>(a: seq<T>, b: seq<T>, c: seq<T>)
    ensures a + (b + c) == (a + b) + c
  {
  }

  /** `picked` is what `s` holds at the strictly increasing positions `at`. */
  ghost predicate PickedAt<T>(s: seq<T>, at: seq<nat>, picked: seq<T>) {
    && |at| == |picked| && (forall k :: 0 <= k < |at| ==> at[k] < |s| && picked[k] == s[at[k]])
    && (forall j, k :: 0 <= j < k < |at| ==> at[j] < at[k])
  }

  /** One more element, picked or not. */
  lemma {:induction false} PickedNext<T>(s: seq<T>, at: seq<nat>, picked: seq<T>, x: T)
    requires PickedAt(s, at, picked)
    ensures PickedAt(s + [x], at, picked) && PickedAt(s + [x], at + [|s|], picked + [x])
    ensures |s| !in at && forall i: nat :: i in at + [|s|] <==> i in at || i == |s|
  {
  }
}
