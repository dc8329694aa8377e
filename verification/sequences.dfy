/** Order-preserving selection from a sequence: what LINQ's Where and a
    filtering iterator yield. */
module Sequences {

  /** `idx` lists, in strictly increasing order, the positions of `s` that
      `sub` takes, one per element of `sub`. */
  ghost predicate SelectsInOrder<T>(idx: seq<nat>, sub: seq<T>, s: seq<T>)
  {
    && |idx| == |sub|
    && (forall i :: 0 <= i < |idx| ==> idx[i] < |s| && s[idx[i]] == sub[i])
    && (forall i, j :: 0 <= i < j < |idx| ==> idx[i] < idx[j])
  }

  /** `sub` is `s` with some elements left out and the rest kept in order. */
  ghost predicate IsSubsequence<T>(sub: seq<T>, s: seq<T>)
  {
    exists idx :: SelectsInOrder(idx, sub, s)
  }

  lemma EmptyIsSubsequence<T>(s: seq<T>)
    ensures IsSubsequence([], s)
  {
    assert SelectsInOrder([], [], s);
  }

  /** Extending `s` by one element keeps `sub` a subsequence, whether or not
      `sub` takes the new element too. */
  lemma SubsequenceSnoc<T>(sub: seq<T>, s: seq<T>, x: T, take: bool)
    requires IsSubsequence(sub, s)
    ensures IsSubsequence(sub + (if take then [x] else []), s + [x])
  {
    var idx: seq<nat> :| SelectsInOrder(idx, sub, s);
    if take {
      assert SelectsInOrder(idx + [|s|], sub + [x], s + [x]);
    } else {
      assert sub + [] == sub;
      assert SelectsInOrder(idx, sub, s + [x]);
    }
  }
}
