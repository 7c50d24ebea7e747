/** Sizes and repetitions. */
module Collections {
  lemma AppearsTwice<T>(s: seq<T>, i: nat, j: nat)
    requires i < j < |s| && s[i] == s[j]
    ensures multiset(s)[s[i]] >= 2
  {
    assert s == s[..i] + [s[i]] + s[i + 1..j] + [s[i]] + s[j + 1..];
  }

  lemma SubsetSize<T>(small: set<T>, large: set<T>)
    requires small <= large
    ensures |small| <= |large|
    ensures |small| == |large| <==> small == large
  {
    assert large == small + (large - small);
  }

  lemma SplitSize<T>(whole: set<T>, left: set<T>, right: set<T>)
    requires forall c :: c in whole <==> c in left || c in right
    requires left !! right
    ensures |whole| == |left| + |right|
  {
    assert whole == left + right;
  }
}
