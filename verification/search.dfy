/**
  First-occurrence search over a sequence: the byte splitter looks for its
  delimiter, the Gensim parse for the `[` that ends a block's header, and
  the progress-bar prefix for its `/`.
 */
module Search {

  /** Index of the first `x` in `s`, or `|s|` when there is none. */
  function Find<T(==)>(s: seq<T>, x: T): (k: nat)
    ensures k <= |s|
    ensures forall i :: 0 <= i < k ==> s[i] != x
    ensures k < |s| ==> s[k] == x
  {
    if s == [] then 0
    else if s[0] == x then 0
    else 1 + Find(s[1..], x)
  }

  /** The first `x` of `pre + [x] + rest` is the one after `pre` when
      `pre` holds none. */
  lemma FindPast<T>(pre: seq<T>, x: T, rest: seq<T>)
    requires x !in pre
    ensures Find(pre + [x] + rest, x) == |pre|
  {
    var s := pre + [x] + rest;
    assert s[|pre|] == x;
    forall i | 0 <= i < |pre|
      ensures s[i] != x
    {
      assert s[i] == pre[i];
    }
  }
}
