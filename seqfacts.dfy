/**
 * Facts about sequences and their multisets that the permutation proofs of
 * the loader and of the insights share.
 */
module SeqFacts {
  /** An element of a sequence's multiset occurs at some index. */
  lemma IndexOf<T>(s: seq<T>, x: T) returns (k: nat)
    requires x in multiset(s)
    ensures k < |s| && s[k] == x
  {
    k :| 0 <= k < |s| && s[k] == x;
  }

  /** Taking one element out of a sequence takes it out of its multiset. */
  lemma RemoveAt<T>(s: seq<T>, k: nat)
    requires k < |s|
    ensures multiset(s) == multiset(s[..k] + s[k + 1..]) + multiset{s[k]}
  {
    assert s == s[..k] + [s[k]] + s[k + 1..];
  }

  /** Two permutations of each other stay so once a shared element is taken out of each. */
  lemma RemoveShared<T>(a: seq<T>, b: seq<T>, k: nat)
    requires multiset(a) == multiset(b) && 0 < |a| && k < |b| && b[k] == a[0]
    ensures multiset(a[1..]) == multiset(b[..k] + b[k + 1..])
  {
    RemoveAt(b, k);
    assert a == [a[0]] + a[1..];
    var x, y := multiset(a[1..]), multiset(b[..k] + b[k + 1..]);
    assert x + multiset{a[0]} == y + multiset{a[0]};
    assert forall z :: x[z] == (x + multiset{a[0]})[z] - (if z == a[0] then 1 else 0);
    assert forall z :: y[z] == (y + multiset{a[0]})[z] - (if z == a[0] then 1 else 0);
  }
}
