/** Sorting by a key, with equal keys in any order: what the callers of the library sorts rely on. */
module Sorting {

  ghost predicate Sorted<T(!new)>(s: seq<T>, key: T -> int) {
    forall i, j :: 0 <= i < j < |s| ==> key(s[i]) <= key(s[j])
  }

  lemma {:induction false} InsertSorted<T(!new)>(r: seq<T>, key: T -> int, k: nat, e: T)
    requires Sorted(r, key) && k <= |r|
    requires (k > 0 ==> key(r[k - 1]) <= key(e)) && (k < |r| ==> key(e) <= key(r[k]))
    ensures Sorted(r[..k] + [e] + r[k..], key)
  {
    var t := r[..k] + [e] + r[k..];
    assert forall i :: 0 <= i < |t| ==> t[i] == if i < k then r[i] else if i == k then e else r[i - 1];
  }

  lemma {:induction false} InsertBag<T>(r: seq<T>, k: nat, e: T)
    requires k <= |r|
    ensures multiset(r[..k] + [e] + r[k..]) == multiset(r) + multiset{e}
  {
    assert r == r[..k] + r[k..];
  }

  /** Stands for the library sorts. */
  method Sort<T(!new)>(s: seq<T>, key: T -> int) returns (r: seq<T>)
    ensures Sorted(r, key) && multiset(r) == multiset(s)
  {
    r := [];
    for i := 0 to |s|
      invariant Sorted(r, key) && multiset(r) == multiset(s[..i])
    {
      var k := |r|;
      while k > 0 && key(r[k - 1]) > key(s[i])
        invariant 0 <= k <= |r|
        invariant k < |r| ==> key(r[k]) > key(s[i])
      {
        k := k - 1;
      }
      InsertSorted(r, key, k, s[i]);
      InsertBag(r, k, s[i]);
      assert s[..i + 1] == s[..i] + [s[i]];
      r := r[..k] + [s[i]] + r[k..];
    }
    assert s[..|s|] == s;
  }
}
