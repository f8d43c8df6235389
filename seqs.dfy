/**
 * Sequence facts shared by the checker's list operations: duplicate-free
 * lists, first occurrences, `Array.from(new Set(xs))` and subsequences.
 */
module Seqs {

  /** No element occurs twice. */
  predicate NoDups<T(==)>(s: seq<T>) {
    forall i, j :: 0 <= i < j < |s| ==> s[i] != s[j]
  }

  /** `a` is obtained from `b` by deleting elements, keeping the rest in order. */
  predicate IsSubsequence<T(==)>(a: seq<T>, b: seq<T>)
    decreases |b|
  {
    if a == [] then true
    else if b == [] then false
    else (a[0] == b[0] && IsSubsequence(a[1..], b[1..])) || IsSubsequence(a, b[1..])
  }

  /** `s.indexOf(x)`: the index of the first occurrence of `x` in `s`. */
  function FirstIndex<T(==)>(s: seq<T>, x: T): (k: nat)
    requires x in s
    ensures k < |s| && s[k] == x && x !in s[..k]
  {
    if s[0] == x then 0
    else
      assert s == [s[0]] + s[1..];
      1 + FirstIndex(s[1..], x)
  }

  /** The first occurrence of `x` is the same in `s` as in any prefix holding `x`. */
  lemma FirstIndexInPrefix<T>(s: seq<T>, n: nat, x: T)
    requires n <= |s| && x in s[..n]
    ensures FirstIndex(s, x) == FirstIndex(s[..n], x)
  {
    var k, k' := FirstIndex(s, x), FirstIndex(s[..n], x);
    assert s[..n][k'] == s[k'];
    assert forall j :: 0 <= j < k' ==> s[..n][..k'][j] == s[j];
    assert forall j :: 0 <= j < k ==> s[..k][j] == s[j];
  }

  /**
   * `Array.from(new Set(s))`: the distinct elements of `s`, each kept where
   * it first occurs.
   */
  function Dedup<T(==)>(s: seq<T>): (r: seq<T>)
    ensures NoDups(r)
    ensures forall i :: 0 <= i < |r| ==> r[i] in s
    ensures forall i :: 0 <= i < |s| ==> s[i] in r
    decreases |s|
  {
    if s == [] then []
    else
      var init := s[..|s| - 1];
      var d := Dedup(init);
      assert s == init + [s[|s| - 1]];
      if s[|s| - 1] in d then d else d + [s[|s| - 1]]
  }

  /** `Dedup` lists elements in the order of their first occurrence in `s`. */
  lemma {:induction false} DedupFirstSeenOrder<T>(s: seq<T>)
    ensures forall i, j :: 0 <= i < j < |Dedup(s)| ==>
              FirstIndex(s, Dedup(s)[i]) < FirstIndex(s, Dedup(s)[j])
    decreases |s|
  {
    if s != [] {
      var n := |s| - 1;
      var init := s[..n];
      var d := Dedup(init);
      DedupFirstSeenOrder(init);
      forall x | x in d
        ensures FirstIndex(s, x) == FirstIndex(init, x) < n
      {
        FirstIndexInPrefix(s, n, x);
      }
      if s[n] !in d {
        assert s[n] !in init;
        assert FirstIndex(s, s[n]) == n by {
          assert s[..n] == init;
        }
      }
    }
  }
}
