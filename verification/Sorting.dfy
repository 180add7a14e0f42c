/**
 * sort.Slice: sorts a slice in place by a key and promises nothing about the
 * order of equal keys.  Callers see only the contract, so everything proved
 * from it holds for every order an unstable sort may choose.
 */
module Sorting {

  ghost predicate SortedBy<T>(s: seq<T>, key: T -> int) {
    forall i, j :: 0 <= i <= j < |s| ==> key(s[i]) <= key(s[j])
  }

  method IndexOfLeast<T>(a: array<T>, key: T -> int, start: nat) returns (least: nat)
    requires start < a.Length
    ensures start <= least < a.Length
    ensures forall q :: start <= q < a.Length ==> key(a[least]) <= key(a[q])
  {
    least := start;
    for j := start + 1 to a.Length
      invariant start <= least < a.Length
      invariant forall q :: start <= q < j ==> key(a[least]) <= key(a[q])
    {
      if key(a[j]) < key(a[least]) {
        least := j;
      }
    }
  }

  method Swap<T>(a: array<T>, i: nat, j: nat)
    requires i < a.Length && j < a.Length
    modifies a
    ensures a[i] == old(a[j]) && a[j] == old(a[i])
    ensures forall p :: 0 <= p < a.Length && p != i && p != j ==> a[p] == old(a[p])
    ensures multiset(a[..]) == multiset(old(a[..]))
  {
    a[i], a[j] := a[j], a[i];
  }

  method SortSlice<T>(a: array<T>, key: T -> int)
    modifies a
    ensures SortedBy(a[..], key)
    ensures multiset(a[..]) == multiset(old(a[..]))
  {
    for i := 0 to a.Length
      invariant forall p, q :: 0 <= p < i && p <= q < a.Length ==> key(a[p]) <= key(a[q])
      invariant multiset(a[..]) == multiset(old(a[..]))
    {
      var least := IndexOfLeast(a, key, i);
      Swap(a, i, least);
    }
  }

  ghost predicate Descending(s: seq<int>) {
    forall i, j :: 0 <= i <= j < |s| ==> s[i] >= s[j]
  }

  /** Two descending arrangements of the same integers are equal. */
  lemma {:induction false} DescendingUnique(s: seq<int>, t: seq<int>)
    requires Descending(s) && Descending(t) && multiset(s) == multiset(t)
    ensures s == t
  {
    SameSize(s, t);
    if s != [] {
      var n := |s| - 1;
      SameLast(s, t);
      DescendingUnique(s[..n], t[..n]);
      assert s == s[..n] + [s[n]] && t == t[..n] + [t[n]];
    }
  }

  lemma SameLast(s: seq<int>, t: seq<int>)
    requires Descending(s) && Descending(t) && multiset(s) == multiset(t) && |s| == |t| > 0
    ensures s[|s| - 1] == t[|t| - 1]
    ensures multiset(s[..|s| - 1]) == multiset(t[..|t| - 1])
  {
    LastIsLeast(s, t);
    LastIsLeast(t, s);
    DropLast(s);
    DropLast(t);
  }

  lemma SameSize(s: seq<int>, t: seq<int>)
    requires multiset(s) == multiset(t)
    ensures |s| == |t|
  {
    assert |t| == |multiset(t)| == |multiset(s)| == |s|;
  }

  lemma DropLast(s: seq<int>)
    requires s != []
    ensures s == s[..|s| - 1] + [s[|s| - 1]]
    ensures multiset(s[..|s| - 1]) == multiset(s) - multiset{s[|s| - 1]}
  {}

  lemma LastIsLeast(s: seq<int>, t: seq<int>)
    requires Descending(t) && |s| == |t| > 0 && multiset(s) == multiset(t)
    ensures s[|s| - 1] >= t[|t| - 1]
  {
    assert s[|s| - 1] in multiset(t);
  }
}
