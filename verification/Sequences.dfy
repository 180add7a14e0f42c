/** Facts about sequences that the matcher and the leaderboard both need. */
module Sequences {

  ghost predicate Distinct<T>(s: seq<T>) {
    forall i, j :: 0 <= i < j < |s| ==> s[i] != s[j]
  }

  lemma DistinctAppend<T>(s: seq<T>, t: seq<T>)
    requires Distinct(s) && Distinct(t)
    requires forall x :: x in s ==> x !in t
    ensures Distinct(s + t)
  {
    forall i, j | 0 <= i < j < |s + t|
      ensures (s + t)[i] != (s + t)[j]
    {
      if i < |s| <= j {
        assert s[i] in s && t[j - |s|] in t;
      }
    }
  }

  /** Every element of a distinct sequence occurs once. */
  lemma {:induction false} DistinctMultiplicity<T>(s: seq<T>, x: T)
    requires Distinct(s)
    ensures multiset(s)[x] == if x in s then 1 else 0
  {
    if s != [] {
      var front, last := s[..|s| - 1], s[|s| - 1];
      assert s == front + [last];
      DistinctMultiplicity(front, x);
    }
  }

  /** A rearrangement of a distinct sequence is distinct and has the same elements. */
  lemma DistinctRearranged<T(!new)>(s: seq<T>, r: seq<T>)
    requires Distinct(s) && multiset(s) == multiset(r)
    ensures Distinct(r) && |r| == |s|
    ensures forall x :: x in r <==> x in s
  {
    assert |multiset(s)| == |s| && |multiset(r)| == |r|;
    SameMembers(s, r);
    forall i, j | 0 <= i < j < |r|
      ensures r[i] != r[j]
    {
      if r[i] == r[j] {
        var rest := r[..j] + r[j + 1..];
        assert r == r[..j] + [r[j]] + r[j + 1..];
        assert multiset(r) == multiset(rest) + multiset{r[j]};
        assert rest[i] == r[i];
        assert r[i] in multiset(rest);
        DistinctMultiplicity(s, r[i]);
        assert false;
      }
    }
  }

  lemma SameMembers<T>(s: seq<T>, r: seq<T>)
    requires multiset(s) == multiset(r)
    ensures forall x :: x in s <==> x in r
  {
    assert forall x :: x in s <==> x in multiset(s);
    assert forall x :: x in r <==> x in multiset(r);
  }

  /** The last element of a sequence sits somewhere in any rearrangement; without it the rest are rearrangements. */
  lemma PullOut<T>(s: seq<T>, r: seq<T>) returns (i: nat)
    requires s != [] && multiset(s) == multiset(r)
    ensures |s| == |r| && i < |r|
    ensures s == s[..|s| - 1] + [s[|s| - 1]]
    ensures r == r[..i] + [s[|s| - 1]] + r[i + 1..]
    ensures multiset(s[..|s| - 1]) == multiset(r[..i] + r[i + 1..])
  {
    assert |s| == |multiset(s)| == |multiset(r)| == |r|;
    var n := |s| - 1;
    assert s == s[..n] + [s[n]];
    assert s[n] in multiset(r);
    i :| 0 <= i < |r| && r[i] == s[n];
    assert r == r[..i] + [s[n]] + r[i + 1..];
    assert multiset(s[..n]) == multiset(s) - multiset{s[n]} == multiset(r[..i] + r[i + 1..]);
  }

  /** The set of a distinct sequence's elements has as many members as the sequence. */
  lemma {:induction false} DistinctCount<T>(s: seq<T>)
    requires Distinct(s)
    ensures |set x | x in s| == |s|
  {
    if s != [] {
      var front, last := s[..|s| - 1], s[|s| - 1];
      DistinctCount(front);
      assert s == front + [last];
      assert (set x | x in s) == (set x | x in front) + {last};
    }
  }

  ghost function Elements<T(!new)>(s: seq<T>): set<T> { set x | x in s }

  lemma DistinctElements<T(!new)>(s: seq<T>)
    requires Distinct(s)
    ensures |Elements(s)| == |s|
  {
    DistinctCount(s);
  }

  /** Any sequence has at most as many different elements as positions. */
  lemma {:induction false} ElementCount<T>(s: seq<T>)
    ensures |set x | x in s| <= |s|
  {
    if s != [] {
      var front, last := s[..|s| - 1], s[|s| - 1];
      ElementCount(front);
      assert s == front + [last];
      assert (set x | x in s) == (set x | x in front) + {last};
    }
  }

  ghost function Image<T(!new), U>(s: set<T>, f: T -> U): set<U> { set x | x in s :: f(x) }

  /** A one-to-one function keeps the size of a set. */
  lemma {:induction false} ImageCount<T(!new), U>(s: set<T>, f: T -> U)
    requires forall x, y :: x in s && y in s && f(x) == f(y) ==> x == y
    ensures |Image(s, f)| == |s|
  {
    if s != {} {
      var x :| x in s;
      ImageCount(s - {x}, f);
      assert Image(s, f) == Image(s - {x}, f) + {f(x)};
    }
  }
}
