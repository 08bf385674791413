/** `std::sort` on the parameter list, as a functional insertion sort.
    Any sort of a list of reals gives the same result, because the sorted
    permutation of a list is unique; `SortSortedIdentity` shows the part of
    that the model relies on: an already sorted list comes back unchanged. */
module Sorting {

  /** Non-decreasing from left to right. */
  predicate SortedAsc(s: seq<real>)
  {
    forall i, j :: 0 <= i < j < |s| ==> s[i] <= s[j]
  }

  /** Inserts `x` into the sorted list `s` in front of the first larger
      entry. The result is sorted and holds exactly the entries of `s` and
      `x`. */
  function Insert(x: real, s: seq<real>): (r: seq<real>)
    requires SortedAsc(s)
    ensures |r| == |s| + 1
    ensures SortedAsc(r)
    ensures multiset(r) == multiset(s) + multiset{x}
  {
    if |s| == 0 then [x]
    else if x <= s[0] then [x] + s
    else
      SortedTail(s);
      var rest := Insert(x, s[1..]);
      InsertAbove(x, s, rest);
      assert s == [s[0]] + s[1..];
      [s[0]] + rest
  }

  /** The head of a sorted list, followed by the insertion of a larger `x`
      into its tail, is sorted. */
  lemma {:induction false} InsertAbove(x: real, s: seq<real>, rest: seq<real>)
    requires |s| > 0 && SortedAsc(s) && s[0] < x
    requires SortedAsc(rest)
    requires multiset(rest) == multiset(s[1..]) + multiset{x}
    ensures SortedAsc([s[0]] + rest)
  {
    var r := [s[0]] + rest;
    forall k | 0 <= k < |rest|
      ensures s[0] <= rest[k]
    {
      assert rest[k] in multiset(rest);
      if rest[k] != x {
        assert rest[k] in multiset(s[1..]);
        var m :| 0 <= m < |s[1..]| && s[1..][m] == rest[k];
        assert s[1..][m] == s[m + 1];
      }
    }
    forall i, j | 0 <= i < j < |r|
      ensures r[i] <= r[j]
    {
      assert r[j] == rest[j - 1];
      if i > 0 {
        assert r[i] == rest[i - 1];
      }
    }
  }

  /** Insertion sort: a sorted permutation of `s`. */
  function Sort(s: seq<real>): (r: seq<real>)
    ensures |r| == |s|
    ensures SortedAsc(r)
    ensures multiset(r) == multiset(s)
  {
    if |s| == 0 then []
    else
      assert s == [s[0]] + s[1..];
      Insert(s[0], Sort(s[1..]))
  }

  /** Sorting a sorted list changes nothing. */
  lemma {:induction false} SortSortedIdentity(s: seq<real>)
    requires SortedAsc(s)
    ensures Sort(s) == s
  {
    if |s| > 0 {
      var tail := s[1..];
      assert s == [s[0]] + tail;
      SortedTail(s);
      SortSortedIdentity(tail);
      assert Sort(s) == Insert(s[0], tail);
      assert Insert(s[0], tail) == [s[0]] + tail;
    }
  }

  /** The tail of a sorted list is sorted and starts no lower than the
      head. */
  lemma {:induction false} SortedTail(s: seq<real>)
    requires |s| > 0 && SortedAsc(s)
    ensures SortedAsc(s[1..])
    ensures |s| > 1 ==> s[0] <= s[1..][0]
  {
    var tail := s[1..];
    forall i, j | 0 <= i < j < |tail|
      ensures tail[i] <= tail[j]
    {
      assert tail[i] == s[i + 1] && tail[j] == s[j + 1];
    }
    if |s| > 1 {
      assert tail[0] == s[1];
    }
  }

  /** The first entry of the sorted list is the least entry of `s`, and the
      last is the greatest. */
  lemma {:induction false} SortedEnds(s: seq<real>)
    requires |s| > 0
    ensures Sort(s)[0] in s && Sort(s)[|s| - 1] in s
    ensures forall i :: 0 <= i < |s| ==> Sort(s)[0] <= s[i] <= Sort(s)[|s| - 1]
  {
    PermutationEnds(s, Sort(s));
  }

  /** A sorted permutation `r` of `s` starts with the least entry of `s` and
      ends with the greatest. */
  lemma {:induction false} PermutationEnds(s: seq<real>, r: seq<real>)
    requires |s| > 0
    requires SortedAsc(r) && multiset(r) == multiset(s)
    ensures |r| == |s|
    ensures r[0] in s && r[|r| - 1] in s
    ensures forall i :: 0 <= i < |s| ==> r[0] <= s[i] <= r[|r| - 1]
  {
    assert |r| == |multiset(r)| == |multiset(s)| == |s|;
    assert r[0] in multiset(r) && r[|r| - 1] in multiset(r);
    forall i | 0 <= i < |s|
      ensures r[0] <= s[i] <= r[|r| - 1]
    {
      assert s[i] in multiset(r);
      var k :| 0 <= k < |r| && r[k] == s[i];
    }
  }
}
