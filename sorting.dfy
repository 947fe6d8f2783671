/**
 * Python's `sorted(trip_times, reverse=True)`: the trip times from the largest
 * to the smallest.
 */
module Sorting {

  predicate Descending(s: seq<real>)
  {
    forall i, j :: 0 <= i < j < |s| ==> s[i] >= s[j]
  }

  /** Inserts `x` in front of the first element it is not smaller than. */
  function Insert(x: real, s: seq<real>): (r: seq<real>)
    ensures multiset(r) == multiset(s) + multiset{x}
    decreases |s|
  {
    if s == [] then [x]
    else if x >= s[0] then [x] + s
    else
      assert s == [s[0]] + s[1..];
      [s[0]] + Insert(x, s[1..])
  }

  /** A head no smaller than any element of a descending tail gives a descending sequence. */
  lemma DescendingCons(h: real, t: seq<real>)
    requires Descending(t) && forall k :: 0 <= k < |t| ==> t[k] <= h
    ensures Descending([h] + t)
  {
    var r := [h] + t;
    forall i, j | 0 <= i < j < |r|
      ensures r[i] >= r[j]
    {
      assert r[j] == t[j - 1];
      if i > 0 {
        assert r[i] == t[i - 1];
      }
    }
  }

  /** Inserting into a descending sequence keeps it descending. */
  lemma {:induction false} InsertDescending(x: real, s: seq<real>)
    requires Descending(s)
    ensures Descending(Insert(x, s))
    decreases |s|
  {
    if s == [] {
    } else if x >= s[0] {
      DescendingCons(x, s);
    } else {
      var tail := Insert(x, s[1..]);
      assert s == [s[0]] + s[1..];
      assert Descending(s[1..]) by {
        forall i, j | 0 <= i < j < |s| - 1
          ensures s[1..][i] >= s[1..][j]
        {
          assert s[1..][i] == s[i + 1] && s[1..][j] == s[j + 1];
        }
      }
      InsertDescending(x, s[1..]);
      forall k | 0 <= k < |tail|
        ensures tail[k] <= s[0]
      {
        assert tail[k] in multiset(tail);
        if tail[k] != x {
          assert tail[k] in multiset(s[1..]);
          var m :| 0 <= m < |s[1..]| && s[1..][m] == tail[k];
          assert s[m + 1] == tail[k];
        }
      }
      DescendingCons(s[0], tail);
    }
  }

  /** The elements of `s` from the largest to the smallest. */
  function SortDescending(s: seq<real>): (r: seq<real>)
    ensures Descending(r)
    ensures multiset(r) == multiset(s)
    ensures |r| == |s|
    decreases |s|
  {
    if s == [] then []
    else
      assert s == [s[0]] + s[1..];
      var rest := SortDescending(s[1..]);
      InsertDescending(s[0], rest);
      var r := Insert(s[0], rest);
      assert |multiset(r)| == |multiset(s)|;
      r
  }

  /** Sorting keeps exactly the elements of the input. */
  lemma SortDescendingSameElements(s: seq<real>)
    ensures forall t :: t in SortDescending(s) <==> t in s
  {
    var r := SortDescending(s);
    forall t
      ensures t in r <==> t in s
    {
      assert t in r <==> t in multiset(r);
      assert t in s <==> t in multiset(s);
    }
  }
}
