/**
 * A stable sort by a comparison, as Array.prototype.sort performs it: the
 * result is ordered by the comparison, is a permutation of the input, and
 * elements the comparison ranks equal keep their input order.
 */
module Sorting {

  ghost predicate Total<T(!new)>(le: (T, T) -> bool) {
    forall a, b :: le(a, b) || le(b, a)
  }

  ghost predicate Transitive<T(!new)>(le: (T, T) -> bool) {
    forall a, b, c :: le(a, b) && le(b, c) ==> le(a, c)
  }

  ghost predicate SortedBy<T>(s: seq<T>, le: (T, T) -> bool) {
    forall i, j :: 0 <= i < j < |s| ==> le(s[i], s[j])
  }

  /** Whenever `le` ranks two elements equal, the earlier one precedes the later under `prec`. */
  ghost predicate TiesOrdered<T>(s: seq<T>, le: (T, T) -> bool, prec: (T, T) -> bool) {
    forall i, j :: 0 <= i < j < |s| && le(s[j], s[i]) ==> prec(s[i], s[j])
  }

  /** Puts `x` in front of the first element it is not ranked after. */
  function Insert<T>(x: T, s: seq<T>, le: (T, T) -> bool): (r: seq<T>)
    ensures multiset(r) == multiset(s) + multiset{x}
    ensures |r| == |s| + 1
  {
    if s == [] || le(x, s[0]) then [x] + s
    else
      assert s == [s[0]] + s[1..];
      [s[0]] + Insert(x, s[1..], le)
  }

  /** Insertion sort: each element is inserted into the sorted rest that follows it. */
  function SortBy<T>(s: seq<T>, le: (T, T) -> bool): (r: seq<T>)
    ensures multiset(r) == multiset(s)
    ensures |r| == |s|
  {
    if s == [] then []
    else
      assert s == [s[0]] + s[1..];
      Insert(s[0], SortBy(s[1..], le), le)
  }

  lemma {:induction false} InsertSorted<T(!new)>(x: T, s: seq<T>, le: (T, T) -> bool)
    requires Total(le) && Transitive(le)
    requires SortedBy(s, le)
    ensures SortedBy(Insert(x, s, le), le)
  {
    if s == [] || le(x, s[0]) {
    } else {
      var rest := Insert(x, s[1..], le);
      InsertSorted(x, s[1..], le);
      forall w | w in rest
        ensures le(s[0], w)
      {
        assert w in multiset(rest);
        if w != x {
          assert w in multiset(s[1..]);
        }
      }
    }
  }

  lemma {:induction false} SortBySorted<T(!new)>(s: seq<T>, le: (T, T) -> bool)
    requires Total(le) && Transitive(le)
    ensures SortedBy(SortBy(s, le), le)
  {
    if s != [] {
      SortBySorted(s[1..], le);
      InsertSorted(s[0], SortBy(s[1..], le), le);
    }
  }

  lemma {:induction false} InsertTiesOrdered<T>(x: T, s: seq<T>, le: (T, T) -> bool, prec: (T, T) -> bool)
    requires TiesOrdered(s, le, prec)
    requires forall w :: w in s ==> prec(x, w)
    ensures TiesOrdered(Insert(x, s, le), le, prec)
  {
    if s == [] || le(x, s[0]) {
      var r := [x] + s;
      forall i, j | 0 <= i < j < |r| && le(r[j], r[i])
        ensures prec(r[i], r[j])
      {
        if i == 0 {
          assert r[j] in s;
        } else {
          assert r[i] == s[i - 1] && r[j] == s[j - 1];
        }
      }
    } else {
      var rest := Insert(x, s[1..], le);
      assert TiesOrdered(s[1..], le, prec) by {
        forall i, j | 0 <= i < j < |s[1..]| && le(s[1..][j], s[1..][i])
          ensures prec(s[1..][i], s[1..][j])
        {
          assert s[1..][i] == s[i + 1] && s[1..][j] == s[j + 1];
        }
      }
      InsertTiesOrdered(x, s[1..], le, prec);
      var r := [s[0]] + rest;
      forall i, j | 0 <= i < j < |r| && le(r[j], r[i])
        ensures prec(r[i], r[j])
      {
        if i == 0 {
          var w := r[j];
          assert w in multiset(rest);
          if w == x {
            assert false;
          } else {
            assert w in multiset(s[1..]);
            var k :| 0 <= k < |s[1..]| && s[1..][k] == w;
            assert s[k + 1] == w;
          }
        } else {
          assert r[i] == rest[i - 1] && r[j] == rest[j - 1];
        }
      }
    }
  }

  /**
   * Stability: if the input lists its elements in `prec` order, elements the
   * comparison ranks equal come out still in `prec` order.
   */
  lemma {:induction false} SortByTiesOrdered<T>(s: seq<T>, le: (T, T) -> bool, prec: (T, T) -> bool)
    requires forall i, j :: 0 <= i < j < |s| ==> prec(s[i], s[j])
    ensures TiesOrdered(SortBy(s, le), le, prec)
  {
    if s != [] {
      SortByTiesOrdered(s[1..], le, prec);
      forall w | w in SortBy(s[1..], le)
        ensures prec(s[0], w)
      {
        assert w in multiset(SortBy(s[1..], le));
        assert w in s[1..];
        var k :| 0 <= k < |s[1..]| && s[1..][k] == w;
        assert s[k + 1] == w;
      }
      InsertTiesOrdered(s[0], SortBy(s[1..], le), le, prec);
    }
  }
}
