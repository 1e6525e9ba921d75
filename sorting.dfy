/** Python's `sorted`: a stable sort under a total preorder, written as an
    insertion sort. Stability matters for the folder order, where "1" and
    "01" have the same key; for image names, which are distinct, the order
    is strict. */
module Sorting {

  ghost predicate TotalPreorder<T(!new)>(le: (T, T) -> bool) {
    (forall a, b :: le(a, b) || le(b, a)) &&
    (forall a, b, c :: le(a, b) && le(b, c) ==> le(a, c))
  }

  ghost predicate Antisymmetric<T(!new)>(le: (T, T) -> bool) {
    forall a, b :: le(a, b) && le(b, a) ==> a == b
  }

  ghost predicate Sorted<T>(s: seq<T>, le: (T, T) -> bool) {
    forall i, j :: 0 <= i < j < |s| ==> le(s[i], s[j])
  }

  predicate Distinct<T(==)>(s: seq<T>) {
    forall i, j :: 0 <= i < j < |s| ==> s[i] != s[j]
  }

  /** Puts x in front of the first element it is not greater than, so that x
      stays ahead of the elements equivalent to it. */
  function Insert<T>(x: T, s: seq<T>, le: (T, T) -> bool): (r: seq<T>)
    ensures multiset(r) == multiset(s) + multiset{x}
  {
    if s == [] || le(x, s[0]) then [x] + s
    else
      assert s == [s[0]] + s[1..];
      [s[0]] + Insert(x, s[1..], le)
  }

  function Sort<T>(s: seq<T>, le: (T, T) -> bool): (r: seq<T>)
    ensures multiset(r) == multiset(s)
  {
    if s == [] then []
    else
      assert s == [s[0]] + s[1..];
      Insert(s[0], Sort(s[1..], le), le)
  }

  lemma {:induction false} InsertSorted<T(!new)>(x: T, s: seq<T>, le: (T, T) -> bool)
    requires TotalPreorder(le) && Sorted(s, le)
    ensures Sorted(Insert(x, s, le), le)
  {
    if s != [] && !le(x, s[0]) {
      var t := Insert(x, s[1..], le);
      InsertSorted(x, s[1..], le);
      assert le(s[0], x);
      forall k | 0 <= k < |t| ensures le(s[0], t[k]) {
        assert t[k] in multiset(t);
        if t[k] != x {
          assert t[k] in multiset(s[1..]);
          var j :| 0 <= j < |s[1..]| && s[1..][j] == t[k];
          assert s[j + 1] == t[k];
        }
      }
    }
  }

  /** The result is ordered; `Sort` also keeps the multiset (its ensures). */
  lemma {:induction false} SortSorted<T(!new)>(s: seq<T>, le: (T, T) -> bool)
    requires TotalPreorder(le)
    ensures Sorted(Sort(s, le), le)
  {
    if s != [] {
      SortSorted(s[1..], le);
      InsertSorted(s[0], Sort(s[1..], le), le);
    }
  }

  /** The elements of s equivalent to k under le, in their order in s. */
  function EquivalentTo<T>(s: seq<T>, k: T, le: (T, T) -> bool): seq<T> {
    if s == [] then []
    else (if le(s[0], k) && le(k, s[0]) then [s[0]] else []) + EquivalentTo(s[1..], k, le)
  }

  lemma {:induction false} InsertStable<T(!new)>(x: T, s: seq<T>, k: T, le: (T, T) -> bool)
    requires TotalPreorder(le)
    ensures EquivalentTo(Insert(x, s, le), k, le) == EquivalentTo([x] + s, k, le)
  {
    if s == [] || le(x, s[0]) {
    } else {
      InsertStable(x, s[1..], k, le);
      assert ([x] + s)[1..] == s;
      assert ([x] + s[1..])[1..] == s[1..];
      assert ([s[0]] + Insert(x, s[1..], le))[1..] == Insert(x, s[1..], le);
    }
  }

  /** Stability: equivalent elements keep their relative order. */
  lemma {:induction false} SortStable<T(!new)>(s: seq<T>, k: T, le: (T, T) -> bool)
    requires TotalPreorder(le)
    ensures EquivalentTo(Sort(s, le), k, le) == EquivalentTo(s, k, le)
  {
    if s != [] {
      SortStable(s[1..], k, le);
      InsertStable(s[0], Sort(s[1..], le), k, le);
      assert ([s[0]] + Sort(s[1..], le))[1..] == Sort(s[1..], le);
    }
  }

  /** Under an antisymmetric order there is only one sorted arrangement of a
      multiset, so the result does not depend on the input's order. */
  lemma {:induction false} SortedUnique<T(!new)>(x: seq<T>, y: seq<T>, le: (T, T) -> bool)
    requires Antisymmetric(le) && Sorted(x, le) && Sorted(y, le)
    requires multiset(x) == multiset(y)
    ensures x == y
  {
    if x == [] {
      assert |multiset(y)| == 0;
    } else {
      assert x[0] == y[0] by {
        assert x[0] in multiset(y) && y[0] in multiset(x);
        var j :| 0 <= j < |y| && y[j] == x[0];
        var i :| 0 <= i < |x| && x[i] == y[0];
        assert j == 0 || le(y[0], y[j]);
        assert i == 0 || le(x[0], x[i]);
      }
      var x', y' := x[1..], y[1..];
      assert Sorted(x', le) by {
        forall a, b | 0 <= a < b < |x'| ensures le(x'[a], x'[b]) {
          assert x'[a] == x[a + 1] && x'[b] == x[b + 1];
        }
      }
      assert Sorted(y', le) by {
        forall a, b | 0 <= a < b < |y'| ensures le(y'[a], y'[b]) {
          assert y'[a] == y[a + 1] && y'[b] == y[b + 1];
        }
      }
      assert multiset(x') == multiset(y') by {
        assert x == [x[0]] + x' && y == [y[0]] + y';
        assert multiset(x) == multiset([x[0]]) + multiset(x');
        assert multiset(y) == multiset([y[0]]) + multiset(y');
        assert [x[0]] == [y[0]];
        forall e ensures multiset(x')[e] == multiset(y')[e] {
          assert multiset(x)[e] == multiset([x[0]])[e] + multiset(x')[e];
          assert multiset(y)[e] == multiset([y[0]])[e] + multiset(y')[e];
        }
      }
      SortedUnique(x', y', le);
      assert x == [x[0]] + x' && y == [y[0]] + y';
    }
  }

  lemma {:induction false} DistinctCounts<T>(s: seq<T>)
    requires Distinct(s)
    ensures forall x :: multiset(s)[x] <= 1
  {
    if s != [] {
      DistinctCounts(s[1..]);
      assert s == [s[0]] + s[1..];
      assert s[0] !in s[1..];
    }
  }

  lemma CountsDistinct<T>(s: seq<T>)
    requires forall x :: multiset(s)[x] <= 1
    ensures Distinct(s)
  {
    forall i, j | 0 <= i < j < |s| ensures s[i] != s[j] {
      assert s == s[..j] + s[j..];
      assert s[i] in s[..j] && s[j] in s[j..];
      assert multiset(s)[s[j]] == multiset(s[..j])[s[j]] + multiset(s[j..])[s[j]];
    }
  }

  /** A rearrangement of a sequence without repeats has no repeats. */
  lemma DistinctPermutation<T>(s: seq<T>, t: seq<T>)
    requires Distinct(s) && multiset(s) == multiset(t)
    ensures Distinct(t)
  {
    DistinctCounts(s);
    CountsDistinct(t);
  }
}
