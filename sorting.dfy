/**
 * Python's `sorted(xs, key=...)`: a stable sort. It is modelled as an insertion
 * sort parameterised by the "key of a <= key of b" relation `le`; `Sort` takes
 * the elements left to right and puts each after every element already placed
 * whose key is not greater, which is what makes it stable.
 */
module Sorting {

  ghost predicate Total<T(!new)>(le: (T, T) -> bool)
  {
    forall a, b :: le(a, b) || le(b, a)
  }

  ghost predicate Transitive<T(!new)>(le: (T, T) -> bool)
  {
    forall a, b, c :: le(a, b) && le(b, c) ==> le(a, c)
  }

  ghost predicate Asymmetric<T(!new)>(lt: (T, T) -> bool)
  {
    forall a, b :: lt(a, b) ==> !lt(b, a)
  }

  predicate Sorted<T>(le: (T, T) -> bool, s: seq<T>)
  {
    forall i, j :: 0 <= i < j < |s| ==> le(s[i], s[j])
  }

  /** Among elements whose `le`-keys tie, the order is that of `le1`. */
  predicate TiesOrderedBy<T>(le1: (T, T) -> bool, le: (T, T) -> bool, s: seq<T>)
  {
    forall i, j :: 0 <= i < j < |s| && le(s[j], s[i]) ==> le1(s[i], s[j])
  }

  predicate NoDup<T(==)>(s: seq<T>)
  {
    forall i, j :: 0 <= i < j < |s| ==> s[i] != s[j]
  }

  /** Inserts `x` just before the first element of `s` that sorts strictly after it. */
  function Insert<T>(le: (T, T) -> bool, x: T, s: seq<T>): (r: seq<T>)
    ensures |r| == |s| + 1
    ensures multiset(r) == multiset(s) + multiset{x}
  {
    if s == [] then [x]
    else if !le(s[0], x) then [x] + s
    else
      assert s == [s[0]] + s[1..];
      [s[0]] + Insert(le, x, s[1..])
  }

  /** `sorted(s, key=...)`: the result is a permutation of `s`. */
  function Sort<T>(le: (T, T) -> bool, s: seq<T>): (r: seq<T>)
    ensures |r| == |s|
    ensures multiset(r) == multiset(s)
  {
    if s == [] then []
    else
      assert s == s[..|s| - 1] + [s[|s| - 1]];
      Insert(le, s[|s| - 1], Sort(le, s[..|s| - 1]))
  }

  lemma InMultiset<T>(x: T, s: seq<T>)
    requires x in multiset(s)
    ensures exists k :: 0 <= k < |s| && s[k] == x
  {
  }

  lemma {:induction false} InsertSorted<T(!new)>(le: (T, T) -> bool, x: T, s: seq<T>)
    requires Total(le) && Transitive(le) && Sorted(le, s)
    ensures Sorted(le, Insert(le, x, s))
  {
    if s != [] && le(s[0], x) {
      var rest := Insert(le, x, s[1..]);
      InsertSorted(le, x, s[1..]);
      forall j | 0 <= j < |rest|
        ensures le(s[0], rest[j])
      {
        assert rest[j] in multiset(rest);
        if rest[j] != x {
          InMultiset(rest[j], s[1..]);
        }
      }
    }
  }

  /** `sorted` orders its result by the key. */
  lemma {:induction false} SortSorted<T(!new)>(le: (T, T) -> bool, s: seq<T>)
    requires Total(le) && Transitive(le)
    ensures Sorted(le, Sort(le, s))
  {
    if s != [] {
      SortSorted(le, s[..|s| - 1]);
      InsertSorted(le, s[|s| - 1], Sort(le, s[..|s| - 1]));
    }
  }

  lemma {:induction false} InsertKeepsTies<T(!new)>(le1: (T, T) -> bool, le: (T, T) -> bool, x: T, t: seq<T>)
    requires Total(le) && Transitive(le) && Sorted(le, t) && TiesOrderedBy(le1, le, t)
    requires forall y :: y in t ==> le1(y, x)
    ensures TiesOrderedBy(le1, le, Insert(le, x, t))
  {
    if t == [] {
    } else if !le(t[0], x) {
      var r := [x] + t;
      forall j | 1 <= j < |r|
        ensures !le(r[j], x)
      {
        if j > 1 {
          assert le(t[0], t[j - 1]);
        }
      }
    } else {
      var rest := Insert(le, x, t[1..]);
      InsertKeepsTies(le1, le, x, t[1..]);
      forall j | 0 <= j < |rest| && le(rest[j], t[0])
        ensures le1(t[0], rest[j])
      {
        assert rest[j] in multiset(rest);
        if rest[j] != x {
          InMultiset(rest[j], t[1..]);
          var k :| 0 <= k < |t[1..]| && t[1..][k] == rest[j];
          assert t[k + 1] == rest[j];
        }
      }
    }
  }

  /**
   * Stability: sorting by `le` a sequence already ordered by `le1` leaves the
   * elements with tying `le`-keys in `le1` order. So `sorted(sorted(xs, key=k1), key=k2)`
   * orders by (k2, k1).
   */
  lemma {:induction false} SortStable<T(!new)>(le1: (T, T) -> bool, le: (T, T) -> bool, s: seq<T>)
    requires Total(le) && Transitive(le) && Sorted(le1, s)
    ensures TiesOrderedBy(le1, le, Sort(le, s))
  {
    if s != [] {
      var init, x := s[..|s| - 1], s[|s| - 1];
      var out := Sort(le, init);
      SortStable(le1, le, init);
      SortSorted(le, init);
      forall y | y in out
        ensures le1(y, x)
      {
        assert y in multiset(out);
        InMultiset(y, init);
      }
      InsertKeepsTies(le1, le, x, out);
    }
  }

  lemma {:induction false} NoDupCount<T>(s: seq<T>, x: T)
    requires NoDup(s)
    ensures multiset(s)[x] <= 1
  {
    if s != [] {
      var init := s[..|s| - 1];
      assert s == init + [s[|s| - 1]];
      NoDupCount(init, x);
      if x == s[|s| - 1] {
        assert x !in init;
      }
    }
  }

  /** A permutation of a sequence without repetitions has none either. */
  lemma NoDupPermutation<T>(a: seq<T>, b: seq<T>)
    requires multiset(a) == multiset(b) && NoDup(a)
    ensures NoDup(b)
  {
    forall i, j | 0 <= i < j < |b|
      ensures b[i] != b[j]
    {
      NoDupCount(a, b[i]);
      RepeatCount(b, i, j);
    }
  }

  lemma RepeatCount<T>(s: seq<T>, i: int, j: int)
    requires 0 <= i < j < |s|
    ensures s[i] == s[j] ==> multiset(s)[s[i]] >= 2
  {
    assert s == s[..j] + [s[j]] + s[j + 1..];
    assert s[i] in s[..j];
  }

  /**
   * Two sequences strictly ordered by the same asymmetric relation and holding
   * the same elements are equal: a strictly sorted listing is unique.
   */
  lemma {:induction false} StrictlySortedUnique<T(!new)>(lt: (T, T) -> bool, a: seq<T>, b: seq<T>)
    requires Asymmetric(lt) && Sorted(lt, a) && Sorted(lt, b)
    requires forall x :: x in a <==> x in b
    ensures a == b
  {
    if a != [] {
      assert a[0] in b;
    }
    if b != [] {
      assert b[0] in a;
    }
    if a != [] && b != [] {
      var k :| 0 <= k < |b| && b[k] == a[0];
      var m :| 0 <= m < |a| && a[m] == b[0];
      assert a[0] == b[0];
      forall x
        ensures x in a[1..] <==> x in b[1..]
      {
        if x in a[1..] {
          var k :| 1 <= k < |a| && a[k] == x;
          assert lt(a[0], x);
          assert x in b && x != b[0];
        }
        if x in b[1..] {
          var k :| 1 <= k < |b| && b[k] == x;
          assert lt(b[0], x);
          assert x in a && x != a[0];
        }
      }
      StrictlySortedUnique(lt, a[1..], b[1..]);
      assert a == [a[0]] + a[1..] && b == [b[0]] + b[1..];
    }
  }
}
