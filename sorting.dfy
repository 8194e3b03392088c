/**
  A stable sort by a comparator, standing for Java's Stream.sorted on an
  ordered stream (stable for ordered streams). A comparator `c` is read as
  the relation `le(a, b) <==> c(a, b) <= 0`; every comparator of the store is
  a total preorder, and a stable sort by a total preorder has one result.
 */
module Sorting {

  ghost predicate TotalPreorder<T(!new)>(le: (T, T) -> bool) {
    && (forall x, y :: le(x, y) || le(y, x))
    && (forall x, y, z :: le(x, y) && le(y, z) ==> le(x, z))
  }

  ghost predicate Sorted<T>(s: seq<T>, le: (T, T) -> bool) {
    forall i, j :: 0 <= i < j < |s| ==> le(s[i], s[j])
  }

  /** The elements of `s` tied with `x` under `le`, in the order of `s`. */
  function Tied<T>(s: seq<T>, le: (T, T) -> bool, x: T): (r: seq<T>)
    ensures |r| <= |s|
  {
    if s == [] then []
    else (if le(s[0], x) && le(x, s[0]) then [s[0]] else []) + Tied(s[1..], le, x)
  }

  /** Puts `x` in front of the first element it does not exceed. */
  function Insert<T>(x: T, s: seq<T>, le: (T, T) -> bool): (r: seq<T>)
    ensures multiset(r) == multiset(s) + multiset{x}
  {
    if s == [] then [x]
    else if le(x, s[0]) then [x] + s
    else
      assert s == [s[0]] + s[1..];
      [s[0]] + Insert(x, s[1..], le)
  }

  function StableSort<T>(s: seq<T>, le: (T, T) -> bool): (r: seq<T>)
    ensures multiset(r) == multiset(s)
    ensures |r| == |s|
  {
    if s == [] then []
    else
      assert s == [s[0]] + s[1..];
      Insert(s[0], StableSort(s[1..], le), le)
  }

  lemma {:induction false} InsertSorted<T(!new)>(x: T, s: seq<T>, le: (T, T) -> bool)
    requires TotalPreorder(le)
    requires Sorted(s, le)
    ensures Sorted(Insert(x, s, le), le)
  {
    if s != [] && !le(x, s[0]) {
      var t := Insert(x, s[1..], le);
      InsertSorted(x, s[1..], le);
      forall k | 0 <= k < |t| ensures le(s[0], t[k]) {
        assert t[k] in multiset(t);
        assert t[k] in multiset(s[1..]) + multiset{x};
        if t[k] != x {
          var m :| 0 <= m < |s[1..]| && s[1..][m] == t[k];
          assert s[1 + m] == t[k];
        }
      }
      var r := [s[0]] + t;
      forall i, j | 0 <= i < j < |r| ensures le(r[i], r[j]) {
        if i > 0 {
          assert r[i] == t[i - 1] && r[j] == t[j - 1];
        } else {
          assert r[j] == t[j - 1];
        }
      }
    }
  }

  /** The result of StableSort is ordered by `le`. */
  lemma {:induction false} SortedBySort<T(!new)>(s: seq<T>, le: (T, T) -> bool)
    requires TotalPreorder(le)
    ensures Sorted(StableSort(s, le), le)
  {
    if s != [] {
      SortedBySort(s[1..], le);
      InsertSorted(s[0], StableSort(s[1..], le), le);
    }
  }

  lemma {:induction false} TiedConcat<T>(a: seq<T>, b: seq<T>, le: (T, T) -> bool, x: T)
    ensures Tied(a + b, le, x) == Tied(a, le, x) + Tied(b, le, x)
  {
    if a != [] {
      assert (a + b)[1..] == a[1..] + b;
      TiedConcat(a[1..], b, le, x);
    } else {
      assert a + b == b;
    }
  }

  lemma TiedCons<T>(a: T, t: seq<T>, le: (T, T) -> bool, x: T)
    ensures Tied([a] + t, le, x) == (if le(a, x) && le(x, a) then [a] else []) + Tied(t, le, x)
  {
    assert ([a] + t)[1..] == t;
  }

  lemma {:induction false} TiedInsert<T>(y: T, s: seq<T>, le: (T, T) -> bool, x: T)
    requires forall z :: le(y, x) && le(x, z) ==> le(y, z)
    ensures Tied(Insert(y, s, le), le, x)
         == (if le(y, x) && le(x, y) then [y] else []) + Tied(s, le, x)
  {
    if s == [] {
      TiedCons(y, s, le, x);
      assert [y] + s == [y];
    } else if le(y, s[0]) {
      TiedCons(y, s, le, x);
    } else {
      var t := Insert(y, s[1..], le);
      assert Insert(y, s, le) == [s[0]] + t;
      TiedInsert(y, s[1..], le, x);
      TiedCons(s[0], t, le, x);
      if le(y, x) && le(x, y) {
        // s[0] lies strictly below y, so it is not tied with x
        assert !le(x, s[0]);
        assert Tied(s, le, x) == Tied(s[1..], le, x);
        assert Tied(Insert(y, s, le), le, x) == Tied(t, le, x);
      } else {
        assert Tied(t, le, x) == Tied(s[1..], le, x);
      }
    }
  }

  /** Stability: the elements tied with any `x` keep their original relative order. */
  lemma {:induction false} TiedBySort<T(!new)>(s: seq<T>, le: (T, T) -> bool, x: T)
    requires TotalPreorder(le)
    ensures Tied(StableSort(s, le), le, x) == Tied(s, le, x)
  {
    if s != [] {
      TiedBySort(s[1..], le, x);
      TiedInsert(s[0], StableSort(s[1..], le), le, x);
    }
  }

  /** A comparator that ties everything leaves the sequence as it is. */
  lemma {:induction false} SortAllTied<T>(s: seq<T>, le: (T, T) -> bool)
    requires forall a, b :: le(a, b)
    ensures StableSort(s, le) == s
  {
    if s != [] {
      SortAllTied(s[1..], le);
      if s[1..] != [] {
        assert le(s[0], s[1..][0]);
      }
      assert [s[0]] + s[1..] == s;
    }
  }

  /** The first `n` elements of a sorted sequence are below every element left out. */
  /** A prefix holds part of the elements of the sequence. */
  lemma PrefixSubMultiset<T>(s: seq<T>, n: nat)
    requires n <= |s|
    ensures multiset(s[..n]) <= multiset(s)
  {
    assert s == s[..n] + s[n..];
  }

  lemma SortedPrefixIsLeast<T>(s: seq<T>, n: nat, le: (T, T) -> bool)
    requires Sorted(s, le)
    requires n <= |s|
    ensures forall i, y :: 0 <= i < n && y in multiset(s) - multiset(s[..n]) ==> le(s[i], y)
  {
    assert s == s[..n] + s[n..];
    assert multiset(s) == multiset(s[..n]) + multiset(s[n..]);
    forall i, y | 0 <= i < n && y in multiset(s) - multiset(s[..n]) ensures le(s[i], y) {
      assert y in multiset(s[n..]);
      var t :| 0 <= t < |s[n..]| && s[n..][t] == y;
      assert s[n + t] == y;
    }
  }

  /** Limiting a sequence keeps, for every tie class, a prefix of that class. */
  lemma {:induction false} TiedOfPrefix<T>(s: seq<T>, n: nat, le: (T, T) -> bool, x: T)
    requires n <= |s|
    ensures Tied(s[..n], le, x) <= Tied(s, le, x)
  {
    assert s == s[..n] + s[n..];
    TiedConcat(s[..n], s[n..], le, x);
  }

  /**
    Java's String.compareTo read as `<=`: lexicographic by character value, a
    proper prefix before the longer string.
   */
  function LexLe(a: string, b: string): bool {
    if a == [] then true
    else if b == [] then false
    else if a[0] != b[0] then a[0] < b[0]
    else LexLe(a[1..], b[1..])
  }

  lemma {:induction false} LexLeTotal(a: string, b: string)
    ensures LexLe(a, b) || LexLe(b, a)
  {
    if a != [] && b != [] && a[0] == b[0] {
      LexLeTotal(a[1..], b[1..]);
    }
  }

  lemma {:induction false} LexLeTransitive(a: string, b: string, c: string)
    requires LexLe(a, b) && LexLe(b, c)
    ensures LexLe(a, c)
  {
    if a != [] && b != [] && c != [] && a[0] == b[0] && b[0] == c[0] {
      LexLeTransitive(a[1..], b[1..], c[1..]);
    }
  }

  lemma {:induction false} LexLeAntisymmetric(a: string, b: string)
    requires LexLe(a, b) && LexLe(b, a)
    ensures a == b
  {
    if a != [] && b != [] {
      LexLeAntisymmetric(a[1..], b[1..]);
      assert a == [a[0]] + a[1..] && b == [b[0]] + b[1..];
    }
  }
}
