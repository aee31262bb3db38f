/** Orderings used by the dashboard's tables.

    pandas' `sort_values` uses an unstable sort by default, so the only thing a
    caller may rely on is that the result is a permutation of its input and that
    neighbouring rows are in order. `SortBy` is one such sort (an insertion sort);
    any property proved here from its contract holds of every permitted outcome.

    `StrLe` is Python's ordering on `str`: lexicographic by code point, a proper
    prefix before its extensions. pandas' `groupby` lists groups in this order. */
module Sorting {

  /** `le` relates every two values one way or the other. */
  ghost predicate StronglyConnected<T(!new)>(le: (T, T) -> bool) {
    forall a, b :: le(a, b) || le(b, a)
  }

  /** `le` is transitive. */
  ghost predicate Transitive<T(!new)>(le: (T, T) -> bool) {
    forall a, b, c :: le(a, b) && le(b, c) ==> le(a, c)
  }

  /** Every element stands in relation `le` to its successor. */
  predicate Sorted<T>(s: seq<T>, le: (T, T) -> bool) {
    forall i :: 0 < i < |s| ==> le(s[i - 1], s[i])
  }

  /** Dropping the first element keeps a sequence ordered. */
  lemma SortedTail<T>(s: seq<T>, le: (T, T) -> bool)
    requires s != [] && Sorted(s, le)
    ensures Sorted(s[1..], le)
  {
    var u := s[1..];
    forall i | 0 < i < |u| ensures le(u[i - 1], u[i]) {
      assert u[i - 1] == s[i] && u[i] == s[i + 1];
    }
  }

  /** Places `x` in front of the first element it is `le` to. */
  function Insert<T>(x: T, s: seq<T>, le: (T, T) -> bool): (r: seq<T>)
    ensures multiset(r) == multiset(s) + multiset{x}
    ensures |r| == |s| + 1
    ensures r[0] == x || (s != [] && r[0] == s[0])
  {
    if s == [] || le(x, s[0]) then [x] + s
    else
      assert s == [s[0]] + s[1..];
      [s[0]] + Insert(x, s[1..], le)
  }

  /** Inserting into an ordered sequence keeps it ordered. */
  lemma {:induction false} InsertSorted<T(!new)>(x: T, s: seq<T>, le: (T, T) -> bool)
    requires StronglyConnected(le) && Sorted(s, le)
    ensures Sorted(Insert(x, s, le), le)
  {
    if s != [] && !le(x, s[0]) {
      var u := s[1..];
      SortedTail(s, le);
      InsertSorted(x, u, le);
      var r, r' := Insert(x, s, le), Insert(x, u, le);
      assert r == [s[0]] + r';
      assert le(s[0], r'[0]) by {
        assert le(x, s[0]) || le(s[0], x);
        if r'[0] != x {
          assert r'[0] == s[1];
        }
      }
      forall i | 0 < i < |r| ensures le(r[i - 1], r[i]) {
        if i > 1 {
          assert r[i - 1] == r'[i - 2] && r[i] == r'[i - 1];
        }
      }
    }
  }

  /** Sorts `s` so that each element is `le` its successor, keeping every
      element exactly as often as it occurs. */
  function SortBy<T(!new)>(s: seq<T>, le: (T, T) -> bool): (r: seq<T>)
    requires StronglyConnected(le)
    ensures multiset(r) == multiset(s)
    ensures Sorted(r, le)
  {
    if s == [] then []
    else
      assert s == [s[0]] + s[1..];
      var t := SortBy(s[1..], le);
      InsertSorted(s[0], t, le);
      Insert(s[0], t, le)
  }

  /** Under a transitive order, a sequence ordered from each element to the
      next is ordered between any element and every later one. */
  lemma {:induction false} SortedPairwise<T(!new)>(s: seq<T>, le: (T, T) -> bool)
    requires Transitive(le) && Sorted(s, le)
    ensures forall i, j :: 0 <= i < j < |s| ==> le(s[i], s[j])
  {
    if s != [] {
      var u := s[1..];
      SortedTail(s, le);
      SortedPairwise(u, le);
      forall i, j | 0 <= i < j < |s| ensures le(s[i], s[j]) {
        if i > 0 {
          assert s[i] == u[i - 1] && s[j] == u[j - 1];
        } else if j > 1 {
          assert le(s[0], s[1]) && s[1] == u[0] && s[j] == u[j - 1];
        }
      }
    }
  }

  /** Python's `a <= b` on strings. */
  predicate StrLe(a: string, b: string) {
    a == [] || (b != [] && (a[0] < b[0] || (a[0] == b[0] && StrLe(a[1..], b[1..]))))
  }

  lemma {:induction false} StrLeTotal(a: string, b: string)
    ensures StrLe(a, b) || StrLe(b, a)
  {
    if a != [] && b != [] && a[0] == b[0] {
      StrLeTotal(a[1..], b[1..]);
    }
  }

  lemma {:induction false} StrLeAntisymmetric(a: string, b: string)
    requires StrLe(a, b) && StrLe(b, a)
    ensures a == b
  {
    if a != [] && b != [] {
      StrLeAntisymmetric(a[1..], b[1..]);
      assert a == [a[0]] + a[1..] && b == [b[0]] + b[1..];
    }
  }

  lemma {:induction false} StrLeTransitive(a: string, b: string, c: string)
    requires StrLe(a, b) && StrLe(b, c)
    ensures StrLe(a, c)
  {
    if a != [] && b != [] && c != [] && a[0] == b[0] && b[0] == c[0] {
      StrLeTransitive(a[1..], b[1..], c[1..]);
    }
  }
}
