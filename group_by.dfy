/** The two pandas group-by aggregations the dashboard uses, on values.

    `frame.groupby(key).size().reset_index(name="count")` becomes `Size`,
    `frame.groupby(key)[col].apply(list).reset_index(...)` becomes `Collect`.
    Both are folds over the rows: each row adds one to its group's count, or
    its value to its group's list, opening the group when it is new. Groups
    come out in order of first appearance; callers that need another order
    sort afterwards (see `Sorting`).

    The reference meaning of a group, independent of the fold, is
    `Occurrences` (how many rows carry the key) and `ValuesWhere` (their
    values, in row order). */
module GroupBy {
  import opened Sorting

  /** One row of a grouped table: a group key and that group's aggregate. */
  datatype Keyed<K, A> = Keyed(key: K, agg: A)

  /** A row of a `.size()` table: the aggregate is the group's row count. */
  type Entry<K> = Keyed<K, nat>

  /** A row of an `.apply(list)` table: the aggregate is the group's values. */
  type Group<K, V> = Keyed<K, seq<V>>

  // ---------------------------------------------------------------------------
  // Reference definitions over the rows

  /** The number of rows whose key is `k`. */
  function Occurrences<T, K(==)>(rows: seq<T>, key: T -> K, k: K): nat
  {
    if rows == [] then 0
    else Occurrences(rows[..|rows| - 1], key, k) + (if key(rows[|rows| - 1]) == k then 1 else 0)
  }

  /** The values of the rows whose key is `k`, in row order. */
  function ValuesWhere<T, K(==), V>(rows: seq<T>, key: T -> K, value: T -> V, k: K): seq<V>
  {
    if rows == [] then []
    else
      ValuesWhere(rows[..|rows| - 1], key, value, k)
      + (if key(rows[|rows| - 1]) == k then [value(rows[|rows| - 1])] else [])
  }

  /** One column of the rows, in row order. */
  function Column<T, V>(rows: seq<T>, value: T -> V): seq<V>
  {
    if rows == [] then [] else Column(rows[..|rows| - 1], value) + [value(rows[|rows| - 1])]
  }

  /** A group lists as many values as it has rows. */
  lemma {:induction false} ValuesWhereLength<T, K, V>(rows: seq<T>, key: T -> K, value: T -> V, k: K)
    ensures |ValuesWhere(rows, key, value, k)| == Occurrences(rows, key, k)
  {
    if rows != [] {
      ValuesWhereLength(rows[..|rows| - 1], key, value, k);
    }
  }

  // ---------------------------------------------------------------------------
  // Grouped tables

  function KeySet<K, A>(t: seq<Keyed<K, A>>): set<K>
  {
    if t == [] then {} else {t[0].key} + KeySet(t[1..])
  }

  /** No key labels two rows of the table. */
  predicate DistinctKeys<K(==), A>(t: seq<Keyed<K, A>>)
  {
    t == [] || (t[0].key !in KeySet(t[1..]) && DistinctKeys(t[1..]))
  }

  /** The aggregate of the first row labelled `k`, or `absent` when there is none. */
  function Lookup<K(==), A>(t: seq<Keyed<K, A>>, k: K, absent: A): A
  {
    if t == [] then absent else if t[0].key == k then t[0].agg else Lookup(t[1..], k, absent)
  }

  /** The count a `.size()` table gives key `k` (0 for a key it lacks). */
  function CountOf<K(==)>(t: seq<Entry<K>>, k: K): nat
  {
    Lookup(t, k, 0)
  }

  /** The list an `.apply(list)` table gives key `k` (empty for a key it lacks). */
  function MembersOf<K(==), V>(t: seq<Group<K, V>>, k: K): seq<V>
  {
    Lookup(t, k, [])
  }

  /** The sum of a `.size()` table's counts. */
  function Total<K>(t: seq<Entry<K>>): nat
  {
    if t == [] then 0 else t[0].agg + Total(t[1..])
  }

  /** All lists of an `.apply(list)` table, one after another. */
  function Flatten<K, V>(t: seq<Group<K, V>>): seq<V>
  {
    if t == [] then [] else t[0].agg + Flatten(t[1..])
  }

  predicate Positive<K>(t: seq<Entry<K>>)
  {
    forall i :: 0 <= i < |t| ==> t[i].agg >= 1
  }

  predicate NonEmptyGroups<K, V>(t: seq<Group<K, V>>)
  {
    forall i :: 0 <= i < |t| ==> t[i].agg != []
  }

  /** `t` is the `.size()` table of `rows` grouped by `key`, in some row order:
      one row per key that occurs, carrying the number of rows with that key. */
  ghost predicate IsSizeTable<T, K(!new)>(t: seq<Entry<K>>, rows: seq<T>, key: T -> K)
  {
    && DistinctKeys(t)
    && Positive(t)
    && (forall k :: k in KeySet(t) <==> Occurrences(rows, key, k) > 0)
    && (forall k :: CountOf(t, k) == Occurrences(rows, key, k))
  }

  /** `t` is the `.apply(list)` table of `rows` grouped by `key`, in some row
      order: one row per key that occurs, listing the values of its rows in
      row order. */
  ghost predicate IsGroupTable<T, K(!new), V>(t: seq<Group<K, V>>, rows: seq<T>, key: T -> K, value: T -> V)
  {
    && DistinctKeys(t)
    && NonEmptyGroups(t)
    && (forall k :: k in KeySet(t) <==> Occurrences(rows, key, k) > 0)
    && (forall k :: MembersOf(t, k) == ValuesWhere(rows, key, value, k))
  }

  // ---------------------------------------------------------------------------
  // groupby(key).size()

  /** One more row with key `k` arrives at the running count table. */
  function AddKey<K(==)>(t: seq<Entry<K>>, k: K): seq<Entry<K>>
  {
    if t == [] then [Keyed(k, 1)]
    else if t[0].key == k then [Keyed(k, t[0].agg + 1)] + t[1..]
    else [t[0]] + AddKey(t[1..], k)
  }

  /** Adding a row opens or bumps exactly its own group. */
  lemma {:induction false} AddKeySpec<K(!new)>(t: seq<Entry<K>>, k: K)
    ensures KeySet(AddKey(t, k)) == KeySet(t) + {k}
    ensures forall k' :: CountOf(AddKey(t, k), k') == CountOf(t, k') + (if k' == k then 1 else 0)
    ensures Total(AddKey(t, k)) == Total(t) + 1
    ensures Positive(t) ==> Positive(AddKey(t, k))
    ensures DistinctKeys(t) ==> DistinctKeys(AddKey(t, k))
  {
    var r := AddKey(t, k);
    if t != [] {
      if t[0].key == k {
        assert r[1..] == t[1..];
      } else {
        AddKeySpec(t[1..], k);
        assert r[0] == t[0] && r[1..] == AddKey(t[1..], k);
        forall k' ensures CountOf(r, k') == CountOf(t, k') + (if k' == k then 1 else 0) {
          if k' != t[0].key {
            assert CountOf(r, k') == CountOf(r[1..], k');
            assert CountOf(t, k') == CountOf(t[1..], k');
          }
        }
      }
    }
  }

  /** `groupby(key).size()`, groups in order of first appearance. */
  function Size<T, K(==)>(rows: seq<T>, key: T -> K): seq<Entry<K>>
  {
    if rows == [] then []
    else AddKey(Size(rows[..|rows| - 1], key), key(rows[|rows| - 1]))
  }

  /** `groupby(key).size()` is the size table of the rows, and its counts sum
      to the number of rows. */
  lemma {:induction false} SizeSpec<T, K(!new)>(rows: seq<T>, key: T -> K)
    ensures IsSizeTable(Size(rows, key), rows, key)
    ensures Total(Size(rows, key)) == |rows|
  {
    if rows != [] {
      var init, x := rows[..|rows| - 1], rows[|rows| - 1];
      var t := Size(init, key);
      SizeSpec(init, key);
      AddKeySpec(t, key(x));
      forall k ensures Occurrences(rows, key, k) == Occurrences(init, key, k) + (if key(x) == k then 1 else 0) {
      }
    }
  }

  // ---------------------------------------------------------------------------
  // groupby(key)[col].apply(list)

  /** One more row with key `k` and value `v` arrives at the running lists. */
  function AddMember<K(==), V>(t: seq<Group<K, V>>, k: K, v: V): seq<Group<K, V>>
  {
    if t == [] then [Keyed(k, [v])]
    else if t[0].key == k then [Keyed(k, t[0].agg + [v])] + t[1..]
    else [t[0]] + AddMember(t[1..], k, v)
  }

  /** Adding a row appends its value to exactly its own group's list. */
  lemma {:induction false} AddMemberSpec<K(!new), V>(t: seq<Group<K, V>>, k: K, v: V)
    ensures KeySet(AddMember(t, k, v)) == KeySet(t) + {k}
    ensures forall k' :: MembersOf(AddMember(t, k, v), k') == MembersOf(t, k') + (if k' == k then [v] else [])
    ensures NonEmptyGroups(t) ==> NonEmptyGroups(AddMember(t, k, v))
    ensures DistinctKeys(t) ==> DistinctKeys(AddMember(t, k, v))
  {
    var r := AddMember(t, k, v);
    if t != [] {
      if t[0].key == k {
        assert r[1..] == t[1..];
      } else {
        AddMemberSpec(t[1..], k, v);
        assert r[0] == t[0] && r[1..] == AddMember(t[1..], k, v);
        forall k' ensures MembersOf(r, k') == MembersOf(t, k') + (if k' == k then [v] else []) {
          if k' != t[0].key {
            assert MembersOf(r, k') == MembersOf(r[1..], k');
            assert MembersOf(t, k') == MembersOf(t[1..], k');
          }
        }
      }
    }
  }

  /** Adding a row adds its value once to the values listed in all groups. */
  lemma {:induction false} AddMemberFlatten<K, V>(t: seq<Group<K, V>>, k: K, v: V)
    ensures multiset(Flatten(AddMember(t, k, v))) == multiset(Flatten(t)) + multiset{v}
  {
    var r := AddMember(t, k, v);
    if t != [] {
      if t[0].key == k {
        assert r[1..] == t[1..];
      } else {
        AddMemberFlatten(t[1..], k, v);
        assert r[0] == t[0] && r[1..] == AddMember(t[1..], k, v);
      }
    }
  }

  /** `groupby(key)[col].apply(list)`, groups in order of first appearance. */
  function Collect<T, K(==), V>(rows: seq<T>, key: T -> K, value: T -> V): seq<Group<K, V>>
  {
    if rows == [] then []
    else AddMember(Collect(rows[..|rows| - 1], key, value), key(rows[|rows| - 1]), value(rows[|rows| - 1]))
  }

  /** `groupby(key)[col].apply(list)` is the list table of the rows, and its
      lists together hold the column's values, each as often as it occurs. */
  lemma {:induction false} CollectSpec<T, K(!new), V>(rows: seq<T>, key: T -> K, value: T -> V)
    ensures IsGroupTable(Collect(rows, key, value), rows, key, value)
    ensures multiset(Flatten(Collect(rows, key, value))) == multiset(Column(rows, value))
  {
    if rows != [] {
      var init, x := rows[..|rows| - 1], rows[|rows| - 1];
      var t := Collect(init, key, value);
      CollectSpec(init, key, value);
      AddMemberSpec(t, key(x), value(x));
      AddMemberFlatten(t, key(x), value(x));
      forall k ensures Occurrences(rows, key, k) == Occurrences(init, key, k) + (if key(x) == k then 1 else 0) {
      }
      forall k ensures ValuesWhere(rows, key, value, k) == ValuesWhere(init, key, value, k) + (if key(x) == k then [value(x)] else []) {
      }
      assert Column(rows, value) == Column(init, value) + [value(x)];
    }
  }

  /** A list table and a count table over the same rows and key agree: the
      same keys, and each key's list is as long as its count. */
  lemma GroupsMatchSizes<T, K(!new), V>(g: seq<Group<K, V>>, c: seq<Entry<K>>, rows: seq<T>, key: T -> K, value: T -> V)
    requires IsGroupTable(g, rows, key, value) && IsSizeTable(c, rows, key)
    ensures KeySet(g) == KeySet(c)
    ensures forall k :: |MembersOf(g, k)| == CountOf(c, k)
  {
    forall k ensures |MembersOf(g, k)| == CountOf(c, k) {
      ValuesWhereLength(rows, key, value, k);
    }
  }

  // ---------------------------------------------------------------------------
  // Reordering a grouped table
  //
  // `sort_values` promises only a permutation of the rows, so the facts below
  // are stated for every `r` with the same multiset of rows as `t`.

  /** A table's keys are the keys of its rows. */
  lemma {:induction false} KeySetMembers<K, A>(t: seq<Keyed<K, A>>)
    ensures KeySet(t) == set e | e in t :: e.key
  {
    if t != [] {
      KeySetMembers(t[1..]);
      assert t == [t[0]] + t[1..];
      assert forall e :: e in t <==> e == t[0] || e in t[1..];
    }
  }

  /** A table has at most one key per row, and exactly one when keys are distinct. */
  lemma {:induction false} DistinctKeysCard<K, A>(t: seq<Keyed<K, A>>)
    ensures |KeySet(t)| <= |t|
    ensures DistinctKeys(t) <==> |KeySet(t)| == |t|
  {
    if t != [] {
      DistinctKeysCard(t[1..]);
      if t[0].key in KeySet(t[1..]) {
        assert KeySet(t) == KeySet(t[1..]);
      }
    }
  }

  /** In a table with distinct keys, each row's key looks up that row's aggregate. */
  lemma {:induction false} LookupOfMember<K, A>(t: seq<Keyed<K, A>>, e: Keyed<K, A>, absent: A)
    requires DistinctKeys(t) && e in t
    ensures Lookup(t, e.key, absent) == e.agg
  {
    if t[0] != e {
      assert e in t[1..] by {
        assert t == [t[0]] + t[1..];
      }
      KeySetMembers(t[1..]);
      LookupOfMember(t[1..], e, absent);
    }
  }

  /** A key the table lacks looks up `absent`. */
  lemma {:induction false} LookupOfAbsent<K, A>(t: seq<Keyed<K, A>>, k: K, absent: A)
    requires k !in KeySet(t)
    ensures Lookup(t, k, absent) == absent
  {
    if t != [] {
      LookupOfAbsent(t[1..], k, absent);
    }
  }

  /** Reordering a table keeps its set of keys. */
  lemma PermutedKeySet<K, A>(t: seq<Keyed<K, A>>, r: seq<Keyed<K, A>>)
    requires multiset(r) == multiset(t)
    ensures KeySet(r) == KeySet(t)
  {
    KeySetMembers(t);
    KeySetMembers(r);
    forall k | k in KeySet(r) ensures k in KeySet(t) {
      var e :| e in r && e.key == k;
      assert e in multiset(r);
    }
    forall k | k in KeySet(t) ensures k in KeySet(r) {
      var e :| e in t && e.key == k;
      assert e in multiset(t);
    }
  }

  /** Reordering a table with distinct keys keeps its keys, keeps them
      distinct, and keeps each key's aggregate. */
  lemma PermutedKeyed<K, A>(t: seq<Keyed<K, A>>, r: seq<Keyed<K, A>>, absent: A)
    requires DistinctKeys(t) && multiset(r) == multiset(t)
    ensures KeySet(r) == KeySet(t)
    ensures DistinctKeys(r)
    ensures forall k :: Lookup(r, k, absent) == Lookup(t, k, absent)
  {
    PermutedKeySet(t, r);
    assert |r| == |multiset(r)| == |t|;
    DistinctKeysCard(t);
    DistinctKeysCard(r);
    forall k ensures Lookup(r, k, absent) == Lookup(t, k, absent) {
      if k in KeySet(t) {
        KeySetMembers(t);
        var e :| e in t && e.key == k;
        assert e in multiset(r);
        LookupOfMember(t, e, absent);
        LookupOfMember(r, e, absent);
      } else {
        LookupOfAbsent(t, k, absent);
        LookupOfAbsent(r, k, absent);
      }
    }
  }

  /** Finds an occurrence of `x` in `r` and splits `r` around it. */
  lemma PickOccurrence<T>(r: seq<T>, x: T) returns (i: nat)
    requires x in multiset(r)
    ensures i < |r| && r[i] == x
    ensures r == r[..i] + ([x] + r[i + 1..])
    ensures multiset(r[..i] + r[i + 1..]) == multiset(r) - multiset{x}
  {
    assert x in r;
    i :| 0 <= i < |r| && r[i] == x;
    assert r == r[..i] + ([x] + r[i + 1..]);
  }

  lemma {:induction false} TotalConcat<K>(a: seq<Entry<K>>, b: seq<Entry<K>>)
    ensures Total(a + b) == Total(a) + Total(b)
  {
    if a != [] {
      assert (a + b)[1..] == a[1..] + b;
      TotalConcat(a[1..], b);
    } else {
      assert a + b == b;
    }
  }

  /** Reordering a count table keeps the sum of its counts. */
  lemma {:induction false} PermutedTotal<K>(t: seq<Entry<K>>, r: seq<Entry<K>>)
    requires multiset(r) == multiset(t)
    ensures Total(r) == Total(t)
    decreases |t|
  {
    if t == [] {
      assert |r| == |multiset(r)| == 0;
    } else {
      var i := PickOccurrence(r, t[0]);
      var front, back := r[..i], r[i + 1..];
      assert t == [t[0]] + t[1..];
      assert multiset(front + back) == multiset(t[1..]);
      PermutedTotal(t[1..], front + back);
      TotalConcat(front, [t[0]] + back);
      TotalConcat([t[0]], back);
      TotalConcat(front, back);
    }
  }

  lemma {:induction false} FlattenConcat<K, V>(a: seq<Group<K, V>>, b: seq<Group<K, V>>)
    ensures Flatten(a + b) == Flatten(a) + Flatten(b)
  {
    if a != [] {
      assert (a + b)[1..] == a[1..] + b;
      FlattenConcat(a[1..], b);
    } else {
      assert a + b == b;
    }
  }

  /** Reordering a list table keeps every listed value, as often as it is listed. */
  lemma {:induction false} PermutedFlatten<K, V>(t: seq<Group<K, V>>, r: seq<Group<K, V>>)
    requires multiset(r) == multiset(t)
    ensures multiset(Flatten(r)) == multiset(Flatten(t))
    decreases |t|
  {
    if t == [] {
      assert |r| == |multiset(r)| == 0;
    } else {
      var i := PickOccurrence(r, t[0]);
      var front, back := r[..i], r[i + 1..];
      assert t == [t[0]] + t[1..];
      assert multiset(front + back) == multiset(t[1..]);
      PermutedFlatten(t[1..], front + back);
      FlattenConcat(front, [t[0]] + back);
      FlattenConcat([t[0]], back);
      FlattenConcat(front, back);
    }
  }

  /** Any reordering of a `.size()` table is again that table, with the same total. */
  lemma PermutedSizeTable<T, K(!new)>(t: seq<Entry<K>>, r: seq<Entry<K>>, rows: seq<T>, key: T -> K)
    requires IsSizeTable(t, rows, key) && multiset(r) == multiset(t)
    ensures IsSizeTable(r, rows, key)
    ensures Total(r) == Total(t)
  {
    PermutedKeyed(t, r, 0);
    PermutedTotal(t, r);
    forall i | 0 <= i < |r| ensures r[i].agg >= 1 {
      assert r[i] in multiset(t);
    }
    forall k ensures CountOf(r, k) == Occurrences(rows, key, k) {
      assert Lookup(r, k, 0) == Lookup(t, k, 0);
    }
  }

  /** Any reordering of an `.apply(list)` table is again that table, listing the same values. */
  lemma PermutedGroupTable<T, K(!new), V>(t: seq<Group<K, V>>, r: seq<Group<K, V>>, rows: seq<T>, key: T -> K, value: T -> V)
    requires IsGroupTable(t, rows, key, value) && multiset(r) == multiset(t)
    ensures IsGroupTable(r, rows, key, value)
    ensures multiset(Flatten(r)) == multiset(Flatten(t))
  {
    PermutedKeyed(t, r, []);
    PermutedFlatten(t, r);
    forall i | 0 <= i < |r| ensures r[i].agg != [] {
      assert r[i] in multiset(t);
    }
    forall k ensures MembersOf(r, k) == ValuesWhere(rows, key, value, k) {
      assert Lookup(r, k, []) == Lookup(t, k, []);
    }
  }

  // ---------------------------------------------------------------------------
  // A strict key order fixes the table

  /** `le` never puts two rows with different keys both ways round. */
  ghost predicate KeyAntisymmetric<K(!new), A(!new)>(le: (Keyed<K, A>, Keyed<K, A>) -> bool) {
    forall a, b :: le(a, b) && le(b, a) ==> a.key == b.key
  }

  /** The first rows of two such tables coincide: each is a row of the other
      table, which it can only follow when the two share a key. */
  lemma SortedTablesHead<K(!new), A(!new)>(t: seq<Keyed<K, A>>, u: seq<Keyed<K, A>>, le: (Keyed<K, A>, Keyed<K, A>) -> bool, absent: A)
    requires Transitive(le) && KeyAntisymmetric(le)
    requires DistinctKeys(t) && DistinctKeys(u) && Sorted(t, le) && Sorted(u, le)
    requires KeySet(t) == KeySet(u)
    requires forall k :: Lookup(t, k, absent) == Lookup(u, k, absent)
    requires t != [] && u != []
    ensures t[0] == u[0]
  {
    var x, y := t[0], u[0];
    KeySetMembers(t);
    KeySetMembers(u);
    var e :| e in u && e.key == x.key;
    LookupOfMember(u, e, absent);
    var d :| d in t && d.key == y.key;
    LookupOfMember(t, d, absent);
    var j :| 0 <= j < |u| && u[j] == e;
    var i :| 0 <= i < |t| && t[i] == d;
    SortedPairwise(t, le);
    SortedPairwise(u, le);
    if i > 0 && j > 0 {
      assert le(x, d) && le(y, e);
    }
  }

  /** Two tables with distinct keys, the same first row and the same
      key-to-aggregate map still agree once that row is dropped. */
  lemma TablesTail<K, A>(t: seq<Keyed<K, A>>, u: seq<Keyed<K, A>>, absent: A)
    requires DistinctKeys(t) && DistinctKeys(u) && t != [] && u != [] && t[0] == u[0]
    requires KeySet(t) == KeySet(u)
    requires forall k :: Lookup(t, k, absent) == Lookup(u, k, absent)
    ensures KeySet(t[1..]) == KeySet(u[1..])
    ensures forall k :: Lookup(t[1..], k, absent) == Lookup(u[1..], k, absent)
  {
    assert KeySet(t[1..]) == KeySet(t) - {t[0].key};
    assert KeySet(u[1..]) == KeySet(u) - {u[0].key};
    forall k ensures Lookup(t[1..], k, absent) == Lookup(u[1..], k, absent) {
      if k == t[0].key {
        LookupOfAbsent(t[1..], k, absent);
        LookupOfAbsent(u[1..], k, absent);
      } else {
        assert Lookup(t, k, absent) == Lookup(t[1..], k, absent);
        assert Lookup(u, k, absent) == Lookup(u[1..], k, absent);
      }
    }
  }

  /** Under a transitive order that is antisymmetric on keys, two tables with
      distinct keys that give every key the same aggregate and are both in
      order are the same table. */
  lemma {:induction false} SortedTablesEqual<K(!new), A(!new)>(t: seq<Keyed<K, A>>, u: seq<Keyed<K, A>>, le: (Keyed<K, A>, Keyed<K, A>) -> bool, absent: A)
    requires Transitive(le) && KeyAntisymmetric(le)
    requires DistinctKeys(t) && DistinctKeys(u) && Sorted(t, le) && Sorted(u, le)
    requires KeySet(t) == KeySet(u)
    requires forall k :: Lookup(t, k, absent) == Lookup(u, k, absent)
    ensures t == u
    decreases |t|
  {
    if t == [] || u == [] {
      assert KeySet(t) == {} && KeySet(u) == {};
    } else {
      SortedTablesHead(t, u, le, absent);
      TablesTail(t, u, absent);
      SortedTail(t, le);
      SortedTail(u, le);
      SortedTablesEqual(t[1..], u[1..], le, absent);
      assert t == [t[0]] + t[1..] && u == [u[0]] + u[1..];
    }
  }

  // ---------------------------------------------------------------------------
  // sort_values("count", ascending=False)

  predicate CountAtLeast<K>(a: Entry<K>, b: Entry<K>)
  {
    a.agg >= b.agg
  }

  /** Counts never increase down the table. */
  predicate NonIncreasing<K>(t: seq<Entry<K>>)
  {
    forall i, j :: 0 <= i < j < |t| ==> t[i].agg >= t[j].agg
  }

  lemma SortedByCountIsNonIncreasing<K(!new)>(t: seq<Entry<K>>)
    requires Sorted(t, CountAtLeast)
    ensures NonIncreasing(t)
  {
    assert Transitive(CountAtLeast<K>);
    SortedPairwise(t, CountAtLeast);
  }

  /** `sort_values("count", ascending=False)`: a reordering of the table with
      counts non-increasing; the order of equal counts is not specified. */
  function SortByCountDesc<K(!new)>(t: seq<Entry<K>>): (r: seq<Entry<K>>)
    ensures multiset(r) == multiset(t)
    ensures NonIncreasing(r)
  {
    assert StronglyConnected(CountAtLeast<K>);
    var r := SortBy(t, CountAtLeast);
    SortedByCountIsNonIncreasing(r);
    r
  }

  /** `groupby(key).size().reset_index(name="count").sort_values("count",
      ascending=False)`: the size table of the rows, counts summing to the
      number of rows, largest counts first. */
  lemma SizeSortedByCount<T, K(!new)>(rows: seq<T>, key: T -> K)
    ensures IsSizeTable(SortByCountDesc(Size(rows, key)), rows, key)
    ensures Total(SortByCountDesc(Size(rows, key))) == |rows|
    ensures NonIncreasing(SortByCountDesc(Size(rows, key)))
  {
    SizeSpec(rows, key);
    PermutedSizeTable(Size(rows, key), SortByCountDesc(Size(rows, key)), rows, key);
  }
}
