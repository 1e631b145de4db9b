/** The table operations both repositories are built from: a table is the
    sequence of its rows in insertion order, and every row has an integer key. */
module Tables {
  import opened Entities

  /** LINQ `Where`: the rows that satisfy `p`, in their original order. */
  function Filter<T(!new)>(s: seq<T>, p: T -> bool): (r: seq<T>)
    ensures forall x :: x in r <==> x in s && p(x)
    ensures |r| <= |s|
  {
    if s == [] then [] else (if p(s[0]) then [s[0]] else []) + Filter(s[1..], p)
  }

  /** A row appended to the table comes last in the filtered table, if it passes. */
  lemma FilterAppend<T(!new)>(s: seq<T>, x: T, p: T -> bool)
    ensures Filter(s + [x], p) == Filter(s, p) + (if p(x) then [x] else [])
  {
    FilterConcat(s, [x], p);
    assert Filter([x], p) == (if p(x) then [x] else []) + Filter([x][1..], p);
  }

  /** `Where` keeps every row that passes as often as the table holds it, and
      no other row. */
  lemma {:induction false} FilterCounts<T(!new)>(s: seq<T>, p: T -> bool)
    ensures forall x :: multiset(Filter(s, p))[x] == if p(x) then multiset(s)[x] else 0
  {
    if s != [] {
      FilterCounts(s[1..], p);
      assert s == [s[0]] + s[1..];
      assert Filter(s, p) == (if p(s[0]) then [s[0]] else []) + Filter(s[1..], p);
    }
  }

  /** `Where` keeps the table order: filtering a table made of two parts is
      filtering each part, in the same order. */
  lemma {:induction false} FilterConcat<T(!new)>(a: seq<T>, b: seq<T>, p: T -> bool)
    ensures Filter(a + b, p) == Filter(a, p) + Filter(b, p)
  {
    if a == [] {
      assert a + b == b;
    } else {
      assert (a + b)[0] == a[0] && (a + b)[1..] == a[1..] + b;
      FilterConcat(a[1..], b, p);
    }
  }

  /** LINQ `FirstOrDefault`: the first row that satisfies `p`, if any. */
  function First<T>(s: seq<T>, p: T -> bool): (r: Option<T>)
    ensures r.Some? <==> exists i :: 0 <= i < |s| && p(s[i])
    ensures r.Some? ==> exists i :: 0 <= i < |s| && s[i] == r.value && p(s[i]) &&
                                    forall j :: 0 <= j < i ==> !p(s[j])
  {
    if s == [] then None
    else if p(s[0]) then Some(s[0])
    else
      var r := First(s[1..], p);
      assert r.Some? ==> exists i :: 0 <= i < |s| - 1 && s[1..][i] == r.value && p(s[1..][i]) &&
                                     forall j :: 0 <= j < i ==> !p(s[1..][j]);
      assert (exists i :: 0 <= i < |s| && p(s[i])) ==> exists i :: 0 <= i < |s| - 1 && p(s[1..][i]) by {
        if i :| 0 <= i < |s| && p(s[i]) { assert i != 0 && p(s[1..][i - 1]); }
      }
      r
  }

  /** `f` applied to every row (the mapper over a list). */
  function Map<A, B>(s: seq<A>, f: A -> B): (r: seq<B>)
    ensures |r| == |s| && forall i :: 0 <= i < |s| ==> r[i] == f(s[i])
  {
    seq(|s|, i requires 0 <= i < |s| => f(s[i]))
  }

  /** Mapping by a function that has a left inverse keeps how often each
      element occurs. */
  lemma {:induction false} MapCounts<A(!new), B>(s: seq<A>, f: A -> B, g: B -> A)
    requires forall x :: g(f(x)) == x
    ensures forall x :: multiset(Map(s, f))[f(x)] == multiset(s)[x]
  {
    if s != [] {
      MapCounts(s[1..], f, g);
      var rest := Map(s[1..], f);
      assert s == [s[0]] + s[1..];
      assert Map(s, f) == [f(s[0])] + rest;
      assert multiset(Map(s, f)) == multiset{f(s[0])} + multiset(rest);
      forall x | x != s[0] ensures f(x) != f(s[0]) {
        assert g(f(x)) == x && g(f(s[0])) == s[0];
      }
    }
  }

  predicate HasKey<T>(s: seq<T>, key: T -> int, k: int) {
    exists i :: 0 <= i < |s| && key(s[i]) == k
  }

  /** No two rows share a key (the primary-key constraint). */
  ghost predicate UniqueKeys<T>(s: seq<T>, key: T -> int) {
    forall i, j :: 0 <= i < |s| && 0 <= j < |s| && i != j ==> key(s[i]) != key(s[j])
  }

  /** Every key is below `bound` (the next generated key). */
  ghost predicate KeysBelow<T>(s: seq<T>, key: T -> int, bound: int) {
    forall i :: 0 <= i < |s| ==> key(s[i]) < bound
  }

  /** The table after the row with key `k` is removed. */
  function WithoutKey<T(!new)>(s: seq<T>, key: T -> int, k: int): (r: seq<T>)
    ensures forall x :: x in r <==> x in s && key(x) != k
    ensures !HasKey(r, key, k)
  {
    Filter(s, x => key(x) != k)
  }

  /** The table after the row with the key of `x` is overwritten by `x`. */
  function ReplaceByKey<T>(s: seq<T>, key: T -> int, x: T): (r: seq<T>)
    ensures |r| == |s|
    ensures forall i :: 0 <= i < |s| ==> key(r[i]) == key(s[i])
    ensures forall i :: 0 <= i < |s| ==> r[i] == if key(s[i]) == key(x) then x else s[i]
  {
    Map(s, y => if key(y) == key(x) then x else y)
  }

  /** Filtering keeps every row when every row passes. */
  lemma {:induction false} FilterAllPass<T(!new)>(s: seq<T>, p: T -> bool)
    requires forall j :: 0 <= j < |s| ==> p(s[j])
    ensures Filter(s, p) == s
  {
    if s != [] {
      FilterAllPass(s[1..], p);
      assert s == [s[0]] + s[1..];
    }
  }

  /** Filtering drops exactly one row when exactly one row fails. */
  lemma {:induction false} FilterDropsOne<T(!new)>(s: seq<T>, p: T -> bool, i: int)
    requires 0 <= i < |s| && !p(s[i])
    requires forall j :: 0 <= j < |s| && j != i ==> p(s[j])
    ensures |Filter(s, p)| == |s| - 1
  {
    if i == 0 {
      FilterAllPass(s[1..], p);
    } else {
      FilterDropsOne(s[1..], p, i - 1);
    }
  }

  /** The tail of a table with unique keys has unique keys, none of them the head's. */
  lemma TailUniqueKeys<T>(s: seq<T>, key: T -> int)
    requires s != [] && UniqueKeys(s, key)
    ensures UniqueKeys(s[1..], key)
    ensures forall y :: y in s[1..] ==> key(y) != key(s[0])
  {
    var tail := s[1..];
    forall a, b | 0 <= a < |tail| && 0 <= b < |tail| && a != b
      ensures key(tail[a]) != key(tail[b])
    {
      assert tail[a] == s[a + 1] && tail[b] == s[b + 1];
    }
    forall y | y in tail ensures key(y) != key(s[0]) {
      var a :| 0 <= a < |tail| && tail[a] == y;
      assert s[a + 1] == y;
    }
  }

  /** Putting a row in front of a table with unique keys, none of them the
      row's, keeps the keys unique. */
  lemma ConsUniqueKeys<T>(x: T, rest: seq<T>, key: T -> int)
    requires UniqueKeys(rest, key)
    requires forall y :: y in rest ==> key(y) != key(x)
    ensures UniqueKeys([x] + rest, key)
  {
    var all := [x] + rest;
    forall a, b | 0 <= a < |all| && 0 <= b < |all| && a != b
      ensures key(all[a]) != key(all[b])
    {
      if a == 0 {
        assert all[b] == rest[b - 1];
      } else if b == 0 {
        assert all[a] == rest[a - 1];
      } else {
        assert all[a] == rest[a - 1] && all[b] == rest[b - 1];
      }
    }
  }

  /** Filtering keeps the keys unique. */
  lemma {:induction false} FilterKeepsUnique<T(!new)>(s: seq<T>, p: T -> bool, key: T -> int)
    requires UniqueKeys(s, key)
    ensures UniqueKeys(Filter(s, p), key)
  {
    if s != [] {
      TailUniqueKeys(s, key);
      FilterKeepsUnique(s[1..], p, key);
      var rest := Filter(s[1..], p);
      if p(s[0]) {
        assert Filter(s, p) == [s[0]] + rest;
        ConsUniqueKeys(s[0], rest, key);
      } else {
        assert Filter(s, p) == rest;
      }
    }
  }

  /** In a table with unique keys every stored row occurs exactly once. */
  lemma {:induction false} UniqueKeysOccurOnce<T>(s: seq<T>, key: T -> int, x: T)
    requires UniqueKeys(s, key) && x in s
    ensures multiset(s)[x] == 1
  {
    TailUniqueKeys(s, key);
    assert s == [s[0]] + s[1..];
    if x == s[0] {
      assert x !in s[1..];
    } else {
      UniqueKeysOccurOnce(s[1..], key, x);
    }
  }

  /** Removing a key keeps the keys unique. */
  lemma WithoutKeyUnique<T(!new)>(s: seq<T>, key: T -> int, k: int)
    requires UniqueKeys(s, key)
    ensures UniqueKeys(WithoutKey(s, key, k), key)
  {
    FilterKeepsUnique(s, x => key(x) != k, key);
  }

  /** Removing a key that is stored exactly once shortens the table by one row. */
  lemma WithoutKeyRemovesOne<T(!new)>(s: seq<T>, key: T -> int, k: int)
    requires UniqueKeys(s, key) && HasKey(s, key, k)
    ensures |WithoutKey(s, key, k)| == |s| - 1
  {
    var i :| 0 <= i < |s| && key(s[i]) == k;
    FilterDropsOne(s, x => key(x) != k, i);
  }

  /** Overwriting a row by its key keeps the keys unique. */
  lemma ReplaceByKeyUnique<T>(s: seq<T>, key: T -> int, x: T)
    requires UniqueKeys(s, key)
    ensures UniqueKeys(ReplaceByKey(s, key, x), key)
  {
  }

  /** Overwriting the row with key `key(x)` by an equal row changes nothing. */
  lemma ReplaceByKeyStored<T>(s: seq<T>, key: T -> int, x: T)
    requires UniqueKeys(s, key)
    requires forall i :: 0 <= i < |s| && key(s[i]) == key(x) ==> s[i] == x
    ensures ReplaceByKey(s, key, x) == s
  {
  }
}
