/** Sequence operations the queries are made of: filtering (`WHERE`), removing
    duplicates (`SELECT DISTINCT`) and a stable sort by a key (`ORDER BY`, and
    Python's `sorted(..., key=...)`, which is guaranteed stable). */
module Lists {

  /** A sort key compared lexicographically: `ORDER BY major, minor`. */
  datatype Rank = Rank(major: int, minor: int)

  predicate RankLe(a: Rank, b: Rank)
  {
    a.major < b.major || (a.major == b.major && a.minor <= b.minor)
  }

  /** Keys never decrease from left to right. */
  ghost predicate SortedBy<T(!new)>(s: seq<T>, key: T -> Rank)
  {
    forall i, j :: 0 <= i < j < |s| ==> RankLe(key(s[i]), key(s[j]))
  }

  /** No element appears twice. */
  ghost predicate Distinct<T(!new)>(s: seq<T>)
  {
    forall i, j :: 0 <= i < j < |s| ==> s[i] != s[j]
  }

  /** The elements of `s` that satisfy `p`, in their order in `s`. */
  function Filter<T(!new)>(s: seq<T>, p: T -> bool): (r: seq<T>)
    ensures forall x :: x in r <==> x in s && p(x)
    ensures |r| <= |s|
  {
    if s == [] then []
    else if p(s[0]) then [s[0]] + Filter(s[1..], p)
    else Filter(s[1..], p)
  }

  /** A filtered duplicate-free sequence stays duplicate-free. */
  lemma {:induction false} FilterDistinct<T(!new)>(s: seq<T>, p: T -> bool)
    requires Distinct(s)
    ensures Distinct(Filter(s, p))
  {
    if s != [] {
      FilterDistinct(s[1..], p);
      assert s[0] !in s[1..];
    }
  }

  lemma {:induction false} FilterAppend<T(!new)>(a: seq<T>, b: seq<T>, p: T -> bool)
    ensures Filter(a + b, p) == Filter(a, p) + Filter(b, p)
  {
    if a == [] {
      assert a + b == b;
    } else {
      FilterAppend(a[1..], b, p);
      var head := if p(a[0]) then [a[0]] else [];
      assert (a + b)[0] == a[0];
      assert (a + b)[1..] == a[1..] + b;
      AppendAssoc(head, Filter(a[1..], p), Filter(b, p));
    }
  }

  /** Filtering with `p` after filtering with `q` keeps what satisfies both. */
  lemma {:induction false} FilterFilter<T(!new)>(s: seq<T>, p: T -> bool, q: T -> bool)
    requires forall x :: x in s && q(x) ==> p(x)
    ensures Filter(Filter(s, q), p) == Filter(s, q)
  {
    if s != [] {
      FilterFilter(s[1..], p, q);
    }
  }

  lemma {:induction false} FilterNone<T(!new)>(s: seq<T>, p: T -> bool)
    requires forall x :: x in s ==> !p(x)
    ensures Filter(s, p) == []
  {
    if s != [] {
      FilterNone(s[1..], p);
    }
  }

  /** `SELECT DISTINCT`: the first occurrence of each element, in order. */
  function Dedup<T(==,!new)>(s: seq<T>): (r: seq<T>)
    ensures forall x :: x in r <==> x in s
    ensures Distinct(r)
    decreases |s|
  {
    if s == [] then []
    else
      var init := Dedup(s[..|s| - 1]);
      var last := s[|s| - 1];
      assert forall x :: x in s <==> x in s[..|s| - 1] || x == last;
      if last in init then init else init + [last]
  }

  /** Places `x` before the first element whose key is not below `key(x)`. */
  function Insert<T(!new)>(x: T, s: seq<T>, key: T -> Rank): (r: seq<T>)
    ensures multiset(r) == multiset(s) + multiset{x}
    ensures |r| == |s| + 1
  {
    if s == [] || RankLe(key(x), key(s[0])) then [x] + s
    else
      assert s == [s[0]] + s[1..];
      [s[0]] + Insert(x, s[1..], key)
  }

  /** Stable insertion sort by ascending key: equal keys keep their input order. */
  function SortBy<T(!new)>(s: seq<T>, key: T -> Rank): (r: seq<T>)
    ensures multiset(r) == multiset(s)
    ensures SortedBy(r, key)
  {
    if s == [] then []
    else
      var rest := SortBy(s[1..], key);
      InsertSorted(s[0], rest, key);
      assert s == [s[0]] + s[1..];
      Insert(s[0], rest, key)
  }

  lemma {:induction false} InsertSorted<T(!new)>(x: T, s: seq<T>, key: T -> Rank)
    requires SortedBy(s, key)
    ensures SortedBy(Insert(x, s, key), key)
  {
    if s != [] && !RankLe(key(x), key(s[0])) {
      InsertSorted(x, s[1..], key);
      var t := Insert(x, s[1..], key);
      forall y | y in t ensures RankLe(key(s[0]), key(y)) {
        assert y in multiset(t);
        if y != x {
          assert y in multiset(s[1..]);
          var j :| 0 <= j < |s[1..]| && s[1..][j] == y;
          assert s[j + 1] == y;
        }
      }
    }
  }

  /** Sorting keeps a duplicate-free sequence duplicate-free. */
  lemma {:induction false} SortByDistinct<T(!new)>(s: seq<T>, key: T -> Rank)
    requires Distinct(s)
    ensures Distinct(SortBy(s, key))
  {
    if s != [] {
      var rest := SortBy(s[1..], key);
      SortByDistinct(s[1..], key);
      assert s[0] !in s[1..];
      assert s[0] !in multiset(rest);
      InsertDistinct(s[0], rest, key);
    }
  }

  lemma {:induction false} InsertDistinct<T(!new)>(x: T, s: seq<T>, key: T -> Rank)
    requires Distinct(s) && x !in s
    ensures Distinct(Insert(x, s, key))
  {
    if s != [] && !RankLe(key(x), key(s[0])) {
      InsertDistinct(x, s[1..], key);
      var t := Insert(x, s[1..], key);
      assert s[0] !in s[1..];
      assert s[0] != x;
      assert s[0] !in multiset(t);
    }
  }

  /** With a two-valued key (0 or 1), inserting a 1 into zeros-then-ones
      puts it after every 0 and before every 1. */
  lemma {:induction false} InsertAfterZeros<T(!new)>(x: T, a: seq<T>, b: seq<T>, key: T -> Rank)
    requires key(x) == Rank(1, 0)
    requires forall y :: y in a ==> key(y) == Rank(0, 0)
    requires forall y :: y in b ==> key(y) == Rank(1, 0)
    ensures Insert(x, a + b, key) == a + ([x] + b)
  {
    if a == [] {
      assert a + b == b;
    } else {
      InsertAfterZeros(x, a[1..], b, key);
      assert (a + b)[1..] == a[1..] + b;
      assert a + ([x] + b) == [a[0]] + (a[1..] + ([x] + b));
    }
  }

  lemma AppendAssoc<T>(a: seq<T>, b: seq<T>, c: seq<T>)
    ensures a + (b + c) == (a + b) + c
  {
  }

  /** Inserting a 0 puts it in front: no key is below 0. */
  lemma InsertZero<T(!new)>(x: T, s: seq<T>, key: T -> Rank)
    requires key(x) == Rank(0, 0)
    requires forall y :: y in s ==> key(y) == Rank(0, 0) || key(y) == Rank(1, 0)
    ensures Insert(x, s, key) == [x] + s
  {
    if s != [] {
      assert key(s[0]) == Rank(0, 0) || key(s[0]) == Rank(1, 0);
    }
  }

  /** Stable sorting by a two-valued key is a stable partition:
      everything keyed 0, in input order, then everything keyed 1, in input order. */
  lemma {:induction false} SortByTwoValued<T(!new)>(s: seq<T>, key: T -> Rank, zero: T -> bool, one: T -> bool)
    requires forall x :: key(x) == (if zero(x) then Rank(0, 0) else Rank(1, 0))
    requires forall x :: one(x) == !zero(x)
    ensures SortBy(s, key) == Filter(s, zero) + Filter(s, one)
  {
    if s != [] {
      SortByTwoValued(s[1..], key, zero, one);
      if zero(s[0]) {
        SortByTwoValuedZero(s, key, zero, one);
      } else {
        SortByTwoValuedOne(s, key, zero, one);
      }
    }
  }

  lemma SortByTwoValuedZero<T(!new)>(s: seq<T>, key: T -> Rank, zero: T -> bool, one: T -> bool)
    requires forall x :: key(x) == (if zero(x) then Rank(0, 0) else Rank(1, 0))
    requires forall x :: one(x) == !zero(x)
    requires s != [] && zero(s[0])
    requires SortBy(s[1..], key) == Filter(s[1..], zero) + Filter(s[1..], one)
    ensures SortBy(s, key) == Filter(s, zero) + Filter(s, one)
  {
    var a, b := Filter(s[1..], zero), Filter(s[1..], one);
    assert key(s[0]) == Rank(0, 0);
    forall y | y in a + b ensures key(y) == Rank(0, 0) || key(y) == Rank(1, 0) {
    }
    InsertZero(s[0], a + b, key);
    assert SortBy(s, key) == [s[0]] + (a + b);
    assert Filter(s, zero) == [s[0]] + a;
    assert Filter(s, one) == b;
    AppendAssoc([s[0]], a, b);
  }

  lemma SortByTwoValuedOne<T(!new)>(s: seq<T>, key: T -> Rank, zero: T -> bool, one: T -> bool)
    requires forall x :: key(x) == (if zero(x) then Rank(0, 0) else Rank(1, 0))
    requires forall x :: one(x) == !zero(x)
    requires s != [] && !zero(s[0])
    requires SortBy(s[1..], key) == Filter(s[1..], zero) + Filter(s[1..], one)
    ensures SortBy(s, key) == Filter(s, zero) + Filter(s, one)
  {
    var a, b := Filter(s[1..], zero), Filter(s[1..], one);
    assert SortBy(s, key) == Insert(s[0], a + b, key);
    assert Filter(s, zero) == a;
    assert Filter(s, one) == [s[0]] + b;
    forall y | y in a ensures key(y) == Rank(0, 0) {
      assert zero(y);
    }
    forall y | y in b ensures key(y) == Rank(1, 0) {
      assert one(y) && !zero(y);
    }
    InsertAfterZeros(s[0], a, b, key);
  }

  /** Sorting two elements swaps them exactly when the second has the smaller key. */
  lemma SortTwo<T(!new)>(a: T, b: T, key: T -> Rank)
    ensures SortBy([a, b], key) == if RankLe(key(a), key(b)) then [a, b] else [b, a]
  {
    assert [a, b][1..] == [b];
    assert SortBy([b], key) == [b];
    assert Insert(a, [], key) == [a];
  }

  /** The elements whose key is `k`. */
  function KeyIs<T(!new)>(key: T -> Rank, k: Rank): T -> bool
  {
    x => key(x) == k
  }

  /** Inserting `x` adds it in front of the elements of its own key class and
      leaves every other key class as it was. */
  lemma {:induction false} InsertKeyClass<T(!new)>(x: T, s: seq<T>, key: T -> Rank, k: Rank)
    ensures Filter(Insert(x, s, key), KeyIs(key, k)) == (if key(x) == k then [x] else []) + Filter(s, KeyIs(key, k))
    decreases |s|
  {
    if s == [] || RankLe(key(x), key(s[0])) {
      assert ([x] + s)[1..] == s;
    } else {
      var t := Insert(x, s[1..], key);
      InsertKeyClass(x, s[1..], key, k);
      assert ([s[0]] + t)[1..] == t;
      var head := if key(x) == k then [x] else [];
      if key(s[0]) == k {
        assert key(x) != k;
        assert head + Filter(s[1..], KeyIs(key, k)) == Filter(s[1..], KeyIs(key, k));
      }
    }
  }

  /** `SortBy` is stable: each key class keeps its input order. */
  lemma {:induction false} SortByKeyClass<T(!new)>(s: seq<T>, key: T -> Rank, k: Rank)
    ensures Filter(SortBy(s, key), KeyIs(key, k)) == Filter(s, KeyIs(key, k))
    decreases |s|
  {
    if s != [] {
      SortByKeyClass(s[1..], key, k);
      InsertKeyClass(s[0], SortBy(s[1..], key), key, k);
      if key(s[0]) != k {
        assert [] + Filter(s[1..], KeyIs(key, k)) == Filter(s[1..], KeyIs(key, k));
      }
    }
  }
}
