/** Python's `sorted(xs, key=...)` on integer keys, which is stable, and
    `sorted(set(xs))` on integers. */
module Sorting {
  import opened Seqs

  /** `r` is in non-decreasing key order. */
  predicate SortedBy<T>(r: seq<T>, key: T -> int) {
    forall i, j :: 0 <= i < j < |r| ==> key(r[i]) <= key(r[j])
  }

  /** The elements whose key is `k`. */
  function KeyIs<T>(key: T -> int, k: int): T -> bool {
    x => key(x) == k
  }

  /** Elements with equal keys appear in `r` in the order they have in `s`. */
  ghost predicate StableWrt<T(!new)>(r: seq<T>, s: seq<T>, key: T -> int) {
    forall k :: Filter(r, KeyIs(key, k)) == Filter(s, KeyIs(key, k))
  }

  /** Inserts `x` in front of the first element whose key is not smaller. */
  function Insert<T(!new)>(x: T, t: seq<T>, key: T -> int): (r: seq<T>)
    ensures multiset(r) == multiset{x} + multiset(t)
    ensures |r| == |t| + 1
    ensures r[0] == x || (t != [] && r[0] == t[0])
  {
    if t == [] then [x]
    else if key(x) <= key(t[0]) then [x] + t
    else
      assert t == [t[0]] + t[1..];
      [t[0]] + Insert(x, t[1..], key)
  }

  lemma {:induction false} InsertSorted<T(!new)>(x: T, t: seq<T>, key: T -> int)
    requires SortedBy(t, key)
    ensures SortedBy(Insert(x, t, key), key)
  {
    if t != [] && key(x) > key(t[0]) {
      var t1 := t[1..];
      assert SortedBy(t1, key) by {
        assert forall i :: 0 <= i < |t1| ==> t1[i] == t[i + 1];
      }
      InsertSorted(x, t1, key);
      var r := Insert(x, t1, key);
      assert key(t[0]) <= key(r[0]) by {
        if r[0] != x {
          assert r[0] == t[1];
        }
      }
      var res := [t[0]] + r;
      forall i, j | 0 <= i < j < |res| ensures key(res[i]) <= key(res[j]) {
        assert res[j] == r[j - 1];
        if i == 0 {
          assert key(r[0]) <= key(r[j - 1]);
        } else {
          assert res[i] == r[i - 1];
        }
      }
      assert Insert(x, t, key) == res;
    }
  }

  /** Only `x` is added to its key class, and in front of it. */
  lemma {:induction false} InsertFilter<T(!new)>(x: T, t: seq<T>, key: T -> int, k: int)
    ensures Filter(Insert(x, t, key), KeyIs(key, k))
         == (if key(x) == k then [x] else []) + Filter(t, KeyIs(key, k))
  {
    if t == [] {
    } else if key(x) <= key(t[0]) {
      assert ([x] + t)[1..] == t;
    } else {
      InsertFilter(x, t[1..], key, k);
      var r := [t[0]] + Insert(x, t[1..], key);
      assert r[1..] == Insert(x, t[1..], key);
    }
  }

  /** Inserting the head of `s` into a stable arrangement of its tail gives a
      stable arrangement of `s`. */
  lemma InsertStable<T(!new)>(s: seq<T>, t: seq<T>, key: T -> int)
    requires s != [] && StableWrt(t, s[1..], key)
    ensures StableWrt(Insert(s[0], t, key), s, key)
  {
    forall k ensures Filter(Insert(s[0], t, key), KeyIs(key, k)) == Filter(s, KeyIs(key, k)) {
      InsertFilter(s[0], t, key, k);
      assert Filter(t, KeyIs(key, k)) == Filter(s[1..], KeyIs(key, k));
    }
  }

  /** Stable sort by key (insertion sort from the back). */
  function SortBy<T(!new)>(s: seq<T>, key: T -> int): (r: seq<T>)
    ensures multiset(r) == multiset(s)
    ensures |r| == |s|
    ensures SortedBy(r, key)
    ensures StableWrt(r, s, key)
  {
    if s == [] then []
    else
      var t := SortBy(s[1..], key);
      InsertSorted(s[0], t, key);
      InsertStable(s, t, key);
      assert s == [s[0]] + s[1..];
      Insert(s[0], t, key)
  }

  /** Strictly increasing. */
  predicate Increasing(r: seq<int>) {
    forall i, j :: 0 <= i < j < |r| ==> r[i] < r[j]
  }

  function InsertUnique(x: int, t: seq<int>): (r: seq<int>)
    requires Increasing(t)
    ensures Increasing(r)
    ensures forall y :: y in r <==> y == x || y in t
  {
    if t == [] then [x]
    else if x < t[0] then [x] + t
    else if x == t[0] then t
    else
      assert forall i :: 1 <= i < |t| ==> t[0] < t[i];
      var rest := InsertUnique(x, t[1..]);
      assert forall i :: 0 <= i < |rest| ==> t[0] < rest[i] by {
        forall i | 0 <= i < |rest| ensures t[0] < rest[i] {
          assert rest[i] in rest;
        }
      }
      var r := [t[0]] + rest;
      assert forall i :: 1 <= i < |r| ==> r[i] == rest[i - 1];
      r
  }

  /** `sorted(set(s))`: the distinct values of `s` in increasing order. */
  function SortedSet(s: seq<int>): (r: seq<int>)
    ensures Increasing(r)
    ensures forall y :: y in r <==> y in s
  {
    if s == [] then [] else InsertUnique(s[0], SortedSet(s[1..]))
  }
}
