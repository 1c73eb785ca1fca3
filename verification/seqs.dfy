/** Sequence helpers shared by the schedulers and the car model: order-preserving
    filtering, duplicate-free appends (`if x not in xs: xs.append(x)`), Python's
    `list.remove` (first occurrence), first-occurrence de-duplication and sums. */
module Seqs {

  /** The elements of `s` that satisfy `p`, in their original order. */
  function Filter<T(!new)>(s: seq<T>, p: T -> bool): (r: seq<T>)
    ensures |r| <= |s|
    ensures forall x :: x in r <==> x in s && p(x)
  {
    if s == [] then []
    else if p(s[0]) then [s[0]] + Filter(s[1..], p)
    else Filter(s[1..], p)
  }

  lemma {:induction false} FilterConcat<T(!new)>(a: seq<T>, b: seq<T>, p: T -> bool)
    ensures Filter(a + b, p) == Filter(a, p) + Filter(b, p)
  {
    if a == [] {
      assert a + b == b;
    } else {
      var ab := a + b;
      assert ab[0] == a[0] && ab[1..] == a[1..] + b;
      FilterConcat(a[1..], b, p);
      if p(a[0]) {
        assert Filter(ab, p) == [a[0]] + Filter(a[1..] + b, p);
        assert Filter(a, p) == [a[0]] + Filter(a[1..], p);
      } else {
        assert Filter(ab, p) == Filter(a[1..] + b, p);
        assert Filter(a, p) == Filter(a[1..], p);
      }
    }
  }

  /** One step of `Filter`, stated as a concatenation. */
  lemma FilterCons<T(!new)>(s: seq<T>, p: T -> bool)
    requires s != []
    ensures Filter(s, p) == (if p(s[0]) then [s[0]] else []) + Filter(s[1..], p)
  {
  }

  /** The empty sequence is a right unit of concatenation. */
  lemma ConcatNil<T>(s: seq<T>)
    ensures s + [] == s
  {
  }

  /** Concatenation is associative. */
  lemma ConcatAssoc<T>(a: seq<T>, b: seq<T>, c: seq<T>)
    ensures (a + b) + c == a + (b + c)
  {
  }

  /** Multiset union is associative. */
  lemma UnionAssoc<T>(a: multiset<T>, b: multiset<T>, c: multiset<T>)
    ensures (a + b) + c == a + (b + c)
  {
  }

  /** Filtering by a predicate that holds everywhere on `s` returns `s`. */
  lemma {:induction false} FilterAll<T(!new)>(s: seq<T>, p: T -> bool)
    requires forall i :: 0 <= i < |s| ==> p(s[i])
    ensures Filter(s, p) == s
  {
    if s != [] {
      FilterAll(s[1..], p);
    }
  }

  /** Filtering by a predicate that fails everywhere on `s` returns []. */
  lemma {:induction false} FilterNone<T(!new)>(s: seq<T>, p: T -> bool)
    requires forall i :: 0 <= i < |s| ==> !p(s[i])
    ensures Filter(s, p) == []
  {
    if s != [] {
      FilterNone(s[1..], p);
    }
  }

  /** Every element of `s` goes either to the `p` part or to the `!p` part. */
  lemma {:induction false} FilterSplitSize<T(!new)>(s: seq<T>, p: T -> bool, q: T -> bool)
    requires forall x :: q(x) == !p(x)
    ensures |Filter(s, p)| + |Filter(s, q)| == |s|
  {
    if s != [] {
      FilterSplitSize(s[1..], p, q);
    }
  }

  /** The number of elements of `s` satisfying `p`. */
  function Count<T(!new)>(s: seq<T>, p: T -> bool): (n: nat)
    ensures n == |Filter(s, p)|
  {
    if s == [] then 0 else (if p(s[0]) then 1 else 0) + Count(s[1..], p)
  }

  /** Filtering keeps every occurrence of a selected value and none of the others. */
  lemma {:induction false} FilterMultiset<T(!new)>(s: seq<T>, p: T -> bool)
    ensures forall x :: multiset(Filter(s, p))[x] == if p(x) then multiset(s)[x] else 0
  {
    if s != [] {
      FilterMultiset(s[1..], p);
      assert s == [s[0]] + s[1..];
    }
  }

  /** Filtering two arrangements of the same elements gives two arrangements
      of the same selection. */
  lemma FilterPermutation<T(!new)>(s: seq<T>, t: seq<T>, p: T -> bool)
    requires multiset(s) == multiset(t)
    ensures multiset(Filter(s, p)) == multiset(Filter(t, p))
  {
    FilterMultiset(s, p);
    FilterMultiset(t, p);
  }

  /** Counting is insensitive to the order of the elements. */
  lemma CountPermutation<T(!new)>(s: seq<T>, t: seq<T>, p: T -> bool)
    requires multiset(s) == multiset(t)
    ensures Count(s, p) == Count(t, p)
  {
    FilterMultiset(s, p);
    FilterMultiset(t, p);
    assert multiset(Filter(s, p)) == multiset(Filter(t, p));
    assert |multiset(Filter(s, p))| == |Filter(s, p)|;
    assert |multiset(Filter(t, p))| == |Filter(t, p)|;
  }

  /** No value occurs twice. */
  predicate NoDup<T(==)>(s: seq<T>) {
    forall i, j :: 0 <= i < j < |s| ==> s[i] != s[j]
  }

  /** `if x not in s: s.append(x)`. */
  function AddIfAbsent<T(==,!new)>(s: seq<T>, x: T): (r: seq<T>)
    ensures x in r
    ensures forall y :: y in r <==> y in s || y == x
    ensures x in s ==> r == s
    ensures x !in s ==> r == s + [x]
    ensures NoDup(s) ==> NoDup(r)
  {
    if x in s then s else s + [x]
  }

  /** Folds `AddIfAbsent` over `xs` from left to right (the list `extend` of a
      generator that re-reads the list it extends). */
  function AddAllIfAbsent<T(==,!new)>(s: seq<T>, xs: seq<T>): (r: seq<T>)
    ensures forall y :: y in r <==> y in s || y in xs
    ensures NoDup(s) ==> NoDup(r)
    decreases |xs|
  {
    if xs == [] then s else AddAllIfAbsent(AddIfAbsent(s, xs[0]), xs[1..])
  }

  /** The list being extended stays a prefix of the result. */
  lemma {:induction false} AddAllIfAbsentPrefix<T(!new)>(s: seq<T>, xs: seq<T>)
    ensures |s| <= |AddAllIfAbsent(s, xs)| && AddAllIfAbsent(s, xs)[..|s|] == s
    decreases |xs|
  {
    if xs != [] {
      var s' := AddIfAbsent(s, xs[0]);
      AddAllIfAbsentPrefix(s', xs[1..]);
      var r := AddAllIfAbsent(s, xs);
      assert r == AddAllIfAbsent(s', xs[1..]);
      assert s'[..|s|] == s;
      assert r[..|s|] == r[..|s'|][..|s|];
    }
  }

  /** Python's `list.remove(x)` when `x` is present: drops the first occurrence. */
  function RemoveFirst<T(==,!new)>(s: seq<T>, x: T): (r: seq<T>)
    ensures x in s ==> multiset(r) == multiset(s) - multiset{x}
    ensures x !in s ==> r == s
  {
    if s == [] then []
    else if s[0] == x then (assert s == [s[0]] + s[1..]; s[1..])
    else (assert s == [s[0]] + s[1..]; [s[0]] + RemoveFirst(s[1..], x))
  }

  /** Removing an element of the `p` part leaves the `!p` part as it was. */
  lemma {:induction false} RemoveFirstKeeps<T(!new)>(s: seq<T>, x: T, p: T -> bool, q: T -> bool)
    requires x in s && p(x)
    requires forall y :: q(y) == !p(y)
    ensures Filter(RemoveFirst(s, x), q) == Filter(s, q)
  {
    assert s == [s[0]] + s[1..];
    if s[0] != x {
      RemoveFirstKeeps(s[1..], x, p, q);
      var t := RemoveFirst(s[1..], x);
      assert ([s[0]] + t)[1..] == t;
    }
  }

  /** Removing an element of the `p` part takes exactly it away from that part. */
  lemma {:induction false} RemoveFirstTakes<T(!new)>(s: seq<T>, x: T, p: T -> bool)
    requires x in s && p(x)
    ensures multiset(Filter(RemoveFirst(s, x), p)) == multiset(Filter(s, p)) - multiset{x}
  {
    assert s == [s[0]] + s[1..];
    if s[0] == x {
      assert Filter(s, p) == [x] + Filter(s[1..], p);
    } else {
      RemoveFirstTakes(s[1..], x, p);
      var t := RemoveFirst(s[1..], x);
      assert ([s[0]] + t)[1..] == t;
      if p(s[0]) {
        assert Filter([s[0]] + t, p) == [s[0]] + Filter(t, p);
        assert Filter(s, p) == [s[0]] + Filter(s[1..], p);
      }
    }
  }

  /** Taking the head of `path` off `s`, when `path` lists the `p` part of
      `s` in some order, keeps the rest of `path` listing the `p` part of what
      is left and leaves the `!p` part alone. */
  lemma RemoveHead<T(!new)>(path: seq<T>, s: seq<T>, p: T -> bool, q: T -> bool)
    requires path != []
    requires multiset(path) == multiset(Filter(s, p))
    requires forall y :: q(y) == !p(y)
    ensures multiset(path[1..]) == multiset(Filter(RemoveFirst(s, path[0]), p))
    ensures Filter(RemoveFirst(s, path[0]), q) == Filter(s, q)
  {
    RemoveHeadTakes(path, s, p);
    RemoveFirstKeeps(s, path[0], p, q);
  }

  lemma RemoveHeadTakes<T(!new)>(path: seq<T>, s: seq<T>, p: T -> bool)
    requires path != []
    requires multiset(path) == multiset(Filter(s, p))
    ensures path[0] in s && p(path[0])
    ensures multiset(path[1..]) == multiset(Filter(RemoveFirst(s, path[0]), p))
  {
    var x := path[0];
    assert x in multiset(path);
    assert x in Filter(s, p);
    RemoveFirstTakes(s, x, p);
    assert path == [x] + path[1..];
    assert multiset(path) == multiset{x} + multiset(path[1..]);
  }

  /** The values of `s` in order of first occurrence, each once. */
  function Dedup<T(==,!new)>(s: seq<T>): (r: seq<T>)
    ensures NoDup(r)
    ensures forall x :: x in r <==> x in s
  {
    DedupOnto([], s)
  }

  function DedupOnto<T(==,!new)>(acc: seq<T>, s: seq<T>): (r: seq<T>)
    requires NoDup(acc)
    ensures NoDup(r)
    ensures forall x :: x in r <==> x in acc || x in s
    decreases |s|
  {
    if s == [] then acc else DedupOnto(AddIfAbsent(acc, s[0]), s[1..])
  }

  function Sum(s: seq<int>): int {
    if s == [] then 0 else s[0] + Sum(s[1..])
  }

  lemma {:induction false} SumConcat(a: seq<int>, b: seq<int>)
    ensures Sum(a + b) == Sum(a) + Sum(b)
  {
    if a == [] {
      assert a + b == b;
    } else {
      assert (a + b)[1..] == a[1..] + b;
      SumConcat(a[1..], b);
    }
  }

  /** Python's `int(a / n)` for a positive divisor: the quotient truncated
      toward zero (Dafny's own `/` is Euclidean). */
  function TruncDiv(a: int, n: int): (q: int)
    requires n > 0
    ensures a >= 0 ==> q * n <= a < q * n + n
    ensures a < 0 ==> q * n - n < a <= q * n
  {
    if a >= 0 then a / n else -((-a) / n)
  }

  /** A truncated quotient of a value lying between `lo * n` and `hi * n` lies
      between `lo` and `hi`. */
  lemma TruncDivBetween(a: int, n: int, lo: int, hi: int)
    requires n > 0
    requires lo * n <= a <= hi * n
    ensures lo <= TruncDiv(a, n) <= hi
  {
    var q := TruncDiv(a, n);
    if a >= 0 {
      assert (q + 1) * n == q * n + n;
      MulCancel(lo, q + 1, n);
      assert (hi + 1) * n == hi * n + n;
      MulCancel(q, hi + 1, n);
    } else {
      assert (q + 1) * n == q * n + n;
      MulCancel(lo, q + 1, n);
      assert (q - 1) * n == q * n - n;
      MulCancel(q - 1, hi, n);
    }
  }

  lemma MulCancel(x: int, y: int, n: int)
    requires n > 0 && x * n < y * n
    ensures x < y
  {
    assert (y - x) * n == y * n - x * n;
  }

  /** The truncated mean of a non-empty sequence with all elements in [lo, hi]. */
  function TruncMean(s: seq<int>): int
    requires |s| > 0
  {
    TruncDiv(Sum(s), |s|)
  }

  lemma {:induction false} SumBetween(s: seq<int>, lo: int, hi: int)
    requires forall i :: 0 <= i < |s| ==> lo <= s[i] <= hi
    ensures lo * |s| <= Sum(s) <= hi * |s|
  {
    if s != [] {
      SumBetween(s[1..], lo, hi);
      assert lo * |s| == lo + lo * |s[1..]|;
      assert hi * |s| == hi + hi * |s[1..]|;
    }
  }

  /** The truncated mean of values in [lo, hi] is in [lo, hi]. */
  lemma TruncMeanBetween(s: seq<int>, lo: int, hi: int)
    requires |s| > 0
    requires forall i :: 0 <= i < |s| ==> lo <= s[i] <= hi
    ensures lo <= TruncMean(s) <= hi
  {
    SumBetween(s, lo, hi);
    TruncDivBetween(Sum(s), |s|, lo, hi);
  }

  /** The keys of an association list, in insertion order. */
  function KeysOf<K, V>(a: seq<(K, V)>): (ks: seq<K>)
    ensures |ks| == |a|
    ensures forall i :: 0 <= i < |a| ==> ks[i] == a[i].0
  {
    if a == [] then [] else [a[0].0] + KeysOf(a[1..])
  }

  type Positive = n: int | n >= 1 witness 1

  /** Python's `max(1, n)`. */
  function AtLeastOne(n: int): (r: Positive)
    ensures n >= 1 ==> r == n
    ensures n < 1 ==> r == 1
  {
    if n >= 1 then n else 1
  }
}
