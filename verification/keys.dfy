/** Tie-break keys of the dispatch decisions. Every choice among elevators in
    LiftLogic sorts a candidate list by a tuple key with Python's stable
    sort and takes element 0; that is the FIRST candidate, in list order, whose
    key is minimal. Keys here are triples compared lexicographically whose first
    component is a travel time that may be infinite. */
module Keys {
  import opened Wrappers

  /** A travel-time estimate: a finite number of ticks or `float("inf")`. */
  datatype Time = Finite(ticks: real) | Infinite

  /** `t + dwell`; infinity absorbs the addition as in floating point. */
  function AddTicks(t: Time, d: int): (r: Time)
    ensures r.Infinite? <==> t.Infinite?
    ensures t.Finite? ==> r.ticks - t.ticks == d as real
  {
    match t
    case Finite(x) => Finite(x + d as real)
    case Infinite => Infinite
  }

  /** `a < b` on estimates: infinity is above every finite value and equal to itself. */
  predicate TimeLt(a: Time, b: Time) {
    match a
    case Infinite => false
    case Finite(x) => b.Infinite? || x < b.ticks
  }

  datatype Key = Key(time: Time, second: int, third: int)

  /** Lexicographic `<` on tuple keys, as Python compares tuples. */
  predicate KeyLt(a: Key, b: Key) {
    || TimeLt(a.time, b.time)
    || (a.time == b.time && a.second < b.second)
    || (a.time == b.time && a.second == b.second && a.third < b.third)
  }

  /** `KeyLt` is a strict total order. */
  lemma KeyLtIsStrictTotal(a: Key, b: Key, c: Key)
    ensures !KeyLt(a, a)
    ensures KeyLt(a, b) ==> !KeyLt(b, a)
    ensures KeyLt(a, b) && KeyLt(b, c) ==> KeyLt(a, c)
    ensures a != b ==> KeyLt(a, b) || KeyLt(b, a)
  {
  }

  /** `i` is the first index of `s` whose key is minimal. */
  predicate IsFirstMin<T>(s: seq<T>, key: T -> Key, i: int) {
    && 0 <= i < |s|
    && (forall j :: 0 <= j < |s| ==> !KeyLt(key(s[j]), key(s[i])))
    && (forall j :: 0 <= j < i ==> KeyLt(key(s[i]), key(s[j])))
  }

  /** The index that a stable sort by `key` moves to the front. */
  function ArgMin<T>(s: seq<T>, key: T -> Key): (i: nat)
    requires |s| > 0
    ensures IsFirstMin(s, key, i)
  {
    if |s| == 1 then 0
    else
      var k := 1 + ArgMin(s[1..], key);
      assert forall j :: 1 <= j < |s| ==> s[j] == s[1..][j - 1];
      if KeyLt(key(s[k]), key(s[0])) then k
      else
        assert forall j :: 0 <= j < |s| ==> !KeyLt(key(s[j]), key(s[0])) by {
          forall j | 0 <= j < |s|
            ensures !KeyLt(key(s[j]), key(s[0]))
          {
            KeyLtIsStrictTotal(key(s[k]), key(s[j]), key(s[0]));
          }
        }
        0
  }

  /** `sorted(s, key=key)[0]`, or None for an empty list. */
  function FirstMin<T>(s: seq<T>, key: T -> Key): (r: Option<T>)
    ensures r.None? <==> |s| == 0
    ensures r.Some? ==> exists i :: IsFirstMin(s, key, i) && s[i] == r.value
  {
    if |s| == 0 then None else Some(s[ArgMin(s, key)])
  }
}
