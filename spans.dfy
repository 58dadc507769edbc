/** Optional values, for the session fields the source leaves as `None`. */
module Wrappers {
  datatype Option<+T> = None | Some(value: T)
}

/** The span index: reglets (`(start, end)` pairs) in the order Python gives
    tuples, and the two bisect-based lookups with their wrap-to-0 fallback. */
module Spans {

  /** A reglet: the `(begin, end)` offsets of one match or one selection. */
  datatype Reglet = Reglet(start: int, end: int)

  /** Python's `<` on two-element tuples: by start, then by end. */
  predicate Less(a: Reglet, b: Reglet)
  {
    a.start < b.start || (a.start == b.start && a.end < b.end)
  }

  /** Python's `<=` on two-element tuples. */
  predicate LessEq(a: Reglet, b: Reglet)
  {
    a.start < b.start || (a.start == b.start && a.end <= b.end)
  }

  /** Non-decreasing, as `bisect` expects its list to be. */
  predicate Sorted(a: seq<Reglet>)
  {
    forall i, j :: 0 <= i < j < |a| ==> LessEq(a[i], a[j])
  }

  /** Increasing: the shape of a host search result and of a host selection. */
  predicate StrictlySorted(a: seq<Reglet>)
  {
    forall i, j {:trigger Less(a[i], a[j])} :: 0 <= i < j < |a| ==> Less(a[i], a[j])
  }

  /** An empty reglet: a caret with nothing selected (`Region.empty()`). */
  predicate Empty(r: Reglet)
  {
    r.start == r.end
  }

  /** `bisect.bisect_left(a, x, lo, hi)`: the binary search that narrows
      `[lo, hi)` by asking whether `a[mid] < x`. */
  function BisectLeft(a: seq<Reglet>, x: Reglet, lo: nat, hi: nat): (r: nat)
    requires lo <= hi <= |a|
    ensures lo <= r <= hi
    decreases hi - lo
  {
    if lo < hi then
      var mid := (lo + hi) / 2;
      if Less(a[mid], x) then BisectLeft(a, x, mid + 1, hi) else BisectLeft(a, x, lo, mid)
    else lo
  }

  /** `bisect.bisect_right(a, x, lo, hi)`: as `BisectLeft`, asking whether `x < a[mid]`. */
  function BisectRight(a: seq<Reglet>, x: Reglet, lo: nat, hi: nat): (r: nat)
    requires lo <= hi <= |a|
    ensures lo <= r <= hi
    decreases hi - lo
  {
    if lo < hi then
      var mid := (lo + hi) / 2;
      if Less(x, a[mid]) then BisectRight(a, x, lo, mid) else BisectRight(a, x, mid + 1, hi)
    else lo
  }

  /** On a sorted list, bisect_left splits it at the first element not below `x`. */
  lemma {:induction false} BisectLeftSplits(a: seq<Reglet>, x: Reglet, lo: nat, hi: nat)
    requires lo <= hi <= |a| && Sorted(a)
    requires forall i :: 0 <= i < lo ==> Less(a[i], x)
    requires forall i :: hi <= i < |a| ==> LessEq(x, a[i])
    ensures forall i :: 0 <= i < BisectLeft(a, x, lo, hi) ==> Less(a[i], x)
    ensures forall i :: BisectLeft(a, x, lo, hi) <= i < |a| ==> LessEq(x, a[i])
    decreases hi - lo
  {
    if lo < hi {
      var mid := (lo + hi) / 2;
      if Less(a[mid], x) {
        BisectLeftSplits(a, x, mid + 1, hi);
      } else {
        BisectLeftSplits(a, x, lo, mid);
      }
    }
  }

  /** On a sorted list, bisect_right splits it at the first element above `x`. */
  lemma {:induction false} BisectRightSplits(a: seq<Reglet>, x: Reglet, lo: nat, hi: nat)
    requires lo <= hi <= |a| && Sorted(a)
    requires forall i :: 0 <= i < lo ==> LessEq(a[i], x)
    requires forall i :: hi <= i < |a| ==> Less(x, a[i])
    ensures forall i :: 0 <= i < BisectRight(a, x, lo, hi) ==> LessEq(a[i], x)
    ensures forall i :: BisectRight(a, x, lo, hi) <= i < |a| ==> Less(x, a[i])
    decreases hi - lo
  {
    if lo < hi {
      var mid := (lo + hi) / 2;
      if Less(x, a[mid]) {
        BisectRightSplits(a, x, lo, mid);
      } else {
        BisectRightSplits(a, x, mid + 1, hi);
      }
    }
  }

  /** `_find_ge`: the first index whose reglet is at or after `x`, or 0 when there is none. */
  function FindGe(a: seq<Reglet>, x: Reglet): (r: nat)
    ensures a != [] ==> r < |a|
    ensures a == [] ==> r == 0
  {
    var index := BisectLeft(a, x, 0, |a|);
    if index < |a| then index else 0
  }

  /** `_find_gt`: the first index whose reglet is strictly after `x`, or 0 when there is none. */
  function FindGt(a: seq<Reglet>, x: Reglet): (r: nat)
    ensures a != [] ==> r < |a|
    ensures a == [] ==> r == 0
  {
    var index := BisectRight(a, x, 0, |a|);
    if index < |a| then index else 0
  }

  /** On a sorted list `FindGe` is the leftmost index at or after `x`; when every
      reglet is before `x` it falls back to 0. */
  lemma FindGeLeftmost(a: seq<Reglet>, x: Reglet)
    requires Sorted(a)
    ensures forall i :: 0 <= i < |a| && LessEq(x, a[i]) ==>
              FindGe(a, x) <= i && LessEq(x, a[FindGe(a, x)])
    ensures forall i :: 0 <= i < FindGe(a, x) ==> Less(a[i], x)
    ensures (forall i :: 0 <= i < |a| ==> Less(a[i], x)) ==> FindGe(a, x) == 0
  {
    BisectLeftSplits(a, x, 0, |a|);
    var index := BisectLeft(a, x, 0, |a|);
    if index < |a| {
      assert LessEq(x, a[index]);
    }
  }

  /** On a sorted list `FindGt` is the leftmost index strictly after `x`; when no
      reglet is after `x` it falls back to 0. */
  lemma FindGtLeftmost(a: seq<Reglet>, x: Reglet)
    requires Sorted(a)
    ensures forall i :: 0 <= i < |a| && Less(x, a[i]) ==>
              FindGt(a, x) <= i && Less(x, a[FindGt(a, x)])
    ensures forall i :: 0 <= i < FindGt(a, x) ==> LessEq(a[i], x)
    ensures (forall i :: 0 <= i < |a| ==> LessEq(a[i], x)) ==> FindGt(a, x) == 0
  {
    BisectRightSplits(a, x, 0, |a|);
    var index := BisectRight(a, x, 0, |a|);
    if index < |a| {
      assert Less(x, a[index]);
    }
  }

  /** A strictly sorted list is sorted, so the lookups above apply to it. */
  lemma StrictlySortedIsSorted(a: seq<Reglet>)
    requires StrictlySorted(a)
    ensures Sorted(a)
  {
    forall i, j | 0 <= i < j < |a| ensures LessEq(a[i], a[j]) {
      assert Less(a[i], a[j]);
    }
  }

  /** In a strictly sorted list, equal reglets sit at equal indices. */
  lemma StrictlySortedDistinct(a: seq<Reglet>, i: int, j: int)
    requires StrictlySorted(a) && 0 <= i < |a| && 0 <= j < |a|
    ensures a[i] == a[j] <==> i == j
  {
    if i < j {
      assert Less(a[i], a[j]);
    } else if j < i {
      assert Less(a[j], a[i]);
    }
  }
}
