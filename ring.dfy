/** The ring cursor: how the current index steps through a ring of n matches.
    `BoundedNext` clamps at either end, `WrappedNext` cycles. */
module Ring {

  /** One step of the bounded cursor (`_bounded_next`): it moves one place in the
      direction of travel and stays put at the end it is moving towards. */
  function BoundedNext(i: int, n: int, reverse: bool): (r: int)
    ensures 0 <= i < n ==> 0 <= r < n
    ensures 0 <= i < n ==> (r == i <==> (reverse && i == 0) || (!reverse && i == n - 1))
    ensures 0 <= i < n && r != i ==> r == (if reverse then i - 1 else i + 1)
  {
    if reverse then
      var j := i - 1;
      if j == -1 then 0 else j
    else
      var j := i + 1;
      if j == n then n - 1 else j
  }

  /** One step of the wrapping cursor (`_wrapped_next`): it moves one place in the
      direction of travel, crossing from the last index to the first (or back). */
  function WrappedNext(i: int, n: int, reverse: bool): (r: int)
    ensures 0 <= i < n ==> 0 <= r < n
    ensures 0 <= i < n && n > 1 ==> r != i
    ensures 0 <= i < n && !reverse && i == n - 1 ==> r == 0
    ensures 0 <= i < n && reverse && i == 0 ==> r == n - 1
    ensures 0 <= i < n && r != (if reverse then i - 1 else i + 1) ==>
              (reverse && i == 0) || (!reverse && i == n - 1)
  {
    if reverse then
      var j := i - 1;
      if j == -1 then n - 1 else j
    else
      var j := i + 1;
      if j == n then 0 else j
  }

  /** The step `_to_next_region` takes: wrapping or bounded by the wrap-scan flag. */
  function Next(i: int, n: int, reverse: bool, wrap: bool): (r: int)
    ensures 0 <= i < n ==> 0 <= r < n
  {
    if wrap then WrappedNext(i, n, reverse) else BoundedNext(i, n, reverse)
  }

  /** The index reached from `i` after `k` steps. */
  function Walk(i: int, n: int, reverse: bool, wrap: bool, k: nat): int
  {
    if k == 0 then i else Next(Walk(i, n, reverse, wrap, k - 1), n, reverse, wrap)
  }

  lemma {:induction false} WalkInRing(i: int, n: int, reverse: bool, wrap: bool, k: nat)
    requires 0 <= i < n
    ensures 0 <= Walk(i, n, reverse, wrap, k) < n
  {
    if k > 0 {
      WalkInRing(i, n, reverse, wrap, k - 1);
    }
  }

  /** Walking a then b steps is walking a + b steps. */
  lemma {:induction false} WalkCompose(i: int, n: int, reverse: bool, wrap: bool, a: nat, b: nat)
    ensures Walk(Walk(i, n, reverse, wrap, a), n, reverse, wrap, b) == Walk(i, n, reverse, wrap, a + b)
  {
    if b > 0 {
      WalkCompose(i, n, reverse, wrap, a, b - 1);
    }
  }

  /** Up to n wrapping steps move the cursor k places, crossing the end at most once. */
  lemma {:induction false} WrappedWalk(i: int, n: int, reverse: bool, k: nat)
    requires 0 <= i < n && k <= n
    ensures Walk(i, n, reverse, true, k) ==
            (if reverse then (if i - k < 0 then i - k + n else i - k)
             else (if i + k >= n then i + k - n else i + k))
  {
    if k > 0 {
      WrappedWalk(i, n, reverse, k - 1);
    }
  }

  /** Applying the wrapping step n times brings the cursor back where it started. */
  lemma WrappedWalkReturns(i: int, n: int, reverse: bool)
    requires 0 <= i < n
    ensures Walk(i, n, reverse, true, n) == i
  {
    WrappedWalk(i, n, reverse, n);
  }

  /** So the wrapping cursor is periodic with period n. */
  lemma WrappedWalkPeriodic(i: int, n: int, reverse: bool, k: nat)
    requires 0 <= i < n
    ensures Walk(i, n, reverse, true, k + n) == Walk(i, n, reverse, true, k)
  {
    WalkCompose(i, n, reverse, true, n, k);
    WrappedWalkReturns(i, n, reverse);
  }

  /** k bounded steps move the cursor k places, clamped at the end of travel. */
  lemma {:induction false} BoundedWalk(i: int, n: int, reverse: bool, k: nat)
    requires 0 <= i < n
    ensures Walk(i, n, reverse, false, k) ==
            (if reverse then (if i - k < 0 then 0 else i - k)
             else (if i + k > n - 1 then n - 1 else i + k))
  {
    if k > 0 {
      BoundedWalk(i, n, reverse, k - 1);
    }
  }

  /** `u` lies ahead of `i` in the direction of travel without wrapping around. */
  predicate Ahead(i: int, u: int, reverse: bool)
  {
    if reverse then u < i else i < u
  }

  /** How many steps the cursor needs to reach `u` from `i`, moving at least once. */
  function StepsTo(i: int, u: int, n: int, reverse: bool, wrap: bool): (k: nat)
    requires 0 <= i < n && 0 <= u < n
    requires wrap || Ahead(i, u, reverse)
    ensures 1 <= k <= n
  {
    if reverse then (if u < i then i - u else i - u + n)
    else (if i < u then u - i else u - i + n)
  }

  /** The step count `StepsTo` gives is exact: walking that far reaches `u`. */
  lemma StepsToReaches(i: int, u: int, n: int, reverse: bool, wrap: bool)
    requires 0 <= i < n && 0 <= u < n
    requires wrap || Ahead(i, u, reverse)
    ensures Walk(i, n, reverse, wrap, StepsTo(i, u, n, reverse, wrap)) == u
  {
    var k := StepsTo(i, u, n, reverse, wrap);
    if wrap {
      WrappedWalk(i, n, reverse, k);
    } else {
      BoundedWalk(i, n, reverse, k);
    }
  }
}
