/** The editor's native multi-selection (`view.sel()`), seen as the increasing
    sequence of reglets it enumerates, with the four operations the session uses:
    add, subtract, clear and add_all. */
module HostSelection {
  import opened Spans

  /** The reglets a selection holds, order forgotten. */
  function Elems(s: seq<Reglet>): set<Reglet>
  {
    set x | x in s
  }

  /** `sel().add(r)`: `r` joins the selection at its place in order; adding a
      reglet that is already there changes nothing. */
  function Add(s: seq<Reglet>, r: Reglet): (t: seq<Reglet>)
    ensures Elems(t) == Elems(s) + {r}
    ensures forall x :: x in t <==> x in s || x == r
    ensures StrictlySorted(s) ==> StrictlySorted(t)
  {
    if s == [] then [r]
    else if s[0] == r then s
    else if Less(r, s[0]) then
      PrependSorted(r, s);
      [r] + s
    else
      var rest := Add(s[1..], r);
      assert Elems(s) == {s[0]} + Elems(s[1..]);
      assert Elems([s[0]] + rest) == {s[0]} + Elems(rest);
      ConsSortedWhen(s, rest, {r});
      [s[0]] + rest
  }

  /** `sel().subtract(r)`: `r` leaves the selection; everything else stays in order. */
  function Subtract(s: seq<Reglet>, r: Reglet): (t: seq<Reglet>)
    ensures Elems(t) == Elems(s) - {r}
    ensures forall x :: x in t <==> x in s && x != r
    ensures StrictlySorted(s) ==> StrictlySorted(t)
    ensures r !in s ==> t == s
  {
    if s == [] then []
    else
      var rest := Subtract(s[1..], r);
      assert Elems(s) == {s[0]} + Elems(s[1..]);
      if s[0] == r then rest
      else
        assert Elems([s[0]] + rest) == {s[0]} + Elems(rest);
        ConsSortedWhen(s, rest, {});
        [s[0]] + rest
  }

  /** Putting a reglet in front of an increasing list that it precedes keeps it increasing. */
  lemma ConsSorted(a: Reglet, t: seq<Reglet>)
    requires StrictlySorted(t)
    requires forall x :: x in t ==> Less(a, x)
    ensures StrictlySorted([a] + t)
  {
    forall i, j | 0 <= i < j < |[a] + t| ensures Less(([a] + t)[i], ([a] + t)[j]) {
      if i > 0 {
        assert ([a] + t)[i] == t[i - 1] && ([a] + t)[j] == t[j - 1];
      } else {
        assert ([a] + t)[j] == t[j - 1] && t[j - 1] in t;
      }
    }
  }

  /** Rebuilding an increasing list from its head and a new increasing tail drawn
      from its later elements and from reglets after the head keeps it increasing. */
  lemma ConsSortedWhen(s: seq<Reglet>, rest: seq<Reglet>, extra: set<Reglet>)
    requires s != []
    requires Elems(rest) <= Elems(s[1..]) + extra
    requires forall x :: x in extra ==> Less(s[0], x)
    requires StrictlySorted(s[1..]) ==> StrictlySorted(rest)
    ensures StrictlySorted(s) ==> StrictlySorted([s[0]] + rest)
  {
    if StrictlySorted(s) {
      forall x | x in rest ensures Less(s[0], x) {
        assert x in Elems(rest);
        if x !in extra {
          assert x in Elems(s[1..]);
          var k :| 0 <= k < |s[1..]| && s[1..][k] == x;
          assert s[k + 1] == x;
        }
      }
      ConsSorted(s[0], rest);
    }
  }

  /** A reglet before the head of an increasing list can go in front of it. */
  lemma PrependSorted(a: Reglet, t: seq<Reglet>)
    requires t != [] && Less(a, t[0])
    ensures StrictlySorted(t) ==> StrictlySorted([a] + t)
  {
    if StrictlySorted(t) {
      forall x | x in t ensures Less(a, x) {
        var k :| 0 <= k < |t| && t[k] == x;
        if k > 0 {
          assert Less(t[0], t[k]);
        }
      }
      ConsSorted(a, t);
    }
  }

  /** `sel().add_all(rs)`: every reglet of `rs` joins the selection. */
  function AddAll(s: seq<Reglet>, rs: seq<Reglet>): (t: seq<Reglet>)
    ensures Elems(t) == Elems(s) + Elems(rs)
    ensures forall x :: x in t <==> x in s || x in rs
    ensures StrictlySorted(s) ==> StrictlySorted(t)
    decreases |rs|
  {
    if rs == [] then s
    else
      assert Elems(rs) == {rs[0]} + Elems(rs[1..]);
      AddAll(Add(s, rs[0]), rs[1..])
  }

  /** The reglets of `ring` whose flag is set, in ring order (`_add_selected_regions`). */
  function Chosen(ring: seq<Reglet>, flags: seq<bool>): (t: seq<Reglet>)
    requires |flags| == |ring|
    ensures Elems(t) <= Elems(ring)
    ensures forall x :: x in t ==> x in ring
    ensures forall i :: 0 <= i < |ring| && flags[i] ==> ring[i] in t
    ensures StrictlySorted(ring) ==> forall i :: 0 <= i < |ring| && ring[i] in t ==> flags[i]
  {
    if ring == [] then []
    else
      var rest := Chosen(ring[1..], flags[1..]);
      assert Elems(ring) == {ring[0]} + Elems(ring[1..]);
      assert forall i :: 1 <= i < |ring| ==> ring[i] == ring[1..][i - 1] && flags[i] == flags[1..][i - 1];
      HeadNotInTail(ring);
      if flags[0] then [ring[0]] + rest else rest
  }

  /** The head of an increasing list does not come again in its tail. */
  lemma HeadNotInTail(s: seq<Reglet>)
    requires s != []
    ensures StrictlySorted(s) ==> s[0] !in s[1..] && StrictlySorted(s[1..])
  {
    if StrictlySorted(s) {
      assert forall k :: 0 <= k < |s[1..]| ==> s[1..][k] == s[k + 1] && Less(s[0], s[k + 1]);
    }
  }
}
