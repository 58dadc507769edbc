/** The match-ring session of one view (`ExactQuickFind`): the reglets found, a
    parallel list of selected flags, the current and initial indices, the command
    codes, the zero-region placeholder, and the view's native selection it keeps
    in step. Host services (word expansion, text extraction, search) enter as
    `HostAnswers`; the process-wide find flags enter as `Flags`. */
module Session {
  import opened Wrappers
  import opened Spans
  import opened Ring
  import opened HostSelection
  import opened Text
  import opened Status

  /** The twelve dispatch codes, in the order of `g_dispatches`. */
  datatype Code =
    | NoCode | GotoNext | AddNext | AddAll | PeekNext | PeekNextSelected
    | AddThis | SubtractThis | SingleSelectThis | InvertSelectThis | GoFirst | GoBack

  /** The number a code travels as in a command's arguments (`Code.GOTO_NEXT == 1`, ...). */
  function CodeNumber(c: Code): (k: nat)
    ensures k < 12
  {
    match c
    case NoCode => 0
    case GotoNext => 1
    case AddNext => 2
    case AddAll => 3
    case PeekNext => 4
    case PeekNextSelected => 5
    case AddThis => 6
    case SubtractThis => 7
    case SingleSelectThis => 8
    case InvertSelectThis => 9
    case GoFirst => 10
    case GoBack => 11
  }

  /** The code `g_dispatches[k]` runs, or None where indexing the table fails.
      As with any Python tuple, a negative position counts from the end. */
  function CodeOf(k: int): (c: Option<Code>)
    ensures c.Some? <==> -12 <= k < 12
    ensures c.Some? ==> CodeNumber(c.value) == (if k < 0 then k + 12 else k)
  {
    var j := if k < 0 then k + 12 else k;
    if j == 0 then Some(NoCode)
    else if j == 1 then Some(GotoNext)
    else if j == 2 then Some(AddNext)
    else if j == 3 then Some(AddAll)
    else if j == 4 then Some(PeekNext)
    else if j == 5 then Some(PeekNextSelected)
    else if j == 6 then Some(AddThis)
    else if j == 7 then Some(SubtractThis)
    else if j == 8 then Some(SingleSelectThis)
    else if j == 9 then Some(InvertSelectThis)
    else if j == 10 then Some(GoFirst)
    else if j == 11 then Some(GoBack)
    else None
  }

  /** Every code is found again at its own position of the table. */
  lemma CodeRoundTrip(c: Code)
    ensures CodeOf(CodeNumber(c)) == Some(c)
  {
  }

  /** A negative position names the same code as the position twelve places
      later, and the two table positions of each code are exactly those. */
  lemma CodeFromEnd(c: Code, k: int)
    ensures CodeOf(k) == Some(c) <==> k == CodeNumber(c) || k == CodeNumber(c) - 12
  {
  }

  /** The lifecycle state (`Init.NOT_INIT`, `BASIC`, `EXTENDED`). */
  datatype InitState = NotInit | Basic | Extended

  /** The three process-wide find flags (`g_case`, `g_word`, `g_wrap`). */
  datatype Flags = Flags(caseSensitive: bool, wholeWord: bool, wrapScan: bool)

  /** What the host answers while a basic init runs: the view's selection after
      `expand_selection` to word (used only for a caret), the text under the chosen
      region (`view.substr`), and the reglets `view.find_all` returns for the query. */
  datatype HostAnswers = HostAnswers(expanded: seq<Reglet>, text: string, matches: seq<Reglet>)

  /** What the host guarantees of its answers: a selection is never empty after the
      expansion and is kept in order; search results come sorted and without overlap. */
  predicate WellFormed(host: HostAnswers)
  {
    host.expanded != [] && StrictlySorted(host.expanded) && StrictlySorted(host.matches)
  }

  /** The flag list of `n` entries all equal to `b` (`[b] * n`). */
  function Filled(n: nat, b: bool): (s: seq<bool>)
    ensures |s| == n && forall i :: 0 <= i < n ==> s[i] == b
  {
    seq(n, _ => b)
  }

  /** `{zero_region}` as a set: empty when there is no placeholder. */
  function ZeroSet(z: Option<Reglet>): set<Reglet>
  {
    if z.Some? then {z.value} else {}
  }

  /** The native selection once the zero-region `z`, if any, is taken out of it. */
  function Unzeroed(s: seq<Reglet>, z: Option<Reglet>): (t: seq<Reglet>)
    ensures Elems(t) == Elems(s) - ZeroSet(z)
    ensures StrictlySorted(s) ==> StrictlySorted(t)
  {
    if z.Some? then Subtract(s, z.value) else s
  }

  /** The boundary alert a single step raises, if any (`_move_to_next_region`). */
  function MoveAlert(prev: int, n: int, reverse: bool, wrap: bool): Option<string>
  {
    if n == 1 then Some(NoOtherMatches)
    else if !wrap && reverse && prev == 0 then Some(FirstMatch)
    else if !wrap && !reverse && prev == n - 1 then Some(LastMatch)
    else None
  }

  /** The alert after a helper that may set one. */
  function AlertAfter(a: Option<string>, previous: string): string
  {
    if a.Some? then a.value else previous
  }

  /** The alert of the last failing pre-check of `_basic_init`, if any: a caret
      cannot peek at other selections or be subtracted, and nothing can go back
      before a session exists. */
  function PrecheckAlert(point: bool, c: Code): (a: Option<string>)
    ensures a.None? <==> !(point && c == PeekNextSelected) && !(point && c == SubtractThis) && c != GoBack
    ensures c == GoBack ==> a == Some(CantGoBack)
  {
    if c == GoBack then Some(CantGoBack)
    else if point && c == SubtractThis then Some(CantSubtract)
    else if point && c == PeekNextSelected then Some(NoOtherSelections)
    else None
  }

  /** The last codes after which a go-first/last/back drops the old region. */
  predicate DropsOld(c: Code)
  {
    c == NoCode || c == GotoNext
  }

  /** The last codes after which a go-first/last/back selects the new region. */
  predicate SelectsNew(c: Code)
  {
    c == NoCode || c == GotoNext || c == AddNext || c == AddAll || c == AddThis || c == SubtractThis
  }

  /** None of the first k steps from `t` lands on a flag equal to `want`. */
  ghost predicate Misses(flags: seq<bool>, t: int, reverse: bool, wrap: bool, want: bool, k: nat)
  {
    forall j :: 1 <= j <= k ==>
      0 <= Walk(t, |flags|, reverse, wrap, j) < |flags| &&
      flags[Walk(t, |flags|, reverse, wrap, j)] != want
  }

  /** `r` is where a cursor starting at `t` first lands on a flag equal to `want`:
      it got there after k steps (1 <= k <= n) and every index passed before had
      the other value. */
  ghost predicate FirstHit(flags: seq<bool>, t: int, r: int, reverse: bool, wrap: bool, want: bool)
  {
    exists k :: 1 <= k <= |flags| && r == Walk(t, |flags|, reverse, wrap, k) && 0 <= r < |flags| &&
      flags[r] == want && Misses(flags, t, reverse, wrap, want, k - 1)
  }

  /** A walk that misses `k - 1` times and then lands on `want` has found its
      first hit. */
  lemma HitAfter(flags: seq<bool>, t: int, reverse: bool, wrap: bool, want: bool, k: nat)
    requires 1 <= k <= |flags| && Misses(flags, t, reverse, wrap, want, k - 1)
    requires 0 <= Walk(t, |flags|, reverse, wrap, k) < |flags|
    requires flags[Walk(t, |flags|, reverse, wrap, k)] == want
    ensures FirstHit(flags, t, Walk(t, |flags|, reverse, wrap, k), reverse, wrap, want)
  {
  }

  /** The state of a search from `t` for a flag equal to `want`, which `u` holds
      and is reachable: `k` steps taken, all misses, short of the step count to
      `u`, and the cursor at `i`, where the walk got to. */
  ghost predicate Seeking(flags: seq<bool>, t: int, u: int, reverse: bool, wrap: bool, want: bool, k: nat, i: int)
  {
    && 0 <= t < |flags| && 0 <= u < |flags| && flags[u] == want && (wrap || Ahead(t, u, reverse))
    && k < StepsTo(t, u, |flags|, reverse, wrap)
    && i == Walk(t, |flags|, reverse, wrap, k) && 0 <= i < |flags|
    && Misses(flags, t, reverse, wrap, want, k)
  }

  /** A search starts with no step taken. */
  lemma SeekStart(flags: seq<bool>, t: int, u: int, reverse: bool, wrap: bool, want: bool)
    requires 0 <= t < |flags| && 0 <= u < |flags| && flags[u] == want && (wrap || Ahead(t, u, reverse))
    ensures Seeking(flags, t, u, reverse, wrap, want, 0, t)
  {
  }

  /** One step of a search lands on a first hit, or on another miss still short
      of `u`. */
  lemma SeekStep(flags: seq<bool>, t: int, u: int, reverse: bool, wrap: bool, want: bool, k: nat, i: int)
    requires Seeking(flags, t, u, reverse, wrap, want, k, i)
    ensures var j := Next(i, |flags|, reverse, wrap);
            && 0 <= j < |flags|
            && (flags[j] == want ==> FirstHit(flags, t, j, reverse, wrap, want))
            && (flags[j] != want ==> Seeking(flags, t, u, reverse, wrap, want, k + 1, j))
  {
    var n := |flags|;
    var j := Next(i, n, reverse, wrap);
    assert j == Walk(t, n, reverse, wrap, k + 1);
    StepsToReaches(t, u, n, reverse, wrap);
    if flags[j] == want {
      HitAfter(flags, t, reverse, wrap, want, k + 1);
    } else {
      MissesStep(flags, t, reverse, wrap, want, k);
    }
  }

  /** One more step that misses extends the run of misses. */
  lemma MissesStep(flags: seq<bool>, t: int, reverse: bool, wrap: bool, want: bool, k: nat)
    requires Misses(flags, t, reverse, wrap, want, k)
    requires 0 <= Walk(t, |flags|, reverse, wrap, k + 1) < |flags|
    requires flags[Walk(t, |flags|, reverse, wrap, k + 1)] != want
    ensures Misses(flags, t, reverse, wrap, want, k + 1)
  {
  }

  /** A search for the next flag equal to `want` moves off `t` whenever some other
      index holds `want` and is reachable in the direction of travel: so it lands
      back on `t` only when `t` is the only index with that flag. */
  lemma FirstHitMoves(flags: seq<bool>, t: int, r: int, u: int, reverse: bool, wrap: bool, want: bool)
    requires 0 <= t < |flags| && 0 <= u < |flags| && u != t && flags[u] == want
    requires wrap || Ahead(t, u, reverse)
    requires FirstHit(flags, t, r, reverse, wrap, want)
    ensures r != t
  {
    var n := |flags|;
    var k :| 1 <= k <= n && r == Walk(t, n, reverse, wrap, k) && 0 <= r < n && flags[r] == want &&
      Misses(flags, t, reverse, wrap, want, k - 1);
    var s := StepsTo(t, u, n, reverse, wrap);
    StepsToReaches(t, u, n, reverse, wrap);
    assert s < n;
    assert k <= s;
    if wrap {
      WrappedWalk(t, n, reverse, k);
    } else {
      BoundedWalk(t, n, reverse, k);
    }
  }

  /** Every flag equals `b`. */
  ghost predicate Every(flags: seq<bool>, b: bool)
  {
    forall i :: 0 <= i < |flags| ==> flags[i] == b
  }

  /** Some index holding `want` can be reached from `t` in the direction of travel
      (any index, when the ring wraps). */
  ghost predicate Reachable(flags: seq<bool>, t: int, reverse: bool, wrap: bool, want: bool)
  {
    exists u :: 0 <= u < |flags| && flags[u] == want && (wrap || Ahead(t, u, reverse))
  }

  /** The part of a session a dispatch reads and changes: the ring, its flags, the
      cursor, the native selection, the zero-region and the alert. */
  datatype Snap = Snap(reglets: seq<Reglet>, selected: seq<bool>, thisIndex: nat,
                       sel: seq<Reglet>, zeroRegion: Option<Reglet>, alert: string)

  /** The shape a dispatch keeps: the cursor stays on the ring, there is a flag
      per reglet, and the ring itself is not changed. */
  ghost predicate Kept(a: Snap, b: Snap)
  {
    && a.thisIndex < |a.reglets| == |a.selected|
    && b.reglets == a.reglets && |b.selected| == |a.reglets| && b.thisIndex < |a.reglets|
  }

  /** `_goto_next_dispatch`: the current reglet is dropped, the cursor steps and
      the reglet it lands on is selected. */
  ghost predicate WentToNext(reverse: bool, wrap: bool, a: Snap, b: Snap)
  {
    var n, t := |a.reglets|, a.thisIndex;
    && Kept(a, b)
    && b.thisIndex == Next(t, n, reverse, wrap)
    && (b.thisIndex == t <==> MoveAlert(t, n, reverse, wrap).Some?)
    && b.alert == AlertAfter(MoveAlert(t, n, reverse, wrap), a.alert)
    && b.selected == a.selected[t := false][b.thisIndex := true] && b.zeroRegion == None
    && Elems(b.sel) == (Elems(a.sel) - {a.reglets[t]} - ZeroSet(a.zeroRegion)) + {a.reglets[b.thisIndex]}
  }

  /** `_add_next_dispatch`: the cursor moves to the first unselected reglet ahead,
      or stays with an alert, and the reglet under it is selected. */
  ghost predicate AddedNext(reverse: bool, wrap: bool, a: Snap, b: Snap)
  {
    var n, t, f := |a.reglets|, a.thisIndex, a.selected;
    && Kept(a, b)
    && b.selected == f[b.thisIndex := true] && b.zeroRegion == None
    && Elems(b.sel) == (Elems(a.sel) - ZeroSet(a.zeroRegion)) + {a.reglets[b.thisIndex]}
    && if Every(f, true) then b.thisIndex == t && b.alert == AlreadyAddedAll(n)
       else if !wrap && !Reachable(f, t, reverse, false, false) then
         b.thisIndex == t && b.alert == (if reverse then NoMatchesAbove else NoMatchesBelow)
       else FirstHit(f, t, b.thisIndex, reverse, wrap, false) && b.alert == a.alert
  }

  /** `_add_all_dispatch`: every reglet ends selected. */
  ghost predicate AddedAll(a: Snap, b: Snap)
  {
    && Kept(a, b)
    && b.thisIndex == a.thisIndex && Every(b.selected, true)
    && if Every(a.selected, true) then b == a.(alert := AlreadyAddedAll(|a.reglets|))
       else && b.zeroRegion == None && b.alert == a.alert
            && Elems(b.sel) == (Elems(a.sel) - ZeroSet(a.zeroRegion)) + Elems(a.reglets)
  }

  /** `_peek_next_dispatch`: only the cursor and the alert change. */
  ghost predicate Peeked(reverse: bool, wrap: bool, a: Snap, b: Snap)
  {
    && Kept(a, b)
    && b.thisIndex == Next(a.thisIndex, |a.reglets|, reverse, wrap)
    && (b.thisIndex == a.thisIndex <==> MoveAlert(a.thisIndex, |a.reglets|, reverse, wrap).Some?)
    && b == a.(thisIndex := b.thisIndex,
               alert := AlertAfter(MoveAlert(a.thisIndex, |a.reglets|, reverse, wrap), a.alert))
  }

  /** `_peek_next_selected_dispatch`: the cursor moves to the first selected reglet
      ahead, or stays with an alert; no selection changes. */
  ghost predicate PeekedSelected(reverse: bool, wrap: bool, a: Snap, b: Snap)
  {
    var n, t, f := |a.reglets|, a.thisIndex, a.selected;
    && Kept(a, b)
    && b == a.(thisIndex := b.thisIndex, alert := b.alert)
    && if Every(f, false) then b.thisIndex == t && b.alert == NoSelections
       else if !wrap && !Reachable(f, t, reverse, false, true) then
         b.thisIndex == t && b.alert == (if reverse then NoSelectionsAbove else NoSelectionsBelow)
       else
         && FirstHit(f, t, b.thisIndex, reverse, wrap, true)
         && (b.thisIndex == t <==> forall i :: 0 <= i < n && f[i] ==> i == t)
         && b.alert == (if b.thisIndex == t then NoOtherSelections else a.alert)
  }

  /** `_add_this_dispatch`: the current reglet ends selected. */
  ghost predicate AddedThis(a: Snap, b: Snap)
  {
    var t := a.thisIndex;
    && Kept(a, b)
    && if a.selected[t] then b == a.(alert := AlreadyAdded)
       else && b.thisIndex == t && b.selected == a.selected[t := true] && b.zeroRegion == None
            && b.alert == a.alert
            && Elems(b.sel) == (Elems(a.sel) - ZeroSet(a.zeroRegion)) + {a.reglets[t]}
  }

  /** `_subtract_this_dispatch`: the current reglet ends deselected, standing in as
      the zero-region when nothing else is selected. */
  ghost predicate SubtractedThis(a: Snap, b: Snap)
  {
    var t := a.thisIndex;
    && Kept(a, b)
    && if !a.selected[t] then b == a.(alert := AlreadySubtracted)
       else && b.thisIndex == t && b.selected == a.selected[t := false] && b.alert == a.alert
            && b.zeroRegion == (if Every(b.selected, false) then Some(a.reglets[t]) else None)
            && Elems(b.sel) == Elems(a.sel) - (if Every(b.selected, false) then {} else {a.reglets[t]})
  }

  /** `_single_select_this_dispatch`: only the current reglet ends selected, natively too. */
  ghost predicate SingleSelected(a: Snap, b: Snap)
  {
    var n, t := |a.reglets|, a.thisIndex;
    && Kept(a, b)
    && if a.selected[t] && Count(a.selected) == 1 then b == a.(alert := AlreadySingleSelected)
       else && b.thisIndex == t && (forall i :: 0 <= i < n ==> b.selected[i] == (i == t))
            && b.sel == [a.reglets[t]] && b.zeroRegion == None && b.alert == a.alert
  }

  /** `_invert_select_this_dispatch`: every reglet but the current one ends selected. */
  ghost predicate InvertSelected(a: Snap, b: Snap)
  {
    var n, t := |a.reglets|, a.thisIndex;
    && Kept(a, b)
    && if n == 1 then b == a.(alert := NoOtherSelections)
       else if forall i :: 0 <= i < n ==> a.selected[i] == (i != t) then b == a.(alert := AlreadyInvertSelected)
       else && b.thisIndex == t && (forall i :: 0 <= i < n ==> b.selected[i] == (i != t))
            && b.zeroRegion == None && b.alert == a.alert
            && Elems(b.sel) == (Elems(a.sel) - ZeroSet(a.zeroRegion) - {a.reglets[t]}) +
                               (Elems(a.reglets) - {a.reglets[t]})
  }

  /** What `_context_aware_go` makes of `a` on its way to `dest` after the code
      `last`: already being there only raises "Already <name>"; otherwise the old
      reglet is dropped after a go-next (or nothing), and the new one selected after
      a go-next, an add or a subtract (or nothing). */
  ghost predicate Went(last: Code, dest: int, name: string, a: Snap, b: Snap)
  {
    var t := a.thisIndex;
    && Kept(a, b) && 0 <= dest < |a.reglets|
    && if t == dest then b == a.(alert := "Already " + name)
       else
         var dropped := if DropsOld(last) then a.selected[t := false] else a.selected;
         && b.thisIndex == dest && b.alert == a.alert
         && if SelectsNew(last) then
              && b.selected == dropped[dest := true] && b.zeroRegion == None
              && b.sel == Add(Unzeroed(if DropsOld(last) then Subtract(a.sel, a.reglets[t]) else a.sel,
                                       a.zeroRegion),
                              a.reglets[dest])
            else b.selected == dropped && b.sel == a.sel && b.zeroRegion == a.zeroRegion
  }

  /** What dispatching the code `c` makes of the session `a`, entry by entry of
      `g_dispatches`; `last` is the previous code, `back` the initial index and
      `wrap` the wrap-around flag. */
  ghost predicate Dispatched(c: Code, last: Code, reverse: bool, wrap: bool, back: Option<nat>, a: Snap, b: Snap)
  {
    match c
    case NoCode => Kept(a, b) && b == a
    case GotoNext => WentToNext(reverse, wrap, a, b)
    case AddNext => AddedNext(reverse, wrap, a, b)
    case AddAll => AddedAll(a, b)
    case PeekNext => Peeked(reverse, wrap, a, b)
    case PeekNextSelected => PeekedSelected(reverse, wrap, a, b)
    case AddThis => AddedThis(a, b)
    case SubtractThis => SubtractedThis(a, b)
    case SingleSelectThis => SingleSelected(a, b)
    case InvertSelectThis => InvertSelected(a, b)
    case GoFirst => Went(last, if reverse then |a.reglets| - 1 else 0, if reverse then "Last" else "First", a, b)
    case GoBack => back.Some? && Went(last, back.value, "Back", a, b)
  }

  /** After a go-next, an add-next, an add-all, an add-this or a single-select the
      reglet under the cursor is selected. */
  lemma DispatchSelectsCursor(c: Code, last: Code, reverse: bool, wrap: bool, back: Option<nat>, a: Snap, b: Snap)
    requires Dispatched(c, last, reverse, wrap, back, a, b)
    requires c in {GotoNext, AddNext, AddAll, AddThis, SingleSelectThis}
    ensures b.thisIndex < |b.selected| && b.selected[b.thisIndex]
  {
    if c == AddThis && a.selected[a.thisIndex] {
      assert b == a.(alert := AlreadyAdded);
    } else if c == SingleSelectThis && a.selected[a.thisIndex] && Count(a.selected) == 1 {
      assert b == a.(alert := AlreadySingleSelected);
    }
  }

  /** After a subtract or an invert-select on more than one match the reglet
      under the cursor is not selected. */
  lemma DispatchDeselectsCursor(c: Code, last: Code, reverse: bool, wrap: bool, back: Option<nat>, a: Snap, b: Snap)
    requires Dispatched(c, last, reverse, wrap, back, a, b)
    requires c == SubtractThis || (c == InvertSelectThis && |a.reglets| > 1)
    ensures b.thisIndex < |b.selected| && !b.selected[b.thisIndex]
  {
    if c == SubtractThis && !a.selected[a.thisIndex] {
      assert b == a.(alert := AlreadySubtracted);
    } else if c == InvertSelectThis {
      var n, t := |a.reglets|, a.thisIndex;
      if forall i :: 0 <= i < n ==> a.selected[i] == (i != t) {
        assert b == a.(alert := AlreadyInvertSelected);
      }
    }
  }

  /** Peeks change no flag and leave the native selection as it is. */
  lemma PeeksSelectNothing(c: Code, last: Code, reverse: bool, wrap: bool, back: Option<nat>, a: Snap, b: Snap)
    requires Dispatched(c, last, reverse, wrap, back, a, b)
    requires c == PeekNext || c == PeekNextSelected
    ensures b.selected == a.selected && b.sel == a.sel && b.zeroRegion == a.zeroRegion
  {
  }

  /** The regions of a selection before its last one (`sel()[:-1]`), which a
      basic init keeps. */
  function Stashed(s: seq<Reglet>): (t: seq<Reglet>)
    ensures s != [] ==> s == t + [s[|s| - 1]]
    ensures s == [] ==> t == []
  {
    if s == [] then [] else s[..|s| - 1]
  }

  /** The region a basic init from `start` reads its query from: `start` itself,
      or, for a caret, the last region of the host's expansion to the word. */
  function QueryRegion(start: Reglet, host: HostAnswers): Reglet
    requires WellFormed(host)
  {
    if Empty(start) then host.expanded[|host.expanded| - 1] else start
  }

  /** `_establish_index` refuses to start: a single-select on a region that is not
      itself a match, or an invert-select over a single match. */
  predicate IndexRefused(c: Code, region: Reglet, ring: seq<Reglet>)
    requires ring != []
  {
    || (c == SingleSelectThis && region != ring[FindGe(ring, region)])
    || (c == InvertSelectThis && |ring| == 1)
  }

  /** Where `_establish_index` puts the cursor `t` and which flags it sets, by code:
      at the first match at or after `region` (strictly after it for a go-next,
      add-next or peek-next from a real region), at an end of the ring for a
      go-first/last; the reglet under the cursor is selected for the moving,
      adding and single-selecting codes, every reglet for an add-all, every one
      but the first at or after `region` for an invert-select, and a peek-next
      selects the region it starts from when that is itself a match. */
  predicate Placed(c: Code, reverse: bool, point: bool, region: Reglet, ring: seq<Reglet>, flags: seq<bool>, t: int)
  {
    && ring != [] && |flags| == |ring| && 0 <= t < |ring|
    && var ge, gt, none := FindGe(ring, region), FindGt(ring, region), Filled(|ring|, false);
       match c
       case GotoNext => t == (if point then ge else gt) && flags == none[t := true]
       case AddNext => t == (if point then ge else gt) && flags == none[ge := true][t := true]
       case PeekNext =>
         && t == (if point then ge else gt)
         && flags == if !point && region == ring[ge] then none[ge := true] else none
       case PeekNextSelected | AddThis | SingleSelectThis => t == ge && flags == none[t := true]
       case AddAll => t == ge && flags == Filled(|ring|, true)
       case InvertSelectThis => t == ge && forall i :: 0 <= i < |ring| ==> flags[i] == (i != ge)
       case GoFirst => t == (if reverse then |ring| - 1 else 0) && flags == none[t := true]
       case NoCode | SubtractThis | GoBack => t == ge && flags == none
  }

  /** From the query on, a basic init whose query is read from `region` succeeds:
      the query has matches and `_establish_index` does not refuse. */
  predicate QueryStarts(c: Code, region: Reglet, host: HostAnswers)
  {
    host.matches != [] && !IndexRefused(c, region, host.matches)
  }

  /** The alert a basic init raises from the query on: "No Matches Found For ...",
      "... Not In A Whole Word" or "No Other Matches"; none when it succeeds. */
  function QueryAlert(c: Code, region: Reglet, host: HostAnswers): (a: Option<string>)
    ensures a.None? <==> QueryStarts(c, region, host)
  {
    if host.matches == [] then Some(NoMatchesFoundFor(host.text))
    else if IndexRefused(c, region, host.matches) then
      Some(if c == SingleSelectThis then NotInAWholeWord(host.text) else NoOtherMatches)
    else None
  }

  /** A basic init from the native selection `s` succeeds: there is a selection,
      no pre-check fails, a caret expands to a word, and the query starts. */
  predicate BasicInitSucceeds(c: Code, s: seq<Reglet>, host: HostAnswers)
    requires WellFormed(host)
  {
    && s != []
    && PrecheckAlert(Empty(s[|s| - 1]), c).None?
    && !Empty(QueryRegion(s[|s| - 1], host))
    && QueryStarts(c, QueryRegion(s[|s| - 1], host), host)
  }

  /** The alert a basic init from `s` raises: "No Selections", the last failing
      pre-check, or the query's alert; none when it succeeds, or when a caret lies
      on no word. */
  function BasicInitAlert(c: Code, s: seq<Reglet>, host: HostAnswers): (a: Option<string>)
    requires WellFormed(host)
    ensures BasicInitSucceeds(c, s, host) ==> a.None?
    ensures a.None? && s != [] ==> PrecheckAlert(Empty(s[|s| - 1]), c).None?
  {
    if s == [] then Some(NoSelections)
    else if PrecheckAlert(Empty(s[|s| - 1]), c).Some? then PrecheckAlert(Empty(s[|s| - 1]), c)
    else if Empty(QueryRegion(s[|s| - 1], host)) then None
    else QueryAlert(c, QueryRegion(s[|s| - 1], host), host)
  }

  /** The session a basic init leaves once it succeeds from the query region
      `region` (a caret's expansion when `point`), with `before` the native selection
      it established the regions from and `orig` the original region: the host's
      matches as the ring, cursor and flags as `_establish_index` sets them, a
      zero-region exactly when no reglet is selected, and a native selection made
      of the regions of `before` but its last, the selected reglets, `orig` for a
      peek-next, and the zero-region. */
  ghost predicate RingStarted(c: Code, reverse: bool, point: bool, region: Reglet, before: seq<Reglet>,
                              orig: Reglet, matches: seq<Reglet>, b: Snap)
  {
    && b.reglets == matches
    && Placed(c, reverse, point, region, b.reglets, b.selected, b.thisIndex)
    && b.zeroRegion == (if Every(b.selected, false) then Some(b.reglets[b.thisIndex]) else None)
    && Elems(b.sel) == Elems(Stashed(before)) + Elems(Chosen(b.reglets, b.selected)) +
                       (if c == PeekNext then {orig} else {}) + ZeroSet(b.zeroRegion)
  }

  /** Once the pre-checks pass and the query region is not an empty expansion, a
      basic init from `s` fares as its query does. */
  lemma InitFollowsQuery(c: Code, s: seq<Reglet>, host: HostAnswers)
    requires WellFormed(host) && s != [] && PrecheckAlert(Empty(s[|s| - 1]), c).None?
    ensures Empty(QueryRegion(s[|s| - 1], host)) ==>
              !BasicInitSucceeds(c, s, host) && BasicInitAlert(c, s, host).None?
    ensures !Empty(QueryRegion(s[|s| - 1], host)) ==>
              && (BasicInitSucceeds(c, s, host) <==> QueryStarts(c, QueryRegion(s[|s| - 1], host), host))
              && BasicInitAlert(c, s, host) == QueryAlert(c, QueryRegion(s[|s| - 1], host), host)
  {
  }

  /** The session a successful basic init from the native selection `s` leaves:
      the query is read from its last region, or from that region's expansion to
      the word when it is a caret, in which case the regions are established from
      the expanded selection. */
  ghost predicate BasicStarted(c: Code, reverse: bool, s: seq<Reglet>, host: HostAnswers, b: Snap)
  {
    && WellFormed(host) && s != []
    && var start := s[|s| - 1];
       RingStarted(c, reverse, Empty(start), QueryRegion(start, host),
                   if Empty(start) then host.expanded else s, start, host.matches, b)
  }

  /** A basic init whose code selects the reglet it starts on (every code but
      no-code, peek-next, subtract, invert-select and go-back) leaves that reglet
      selected and in the native selection, with no zero-region. */
  lemma StartSelectsCursor(c: Code, reverse: bool, s: seq<Reglet>, host: HostAnswers, b: Snap)
    requires BasicStarted(c, reverse, s, host, b)
    requires c in {GotoNext, AddNext, AddAll, PeekNextSelected, AddThis, SingleSelectThis, GoFirst}
    ensures b.thisIndex < |b.reglets| && b.selected[b.thisIndex]
    ensures b.zeroRegion == None && b.reglets[b.thisIndex] in b.sel
  {
    var start := s[|s| - 1];
    assert RingStarted(c, reverse, Empty(start), QueryRegion(start, host),
                       if Empty(start) then host.expanded else s, start, host.matches, b);
    PlacedSelectsCursor(c, reverse, Empty(start), QueryRegion(start, host), b.reglets, b.selected, b.thisIndex);
    assert b.reglets[b.thisIndex] in Elems(Chosen(b.reglets, b.selected));
  }

  /** A basic init from `s` replaces the native selection by the host's expansion
      to the word: its last region is a caret that passes the pre-checks. */
  predicate Expands(c: Code, s: seq<Reglet>)
  {
    s != [] && Empty(s[|s| - 1]) && PrecheckAlert(true, c).None?
  }

  /** A basic init from `s` reaches `_establish_index`: the pre-checks pass, a
      caret expands to a word, and the query has matches. */
  predicate ReachesIndex(c: Code, s: seq<Reglet>, host: HostAnswers)
    requires WellFormed(host)
  {
    && s != []
    && PrecheckAlert(Empty(s[|s| - 1]), c).None?
    && !Empty(QueryRegion(s[|s| - 1], host))
    && host.matches != []
  }

  /** The query text after a basic init from `s` that had `before`: the text
      under the query region once the pre-checks pass and a caret expands to a
      word. */
  function TextAfter(c: Code, s: seq<Reglet>, host: HostAnswers, before: Option<string>): Option<string>
    requires WellFormed(host)
  {
    if s != [] && PrecheckAlert(Empty(s[|s| - 1]), c).None? && !Empty(QueryRegion(s[|s| - 1], host))
    then Some(host.text) else before
  }

  /** The initial index after a basic init from `s` that had `before`: the first
      `_set_index` records the first match at or after the query region, unless an
      index was already recorded; an init that stops earlier records none. */
  function InitIndexAfter(c: Code, s: seq<Reglet>, host: HostAnswers, before: Option<nat>): Option<nat>
    requires WellFormed(host)
  {
    if ReachesIndex(c, s, host) && before.None?
    then Some(FindGe(host.matches, QueryRegion(s[|s| - 1], host)))
    else before
  }

  /** The session a failed basic init from the native selection `s` leaves, `a`
      being the one it started from: no zero-region is pushed; the native
      selection is the expansion of a caret that passed the pre-checks, and is
      otherwise kept; a ring the query matched stays, with the cursor and the
      flags `_establish_index` set before refusing; an init that stops before
      the query has matches leaves ring, flags and cursor as they were. */
  ghost predicate BasicStopped(c: Code, reverse: bool, s: seq<Reglet>, host: HostAnswers, a: Snap, b: Snap)
  {
    && WellFormed(host)
    && b.zeroRegion == a.zeroRegion
    && b.sel == (if Expands(c, s) then host.expanded else s)
    && if ReachesIndex(c, s, host) then
         && b.reglets == host.matches
         && Placed(c, reverse, Empty(s[|s| - 1]), QueryRegion(s[|s| - 1], host), b.reglets, b.selected, b.thisIndex)
       else b.reglets == a.reglets && b.selected == a.selected && b.thisIndex == a.thisIndex
  }

  /** A basic init that reaches `_establish_index` and still fails was a
      single-select off a whole word or an invert-select of a lone match; it says
      so, and it leaves an initial index into the ring it refused, which a later
      init keeps. */
  lemma RefusedAtIndex(c: Code, reverse: bool, s: seq<Reglet>, host: HostAnswers, before: Option<nat>, a: Snap, b: Snap)
    requires WellFormed(host) && ReachesIndex(c, s, host) && !BasicInitSucceeds(c, s, host)
    requires BasicStopped(c, reverse, s, host, a, b)
    ensures c == SingleSelectThis || c == InvertSelectThis
    ensures BasicInitAlert(c, s, host) == Some(if c == SingleSelectThis then NotInAWholeWord(host.text) else NoOtherMatches)
    ensures InitIndexAfter(c, s, host, before).Some?
    ensures InitIndexAfter(c, s, host, None).value < |b.reglets|
    ensures c == SingleSelectThis ==> b.selected[b.thisIndex] && !Every(b.selected, false)
    ensures c == InvertSelectThis ==> |b.reglets| == 1 && b.selected == [false]
  {
    var start := s[|s| - 1];
    var q := QueryRegion(start, host);
    assert IndexRefused(c, q, host.matches);
    if c == SingleSelectThis {
      assert b.selected[b.thisIndex];
    } else {
      assert b.selected[0] == false;
    }
  }

  /** A basic init whose pre-checks fail (a go-back, or a peek-next-selected or a
      subtract from a caret) changes neither the native selection nor the ring. */
  lemma PrecheckFailureKeeps(c: Code, reverse: bool, s: seq<Reglet>, host: HostAnswers, a: Snap, b: Snap)
    requires s != [] && PrecheckAlert(Empty(s[|s| - 1]), c).Some?
    requires BasicStopped(c, reverse, s, host, a, b)
    ensures b.sel == s && b.zeroRegion == a.zeroRegion
    ensures b.reglets == a.reglets && b.selected == a.selected && b.thisIndex == a.thisIndex
  {
  }

  /** The codes that select the reglet they start on set its flag in `Placed`. */
  lemma PlacedSelectsCursor(c: Code, reverse: bool, point: bool, region: Reglet, ring: seq<Reglet>,
                            flags: seq<bool>, t: int)
    requires Placed(c, reverse, point, region, ring, flags, t)
    requires c in {GotoNext, AddNext, AddAll, PeekNextSelected, AddThis, SingleSelectThis, GoFirst}
    ensures 0 <= t < |flags| && flags[t] && !Every(flags, false)
  {
  }

  /** The session `_extended_init` sets up from a non-empty native selection `s`:
      the selection itself is the ring, all selected, and the cursor is on its last
      region (its first when reversing). */
  function ExtendedStart(s: seq<Reglet>, reverse: bool, alert: string): (a: Snap)
    requires s != []
    ensures a.thisIndex < |a.reglets| == |a.selected| && Every(a.selected, true)
    ensures a.reglets == s && a.sel == s && a.zeroRegion == None
  {
    Snap(s, Filled(|s|, true), if reverse then 0 else |s| - 1, s, None, alert)
  }

  class ExactQuickFind {
    var init: InitState
    var lastTextCmd: string
    var lastCode: Code
    var code: Code
    var text: Option<string>
    var reverse: bool
    var reglets: seq<Reglet>
    var selected: seq<bool>
    var initIndex: Option<nat>
    var thisIndex: nat
    var origRegion: Option<Reglet>
    var zeroRegion: Option<Reglet>
    var ruler: string
    var alert: string
    var notice: string
    /** The view's native selection, in the order `view.sel()` enumerates it. */
    var sel: seq<Reglet>

    /** The shape every session keeps: a flag per reglet, ordered reglets and
        selection, and an in-range current index once there is a ring. */
    ghost predicate Valid()
      reads this
    {
      && |selected| == |reglets|
      && StrictlySorted(reglets)
      && StrictlySorted(sel)
      && (reglets != [] ==> thisIndex < |reglets|)
      && (init == NotInit ==> zeroRegion.None?)
      && (init != NotInit ==> Live())
    }

    /** What an initialised ring adds: it is non-empty with a recorded initial index,
        every selected reglet is in the native selection, and a zero-region stands
        in the native selection only while no reglet is selected. */
    ghost predicate Live()
      reads this
    {
      && reglets != []
      && initIndex.Some?
      && Synced()
      && ZeroOk()
    }

    /** Every selected reglet is in the native selection. */
    ghost predicate Synced()
      reads this
    {
      forall i :: 0 <= i < |selected| && i < |reglets| && selected[i] ==> reglets[i] in sel
    }

    /** A zero-region stands in the native selection, and only while no reglet is selected. */
    ghost predicate ZeroOk()
      reads this
    {
      zeroRegion.Some? ==> zeroRegion.value in sel && NoneSelected()
    }

    ghost predicate NoneSelected()
      reads this
    {
      Every(selected, false)
    }

    ghost predicate AllSelected()
      reads this
    {
      Every(selected, true)
    }

    /** Some index holding `want` lies ahead of the current one in the direction of
        travel (anywhere, when the ring wraps). */
    ghost predicate SomeAhead(want: bool, wrap: bool)
      reads this
    {
      Reachable(selected, thisIndex, reverse, wrap, want)
    }

    /** The state `_reset_eqf` leaves (the last text command aside). */
    ghost predicate IsReset()
      reads this
    {
      Cleared() && notice == ""
    }

    /** `IsReset` but for the notice, which the toggle commands set right after a reset. */
    ghost predicate Cleared()
      reads this
    {
      && init == NotInit && lastCode == NoCode && code == NoCode
      && text == None && !reverse && reglets == [] && selected == []
      && initIndex == None && thisIndex == 0 && origRegion == None && zeroRegion == None
      && ruler == "" && alert == ""
    }

    /** The part of the session a dispatch works on. */
    function Snapshot(): Snap
      reads this
    {
      Snap(reglets, selected, thisIndex, sel, zeroRegion, alert)
    }

    /** The session an extended command dispatches on: the ring `_extended_init`
        makes of the native selection when the session is not yet initialised,
        otherwise the session as it stands. */
    ghost function ExtendedEntry(rev: bool): Snap
      reads this
    {
      if init == NotInit && sel != [] then ExtendedStart(sel, rev, alert) else Snapshot()
    }

    /** The session a basic init works from: what is left of an extended session
        once it is dropped (only the native selection), otherwise the session as
        it stands. */
    ghost function BasicEntry(): Snap
      reads this
    {
      if init == Extended && sel != [] then Snap([], [], 0, sel, None, "") else Snapshot()
    }

    /** The fields a basic init leaves alone once under way: the last code, the
        direction, the notice and the ruler. */
    ghost function Aside(): (Code, bool, string, string)
      reads this`lastCode, this`reverse, this`notice, this`ruler
    {
      (lastCode, reverse, notice, ruler)
    }

    /** The fields a dispatch leaves alone: the lifecycle, the query, the
        remembered indices and regions, the codes, the direction and the notice. */
    ghost function Settled(): (InitState, Option<string>, Option<nat>, Option<Reglet>, Code, Code, bool, string)
      reads this`init, this`text, this`initIndex, this`origRegion, this`code, this`lastCode, this`reverse, this`notice
    {
      (init, text, initIndex, origRegion, code, lastCode, reverse, notice)
    }

    /** The query text a basic init works from: none once an extended session is dropped. */
    ghost function EntryText(): Option<string>
      reads this
    {
      if init == Extended && sel != [] then None else text
    }

    /** The initial index a basic init works from: none once an extended session is dropped. */
    ghost function EntryIndex(): Option<nat>
      reads this
    {
      if init == Extended && sel != [] then None else initIndex
    }

    /** `this_region`: the reglet at the current index. */
    function ThisRegion(): Reglet
      reads this
      requires thisIndex < |reglets|
    {
      reglets[thisIndex]
    }

    /** `ExactQuickFind(view)`: a fresh session over a view whose selection is `hostSel`. */
    constructor (hostSel: seq<Reglet>)
      requires StrictlySorted(hostSel)
      ensures Valid() && IsReset()
      ensures lastTextCmd == "" && sel == hostSel
    {
      init, lastTextCmd, lastCode, code := NotInit, "", NoCode, NoCode;
      text, reverse, reglets, selected := None, false, [], [];
      initIndex, thisIndex, origRegion, zeroRegion := None, 0, None, None;
      ruler, alert, notice := "", "", "";
      sel := hostSel;
    }

    /** `_reset_eqf`: back to the uninitialised state; the last text command and the
        view's selection are kept. */
    method Reset()
      requires StrictlySorted(sel)
      modifies this
      ensures IsReset()
      ensures Valid()
      ensures lastTextCmd == old(lastTextCmd) && sel == old(sel)
    {
      ResetCodes();
      ResetRing();
      ResetStatus();
    }

    /** The part of `_reset_eqf` that forgets the lifecycle, the codes and the query. */
    method ResetCodes()
      modifies this`init, this`lastCode, this`code, this`text, this`reverse
      ensures init == NotInit && lastCode == NoCode && code == NoCode && text == None && !reverse
    {
      init, lastCode, code, text, reverse := NotInit, NoCode, NoCode, None, false;
    }

    /** The part of `_reset_eqf` that forgets the ring and the remembered regions. */
    method ResetRing()
      modifies this`reglets, this`selected, this`initIndex, this`thisIndex, this`origRegion, this`zeroRegion
      ensures reglets == [] && selected == [] && initIndex == None && thisIndex == 0
      ensures origRegion == None && zeroRegion == None
    {
      reglets, selected, initIndex, thisIndex := [], [], None, 0;
      origRegion, zeroRegion := None, None;
    }

    /** `_reset_status`: clear the alert and the notice (`_set_status`, once the
        status is published) and the ruler. */
    method ResetStatus()
      modifies this`alert, this`notice, this`ruler
      ensures alert == "" && notice == "" && ruler == ""
    {
      alert, notice, ruler := "", "", "";
    }

    // --- ring movement -------------------------------------------------------

    /** `_to_next_region`: one step of the cursor, wrapping or bounded. */
    method ToNextRegion(wrap: bool)
      requires thisIndex < |reglets|
      modifies this`thisIndex
      ensures thisIndex == Next(old(thisIndex), |reglets|, reverse, wrap) && thisIndex < |reglets|
    {
      thisIndex := Next(thisIndex, |reglets|, reverse, wrap);
    }

    /** `_move_to_next_region`: one step, alerting on a ring of one and, when the
        ring does not wrap, at the end of travel. The cursor stays put exactly when
        an alert is raised. */
    method MoveToNextRegion(wrap: bool)
      requires thisIndex < |reglets|
      modifies this`thisIndex, this`alert
      ensures thisIndex == Next(old(thisIndex), |reglets|, reverse, wrap) && thisIndex < |reglets|
      ensures alert == AlertAfter(MoveAlert(old(thisIndex), |reglets|, reverse, wrap), old(alert))
      ensures thisIndex == old(thisIndex) <==> MoveAlert(old(thisIndex), |reglets|, reverse, wrap).Some?
    {
      var prev := thisIndex;
      ToNextRegion(wrap);
      if |reglets| == 1 {
        alert := NoOtherMatches;
        return;
      }
      if !wrap {
        var msg := "";
        if reverse && prev == 0 {
          msg := FirstMatch;
        }
        if !reverse && prev == |reglets| - 1 {
          msg := LastMatch;
        }
        if msg != "" {
          alert := msg;
        }
      }
    }

    /** `_has_next_region_to_add` (want = false) and `_has_next_added_region`
        (want = true): with wrap on there is always a next one; otherwise some index
        ahead must hold `want`, or the "No Matches/Selections Above/Below" alert is raised. */
    method HasNext(want: bool, wrap: bool) returns (b: bool)
      requires |selected| == |reglets| && thisIndex < |reglets|
      modifies this`alert
      ensures b <==> wrap || SomeAhead(want, false)
      ensures b ==> alert == old(alert)
      ensures !b ==> alert == (if want then (if reverse then NoSelectionsAbove else NoSelectionsBelow)
                               else (if reverse then NoMatchesAbove else NoMatchesBelow))
    {
      if wrap {
        return true;
      }
      var t := thisIndex;
      var none := if reverse then forall i :: 0 <= i < t ==> selected[i] != want
                  else forall i :: t + 1 <= i < |selected| ==> selected[i] != want;
      if none {
        alert := if want then (if reverse then NoSelectionsAbove else NoSelectionsBelow)
                 else (if reverse then NoMatchesAbove else NoMatchesBelow);
        return false;
      }
      assert selected[if reverse then (var u :| 0 <= u < t && selected[u] == want; u)
                      else (var u :| t + 1 <= u < |selected| && selected[u] == want; u)] == want;
      return true;
    }

    /** The `while True` loops of `_move_to_next_region_to_add` (want = false) and
        `_move_to_next_added_region` (want = true): step until the current flag is
        `want`. It ends because some index holding `want` is reachable. */
    method SeekFlag(want: bool, wrap: bool)
      requires |selected| == |reglets| && thisIndex < |reglets|
      requires SomeAhead(want, wrap)
      modifies this`thisIndex
      ensures FirstHit(selected, old(thisIndex), thisIndex, reverse, wrap, want)
      ensures thisIndex < |reglets| && selected[thisIndex] == want
    {
      ghost var t := thisIndex;
      ghost var flags := selected;
      ghost var u :| 0 <= u < |flags| && flags[u] == want && (wrap || Ahead(t, u, reverse));
      SeekStart(flags, t, u, reverse, wrap, want);
      ghost var k: nat := 0;
      while true
        invariant selected == flags && |reglets| == |flags|
        invariant Seeking(flags, t, u, reverse, wrap, want, k, thisIndex)
        decreases StepsTo(t, u, |flags|, reverse, wrap) - k
      {
        SeekStep(flags, t, u, reverse, wrap, want, k, thisIndex);
        ToNextRegion(wrap);
        k := k + 1;
        if selected[thisIndex] == want {
          break;
        }
      }
    }

    /** `_move_to_next_region_to_add`: move to the next unselected reglet. */
    method MoveToNextRegionToAdd(wrap: bool)
      requires |selected| == |reglets| && thisIndex < |reglets|
      modifies this`thisIndex, this`alert
      ensures thisIndex < |reglets|
      ensures old(AllSelected()) ==>
                thisIndex == old(thisIndex) && alert == AlreadyAddedAll(|reglets|)
      ensures !old(AllSelected()) && !wrap && !old(SomeAhead(false, false)) ==>
                thisIndex == old(thisIndex) && alert == (if reverse then NoMatchesAbove else NoMatchesBelow)
      ensures !old(AllSelected()) && (wrap || old(SomeAhead(false, false))) ==>
                FirstHit(selected, old(thisIndex), thisIndex, reverse, wrap, false) && alert == old(alert)
    {
      if forall i :: 0 <= i < |selected| ==> selected[i] {
        alert := AlreadyAddedAll(|reglets|);
        return;
      }
      var ok := HasNext(false, wrap);
      if !ok {
        return;
      }
      SeekFlag(false, wrap);
    }

    /** `_move_to_next_added_region`: move to the next selected reglet, alerting
        "No Other Selections" when that leads back to the current one. */
    method MoveToNextAddedRegion(wrap: bool)
      requires |selected| == |reglets| && thisIndex < |reglets|
      modifies this`thisIndex, this`alert
      ensures thisIndex < |reglets|
      ensures old(NoneSelected()) ==> thisIndex == old(thisIndex) && alert == NoSelections
      ensures !old(NoneSelected()) && !wrap && !old(SomeAhead(true, false)) ==>
                thisIndex == old(thisIndex) &&
                alert == (if reverse then NoSelectionsAbove else NoSelectionsBelow)
      ensures !old(NoneSelected()) && (wrap || old(SomeAhead(true, false))) ==>
                && FirstHit(selected, old(thisIndex), thisIndex, reverse, wrap, true)
                && (thisIndex == old(thisIndex) <==>
                      forall i :: 0 <= i < |selected| && selected[i] ==> i == old(thisIndex))
                && alert == (if thisIndex == old(thisIndex) then NoOtherSelections else old(alert))
    {
      if forall i :: 0 <= i < |selected| ==> !selected[i] {
        alert := NoSelections;
        return;
      }
      var ok := HasNext(true, wrap);
      if !ok {
        return;
      }
      var prev := thisIndex;
      SeekFlag(true, wrap);
      if exists u :: 0 <= u < |selected| && selected[u] && u != prev {
        var u :| 0 <= u < |selected| && selected[u] && u != prev;
        if !wrap {
          var w :| 0 <= w < |selected| && selected[w] && Ahead(prev, w, reverse);
          FirstHitMoves(selected, prev, thisIndex, w, reverse, wrap, true);
        } else {
          FirstHitMoves(selected, prev, thisIndex, u, reverse, wrap, true);
        }
      }
      if thisIndex == prev {
        alert := NoOtherSelections;
      }
    }

    // --- selection helpers ---------------------------------------------------

    /** `_push_zero_region`: when nothing is selected, keep the current reglet in the
        native selection as a placeholder. */
    method PushZeroRegion()
      requires |selected| == |reglets| && thisIndex < |reglets|
      modifies this`zeroRegion, this`sel
      ensures old(Synced()) ==> Synced()
      ensures old(ZeroOk()) ==> ZeroOk()
      ensures !old(NoneSelected()) ==> zeroRegion == old(zeroRegion) && sel == old(sel)
      ensures old(NoneSelected()) ==> zeroRegion == Some(ThisRegion()) && sel == Add(old(sel), ThisRegion())
      ensures StrictlySorted(old(sel)) ==> StrictlySorted(sel)
      ensures Elems(sel) == Elems(old(sel)) + (if old(NoneSelected()) then {ThisRegion()} else {})
    {
      if exists i :: 0 <= i < |selected| && selected[i] {
        return;
      }
      zeroRegion := Some(ThisRegion());
      sel := Add(sel, ThisRegion());
    }

    /** `_pop_zero_region`: take the placeholder, if any, out of the native selection. */
    method PopZeroRegion()
      modifies this`zeroRegion, this`sel
      ensures old(Synced()) && (old(zeroRegion).Some? ==> old(NoneSelected())) ==> Synced()
      ensures zeroRegion == None
      ensures sel == Unzeroed(old(sel), old(zeroRegion))
    {
      if zeroRegion == None {
        return;
      }
      sel := Subtract(sel, zeroRegion.value);
      zeroRegion := None;
    }

    /** `_add_this_region`: pop the placeholder, then select the current reglet. */
    method AddThisRegion()
      requires |selected| == |reglets| && thisIndex < |reglets|
      modifies this`zeroRegion, this`sel, this`selected
      ensures zeroRegion == None
      ensures old(Synced()) && (old(zeroRegion).Some? ==> old(NoneSelected())) ==> Synced()
      ensures selected == old(selected)[thisIndex := true]
      ensures sel == Add(Unzeroed(old(sel), old(zeroRegion)), ThisRegion())
      ensures Elems(sel) == (Elems(old(sel)) - ZeroSet(old(zeroRegion))) + {ThisRegion()}
    {
      PopZeroRegion();
      sel := Add(sel, ThisRegion());
      selected := selected[thisIndex := true];
    }

    /** `_subtract_this_region`: deselect the current reglet. */
    method SubtractThisRegion()
      requires |selected| == |reglets| && thisIndex < |reglets|
      modifies this`sel, this`selected
      ensures old(Synced()) && StrictlySorted(reglets) ==> Synced()
      ensures old(NoneSelected()) ==> NoneSelected()
      ensures old(ZeroOk()) && old(zeroRegion) != Some(old(ThisRegion())) ==> ZeroOk()
      ensures selected == old(selected)[thisIndex := false]
      ensures sel == Subtract(old(sel), ThisRegion())
      ensures Elems(sel) == Elems(old(sel)) - {ThisRegion()}
    {
      if StrictlySorted(reglets) {
        forall i | 0 <= i < |reglets| && i != thisIndex {
          StrictlySortedDistinct(reglets, i, thisIndex);
        }
      }
      sel := Subtract(sel, ThisRegion());
      selected := selected[thisIndex := false];
    }

    /** `_context_aware_go`: jump to `dest`. After a go-next (or nothing) the old
        reglet is dropped first; after a go-next, an add or a subtract (or nothing)
        the new one is selected. Already being there only raises "Already <name>". */
    method ContextAwareGo(dest: nat, name: string)
      requires Valid() && init != NotInit && dest < |reglets|
      modifies this`thisIndex, this`selected, this`sel, this`zeroRegion, this`alert
      ensures Valid()
      ensures old(thisIndex) == dest ==>
                && alert == "Already " + name && thisIndex == old(thisIndex)
                && selected == old(selected) && sel == old(sel) && zeroRegion == old(zeroRegion)
      ensures old(thisIndex) != dest ==>
                && thisIndex == dest && alert == old(alert)
                && var dropped := if DropsOld(lastCode) then old(selected)[old(thisIndex) := false]
                                  else old(selected);
                   selected == if SelectsNew(lastCode) then dropped[dest := true] else dropped
      ensures old(thisIndex) != dest && SelectsNew(lastCode) ==>
                && zeroRegion == None
                && sel == Add(Unzeroed(if DropsOld(lastCode) then Subtract(old(sel), old(ThisRegion())) else old(sel),
                                       old(zeroRegion)),
                              ThisRegion())
      ensures old(thisIndex) != dest && !SelectsNew(lastCode) ==>
                zeroRegion == old(zeroRegion) && sel == old(sel)
      ensures Went(lastCode, dest, name, old(Snapshot()), Snapshot())
    {
      if thisIndex == dest {
        alert := "Already " + name;
        return;
      }
      if SelectsNew(lastCode) {
        ReselectAt(dest, DropsOld(lastCode));
      } else {
        thisIndex := dest;
      }
    }

    /** The jump of `_context_aware_go` when the new reglet is selected: the old one
        is subtracted first when `drop`, then the cursor moves and the new one is added. */
    method ReselectAt(dest: nat, drop: bool)
      requires Valid() && init != NotInit && dest < |reglets|
      modifies this`thisIndex, this`selected, this`sel, this`zeroRegion
      ensures Valid()
      ensures thisIndex == dest && zeroRegion == None
      ensures selected == (if drop then old(selected)[old(thisIndex) := false] else old(selected))[dest := true]
      ensures sel == Add(Unzeroed(if drop then Subtract(old(sel), old(ThisRegion())) else old(sel),
                                  old(zeroRegion)),
                         ThisRegion())
    {
      if drop {
        SubtractThisRegion();
      }
      thisIndex := dest;
      AddThisRegion();
    }

    // --- dispatches ----------------------------------------------------------

    /** `[not s for s in selected]`, reporting whether nothing is left selected. */
    method NegateSelected() returns (none: bool)
      modifies this`selected
      ensures |selected| == |old(selected)|
      ensures forall i :: 0 <= i < |selected| ==> selected[i] == !old(selected)[i]
      ensures none <==> Count(selected) == 0
    {
      var before := selected;
      selected := seq(|before|, i requires 0 <= i < |before| => !before[i]);
      none := Count(selected) == 0;
    }

    /** `_goto_next_dispatch`: drop the current reglet, step, select the new one. */
    method GotoNextDispatch(wrap: bool)
      requires Valid() && init != NotInit
      modifies this`thisIndex, this`selected, this`sel, this`zeroRegion, this`alert
      ensures Valid()
      ensures WentToNext(reverse, wrap, old(Snapshot()), Snapshot())
    {
      LeaveThis(wrap);
      AddThisRegion();
    }

    /** The first two steps of `_goto_next_dispatch`: deselect the current reglet,
        then take one step with its alert. */
    method LeaveThis(wrap: bool)
      requires Valid() && init != NotInit
      modifies this`thisIndex, this`selected, this`sel, this`alert
      ensures |selected| == |reglets| && StrictlySorted(sel) && Synced()
      ensures old(zeroRegion).Some? ==> NoneSelected()
      ensures thisIndex == Next(old(thisIndex), |reglets|, reverse, wrap) && thisIndex < |reglets|
      ensures thisIndex == old(thisIndex) <==> MoveAlert(old(thisIndex), |reglets|, reverse, wrap).Some?
      ensures alert == AlertAfter(MoveAlert(old(thisIndex), |reglets|, reverse, wrap), old(alert))
      ensures selected == old(selected)[old(thisIndex) := false]
      ensures Elems(sel) == Elems(old(sel)) - {old(ThisRegion())}
    {
      SubtractThisRegion();
      MoveToNextRegion(wrap);
    }

    /** `_add_next_dispatch`: move to the next unselected reglet and select it. The
        current reglet is selected even when an alert stopped the move. */
    method AddNextDispatch(wrap: bool)
      requires Valid() && init != NotInit
      modifies this`thisIndex, this`selected, this`sel, this`zeroRegion, this`alert
      ensures Valid()
      ensures AddedNext(reverse, wrap, old(Snapshot()), Snapshot())
    {
      MoveToNextRegionToAdd(wrap);
      AddThisRegion();
    }

    /** `_add_all_dispatch`: select every reglet, unless all already are. */
    method AddAllDispatch()
      requires Valid() && init != NotInit
      modifies this`selected, this`sel, this`zeroRegion, this`alert
      ensures Valid()
      ensures AddedAll(old(Snapshot()), Snapshot())
    {
      if Count(selected) == |reglets| {
        alert := AlreadyAddedAll(|reglets|);
        return;
      }
      SelectAll();
    }

    /** The selection proper of `_add_all_dispatch`: the placeholder goes and every
        reglet joins the native selection. */
    method SelectAll()
      requires Valid() && init != NotInit
      modifies this`selected, this`sel, this`zeroRegion
      ensures Valid()
      ensures selected == Filled(|reglets|, true) && zeroRegion == None
      ensures Elems(sel) == (Elems(old(sel)) - ZeroSet(old(zeroRegion))) + Elems(reglets)
    {
      PopZeroRegion();
      selected := Filled(|reglets|, true);
      var regions := Chosen(reglets, selected);
      assert Elems(regions) == Elems(reglets);
      sel := HostSelection.AddAll(sel, regions);
    }

    /** `_peek_next_dispatch`: step without touching any selection. */
    method PeekNextDispatch(wrap: bool)
      requires Valid() && init != NotInit
      modifies this`thisIndex, this`alert
      ensures Valid()
      ensures Peeked(reverse, wrap, old(Snapshot()), Snapshot())
    {
      MoveToNextRegion(wrap);
    }

    /** `_peek_next_selected_dispatch`: move to the next selected reglet without
        touching any selection. */
    method PeekNextSelectedDispatch(wrap: bool)
      requires Valid() && init != NotInit
      modifies this`thisIndex, this`alert
      ensures Valid()
      ensures PeekedSelected(reverse, wrap, old(Snapshot()), Snapshot())
    {
      MoveToNextAddedRegion(wrap);
    }

    /** `_add_this_dispatch`: select the current reglet; "Already Added" if it is. */
    method AddThisDispatch()
      requires Valid() && init != NotInit
      modifies this`selected, this`sel, this`zeroRegion, this`alert
      ensures Valid()
      ensures AddedThis(old(Snapshot()), Snapshot())
    {
      if selected[thisIndex] {
        alert := AlreadyAdded;
        return;
      }
      AddThisRegion();
    }

    /** `_subtract_this_dispatch`: deselect the current reglet, putting it back as
        the zero-region when no reglet is left selected; "Already Subtracted" if it
        was not selected. */
    method SubtractThisDispatch()
      requires Valid() && init != NotInit
      modifies this`selected, this`sel, this`zeroRegion, this`alert
      ensures Valid()
      ensures SubtractedThis(old(Snapshot()), Snapshot())
    {
      if !selected[thisIndex] {
        alert := AlreadySubtracted;
        return;
      }
      SubtractThisRegion();
      PushZeroRegion();
    }

    /** `_single_select_this_dispatch`: clear the whole native selection (even
        regions outside the ring) and select only the current reglet; "Already
        Single Selected" when that is already so. */
    method SingleSelectThisDispatch()
      requires Valid() && init != NotInit
      modifies this`selected, this`sel, this`zeroRegion, this`alert
      ensures Valid()
      ensures SingleSelected(old(Snapshot()), Snapshot())
    {
      OnlyOne(selected, thisIndex);
      if selected[thisIndex] && Count(selected) == 1 {
        alert := AlreadySingleSelected;
        return;
      }
      sel := [];
      selected := Filled(|reglets|, false);
      AddThisRegion();
    }

    /** `_invert_select_this_dispatch`: select every reglet but the current one. It
        does not negate the flags; it sets them all and clears the current one. */
    method InvertSelectThisDispatch()
      requires Valid() && init != NotInit
      modifies this`selected, this`sel, this`zeroRegion, this`alert
      ensures Valid()
      ensures InvertSelected(old(Snapshot()), Snapshot())
    {
      if |reglets| == 1 {
        alert := NoOtherSelections;
        return;
      }
      AllButOne(selected, thisIndex);
      if !selected[thisIndex] && Count(selected) == |reglets| - 1 {
        alert := AlreadyInvertSelected;
        return;
      }
      InvertAllButThis();
    }

    /** The inversion proper of `_invert_select_this_dispatch`, once it is known to
        change something: the placeholder and the current reglet leave the native
        selection and every other reglet joins it. */
    method InvertAllButThis()
      requires Valid() && init != NotInit && |reglets| > 1
      requires !(forall i :: 0 <= i < |reglets| ==> selected[i] == (i != thisIndex))
      modifies this`selected, this`sel, this`zeroRegion
      ensures Valid()
      ensures forall i :: 0 <= i < |selected| ==> selected[i] == (i != thisIndex)
      ensures zeroRegion == None
      ensures Elems(sel) == (Elems(old(sel)) - ZeroSet(old(zeroRegion)) - {ThisRegion()}) +
                            (Elems(reglets) - {ThisRegion()})
      ensures InvertSelected(old(Snapshot()), Snapshot().(alert := old(alert)))
    {
      PopZeroRegion();
      SubtractThisRegion();
      SelectAllButThis();
    }

    /** The tail of `_invert_select_this_dispatch`: every flag set but the current
        one, and the reglets they name added to the native selection. */
    method SelectAllButThis()
      requires |selected| == |reglets| && thisIndex < |reglets|
      requires StrictlySorted(reglets) && StrictlySorted(sel)
      modifies this`selected, this`sel
      ensures |selected| == |reglets|
      ensures forall i :: 0 <= i < |selected| ==> selected[i] == (i != thisIndex)
      ensures StrictlySorted(sel)
      ensures forall i :: 0 <= i < |reglets| && i != thisIndex ==> reglets[i] in sel
      ensures ThisRegion() in sel <==> ThisRegion() in old(sel)
      ensures Elems(sel) == Elems(old(sel)) + (Elems(reglets) - {ThisRegion()})
    {
      selected := Filled(|reglets|, true)[thisIndex := false];
      var regions := Chosen(reglets, selected);
      assert ThisRegion() !in regions;
      assert Elems(regions) == Elems(reglets) - {ThisRegion()} by {
        forall x | x in Elems(reglets) - {ThisRegion()}
          ensures x in regions
        {
          var i :| 0 <= i < |reglets| && reglets[i] == x;
        }
      }
      sel := HostSelection.AddAll(sel, regions);
    }

    /** `_go_first_dispatch`: to index 0, or to the last index when reversing. */
    method GoFirstDispatch()
      requires Valid() && init != NotInit
      modifies this`thisIndex, this`selected, this`sel, this`zeroRegion, this`alert
      ensures Valid()
      ensures thisIndex == (if reverse then |reglets| - 1 else 0)
      ensures old(thisIndex) == thisIndex ==>
                alert == "Already " + (if reverse then "Last" else "First") &&
                selected == old(selected) && sel == old(sel)
      ensures old(thisIndex) != thisIndex ==>
                && alert == old(alert)
                && var dropped := if DropsOld(lastCode) then old(selected)[old(thisIndex) := false]
                                  else old(selected);
                   selected == if SelectsNew(lastCode) then dropped[thisIndex := true] else dropped
      ensures Went(lastCode, thisIndex, if reverse then "Last" else "First", old(Snapshot()), Snapshot())
    {
      var dest := if reverse then |reglets| - 1 else 0;
      var name := if reverse then "Last" else "First";
      ContextAwareGo(dest, name);
    }

    /** `_go_back_dispatch`: to the initial index. */
    method GoBackDispatch()
      requires Valid() && init != NotInit
      requires initIndex.value < |reglets|
      modifies this`thisIndex, this`selected, this`sel, this`zeroRegion, this`alert
      ensures Valid()
      ensures thisIndex == initIndex.value
      ensures old(thisIndex) == thisIndex ==>
                alert == "Already Back" && selected == old(selected) && sel == old(sel)
      ensures old(thisIndex) != thisIndex ==>
                && alert == old(alert)
                && var dropped := if DropsOld(lastCode) then old(selected)[old(thisIndex) := false]
                                  else old(selected);
                   selected == if SelectsNew(lastCode) then dropped[thisIndex := true] else dropped
      ensures Went(lastCode, initIndex.value, "Back", old(Snapshot()), Snapshot())
    {
      ContextAwareGo(initIndex.value, "Back");
    }

    /** `_dispatch`: run the entry of `g_dispatches` for the current code. */
    method Dispatch(wrap: bool)
      requires Valid() && init != NotInit
      requires code == GoBack ==> initIndex.value < |reglets|
      modifies this`thisIndex, this`selected, this`sel, this`zeroRegion, this`alert
      ensures Valid()
      ensures Dispatched(code, lastCode, reverse, wrap, initIndex, old(Snapshot()), Snapshot())
      ensures Settled() == old(Settled())
    {
      match code
      case NoCode =>
      case GotoNext => GotoNextDispatch(wrap);
      case AddNext => AddNextDispatch(wrap);
      case AddAll => AddAllDispatch();
      case PeekNext => PeekNextDispatch(wrap);
      case PeekNextSelected => PeekNextSelectedDispatch(wrap);
      case AddThis => AddThisDispatch();
      case SubtractThis => SubtractThisDispatch();
      case SingleSelectThis => SingleSelectThisDispatch();
      case InvertSelectThis => InvertSelectThisDispatch();
      case GoFirst => GoFirstDispatch();
      case GoBack => GoBackDispatch();
    }

    // --- init ----------------------------------------------------------------

    /** `_set_index`: point the cursor at the reglet `_find_ge` (or, when `strict`,
        `_find_gt`) gives for `reglet`; select it when asked, or when asked only if
        it is `reglet` itself; the first index set is kept as the initial one. */
    method SetIndex(reglet: Reglet, strict: bool, select: bool, compSelect: bool)
      requires reglets != [] && |selected| == |reglets|
      modifies this`thisIndex, this`selected, this`initIndex
      ensures var index := if strict then FindGt(reglets, reglet) else FindGe(reglets, reglet);
              && thisIndex == index
              && selected == (if select || (compSelect && reglet == reglets[index])
                              then old(selected)[index := true] else old(selected))
              && initIndex == (if old(initIndex).None? then Some(index) else old(initIndex))
    {
      var index := if strict then FindGt(reglets, reglet) else FindGe(reglets, reglet);
      thisIndex := index;
      if select || (compSelect && reglet == ThisRegion()) {
        selected := selected[thisIndex := true];
      }
      if initIndex.None? {
        initIndex := Some(index);
      }
    }

    /** The `_set_index` calls that open `_establish_index`: at or after the
        region, then, for a go-next, add-next or peek-next from a non-empty region,
        strictly after it. */
    method PlaceIndex(region: Reglet, point: bool)
      requires reglets != [] && selected == Filled(|reglets|, false)
      modifies this`thisIndex, this`selected, this`initIndex
      ensures var ge, gt := FindGe(reglets, region), FindGt(reglets, region);
              var strict := !point && (code == GotoNext || code == AddNext || code == PeekNext);
              var first := if (point && code == GotoNext) || code == AddNext || code == AddAll ||
                              code == PeekNextSelected || code == AddThis || code == SingleSelectThis ||
                              code == InvertSelectThis || (!point && code == PeekNext && region == reglets[ge])
                           then Filled(|reglets|, false)[ge := true] else Filled(|reglets|, false);
              && thisIndex == (if strict then gt else ge)
              && selected == (if strict && code != PeekNext then first[gt := true] else first)
              && initIndex == (if old(initIndex).None? then Some(ge) else old(initIndex))
      ensures code != AddAll && code != InvertSelectThis && code != GoFirst ==>
                Placed(code, reverse, point, region, reglets, selected, thisIndex)
    {
      var gn, an, aa := code == GotoNext, code == AddNext, code == AddAll;
      var pn, ps, at := code == PeekNext, code == PeekNextSelected, code == AddThis;
      var ss, iv := code == SingleSelectThis, code == InvertSelectThis;
      SetIndex(region, false, (point && gn) || an || aa || ps || at || ss || iv, !point && pn);
      if !point && (gn || an || pn) {
        SetIndex(region, true, gn || an, false);
      }
    }

    /** `_establish_index`: where the cursor starts and which reglets start out
        selected, by code and by whether the user's region was a caret. A
        single-select on a region that is not itself a match, and an
        invert-select on a ring of one, fail. */
    method EstablishIndex(region: Reglet, point: bool) returns (ok: bool)
      requires reglets != [] && selected == Filled(|reglets|, false) && text.Some?
      modifies this`thisIndex, this`selected, this`initIndex, this`alert
      ensures Placed(code, reverse, point, region, reglets, selected, thisIndex)
      ensures initIndex == (if old(initIndex).None? then Some(FindGe(reglets, region)) else old(initIndex))
      ensures ok <==> !IndexRefused(code, region, reglets)
      ensures !ok && code == SingleSelectThis ==> alert == NotInAWholeWord(text.value)
      ensures !ok && code == InvertSelectThis ==> alert == NoOtherMatches
      ensures ok ==> alert == old(alert)
      ensures Aside() == old(Aside())
    {
      PlaceIndex(region, point);
      var aa, ss, iv, gf := code == AddAll, code == SingleSelectThis, code == InvertSelectThis, code == GoFirst;
      if aa {
        selected := Filled(|reglets|, true);
      } else if ss {
        if region != ThisRegion() {
          alert := NotInAWholeWord(text.value);
          return false;
        }
      } else if iv {
        var none := NegateSelected();
        if none {
          alert := NoOtherMatches;
          return false;
        }
      } else if gf {
        thisIndex := if reverse then |reglets| - 1 else 0;
        selected := selected[thisIndex := true];
      }
      if iv {
        assert |reglets| > 1;
      }
      return true;
    }

    /** `_establish_matches`: the host's matches for the query become the ring, none
        selected; an empty result fails and leaves the ring alone. */
    method EstablishMatches(matches: seq<Reglet>) returns (ok: bool)
      modifies this`reglets, this`selected
      ensures ok <==> matches != []
      ensures ok ==> reglets == matches && selected == Filled(|matches|, false)
      ensures !ok ==> reglets == old(reglets) && selected == old(selected)
    {
      if matches == [] {
        return false;
      }
      reglets := matches;
      selected := Filled(|reglets|, false);
      return true;
    }

    /** `_establish_regions`: the native selection becomes the selected reglets plus
        every earlier region of the selection; its last region (the one the session
        was started from) goes unless it is itself selected. */
    method EstablishRegions()
      requires |selected| == |reglets| && StrictlySorted(sel)
      modifies this`sel
      ensures StrictlySorted(sel) && Synced()
      ensures Elems(sel) == Elems(Stashed(old(sel))) + Elems(Chosen(reglets, selected))
    {
      var stashed := Stashed(sel);
      sel := [];
      sel := HostSelection.AddAll(sel, Chosen(reglets, selected));
      sel := HostSelection.AddAll(sel, stashed);
    }

    /** `_basic_init`: start a session from the last region of the native
        selection. An extended session is dropped first (keeping the code); the
        pre-checks all run and the last failing one names the alert; a caret is
        expanded to the word under it; then matches, index and regions are
        established, a peek puts the original region back, and the zero-region is
        pushed when nothing ends up selected. */
    method BasicInit(host: HostAnswers) returns (ok: bool)
      requires Valid() && init != Basic && WellFormed(host)
      modifies this
      ensures Valid()
      ensures code == old(code) && lastTextCmd == old(lastTextCmd)
      ensures ok <==> init == Basic
      ensures ok <==> BasicInitSucceeds(code, old(sel), host)
      ensures alert == AlertAfter(BasicInitAlert(code, old(sel), host), old(BasicEntry()).alert)
      ensures origRegion == (if old(sel) != [] then Some(old(sel)[|old(sel)| - 1]) else old(origRegion))
      ensures text == TextAfter(code, old(sel), host, old(EntryText()))
      ensures initIndex == InitIndexAfter(code, old(sel), host, old(EntryIndex()))
      ensures var dropped := old(sel) != [] && old(init) == Extended;
              && reverse == (if dropped then false else old(reverse))
              && lastCode == (if dropped then NoCode else old(lastCode))
              && notice == (if dropped then "" else old(notice))
              && ruler == (if dropped then "" else old(ruler))
      ensures ok ==> BasicStarted(code, reverse, old(sel), host, Snapshot())
      ensures !ok ==>
                && init == (if old(sel) == [] then old(init) else NotInit)
                && BasicStopped(code, reverse, old(sel), host, old(BasicEntry()), Snapshot())
    {
      if |sel| == 0 {
        alert := NoSelections;
        return false;
      }
      ok := InitNonEmpty(host);
    }

    /** `_basic_init` once there is a selection: an extended session is dropped
        first, keeping the code. */
    method InitNonEmpty(host: HostAnswers) returns (ok: bool)
      requires Valid() && init != Basic && WellFormed(host) && sel != []
      modifies this`init, this`lastCode, this`code, this`text, this`reverse
      modifies this`reglets, this`selected, this`initIndex, this`thisIndex, this`origRegion, this`zeroRegion
      modifies this`alert, this`notice, this`ruler, this`sel
      ensures Valid()
      ensures code == old(code)
      ensures ok <==> init == Basic
      ensures ok <==> BasicInitSucceeds(code, old(sel), host)
      ensures alert == AlertAfter(BasicInitAlert(code, old(sel), host), old(BasicEntry()).alert)
      ensures origRegion == Some(old(sel)[|old(sel)| - 1])
      ensures text == TextAfter(code, old(sel), host, old(EntryText()))
      ensures initIndex == InitIndexAfter(code, old(sel), host, old(EntryIndex()))
      ensures ok ==> BasicStarted(code, reverse, old(sel), host, Snapshot())
      ensures !ok ==> init == NotInit && BasicStopped(code, reverse, old(sel), host, old(BasicEntry()), Snapshot())
      ensures Aside() == if old(init) == Extended then (NoCode, false, "", "") else old(Aside())
    {
      ghost var entry, t0, i0 := BasicEntry(), EntryText(), EntryIndex();
      if init == Extended {
        DropExtended();
      }
      ok := InitFromSelection(host, t0, i0, entry);
    }

    /** `_basic_init` once there is a selection and no extended session: the
        pre-checks on its last region, then the rest. */
    method InitFromSelection(host: HostAnswers, ghost t0: Option<string>, ghost i0: Option<nat>, ghost entry: Snap)
        returns (ok: bool)
      requires Valid() && init == NotInit && WellFormed(host) && sel != []
      requires text == t0 && initIndex == i0 && Snapshot() == entry
      modifies this`sel, this`text, this`reglets, this`selected, this`thisIndex, this`initIndex
      modifies this`alert, this`zeroRegion, this`init, this`origRegion
      ensures Valid()
      ensures ok <==> init == Basic
      ensures ok <==> BasicInitSucceeds(code, entry.sel, host)
      ensures alert == AlertAfter(BasicInitAlert(code, entry.sel, host), entry.alert)
      ensures origRegion == Some(entry.sel[|entry.sel| - 1])
      ensures text == TextAfter(code, entry.sel, host, t0)
      ensures initIndex == InitIndexAfter(code, entry.sel, host, i0)
      ensures ok ==> BasicStarted(code, reverse, entry.sel, host, Snapshot())
      ensures !ok ==> init == NotInit && BasicStopped(code, reverse, entry.sel, host, entry, Snapshot())
      ensures Aside() == old(Aside())
    {
      var region := sel[|sel| - 1];
      ok := Precheck(region);
      if ok {
        ok := BasicEstablish(host, region);
      }
    }

    /** The reset `_basic_init` does on an extended session: everything goes but
        the code. */
    method DropExtended()
      requires StrictlySorted(sel)
      modifies this`init, this`lastCode, this`code, this`text, this`reverse
      modifies this`reglets, this`selected, this`initIndex, this`thisIndex, this`origRegion, this`zeroRegion
      modifies this`alert, this`notice, this`ruler
      ensures Valid() && init == NotInit && code == old(code)
      ensures lastCode == NoCode && text == None && !reverse && reglets == [] && selected == []
      ensures initIndex == None && thisIndex == 0 && origRegion == None && zeroRegion == None
      ensures ruler == "" && alert == "" && notice == ""
      ensures sel == old(sel) && lastTextCmd == old(lastTextCmd)
    {
      var c := code;
      ResetCodes();
      ResetRing();
      ResetStatus();
      code := c;
    }

    /** Record the original region and run the pre-checks. */
    method Precheck(region: Reglet) returns (pass: bool)
      modifies this`origRegion, this`alert
      ensures origRegion == Some(region)
      ensures pass <==> PrecheckAlert(Empty(region), code).None?
      ensures !pass ==> alert == PrecheckAlert(Empty(region), code).value
      ensures pass ==> alert == old(alert)
      ensures Aside() == old(Aside())
    {
      origRegion := Some(region);
      var failure := PrecheckAlert(Empty(region), code);
      if failure.Some? {
        alert := failure.value;
        return false;
      }
      return true;
    }

    /** `_basic_init` from the expansion on, once the pre-checks passed. */
    method BasicEstablish(host: HostAnswers, region: Reglet) returns (ok: bool)
      requires Valid() && init == NotInit && WellFormed(host)
      requires origRegion == Some(region) && sel != [] && region == sel[|sel| - 1]
      requires PrecheckAlert(Empty(region), code).None?
      modifies this`sel, this`text, this`reglets, this`selected, this`thisIndex, this`initIndex
      modifies this`alert, this`zeroRegion, this`init
      ensures Valid()
      ensures ok <==> init == Basic
      ensures ok <==> BasicInitSucceeds(code, old(sel), host)
      ensures alert == AlertAfter(BasicInitAlert(code, old(sel), host), old(alert))
      ensures text == TextAfter(code, old(sel), host, old(text))
      ensures initIndex == InitIndexAfter(code, old(sel), host, old(initIndex))
      ensures ok ==> BasicStarted(code, reverse, old(sel), host, Snapshot())
      ensures !ok ==> init == old(init) && BasicStopped(code, reverse, old(sel), host, old(Snapshot()), Snapshot())
      ensures Aside() == old(Aside())
    {
      InitFollowsQuery(code, sel, host);
      var point := Empty(region);
      var chosen := region;
      if point {
        chosen := ExpandPoint(host);
        if Empty(chosen) {
          return false;
        }
      }
      ok := EstablishFrom(host, chosen, point);
    }

    /** `_basic_init` from the query on: matches for the text under `chosen`, the
        index, the regions and the zero-region. */
    method EstablishFrom(host: HostAnswers, chosen: Reglet, point: bool) returns (ok: bool)
      requires Valid() && init == NotInit && origRegion.Some? && WellFormed(host)
      modifies this`sel, this`text, this`reglets, this`selected, this`thisIndex, this`initIndex
      modifies this`alert, this`zeroRegion, this`init
      ensures Valid()
      ensures ok <==> init == Basic
      ensures text == Some(host.text)
      ensures ok <==> QueryStarts(code, chosen, host)
      ensures alert == AlertAfter(QueryAlert(code, chosen, host), old(alert))
      ensures initIndex == (if host.matches != [] && old(initIndex).None? then Some(FindGe(host.matches, chosen))
                            else old(initIndex))
      ensures ok ==> RingStarted(code, reverse, point, chosen, old(sel), origRegion.value, host.matches, Snapshot())
      ensures !ok ==> init == old(init) && sel == old(sel) && zeroRegion == old(zeroRegion)
      ensures !ok && host.matches != [] ==>
                reglets == host.matches && Placed(code, reverse, point, chosen, reglets, selected, thisIndex)
      ensures host.matches == [] ==>
                reglets == old(reglets) && selected == old(selected) && thisIndex == old(thisIndex)
      ensures Aside() == old(Aside())
    {
      ok := MatchText(host);
      if !ok {
        return false;
      }
      ok := StartRing(chosen, point);
    }

    /** `_basic_init` once the ring holds the matches: the index, then the regions
        and the zero-region. */
    method StartRing(chosen: Reglet, point: bool) returns (ok: bool)
      requires init == NotInit && zeroRegion == None && origRegion.Some? && text.Some?
      requires StrictlySorted(reglets) && StrictlySorted(sel)
      requires reglets != [] && selected == Filled(|reglets|, false)
      modifies this`sel, this`selected, this`thisIndex, this`initIndex, this`alert, this`zeroRegion, this`init
      ensures Valid()
      ensures ok <==> init == Basic
      ensures ok <==> !IndexRefused(code, chosen, reglets)
      ensures !ok && code == SingleSelectThis ==> alert == NotInAWholeWord(text.value)
      ensures !ok && code == InvertSelectThis ==> alert == NoOtherMatches
      ensures ok ==> alert == old(alert)
      ensures initIndex == (if old(initIndex).None? then Some(FindGe(reglets, chosen)) else old(initIndex))
      ensures ok ==> RingStarted(code, reverse, point, chosen, old(sel), origRegion.value, reglets, Snapshot())
      ensures !ok ==>
                && init == old(init) && sel == old(sel) && zeroRegion == old(zeroRegion)
                && Placed(code, reverse, point, chosen, reglets, selected, thisIndex)
      ensures Aside() == old(Aside())
    {
      ok := EstablishIndex(chosen, point);
      if ok {
        FinishBasic();
      }
    }

    /** `expand_selection` to word: the host's answer becomes the native selection,
        and its last region is the one the query is read from. */
    method ExpandPoint(host: HostAnswers) returns (region: Reglet)
      requires WellFormed(host)
      modifies this`sel
      ensures sel == host.expanded && region == sel[|sel| - 1]
      ensures Aside() == old(Aside())
    {
      sel := host.expanded;
      region := sel[|sel| - 1];
    }

    /** The query becomes the text under the region, and its matches the ring; no
        match raises "No Matches Found For ...". */
    method MatchText(host: HostAnswers) returns (ok: bool)
      modifies this`text, this`reglets, this`selected, this`alert
      ensures text == Some(host.text)
      ensures ok <==> host.matches != []
      ensures ok ==> reglets == host.matches && selected == Filled(|reglets|, false) && alert == old(alert)
      ensures !ok ==> reglets == old(reglets) && selected == old(selected) &&
                      alert == NoMatchesFoundFor(host.text)
      ensures Aside() == old(Aside())
    {
      text := Some(host.text);
      ok := EstablishMatches(host.matches);
      if !ok {
        alert := NoMatchesFoundFor(host.text);
      }
    }

    /** The last steps of `_basic_init`: regions, the peek's original region, the
        zero-region, and the session is live. */
    method FinishBasic()
      requires |selected| == |reglets| && reglets != [] && thisIndex < |reglets|
      requires StrictlySorted(reglets) && StrictlySorted(sel) && initIndex.Some?
      requires zeroRegion == None && origRegion.Some? && init == NotInit
      modifies this`sel, this`zeroRegion, this`init
      ensures Valid() && init == Basic
      ensures zeroRegion == (if NoneSelected() then Some(ThisRegion()) else None)
      ensures Elems(sel) == Elems(Stashed(old(sel))) + Elems(Chosen(reglets, selected)) +
                            (if code == PeekNext then {origRegion.value} else {}) + ZeroSet(zeroRegion)
    {
      RegionsForBasic();
      PushZeroRegion();
      init := Basic;
    }

    /** Steps 3 and 4 of `_basic_init`: establish the regions, and put the original
        region back for a peek-next. */
    method RegionsForBasic()
      requires |selected| == |reglets| && StrictlySorted(sel) && origRegion.Some?
      modifies this`sel
      ensures StrictlySorted(sel) && Synced()
      ensures Elems(sel) == Elems(Stashed(old(sel))) + Elems(Chosen(reglets, selected)) +
                            (if code == PeekNext then {origRegion.value} else {})
    {
      EstablishRegions();
      if code == PeekNext {
        AddOriginal();
      }
    }

    /** `view.sel().add(orig_region)`. */
    method AddOriginal()
      requires origRegion.Some? && StrictlySorted(sel)
      modifies this`sel
      ensures StrictlySorted(sel) && origRegion.value in sel
      ensures Elems(sel) == Elems(old(sel)) + {origRegion.value}
      ensures old(Synced()) ==> Synced()
    {
      sel := Add(sel, origRegion.value);
    }

    /** `_extended_init`: the native multi-selection itself becomes the ring, all
        selected, the cursor at its last region (first when reversing) and the
        initial index at the opposite end. */
    method ExtendedInit() returns (ok: bool)
      requires Valid() && init == NotInit
      modifies this`reglets, this`selected, this`thisIndex, this`initIndex, this`init, this`alert
      ensures Valid()
      ensures ok <==> old(sel) != []
      ensures !ok ==> alert == NoSelections && init == NotInit && reglets == old(reglets) &&
                      selected == old(selected) && thisIndex == old(thisIndex) && initIndex == old(initIndex)
      ensures ok ==>
                && init == Extended && reglets == sel && AllSelected()
                && thisIndex == (if reverse then 0 else |reglets| - 1)
                && initIndex == Some(if reverse then |reglets| - 1 else 0)
      ensures ok ==> Snapshot() == ExtendedStart(old(sel), reverse, old(alert))
    {
      if |sel| == 0 {
        alert := NoSelections;
        return false;
      }
      reglets := sel;
      thisIndex := if reverse then 0 else |reglets| - 1;
      initIndex := Some(if reverse then |reglets| - 1 else 0);
      selected := Filled(|reglets|, true);
      init := Extended;
      return true;
    }

    // --- commands ------------------------------------------------------------

    /** `_set_ruler`, the part of `_finalize` that changes the session. */
    method SetRuler()
      requires Valid()
      modifies this`ruler
      ensures Valid() && Snapshot() == old(Snapshot())
      ensures init == NotInit ==> ruler == old(ruler)
      ensures init != NotInit ==> ruler == RulerText(selected, thisIndex)
      ensures init == old(init) && text == old(text) && initIndex == old(initIndex) && origRegion == old(origRegion)
      ensures code == old(code) && lastCode == old(lastCode) && reverse == old(reverse) && notice == old(notice)
      ensures lastTextCmd == old(lastTextCmd) && Settled() == old(Settled())
    {
      if init != NotInit {
        ruler := RulerText(selected, thisIndex);
      }
    }

    /** `ExactQuickFindCommand.run`: the previous code becomes the last code unless
        it was a go-first/last or a go-back; a session not in basic state is
        (re)started, otherwise the code is dispatched; the ruler follows. */
    method RunBasic(newCode: Code, rev: bool, flags: Flags, host: HostAnswers)
      requires Valid() && WellFormed(host)
      requires init == Basic && newCode == GoBack ==> initIndex.value < |reglets|
      modifies this
      ensures Valid()
      ensures code == newCode && lastTextCmd == old(lastTextCmd)
      ensures old(init) == Basic ==>
                && init == Basic && reverse == rev
                && lastCode == (if old(code) == GoFirst || old(code) == GoBack then old(lastCode) else old(code))
                && ruler == RulerText(selected, thisIndex)
                && initIndex == old(initIndex) && text == old(text) && origRegion == old(origRegion)
                && notice == old(notice)
      ensures old(init) != Basic && old(sel) == [] ==> alert == NoSelections && init == old(init)
      ensures old(init) != Basic && newCode == GoBack ==> init != Basic
      ensures old(init) == Basic ==>
                Dispatched(newCode, if old(code) == GoFirst || old(code) == GoBack then old(lastCode) else old(code),
                           rev, flags.wrapScan, old(initIndex), old(Snapshot()), Snapshot())
      ensures old(init) != Basic ==>
                && (init == Basic <==> BasicInitSucceeds(newCode, old(sel), host))
                && alert == AlertAfter(BasicInitAlert(newCode, old(sel), host), old(BasicEntry()).alert)
                && origRegion == (if old(sel) != [] then Some(old(sel)[|old(sel)| - 1]) else old(origRegion))
                && text == TextAfter(newCode, old(sel), host, old(EntryText()))
                && initIndex == InitIndexAfter(newCode, old(sel), host, old(EntryIndex()))
                && (init == Basic ==>
                      BasicStarted(newCode, reverse, old(sel), host, Snapshot()) && ruler == RulerText(selected, thisIndex))
                && (init != Basic ==>
                      && init == (if old(sel) == [] then old(init) else NotInit)
                      && BasicStopped(newCode, reverse, old(sel), host, old(BasicEntry()), Snapshot()))
      ensures old(init) != Basic ==>
                var dropped := old(sel) != [] && old(init) == Extended;
                && reverse == (if dropped then false else rev)
                && lastCode == (if dropped then NoCode
                                else if old(code) == GoFirst || old(code) == GoBack then old(lastCode) else old(code))
                && notice == (if dropped then "" else old(notice))
                && (init != Basic ==> ruler == (if dropped then "" else old(ruler)))
    {
      SetCodes(if code != GoFirst && code != GoBack then code else lastCode, newCode, rev);
      BasicStep(flags.wrapScan, host);
    }

    /** What `ExactQuickFindCommand.run` does once the codes are recorded: (re)start
        a session not in basic state, otherwise dispatch; the ruler follows. */
    method BasicStep(wrap: bool, host: HostAnswers)
      requires Valid() && WellFormed(host)
      requires init == Basic && code == GoBack ==> initIndex.value < |reglets|
      modifies this
      ensures Valid()
      ensures code == old(code) && lastTextCmd == old(lastTextCmd)
      ensures old(init) == Basic ==>
                && init == Basic && reverse == old(reverse) && lastCode == old(lastCode)
                && ruler == RulerText(selected, thisIndex)
                && text == old(text) && origRegion == old(origRegion) && notice == old(notice)
      ensures old(init) != Basic && old(sel) == [] ==> alert == NoSelections && init == old(init)
      ensures old(init) != Basic && code == GoBack ==> init != Basic
      ensures old(init) == Basic ==>
                initIndex == old(initIndex) &&
                Dispatched(code, lastCode, reverse, wrap, initIndex, old(Snapshot()), Snapshot())
      ensures old(init) != Basic ==>
                && (init == Basic <==> BasicInitSucceeds(code, old(sel), host))
                && alert == AlertAfter(BasicInitAlert(code, old(sel), host), old(BasicEntry()).alert)
                && origRegion == (if old(sel) != [] then Some(old(sel)[|old(sel)| - 1]) else old(origRegion))
                && text == TextAfter(code, old(sel), host, old(EntryText()))
                && initIndex == InitIndexAfter(code, old(sel), host, old(EntryIndex()))
                && (init == Basic ==>
                      BasicStarted(code, reverse, old(sel), host, Snapshot()) && ruler == RulerText(selected, thisIndex))
                && (init != Basic ==>
                      && init == (if old(sel) == [] then old(init) else NotInit)
                      && BasicStopped(code, reverse, old(sel), host, old(BasicEntry()), Snapshot()))
      ensures old(init) != Basic ==>
                var dropped := old(sel) != [] && old(init) == Extended;
                && reverse == (if dropped then false else old(reverse))
                && lastCode == (if dropped then NoCode else old(lastCode))
                && notice == (if dropped then "" else old(notice))
                && (init != Basic ==> ruler == (if dropped then "" else old(ruler)))
    {
      if init != Basic {
        StartBasic(host);
      } else {
        DispatchAndRule(wrap);
      }
    }

    /** A basic command on a session not in basic state: `_basic_init`, then the
        ruler when it succeeds. */
    method StartBasic(host: HostAnswers)
      requires Valid() && init != Basic && WellFormed(host)
      modifies this
      ensures Valid()
      ensures code == old(code) && lastTextCmd == old(lastTextCmd)
      ensures old(sel) == [] ==> alert == NoSelections && init == old(init)
      ensures code == GoBack ==> init != Basic
      ensures && (init == Basic <==> BasicInitSucceeds(code, old(sel), host))
              && alert == AlertAfter(BasicInitAlert(code, old(sel), host), old(BasicEntry()).alert)
              && origRegion == (if old(sel) != [] then Some(old(sel)[|old(sel)| - 1]) else old(origRegion))
              && text == TextAfter(code, old(sel), host, old(EntryText()))
              && initIndex == InitIndexAfter(code, old(sel), host, old(EntryIndex()))
              && (init == Basic ==>
                    BasicStarted(code, reverse, old(sel), host, Snapshot()) && ruler == RulerText(selected, thisIndex))
              && (init != Basic ==>
                    && init == (if old(sel) == [] then old(init) else NotInit)
                    && BasicStopped(code, reverse, old(sel), host, old(BasicEntry()), Snapshot()))
      ensures var dropped := old(sel) != [] && old(init) == Extended;
              && reverse == (if dropped then false else old(reverse))
              && lastCode == (if dropped then NoCode else old(lastCode))
              && notice == (if dropped then "" else old(notice))
              && (init != Basic ==> ruler == (if dropped then "" else old(ruler)))
    {
      var ok := BasicInit(host);
      if ok {
        SetRuler();
      }
    }

    /** `ExtendedExactQuickFindCommand.run`: the previous code always becomes the
        last code; an uninitialised session takes the native selection as its
        ring; the code is dispatched and the ruler follows. */
    method RunExtended(newCode: Code, rev: bool, flags: Flags)
      requires Valid()
      requires init != NotInit && newCode == GoBack ==> initIndex.value < |reglets|
      modifies this`lastCode, this`code, this`reverse, this`init, this`reglets, this`selected
      modifies this`thisIndex, this`initIndex, this`sel, this`zeroRegion, this`alert, this`ruler
      ensures Valid()
      ensures lastCode == old(code) && code == newCode && reverse == rev
      ensures old(init) == NotInit && old(sel) == [] ==>
                && init == NotInit && Snapshot() == old(Snapshot()).(alert := NoSelections)
                && initIndex == old(initIndex) && ruler == old(ruler)
      ensures old(init) != NotInit || old(sel) != [] ==>
                init != NotInit && ruler == RulerText(selected, thisIndex)
      ensures old(init) != NotInit ==> init == old(init)
      ensures old(init) != NotInit || old(sel) != [] ==>
                && initIndex == (if old(init) == NotInit then Some(if rev then |old(sel)| - 1 else 0) else old(initIndex))
                && Dispatched(code, lastCode, reverse, flags.wrapScan, initIndex, old(ExtendedEntry(rev)), Snapshot())
    {
      SetCodes(code, newCode, rev);
      ExtendedStep(flags.wrapScan);
    }

    /** The code bookkeeping at the head of both commands. */
    method SetCodes(last: Code, newCode: Code, rev: bool)
      modifies this`lastCode, this`code, this`reverse
      ensures lastCode == last && code == newCode && reverse == rev
      ensures old(Valid()) ==> Valid()
      ensures Snapshot() == old(Snapshot())
      ensures init == old(init) && initIndex == old(initIndex) && sel == old(sel) && alert == old(alert)
      ensures text == old(text) && origRegion == old(origRegion) && notice == old(notice) && ruler == old(ruler)
      ensures lastTextCmd == old(lastTextCmd)
      ensures BasicEntry() == old(BasicEntry()) && EntryText() == old(EntryText()) && EntryIndex() == old(EntryIndex())
    {
      lastCode, code, reverse := last, newCode, rev;
    }

    method ExtendedStep(wrap: bool)
      requires Valid()
      requires init != NotInit && code == GoBack ==> initIndex.value < |reglets|
      modifies this`init, this`reglets, this`selected
      modifies this`thisIndex, this`initIndex, this`sel, this`zeroRegion, this`alert, this`ruler
      ensures Valid()
      ensures code == old(code) && lastCode == old(lastCode) && reverse == old(reverse)
      ensures old(init) == NotInit && old(sel) == [] ==>
                && init == NotInit && Snapshot() == old(Snapshot()).(alert := NoSelections)
                && initIndex == old(initIndex) && ruler == old(ruler)
      ensures old(init) != NotInit || old(sel) != [] ==>
                init != NotInit && ruler == RulerText(selected, thisIndex)
      ensures old(init) != NotInit ==> init == old(init)
      ensures old(init) != NotInit || old(sel) != [] ==>
                && initIndex == (if old(init) == NotInit then Some(if reverse then |old(sel)| - 1 else 0) else old(initIndex))
                && Dispatched(code, lastCode, reverse, wrap, initIndex, old(ExtendedEntry(reverse)), Snapshot())
    {
      if init == NotInit {
        StartExtended(wrap);
      } else {
        DispatchAndRule(wrap);
      }
    }

    /** An uninitialised extended session takes the native selection as its ring,
        then dispatches the code. */
    method StartExtended(wrap: bool)
      requires Valid() && init == NotInit
      modifies this`init, this`reglets, this`selected
      modifies this`thisIndex, this`initIndex, this`sel, this`zeroRegion, this`alert, this`ruler
      ensures Valid()
      ensures old(sel) == [] ==>
                && init == NotInit && Snapshot() == old(Snapshot()).(alert := NoSelections)
                && initIndex == old(initIndex) && ruler == old(ruler)
      ensures old(sel) != [] ==>
                && init == Extended && ruler == RulerText(selected, thisIndex)
                && initIndex == Some(if reverse then |old(sel)| - 1 else 0)
                && Dispatched(code, lastCode, reverse, wrap, initIndex,
                              ExtendedStart(old(sel), reverse, old(alert)), Snapshot())
    {
      var ok := ExtendedInit();
      if ok {
        DispatchAndRule(wrap);
      }
    }

    /** The tail both commands share once a session is live: dispatch the code,
        then set the ruler from where the cursor ended. */
    method DispatchAndRule(wrap: bool)
      requires Valid() && init != NotInit
      requires code == GoBack ==> initIndex.value < |reglets|
      modifies this`thisIndex, this`selected, this`sel, this`zeroRegion, this`alert, this`ruler
      ensures Valid()
      ensures ruler == RulerText(selected, thisIndex)
      ensures Dispatched(code, lastCode, reverse, wrap, initIndex, old(Snapshot()), Snapshot())
      ensures Settled() == old(Settled())
    {
      Dispatch(wrap);
      SetRuler();
    }

    /** `ExactQuickFindToggleCaseSensitiveCommand.run`: flip case sensitivity and
        drop the session, whose matches depended on it. */
    method ToggleCaseSensitive(flags: Flags) returns (after: Flags)
      requires StrictlySorted(sel)
      modifies this
      ensures after == flags.(caseSensitive := !flags.caseSensitive)
      ensures Valid() && Cleared() && sel == old(sel) && lastTextCmd == old(lastTextCmd)
      ensures notice == (if after.caseSensitive then "Case Sensitive" else "Case Insensitive")
    {
      after := flags.(caseSensitive := !flags.caseSensitive);
      Reset();
      notice := if after.caseSensitive then "Case Sensitive" else "Case Insensitive";
    }

    /** `ExactQuickFindToggleWholeWordCommand.run`: flip whole-word matching and drop
        the session. */
    method ToggleWholeWord(flags: Flags) returns (after: Flags)
      requires StrictlySorted(sel)
      modifies this
      ensures after == flags.(wholeWord := !flags.wholeWord)
      ensures Valid() && Cleared() && sel == old(sel) && lastTextCmd == old(lastTextCmd)
      ensures notice == (if after.wholeWord then "Whole Word" else "No Whole Word")
    {
      after := flags.(wholeWord := !flags.wholeWord);
      Reset();
      notice := if after.wholeWord then "Whole Word" else "No Whole Word";
    }

    /** `ExactQuickFindToggleWrapScanCommand.run`: flip wrap-around; the session is
        kept, only the notice changes. */
    method ToggleWrapScan(flags: Flags) returns (after: Flags)
      modifies this`notice
      ensures after == flags.(wrapScan := !flags.wrapScan)
      ensures notice == (if after.wrapScan then "Wrap Scan" else "No Wrap Scan")
    {
      after := flags.(wrapScan := !flags.wrapScan);
      notice := if after.wrapScan then "Wrap Scan" else "No Wrap Scan";
    }

    /** `ExactQuickFindFlipFindFlagsCommand.run`: flip the flags the settings name;
        the session is dropped when case or whole-word was flipped. */
    method FlipFindFlags(flags: Flags, flipCase: bool, flipWord: bool, flipWrap: bool) returns (after: Flags)
      requires Valid()
      modifies this
      ensures after == Flags(flags.caseSensitive != flipCase, flags.wholeWord != flipWord,
                             flags.wrapScan != flipWrap)
      ensures Valid() && sel == old(sel) && lastTextCmd == old(lastTextCmd)
      ensures flipCase || flipWord ==> Cleared()
      ensures !(flipCase || flipWord) ==>
                && init == old(init) && code == old(code) && lastCode == old(lastCode)
                && text == old(text) && reverse == old(reverse) && reglets == old(reglets)
                && selected == old(selected) && initIndex == old(initIndex) && thisIndex == old(thisIndex)
                && origRegion == old(origRegion) && zeroRegion == old(zeroRegion)
                && ruler == old(ruler) && alert == old(alert)
      ensures notice == "Flip Find Flags"
    {
      after := flags;
      var doReset := false;
      if flipCase {
        after := after.(caseSensitive := !after.caseSensitive);
        doReset := true;
      }
      if flipWord {
        after := after.(wholeWord := !after.wholeWord);
        doReset := true;
      }
      if flipWrap {
        after := after.(wrapScan := !after.wrapScan);
      }
      if doReset {
        Reset();
      }
      notice := "Flip Find Flags";
    }

    // --- listener ------------------------------------------------------------

    /** `on_post_text_command`: after one of this plugin's own commands the status is
        published and the alert and notice cleared; any other text command (which
        may have moved the selection to `hostSel`) drops the session and the ruler.
        Either way the command's name is remembered. */
    method OnPostTextCommand(cmd: string, hostSel: seq<Reglet>)
      requires Valid() && StrictlySorted(hostSel)
      modifies this
      ensures Valid() && lastTextCmd == cmd
      ensures OwnCommand(cmd) ==>
                && alert == "" && notice == "" && sel == old(sel)
                && init == old(init) && code == old(code) && lastCode == old(lastCode)
                && reglets == old(reglets) && selected == old(selected)
                && thisIndex == old(thisIndex) && initIndex == old(initIndex)
                && zeroRegion == old(zeroRegion) && ruler == old(ruler)
                && text == old(text) && reverse == old(reverse) && origRegion == old(origRegion)
      ensures !OwnCommand(cmd) ==> IsReset() && sel == hostSel
    {
      if OwnCommand(cmd) {
        alert, notice := "", "";
      } else {
        sel := hostSel;
        Reset();
      }
      lastTextCmd := cmd;
    }

    /** `on_modified`: an edit of the buffer clears the alert, the notice and the
        ruler; the session itself is kept. */
    method OnModified()
      modifies this`alert, this`notice, this`ruler
      ensures alert == "" && notice == "" && ruler == ""
    {
      ResetStatus();
    }
  }

  /** Whether a text command is one of this plugin's (its name starts with
      "exact_quick_find"). */
  predicate OwnCommand(cmd: string)
  {
    |cmd| >= 16 && cmd[..16] == "exact_quick_find"
  }
}
