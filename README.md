# Exact Quick Find — the match-ring session engine

Exact Quick Find is a Sublime Text plugin. It finds every exact occurrence of
the word under the caret, or of the selected text, and lets the user walk
them as a ring: go to the next or previous one, add it to the native
multi-selection, peek at it without selecting it, subtract it, select only
it, select all but it, jump to the first or last one, or go back to where
the walk started. This project models the engine behind those commands in
`exact_quick_find.py` and proves what each command does to the ring, the
cursor, the selected flags and the view's native selection.

The model has seven modules, one concept per module:

- `Wrappers` holds the `Option` type.
- `Spans` models reglets, the `(begin, end)` pairs the plugin stores for
  regions. It defines their tuple order, sortedness, and bisection. It
  proves that `_find_ge` and `_find_gt` return the leftmost reglet at or
  after (strictly after) a query, wrapping to 0 past the end.
- `Ring` models the bounded and wrapping cursors `_bounded_next` and
  `_wrapped_next`. It also defines `Walk`, which iterates a cursor k
  times. It proves range, end-of-travel and periodicity facts, and that
  any index ahead of the cursor is reached within n steps.
- `HostSelection` models the view's native selection. It is an ordered
  sequence of distinct reglets, with `add`, `subtract` and `add_all`, and
  `Chosen`, the reglets whose flags are set.
- `Text` models the decimal rendering of numbers (with a round trip and
  injectivity), `_abridge`, the ASCII upper and lower case used for the
  wrap glyph, and the alert texts.
- `Status` models `num_selected` (`Count`), `_get_selected_rank`, the
  ruler `_set_ruler` writes, `_get_flags` and the `status` line.
- `Session` models the `ExactQuickFind` class, with its fields updated in
  place, and all of the following as methods:
  - `_reset_eqf` and the init helpers;
  - `_basic_init` and `_extended_init`;
  - the twelve dispatches of `g_dispatches` and their selection helpers;
  - the `run` bodies of the two find commands and of the four flag
    commands;
  - the listener's `on_modified` and `on_post_text_command`.

  The class invariant `Valid()` holds throughout:
  - there is one flag per reglet;
  - ring and native selection are ordered;
  - the cursor is in range;
  - once initialised, every selected reglet is in the native selection;
  - a zero-region placeholder stands there only while nothing is selected.

  The commands are specified by functions and predicates on values:
  - `Snap` is the part of a session a dispatch reads and changes: the ring,
    its flags, the cursor, the native selection, the zero-region and the
    alert.
  - Each entry of `g_dispatches` has a predicate relating the `Snap`
    before it to the one after: `WentToNext`, `AddedNext`, `AddedAll`,
    `Peeked`, `PeekedSelected`, `AddedThis`, `SubtractedThis`,
    `SingleSelected`, `InvertSelected` and `Went`. `Dispatched` picks the
    one for a code.
  - A basic init is specified by three things. `BasicInitSucceeds` says
    when it succeeds. `BasicInitAlert` gives the alert it raises.
    `BasicStarted` describes the session it leaves: the cursor and flags
    `_establish_index` sets (`Placed`), the zero-region, and the native
    selection's exact members. `BasicStopped` describes the session a
    failed init leaves: the native selection is kept, or replaced by the
    word a caret expands to; the ring is kept unless the query matched, in
    which case it holds the matches with the flags and cursor
    `_establish_index` set before refusing. `TextAfter` and
    `InitIndexAfter` give the query text and the initial index after an
    init, whether it succeeds or not. `BasicEntry`, `EntryText` and
    `EntryIndex` are the session the init works from: what is left of a
    dropped extended session, or the session as it stands. `Aside` groups
    the fields a running init does not touch: the last code, the
    direction, the notice and the ruler. `Settled` groups the fields a
    dispatch never writes: the lifecycle, the query text, the initial
    index, the original region, both codes, the direction and the notice.
  - An extended init is specified by `ExtendedStart`.

Inputs from outside the session are passed in as values:
- the host's answers during a basic init (`HostAnswers`): the selection
  after `expand_selection`, the text under it, and the matches `find_all`
  returns;
- the process-wide find flags (`Flags`);
- the settings that choose flag glyphs and which flags are flipped;
- the selection a foreign text command leaves behind.

Where the documented behaviour and the code disagree, the model follows
the code:
- `on_modified` clears only the alert, the notice and the ruler. The
  session itself is kept, not reset.
- Invert-select does not negate the flags. It sets every flag and then
  clears the current one, so the result is "all but this".
- Go-first, go-last and go-back drop the old region only after no code or
  a go-next, not after a peek.
- A reset sets `reverse` to false where the code sets `None`. Both are
  false-y, and every command sets `reverse` before reading it.
- When a basic command meets an extended session, `_basic_init` resets it
  with `_reset_eqf` and keeps only the code. So the direction the command
  just set is lost, and that init runs forward. `BasicInit` states this
  as written: `reverse` ends false after the drop.

## Model

| member | source | states |
|---|---|---|
| Spans.BisectLeftSplits | exact_quick_find.py:213-215 | bisect_left splits a sorted list into the reglets below the query and those at or above it |
| Spans.BisectRightSplits | exact_quick_find.py:218-220 | bisect_right splits a sorted list into the reglets at or below the query and those above it |
| Spans.FindGe | exact_quick_find.py:213-215 | the index is in the ring when the ring is non-empty, 0 otherwise |
| Spans.FindGt | exact_quick_find.py:218-220 | the index is in the ring when the ring is non-empty, 0 otherwise |
| Spans.FindGeLeftmost | exact_quick_find.py:213-215 | `_find_ge` gives the leftmost reglet at or after the query; everything before it is smaller; past the end it wraps to 0 |
| Spans.FindGtLeftmost | exact_quick_find.py:218-220 | `_find_gt` gives the leftmost reglet strictly after the query; everything before it is at or below it; past the end it wraps to 0 |
| Spans.StrictlySortedIsSorted | exact_quick_find.py:255-257 | the host's ordered, non-overlapping regions are sorted in the sense bisect needs |
| Spans.StrictlySortedDistinct | exact_quick_find.py:255-257 | two positions of an ordered ring hold the same reglet exactly when they are the same position |
| Ring.BoundedNext | exact_quick_find.py:223-233 | stays in the ring; stands still exactly at the end of travel (0 in reverse, n-1 forward); otherwise moves one step |
| Ring.WrappedNext | exact_quick_find.py:236-246 | stays in the ring; always moves on a ring of more than one; wraps n-1 to 0 forward and 0 to n-1 in reverse; otherwise moves one step |
| Ring.Next | exact_quick_find.py:418-421 | the cursor `_to_next_region` picks by the wrap flag stays in the ring |
| Ring.WalkInRing | exact_quick_find.py:418-421 | any number of steps from an index in the ring stays in the ring |
| Ring.WalkCompose | exact_quick_find.py:418-421 | a steps followed by b steps are a+b steps |
| Ring.WrappedWalk | exact_quick_find.py:236-246 | up to n wrapping steps land on i ± k, crossing the end at most once |
| Ring.WrappedWalkReturns | exact_quick_find.py:236-246 | n wrapping steps return to the start |
| Ring.WrappedWalkPeriodic | exact_quick_find.py:236-246 | wrapping walks repeat with period n |
| Ring.BoundedWalk | exact_quick_find.py:223-233 | k bounded steps land on i ± k clamped to the ends |
| Ring.StepsTo | exact_quick_find.py:467-470 | an index ahead (any index when wrapping) is at most n steps away |
| Ring.StepsToReaches | exact_quick_find.py:467-470 | walking that many steps reaches the index, so the `while True` loops end |
| HostSelection.Add | exact_quick_find.py:702-705 | `sel().add`: the selection gains exactly the region and stays ordered |
| HostSelection.Subtract | exact_quick_find.py:708-710 | `sel().subtract`: the selection loses exactly the region, stays ordered, and is unchanged when the region was absent |
| HostSelection.AddAll | exact_quick_find.py:598-602 | `sel().add_all`: the selection gains exactly the given regions and stays ordered |
| HostSelection.Chosen | exact_quick_find.py:592-595 | the regions `_add_selected_regions` adds are exactly the reglets whose flag is set |
| HostSelection.ConsSorted | exact_quick_find.py:255-257 | a reglet below every element of an ordered list can head it |
| HostSelection.ConsSortedWhen | exact_quick_find.py:255-257 | rebuilding an ordered list's tail from its own elements and larger ones keeps it ordered |
| HostSelection.PrependSorted | exact_quick_find.py:255-257 | a reglet below an ordered list's head can head it |
| HostSelection.HeadNotInTail | exact_quick_find.py:255-257 | the head of an ordered list does not occur in its tail |
| Text.Digit | exact_quick_find.py:915 | a digit below ten renders as the matching character |
| Text.Decimal | exact_quick_find.py:915-919 | `"{}".format(n)` yields digits without a leading zero |
| Text.DecimalRoundTrip | exact_quick_find.py:915-919 | reading back the rendered digits gives the number |
| Text.DecimalInjective | exact_quick_find.py:915-919 | distinct numbers render differently |
| Text.AbridgeHalf | exact_quick_find.py:209 | the kept half leaves room for both halves and the " .. " within the limit, wasting at most one character; it is 0 below six |
| Text.Abridge | exact_quick_find.py:205-210 | short texts are kept; long ones become head + " .. " + tail of the computed half (just " .. " + text when the half is 0, since `s[-0:]` is the whole text) |
| Text.Upper | exact_quick_find.py:199 | same length; each lower-case ASCII letter becomes its upper-case partner and every other character is kept, so no lower-case letter is left |
| Text.Lower | exact_quick_find.py:199 | same length; each upper-case ASCII letter becomes its lower-case partner and every other character is kept, so no upper-case letter is left |
| Text.CaseGlyphsDiffer | exact_quick_find.py:199 | a glyph name with a letter has different upper- and lower-case forms, so an on flag and an off flag never look alike |
| Text.AlreadyAddedAll | exact_quick_find.py:751-753 | exactly "Already Added All " + the count in decimal + " Match", with "es" exactly when the count is above one |
| Text.AlreadyAddedAllInjective | exact_quick_find.py:751-753 | distinct counts give distinct "Already Added All" alerts |
| Status.Count | exact_quick_find.py:364-366 | `num_selected` is at most the ring size; it equals the size exactly when all are selected and is 0 exactly when none are |
| Status.CountAppend | exact_quick_find.py:904-907 | counts add over concatenation |
| Status.CountUpdate | exact_quick_find.py:364-366 | setting one flag changes the count by the flag's change |
| Status.AllButOne | exact_quick_find.py:806 | "this unselected and size-1 selected" holds exactly when every other flag is set and this one is not |
| Status.OnlyOne | exact_quick_find.py:789 | "this selected and one selected" holds exactly when this is the only flag set |
| Status.SelectedRank | exact_quick_find.py:904-907 | the rank is one more than the selected flags before the cursor; the total is the selected count; a selected cursor has a rank between 1 and the total |
| Status.RulerText | exact_quick_find.py:910-919 | exactly "Region i/n" with the 1-based cursor and the ring size, followed by " (Selection j/m)" with the rank and the selected count exactly when the current match is selected and more than one is |
| Status.RulerTextShape | exact_quick_find.py:910-919 | the ruler starts "Region " and ends with ")" exactly when the selection suffix is shown |
| Status.Glyph | exact_quick_find.py:196-199 | an on flag shows its upper-case name; an off flag shows its lower-case name, after "~" when tildes are shown |
| Status.FlagsText | exact_quick_find.py:185-200 | exactly the three bracketed glyphs: case and whole-word in that order, and the wrap glyph first at position 1, second at position 2 and last otherwise |
| Status.FlagsTextShowsCase | exact_quick_find.py:185-200 | the flags text for case-sensitive differs from the one for case-insensitive, all else equal |
| Status.FlagsTextShowsWholeWord | exact_quick_find.py:185-200 | the flags text for whole-word differs from the one without, all else equal |
| Status.StatusLine | exact_quick_find.py:368-379 | exactly the shown, non-empty alert and " ! ", then the flags, then " @ " and a non-empty ruler, then " : " and the shown, non-empty notice |
| Status.StatusLineOpens | exact_quick_find.py:368-379 | the line starts with the shown alert, " ! " and the flags, or with the flags when no alert is shown |
| Status.StatusLineCloses | exact_quick_find.py:368-379 | the line ends with " : " and the shown notice, or else with " @ " and the ruler when there is one |
| Session.CodeNumber | exact_quick_find.py:58-70 | every code is one of the twelve table positions |
| Session.CodeOf | exact_quick_find.py:830-847 | `g_dispatches[k]` names a dispatch exactly when -12 <= k < 12; a position from 0 up names the code with that number, and a negative one counts from the end, so -1 names go-back |
| Session.CodeRoundTrip | exact_quick_find.py:58-70 | every code is found again at its own position |
| Session.CodeFromEnd | exact_quick_find.py:830-847 | a code sits at exactly two positions of the table: its number and its number minus 12 |
| Session.Filled | exact_quick_find.py:521 | `[b] * n` has n entries, all b |
| Session.PrecheckAlert | exact_quick_find.py:631-636 | the pre-checks pass exactly when it is not a peek-selected or subtract on a caret and not a go-back; a go-back always fails with "Can't Go Back" (the last failing check names the alert) |
| Session.FirstHitMoves | exact_quick_find.py:497-504 | the search for the next selected reglet returns to the start only when no other reachable reglet is selected |
| Session.DispatchSelectsCursor | exact_quick_find.py:739-797 | after a go-next, add-next, add-all, add-this or single-select dispatch, the reglet under the cursor is selected |
| Session.DispatchDeselectsCursor | exact_quick_find.py:779-815 | after a subtract, or an invert-select over more than one match, the reglet under the cursor is not selected |
| Session.PeeksSelectNothing | exact_quick_find.py:762-767 | peek dispatches leave the flags, the native selection and the zero-region as they were |
| Session.Stashed | exact_quick_find.py:599 | `sel()[:-1]`: a non-empty selection is its result followed by its last region; the empty one gives nothing |
| Session.QueryAlert | exact_quick_find.py:643-652 | the alert is absent exactly when the query has matches and `_establish_index` does not refuse |
| Session.BasicInitAlert | exact_quick_find.py:614-652 | no alert when the init succeeds; when there is a selection and no alert, no pre-check failed |
| Session.RefusedAtIndex | exact_quick_find.py:525-533 | an init that gets to `_establish_index` and still fails was a single-select off a whole word or an invert-select of a lone match, with that alert; it leaves an initial index into the refused ring, and a single-select leaves the cursor's reglet flagged, an invert-select no flag |
| Session.PrecheckFailureKeeps | exact_quick_find.py:628-636 | when a pre-check fails, the native selection, the ring, the flags, the cursor and the zero-region are as they were |
| Session.StartSelectsCursor | exact_quick_find.py:543-589 | a basic init with a code that selects its start reglet (all but no-code, peek-next, subtract, invert-select and go-back) leaves that reglet selected, in the native selection, and no zero-region |
| Session.ExtendedStart | exact_quick_find.py:673-677 | the ring and the native selection are the selection, every reglet is selected, there is no zero-region, and the cursor is on the ring |
| Session.ExactQuickFind.constructor | exact_quick_find.py:321-324 | a new session is in the reset state over the view's selection |
| Session.ExactQuickFind.Reset | exact_quick_find.py:302-318 | every field is cleared; the last text command and the native selection are kept; the invariant holds |
| Session.ExactQuickFind.ResetCodes | exact_quick_find.py:303-309 | lifecycle, codes, query and direction are cleared |
| Session.ExactQuickFind.ResetRing | exact_quick_find.py:310-315 | ring, flags, indices and remembered regions are cleared |
| Session.ExactQuickFind.ResetStatus | exact_quick_find.py:413-415 | alert, notice and ruler are cleared |
| Session.ExactQuickFind.ToNextRegion | exact_quick_find.py:418-421 | the cursor takes one wrapping or bounded step and stays in the ring |
| Session.ExactQuickFind.MoveToNextRegion | exact_quick_find.py:424-440 | one step; the alert is "No Other Matches", "First Match" or "Last Match" as the source picks; the cursor stays put exactly when an alert is raised |
| Session.ExactQuickFind.HasNext | exact_quick_find.py:443-485 | true exactly when wrapping or some index ahead has the wanted flag; otherwise the matching "No Matches/Selections Above/Below" alert |
| Session.ExactQuickFind.SeekFlag | exact_quick_find.py:467-500 | the loop ends on the first index along the walk with the wanted flag |
| Session.ExactQuickFind.MoveToNextRegionToAdd | exact_quick_find.py:458-470 | "Already Added All" when all are selected; the above/below alert when none is ahead; otherwise the first unselected reglet along the walk |
| Session.ExactQuickFind.MoveToNextAddedRegion | exact_quick_find.py:488-504 | "No Selections" when none is selected; the above/below alert when none is ahead; otherwise the first selected reglet along the walk, with "No Other Selections" exactly when that is the start |
| Session.ExactQuickFind.PushZeroRegion | exact_quick_find.py:684-690 | with nothing selected the current reglet becomes the zero-region and joins the native selection; otherwise nothing changes; order and invariant parts are kept |
| Session.ExactQuickFind.PopZeroRegion | exact_quick_find.py:693-699 | the zero-region, if any, leaves the native selection and is forgotten |
| Session.ExactQuickFind.AddThisRegion | exact_quick_find.py:702-705 | pop the zero-region, add the current reglet to the native selection and set its flag |
| Session.ExactQuickFind.SubtractThisRegion | exact_quick_find.py:708-710 | the current reglet leaves the native selection and its flag is cleared; the invariant's sync part is kept |
| Session.ExactQuickFind.ContextAwareGo | exact_quick_find.py:718-730 | `Went`: "Already <name>" and no other change at the destination; otherwise the cursor jumps, the old flag is cleared and the old reglet subtracted after no code or a go-next, and the new reglet selected and added after no code, a go-next, an add or a subtract |
| Session.ExactQuickFind.ReselectAt | exact_quick_find.py:725-730 | the exact flags and native selection after an optional subtract, the jump and the add |
| Session.ExactQuickFind.NegateSelected | exact_quick_find.py:580-581 | every flag is negated; the result says whether none is left selected |
| Session.ExactQuickFind.GotoNextDispatch | exact_quick_find.py:739-742 | `WentToNext`: the cursor takes one step and stays exactly when the step raises its alert; the old flag is cleared and the new one set; the native selection loses the old reglet and the zero-region and gains the new one |
| Session.ExactQuickFind.AddNextDispatch | exact_quick_find.py:745-747 | `AddedNext`: "Already Added All N" and no move when all are selected; the above/below alert and no move when no unselected reglet is ahead; otherwise the first unselected reglet along the walk; the reglet it ends on is selected and joins the native selection in place of the zero-region |
| Session.ExactQuickFind.AddAllDispatch | exact_quick_find.py:750-759 | `AddedAll`: every flag ends set; "Already Added All N" changes nothing else when that held; otherwise the zero-region goes and every reglet joins the native selection |
| Session.ExactQuickFind.SelectAll | exact_quick_find.py:757-759 | every flag is set, the zero-region goes, and the native selection gains every reglet |
| Session.ExactQuickFind.PeekNextDispatch | exact_quick_find.py:762-763 | `Peeked`: the cursor takes one step with its alert, staying exactly when an alert is raised; nothing else changes |
| Session.ExactQuickFind.PeekNextSelectedDispatch | exact_quick_find.py:766-767 | `PeekedSelected`: "No Selections" when none is selected; the above/below alert when none is ahead; otherwise the first selected reglet along the walk, with "No Other Selections" exactly when that is the start; no flag or native selection changes |
| Session.ExactQuickFind.AddThisDispatch | exact_quick_find.py:770-776 | `AddedThis`: "Already Added" changes nothing else when selected; otherwise the current flag is set and the reglet joins the native selection in place of the zero-region |
| Session.ExactQuickFind.SubtractThisDispatch | exact_quick_find.py:779-785 | `SubtractedThis`: "Already Subtracted" changes nothing else when unselected; otherwise the flag is cleared and the reglet leaves the native selection, unless nothing else is selected, when it stays as the zero-region |
| Session.ExactQuickFind.SingleSelectThisDispatch | exact_quick_find.py:788-797 | `SingleSelected`: "Already Single Selected" changes nothing else when it is the only one selected; otherwise exactly the current flag is set and the native selection is exactly the current reglet |
| Session.ExactQuickFind.InvertSelectThisDispatch | exact_quick_find.py:800-815 | `InvertSelected`: "No Other Selections" on a ring of one and "Already Invert Selected" when all but the current one are selected, changing nothing else; otherwise every flag but the current one is set, and the native selection loses the current reglet and the zero-region and gains every other reglet |
| Session.ExactQuickFind.InvertAllButThis | exact_quick_find.py:811-815 | every flag but the current one is set; the zero-region and the current reglet leave the native selection and every other reglet joins it |
| Session.ExactQuickFind.SelectAllButThis | exact_quick_find.py:813-815 | all flags but the current one are set, and the native selection gains exactly the other reglets |
| Session.ExactQuickFind.GoFirstDispatch | exact_quick_find.py:818-821 | `Went` to index 0, or to n-1 in reverse, named "First" or "Last" |
| Session.ExactQuickFind.GoBackDispatch | exact_quick_find.py:824-827 | `Went` to the initial index, named "Back" |
| Session.ExactQuickFind.Dispatch | exact_quick_find.py:830-847 | `Dispatched`: the change the code's entry of `g_dispatches` makes, one predicate per entry; no-code changes nothing; the invariant is kept, and so is `Settled` |
| Session.ExactQuickFind.SetIndex | exact_quick_find.py:525-531 | the cursor is set by `_find_ge` or `_find_gt`; the flag is set when asked, or when asked only on an exact hit; the first index set becomes the initial one |
| Session.ExactQuickFind.PlaceIndex | exact_quick_find.py:543-568 | the cursor, flags and initial index after the two `_set_index` calls, code by code and caret or not; for the codes without a later step this is `Placed` |
| Session.ExactQuickFind.EstablishIndex | exact_quick_find.py:543-589 | `Placed`: the start index and initial flags for each code, including add-all, invert-select and go-first; the initial index is the first `_find_ge`; it fails exactly on `IndexRefused` (a single-select whose region is not a match, an invert-select over one match), with its alert, and otherwise keeps the alert |
| Session.ExactQuickFind.EstablishMatches | exact_quick_find.py:507-522 | succeeds exactly when there are matches; they become the ring with no flag set |
| Session.ExactQuickFind.EstablishRegions | exact_quick_find.py:598-602 | the native selection becomes exactly the selected reglets plus the earlier regions (`Stashed`), ordered and in sync |
| Session.ExactQuickFind.BasicInit | exact_quick_find.py:608-660 | succeeds exactly when `BasicInitSucceeds` and raises exactly `BasicInitAlert`; an extended session is dropped first, which clears the alert, the last code, the direction, the notice and the ruler; the original region is the selection's last; the text is `TextAfter` and the initial index `InitIndexAfter`; on success the session is basic and satisfies `BasicStarted`; on failure it is not initialised and satisfies `BasicStopped` |
| Session.ExactQuickFind.InitNonEmpty | exact_quick_find.py:624-660 | with a selection: the same outcome as `BasicInit`, from `BasicEntry`, with the last code, direction, notice and ruler cleared exactly when an extended session was dropped |
| Session.ExactQuickFind.InitFromSelection | exact_quick_find.py:628-660 | from the pre-checks on, starting from the given entry: the original region is the last of the selection; succeeds exactly when `BasicInitSucceeds`, raises exactly `BasicInitAlert`, gives `TextAfter` and `InitIndexAfter`, and leaves `BasicStarted` on success and `BasicStopped` on failure; `Aside` is kept |
| Session.ExactQuickFind.DropExtended | exact_quick_find.py:624-627 | every field is reset except the code, the native selection and the last text command |
| Session.ExactQuickFind.Precheck | exact_quick_find.py:628-636 | the original region is recorded; it passes exactly when no pre-check fails, else the failing alert is set; `Aside` is kept |
| Session.ExactQuickFind.BasicEstablish | exact_quick_find.py:637-660 | after the pre-checks: succeeds exactly when `BasicInitSucceeds`, raises exactly `BasicInitAlert`, gives `TextAfter` and `InitIndexAfter`, and leaves `BasicStarted` on success; on failure it stays uninitialised and leaves `BasicStopped`: a caret on no word leaves the expanded selection and the old ring |
| Session.ExactQuickFind.EstablishFrom | exact_quick_find.py:643-660 | from the query on: succeeds exactly when `QueryStarts`, raises exactly `QueryAlert`, and on success leaves `RingStarted` from the region the query was read from; the initial index is set when there are matches and none was recorded; on failure the session stays uninitialised with its native selection and zero-region; with no match the ring, flags and cursor are kept, and after a refusal the ring is the matches with `Placed` flags and cursor |
| Session.ExactQuickFind.StartRing | exact_quick_find.py:651-660 | once the ring holds the matches: succeeds exactly when the index is not refused, with the refusal's alert, and on success leaves `RingStarted`; the initial index follows the first `_set_index` either way; a refusal keeps the native selection, zero-region and lifecycle, with the `Placed` flags and cursor |
| Session.ExactQuickFind.ExpandPoint | exact_quick_find.py:638-640 | the expanded selection replaces the native one and its last region is read |
| Session.ExactQuickFind.MatchText | exact_quick_find.py:643-649 | the query is the host's text; no match fails with "No Matches Found For ..." and leaves the ring |
| Session.ExactQuickFind.FinishBasic | exact_quick_find.py:654-659 | the session becomes basic and valid; the zero-region is the current reglet exactly when nothing is selected; the native selection is exactly the earlier regions, the selected reglets, the original region for a peek and the zero-region |
| Session.ExactQuickFind.RegionsForBasic | exact_quick_find.py:654-657 | the native selection is exactly the earlier regions, the selected reglets and, for a peek, the original region; ordered and in sync |
| Session.ExactQuickFind.AddOriginal | exact_quick_find.py:656-657 | the original region joins the native selection, nothing else does, and the sync part of the invariant is kept |
| Session.ExactQuickFind.ExtendedInit | exact_quick_find.py:664-679 | "No Selections" on an empty selection, with the ring, flags, cursor and initial index kept; otherwise the session is exactly `ExtendedStart`: the native selection is the ring, all selected, the cursor at its last region (first in reverse) and the initial index at the other end |
| Session.ExactQuickFind.SetRuler | exact_quick_find.py:910-919 | the ruler is left alone before init and is the ruler text of the flags and cursor after; every other field is stated unchanged |
| Session.ExactQuickFind.SetCodes | exact_quick_find.py:1074-1077 | the last code, code and direction are set; the invariant, everything a dispatch reads, and every other field stay as they were, and so does the entry a basic init works from |
| Session.ExactQuickFind.RunBasic | exact_quick_find.py:1071-1083 | the last code is the previous code unless that was a go-first or go-back; a basic session is `Dispatched` with the new code and direction and gets its ruler, keeping its initial index, query text, original region and notice; any other is initialised, succeeding exactly when `BasicInitSucceeds`, with `BasicInitAlert`, `TextAfter` and `InitIndexAfter`, then `BasicStarted` and the ruler on success and `BasicStopped` on failure; the last code, direction, notice and (on failure) ruler are cleared exactly when an extended session was dropped |
| Session.ExactQuickFind.BasicStep | exact_quick_find.py:1078-1083 | a basic session is `Dispatched` and keeps its initial index, query text, original region, notice, codes and direction; any other gets the `StartBasic` outcome |
| Session.ExactQuickFind.StartBasic | exact_quick_find.py:1078-1083 | a session not in basic state is initialised: succeeding exactly when `BasicInitSucceeds`, with `BasicInitAlert`, `TextAfter` and `InitIndexAfter`, then `BasicStarted` and the ruler on success, `BasicStopped` and the unchanged lifecycle on failure; a go-back never starts one |
| Session.ExactQuickFind.RunExtended | exact_quick_find.py:1086-1096 | the last code is always the previous code; an uninitialised session with no selection fails with "No Selections" and nothing else changes (ring, flags, cursor, native selection, zero-region, initial index, ruler); otherwise the session, or the ring `ExtendedStart` makes of the native selection, is `Dispatched` and gets its ruler |
| Session.ExactQuickFind.ExtendedStep | exact_quick_find.py:1092-1096 | an uninitialised session is initialised from the native selection, failing on an empty one with only the alert changed; then the entry session is `Dispatched` and ruled |
| Session.ExactQuickFind.StartExtended | exact_quick_find.py:1092-1096 | an uninitialised session fails with "No Selections" on an empty selection, and nothing else changes; otherwise the ring `ExtendedStart` makes is `Dispatched` and ruled |
| Session.ExactQuickFind.DispatchAndRule | exact_quick_find.py:1082-1083 | `Dispatched`, and the ruler `_finalize` sets describes the new cursor; `Settled` is kept |
| Session.ExactQuickFind.ToggleCaseSensitive | exact_quick_find.py:1031-1036 | case sensitivity flips, the session is reset and the notice names the new state |
| Session.ExactQuickFind.ToggleWholeWord | exact_quick_find.py:1039-1044 | whole-word flips, the session is reset and the notice names the new state |
| Session.ExactQuickFind.ToggleWrapScan | exact_quick_find.py:1047-1051 | wrap flips and only the notice changes |
| Session.ExactQuickFind.FlipFindFlags | exact_quick_find.py:1054-1068 | the configured flags flip; the session is reset exactly when case or whole-word flipped, and otherwise every field but the notice is unchanged; the notice is "Flip Find Flags" |
| Session.ExactQuickFind.OnPostTextCommand | exact_quick_find.py:999-1008 | after the plugin's own command only alert and notice clear, and every other field is stated unchanged; any other command resets the session and takes the new selection; the command name is remembered |
| Session.ExactQuickFind.OnModified | exact_quick_find.py:990-993 | an edit clears alert, notice and ruler and keeps the session |

## Left out

- Session.ExactQuickFind.GoBackDispatch: requires the initial index to lie in the ring. The code reads `init_index` without a check. A refused basic init leaves an initial index into the ring it refused (`RefusedAtIndex`), and a later init keeps it (`InitIndexAfter`). When the host's matches have changed in between, that index need not lie in the new ring, and the source raises IndexError. The model does not follow that path.
- Session.ExactQuickFind.Dispatch: carries the same go-back requirement on the initial index, for the same reason.
- Session.ExactQuickFind.DispatchAndRule: carries the same go-back requirement on the initial index, for the same reason.
- Session.ExactQuickFind.RunBasic: carries the same go-back requirement on the initial index, for the same reason.
- Session.ExactQuickFind.BasicStep: carries the same go-back requirement on the initial index, for the same reason.
- Session.ExactQuickFind.RunExtended: carries the same go-back requirement on the initial index, for the same reason.
- Session.ExactQuickFind.ExtendedStep: carries the same go-back requirement on the initial index, for the same reason.
- Session.ExactQuickFind.RunBasic: takes `code` as one of the twelve `Code` values, and so does RunExtended. The source accepts any integer. Its comparisons with `Code` members match no member for other integers, while `g_dispatches[code]` counts from the end for -12..-1 (`CodeOf`) and raises IndexError outside -12..11.
- Host services are inputs, not models:
  - Sublime's `find_all`, `expand_selection` and `substr` enter as `HostAnswers`;
  - the pattern and find-flag construction in `_establish_matches` only feeds `find_all`;
  - `_simplify_regions` and `_region_to_reglet` are the identity on reglets.
- Sublime merges overlapping or touching regions in `view.sel()`. The model's native selection is an ordered set of distinct reglets without merging.
- Upper and lower case are ASCII only. Python's Unicode case mapping is not modelled.
- Some `_finalize` steps draw in the view and change no session state: `_show_this_region`, the gutter indicator (`_set_indicator`, `_get_indicator`) and `erase_regions`.
- Settings loading and saving are left out: `_load_settings`, `_save_settings` and `on_pre_save`. The settings values enter as parameters: the wrap glyph's character and position, the tilde, show_alert and show_notice, and the flip choices.
- Status publishing to every window (`_set_status`, `on_activated`) is left out. Only its effect on the session is modelled: the alert and notice are cleared.
- The per-view registry is left out: `_get_eqf`, `_del_eqf` and `on_close`. Each session is one object here, and a new one starts from its constructor.
- The per-command classes (exact_quick_find.py:1099-1243) are left out, and so is `_get_cmd`. Each class forwards a code and direction, the peek through go-back ones picking the target command through `_get_cmd`. Each then sets a notice naming the command ("Move", "Add", "Add All", "Peek", "Review", "Subtract", "Single Select", "Invert Select", "First", "Last" or "Back"). The model does not capture that notice. So are plugin load and unload, and the `Code.to_str` and `Init.to_str` names.
- Debug and trace output (`_debug_print`, `_trace_print`, `_debug_assert`) has no effect on the session.
- Listener events that would arrive while a command is still running are not modelled. Each transition runs to completion.
