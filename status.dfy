/** Status-line text: the selection count, the rank of the current match among the
    selected ones (`_get_selected_rank`), the ruler (`_set_ruler`), the bracketed
    flag glyphs (`_get_flags`) and the assembled status (`ExactQuickFind.status`). */
module Status {
  import opened Text

  /** `sum(flags)`: how many flags are set. */
  function Count(flags: seq<bool>): (c: nat)
    ensures c <= |flags|
    ensures c == |flags| <==> forall i :: 0 <= i < |flags| ==> flags[i]
    ensures c == 0 <==> forall i :: 0 <= i < |flags| ==> !flags[i]
  {
    if flags == [] then 0
    else
      assert forall i :: 1 <= i < |flags| ==> flags[i] == flags[1..][i - 1];
      (if flags[0] then 1 else 0) + Count(flags[1..])
  }

  /** Counting a concatenation counts each part. */
  lemma {:induction false} CountAppend(a: seq<bool>, b: seq<bool>)
    ensures Count(a + b) == Count(a) + Count(b)
  {
    if a != [] {
      assert (a + b)[1..] == a[1..] + b;
      CountAppend(a[1..], b);
    } else {
      assert a + b == b;
    }
  }

  /** Setting one flag changes the count by at most one, in the expected direction. */
  lemma {:induction false} CountUpdate(flags: seq<bool>, i: int, v: bool)
    requires 0 <= i < |flags|
    ensures Count(flags[i := v]) ==
            Count(flags) + (if v && !flags[i] then 1 else 0) - (if !v && flags[i] then 1 else 0)
  {
    if i == 0 {
      assert flags[i := v][1..] == flags[1..];
    } else {
      assert flags[i := v][1..] == flags[1..][i - 1 := v];
      CountUpdate(flags[1..], i - 1, v);
    }
  }

  /** Exactly one flag is clear and it is flag t, counted or stated index by index. */
  lemma AllButOne(flags: seq<bool>, t: int)
    requires 0 <= t < |flags|
    ensures (!flags[t] && Count(flags) == |flags| - 1) <==>
            forall i :: 0 <= i < |flags| ==> flags[i] == (i != t)
  {
    var all := flags[t := true];
    CountUpdate(flags, t, true);
    if !flags[t] && Count(flags) == |flags| - 1 {
      assert Count(all) == |all|;
      forall i | 0 <= i < |flags| ensures flags[i] == (i != t) {
        assert all[i];
      }
    }
  }

  /** Exactly one flag is set and it is flag t, counted or stated index by index. */
  lemma OnlyOne(flags: seq<bool>, t: int)
    requires 0 <= t < |flags|
    ensures (flags[t] && Count(flags) == 1) <==>
            forall i :: 0 <= i < |flags| ==> flags[i] == (i == t)
  {
    var none := flags[t := false];
    CountUpdate(flags, t, false);
    if flags[t] && Count(flags) == 1 {
      assert Count(none) == 0;
      forall i | 0 <= i < |flags| ensures flags[i] == (i == t) {
        assert !none[i];
      }
    }
  }

  /** `_get_selected_rank`: the 1-based position of match `i` among the selected
      matches, and how many are selected. */
  function SelectedRank(flags: seq<bool>, i: int): (rank: (nat, nat))
    requires 0 <= i < |flags|
    ensures rank.1 == Count(flags)
    ensures rank.0 == Count(flags[..i]) + 1
    ensures flags[i] ==> 1 <= rank.0 <= rank.1
  {
    var nlt := Count(flags[..i]);
    var nge := Count(flags[i..]);
    assert flags == flags[..i] + flags[i..];
    CountAppend(flags[..i], flags[i..]);
    assert flags[i..] == [flags[i]] + flags[i + 1..];
    CountAppend([flags[i]], flags[i + 1..]);
    (nlt + 1, nlt + nge)
  }

  /** The ruler `_set_ruler` writes: "Region i/n" with 1-based i, then, when the
      current match is selected and more than one is, " (Selection j/m)" with j
      its rank among the selected matches and m their number. */
  function RulerText(flags: seq<bool>, i: int): (r: string)
    requires 0 <= i < |flags|
    ensures r == "Region " + Decimal(i + 1) + "/" + Decimal(|flags|) +
                 (if flags[i] && Count(flags) > 1
                  then " (Selection " + Decimal(Count(flags[..i]) + 1) + "/" + Decimal(Count(flags)) + ")"
                  else "")
  {
    var (j, m) := SelectedRank(flags, i);
    "Region " + Decimal(i + 1) + "/" + Decimal(|flags|) +
    (if flags[i] && m > 1 then " (Selection " + Decimal(j) + "/" + Decimal(m) + ")" else "")
  }

  /** The ruler always starts "Region ", and ends in ")" exactly when it carries
      the selection part: the region part ends in a digit. */
  lemma RulerTextShape(flags: seq<bool>, i: int)
    requires 0 <= i < |flags|
    ensures var r := RulerText(flags, i);
            |r| > 7 && r[..7] == "Region " &&
            (r[|r| - 1] == ')' <==> flags[i] && Count(flags) > 1)
  {
    var r := RulerText(flags, i);
    var head := "Region " + Decimal(i + 1) + "/" + Decimal(|flags|);
    assert r[..7] == head[..7];
    if !(flags[i] && Count(flags) > 1) {
      assert r == head;
      assert r[|r| - 1] == Decimal(|flags|)[|Decimal(|flags|)| - 1];
    }
  }

  /** One flag glyph: the upper-case name when the flag is on, otherwise the
      lower-case name, after a tilde when tildes are shown. */
  function Glyph(on: bool, upper: string, lower: string, tilde: bool): (g: string)
    ensures on ==> g == upper
    ensures !on ==> g == (if tilde then "~" else "") + lower
  {
    if on then upper else (if tilde then "~" else "") + lower
  }

  /** `_get_flags`: the three bracketed glyphs for case, whole word and wrap scan;
      the wrap glyph comes first, second or (for any other position) third. */
  function FlagsText(caseSensitive: bool, wholeWord: bool, wrapScan: bool,
                     wrapChar: string, wrapPosn: int, showTilde: bool): (r: string)
    ensures var c := Glyph(caseSensitive, "C", "c", showTilde);
            var w := Glyph(wholeWord, "W", "w", showTilde);
            var x := Glyph(wrapScan, Upper(wrapChar), Lower(wrapChar), showTilde);
            && (wrapPosn == 1 ==> r == "[" + x + "][" + c + "][" + w + "]")
            && (wrapPosn == 2 ==> r == "[" + c + "][" + x + "][" + w + "]")
            && (wrapPosn != 1 && wrapPosn != 2 ==> r == "[" + c + "][" + w + "][" + x + "]")
  {
    var c := Glyph(caseSensitive, "C", "c", showTilde);
    var w := Glyph(wholeWord, "W", "w", showTilde);
    var x := Glyph(wrapScan, Upper(wrapChar), Lower(wrapChar), showTilde);
    if wrapPosn == 1 then "[" + x + "][" + c + "][" + w + "]"
    else if wrapPosn == 2 then "[" + c + "][" + x + "][" + w + "]"
    else "[" + c + "][" + w + "][" + x + "]"
  }

  /** The case glyph always shows: flipping case sensitivity changes the flags text. */
  lemma FlagsTextShowsCase(wholeWord: bool, wrapScan: bool, wrapChar: string, wrapPosn: int, showTilde: bool)
    ensures FlagsText(true, wholeWord, wrapScan, wrapChar, wrapPosn, showTilde) !=
            FlagsText(false, wholeWord, wrapScan, wrapChar, wrapPosn, showTilde)
  {
    var on := FlagsText(true, wholeWord, wrapScan, wrapChar, wrapPosn, showTilde);
    var off := FlagsText(false, wholeWord, wrapScan, wrapChar, wrapPosn, showTilde);
    var x := Glyph(wrapScan, Upper(wrapChar), Lower(wrapChar), showTilde);
    if !showTilde {
      var k := if wrapPosn == 1 then |x| + 3 else 1;
      assert on[k] == 'C' && off[k] == 'c';
    } else {
      assert |on| + 1 == |off|;
    }
  }

  /** Likewise the whole-word glyph always shows. */
  lemma FlagsTextShowsWholeWord(caseSensitive: bool, wrapScan: bool, wrapChar: string, wrapPosn: int, showTilde: bool)
    ensures FlagsText(caseSensitive, true, wrapScan, wrapChar, wrapPosn, showTilde) !=
            FlagsText(caseSensitive, false, wrapScan, wrapChar, wrapPosn, showTilde)
  {
    var on := FlagsText(caseSensitive, true, wrapScan, wrapChar, wrapPosn, showTilde);
    var off := FlagsText(caseSensitive, false, wrapScan, wrapChar, wrapPosn, showTilde);
    var c := Glyph(caseSensitive, "C", "c", showTilde);
    var x := Glyph(wrapScan, Upper(wrapChar), Lower(wrapChar), showTilde);
    if !showTilde {
      var k := if wrapPosn == 1 || wrapPosn == 2 then |x| + |c| + 5 else |c| + 3;
      assert on[k] == 'W' && off[k] == 'w';
    } else {
      assert |on| + 1 == |off|;
    }
  }

  predicate EndsWith(s: string, suffix: string)
  {
    |suffix| <= |s| && s[|s| - |suffix|..] == suffix
  }

  /** `ExactQuickFind.status`: the flags, after the alert (when shown and set), then
      " @ " and the ruler when there is one, then " : " and the notice when shown and set. */
  function StatusLine(flags: string, alert: string, ruler: string, notice: string,
                      showAlert: bool, showNotice: bool): (r: string)
    ensures r == (if showAlert && alert != "" then alert + " ! " else "") + flags +
                 (if ruler != "" then " @ " + ruler else "") +
                 (if showNotice && notice != "" then " : " + notice else "")
  {
    var s1 := if showAlert && alert != "" then alert + " ! " + flags else flags;
    var s2 := if ruler != "" then s1 + " @ " + ruler else s1;
    if showNotice && notice != "" then s2 + " : " + notice else s2
  }

  /** The status line opens with the shown alert and the flags. */
  lemma StatusLineOpens(flags: string, alert: string, ruler: string, notice: string,
                        showAlert: bool, showNotice: bool)
    ensures var r := StatusLine(flags, alert, ruler, notice, showAlert, showNotice);
            && (showAlert && alert != "" ==> alert + " ! " + flags <= r)
            && (!(showAlert && alert != "") ==> flags <= r)
  {
    var head := (if showAlert && alert != "" then alert + " ! " else "") + flags;
    var tail := (if ruler != "" then " @ " + ruler else "") + (if showNotice && notice != "" then " : " + notice else "");
    assert StatusLine(flags, alert, ruler, notice, showAlert, showNotice) == head + tail;
    PrefixOfAppend(head, tail);
    assert !(showAlert && alert != "") ==> head == flags;
  }

  /** The status line closes with the shown notice, or else with the ruler. */
  lemma StatusLineCloses(flags: string, alert: string, ruler: string, notice: string,
                         showAlert: bool, showNotice: bool)
    ensures var r := StatusLine(flags, alert, ruler, notice, showAlert, showNotice);
            && (showNotice && notice != "" ==> EndsWith(r, " : " + notice))
            && (ruler != "" && !(showNotice && notice != "") ==> EndsWith(r, " @ " + ruler))
  {
    var head := (if showAlert && alert != "" then alert + " ! " else "") + flags;
    var middle := if ruler != "" then " @ " + ruler else "";
    if showNotice && notice != "" {
      SuffixOfAppend(head + middle, " : " + notice);
    } else if ruler != "" {
      assert StatusLine(flags, alert, ruler, notice, showAlert, showNotice) == head + middle;
      SuffixOfAppend(head, middle);
    }
  }

  /** A sequence ends with what was appended to it. */
  lemma SuffixOfAppend(a: string, b: string)
    ensures EndsWith(a + b, b)
  {
    assert (a + b)[|a|..] == b;
  }

  /** A sequence is a prefix of itself followed by anything. */
  lemma PrefixOfAppend(a: string, b: string)
    ensures a <= a + b
  {
    assert (a + b)[..|a|] == a;
  }
}
