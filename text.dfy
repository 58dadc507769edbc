/** Text helpers behind the status line: decimal rendering of counts (Python's
    `str` on a non-negative int), `_abridge`, ASCII case mapping, and the alert
    strings the session raises. */
module Text {

  /** The character for one decimal digit. */
  function Digit(d: nat): (c: char)
    requires d < 10
    ensures '0' <= c <= '9' && c as int - '0' as int == d
  {
    (d + '0' as int) as char
  }

  predicate IsDigits(s: string)
  {
    forall i :: 0 <= i < |s| ==> '0' <= s[i] <= '9'
  }

  /** `str(n)` for a non-negative int: at least one digit, no leading zero. */
  function Decimal(n: nat): (s: string)
    ensures |s| >= 1 && IsDigits(s)
    ensures |s| > 1 ==> s[0] != '0'
    decreases n
  {
    if n < 10 then [Digit(n)] else Decimal(n / 10) + [Digit(n % 10)]
  }

  /** The number a string of decimal digits denotes. */
  function Value(s: string): nat
    requires IsDigits(s)
  {
    if s == [] then 0 else Value(s[..|s| - 1]) * 10 + (s[|s| - 1] as int - '0' as int)
  }

  /** Reading back a rendered count gives the count: `Decimal` loses nothing. */
  lemma {:induction false} DecimalRoundTrip(n: nat)
    ensures Value(Decimal(n)) == n
    decreases n
  {
    if n >= 10 {
      DecimalRoundTrip(n / 10);
      var s := Decimal(n);
      assert s[..|s| - 1] == Decimal(n / 10);
    }
  }

  /** So two different counts never render alike. */
  lemma DecimalInjective(m: nat, n: nat)
    requires Decimal(m) == Decimal(n)
    ensures m == n
  {
    DecimalRoundTrip(m);
    DecimalRoundTrip(n);
  }

  /** How many characters `_abridge` keeps from each end: `max(maxlen // 2 - 2, 0)`. */
  function AbridgeHalf(maxlen: int): (half: nat)
    ensures maxlen >= 6 ==> 2 * half + 4 <= maxlen <= 2 * half + 5
    ensures maxlen < 6 ==> half == 0
  {
    if maxlen / 2 - 2 > 0 then maxlen / 2 - 2 else 0
  }

  /** `_abridge(s, maxlen)`: a string within the limit is kept; a longer one keeps
      `half` characters from each end around " .. ". Python's `s[-half:]` is the
      whole string when `half` is 0, so for `maxlen < 6` the result is " .. "
      followed by all of `s`. */
  function Abridge(s: string, maxlen: int): (r: string)
    ensures |s| <= maxlen ==> r == s
    ensures |s| > maxlen && maxlen >= 6 ==>
              var half := AbridgeHalf(maxlen);
              && |r| == 2 * half + 4 <= maxlen
              && r[..half] == s[..half]
              && r[half..half + 4] == " .. "
              && r[half + 4..] == s[|s| - half..]
    ensures |s| > maxlen && maxlen < 6 ==> r == " .. " + s
  {
    if |s| <= maxlen then s
    else
      var half := AbridgeHalf(maxlen);
      var tail := if half == 0 then s else s[|s| - half..];
      s[..half] + " .. " + tail
  }

  /** The default limit the source always uses. */
  const AbridgeLimit := 20

  /** `str.upper()` on ASCII letters; other characters are kept. */
  function Upper(s: string): (r: string)
    ensures |r| == |s|
    ensures forall i :: 0 <= i < |s| ==> !('a' <= r[i] <= 'z')
    ensures forall i :: 0 <= i < |s| && 'a' <= s[i] <= 'z' ==>
              'A' <= r[i] <= 'Z' && r[i] as int - 'A' as int == s[i] as int - 'a' as int
    ensures forall i :: 0 <= i < |s| && !('a' <= s[i] <= 'z') ==> r[i] == s[i]
  {
    seq(|s|, i requires 0 <= i < |s| =>
      if 'a' <= s[i] <= 'z' then (s[i] as int - 32) as char else s[i])
  }

  /** `str.lower()` on ASCII letters; other characters are kept. */
  function Lower(s: string): (r: string)
    ensures |r| == |s|
    ensures forall i :: 0 <= i < |s| ==> !('A' <= r[i] <= 'Z')
    ensures forall i :: 0 <= i < |s| && 'A' <= s[i] <= 'Z' ==>
              'a' <= r[i] <= 'z' && r[i] as int - 'a' as int == s[i] as int - 'A' as int
    ensures forall i :: 0 <= i < |s| && !('A' <= s[i] <= 'Z') ==> r[i] == s[i]
  {
    seq(|s|, i requires 0 <= i < |s| =>
      if 'A' <= s[i] <= 'Z' then (s[i] as int + 32) as char else s[i])
  }

  /** Upper- and lower-casing a text with an ASCII letter give different texts,
      so the on and off wrap glyphs can be told apart. */
  lemma CaseGlyphsDiffer(s: string, i: int)
    requires 0 <= i < |s| && ('a' <= s[i] <= 'z' || 'A' <= s[i] <= 'Z')
    ensures Upper(s) != Lower(s)
  {
    assert Upper(s)[i] != Lower(s)[i];
  }

  /** "Already Added All N Match(es)": the count in decimal, the plural only for
      more than one. */
  function AlreadyAddedAll(n: nat): (msg: string)
    ensures msg == "Already Added All " + Decimal(n) + " Match" + (if n > 1 then "es" else "")
    ensures |msg| > 24 && msg[..18] == "Already Added All "
    ensures msg[|msg| - 1] == (if n > 1 then 's' else 'h')
  {
    var head := "Already Added All " + Decimal(n);
    var msg := head + " Match" + (if n > 1 then "es" else "");
    assert msg[..18] == head[..18];
    msg
  }

  /** The count can be read back from the message: different counts never give
      the same "Already Added All" alert. */
  lemma {:induction false} AlreadyAddedAllInjective(m: nat, n: nat)
    requires AlreadyAddedAll(m) == AlreadyAddedAll(n)
    ensures m == n
  {
    var a, b := AlreadyAddedAll(m), AlreadyAddedAll(n);
    assert (m > 1) == (n > 1) by {
      assert a[|a| - 1] == b[|b| - 1];
    }
    var suffix := " Match" + (if n > 1 then "es" else "");
    Middle("Already Added All ", Decimal(m), suffix);
    Middle("Already Added All ", Decimal(n), suffix);
    assert a == "Already Added All " + Decimal(m) + suffix;
    assert b == "Already Added All " + Decimal(n) + suffix;
    DecimalInjective(m, n);
  }

  /** The middle of a three-part concatenation is found between the other two. */
  lemma Middle(p: string, d: string, q: string)
    ensures (p + d + q)[|p|..|p + d + q| - |q|] == d
  {
    var x := p + d + q;
    assert forall k :: 0 <= k < |d| ==> x[|p|..|x| - |q|][k] == d[k];
  }

  /** The alert for a query with no match, quoting the abridged query. */
  function NoMatchesFoundFor(text: string): string
  {
    "No Matches Found For \"" + Abridge(text, AbridgeLimit) + "\""
  }

  /** The alert for a single-select on a selection that is not a whole word. */
  function NotInAWholeWord(text: string): string
  {
    "Selection \"" + Abridge(text, AbridgeLimit) + "\" Not In A Whole Word"
  }

  const NoSelections := "No Selections"
  const NoOtherMatches := "No Other Matches"
  const FirstMatch := "First Match"
  const LastMatch := "Last Match"
  const NoMatchesAbove := "No Matches Above"
  const NoMatchesBelow := "No Matches Below"
  const NoSelectionsAbove := "No Selections Above"
  const NoSelectionsBelow := "No Selections Below"
  const NoOtherSelections := "No Other Selections"
  const CantSubtract := "Can't Subtract"
  const CantGoBack := "Can't Go Back"
  const AlreadyAdded := "Already Added"
  const AlreadySubtracted := "Already Subtracted"
  const AlreadySingleSelected := "Already Single Selected"
  const AlreadyInvertSelected := "Already Invert Selected"
}
