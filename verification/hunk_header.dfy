/** The hunk header of the unified diff format (the `-u` output of the POSIX
    `diff` utility), `@@ -l[,s] +l[,s] @@`, as the analyzer recognises it: the
    regular expression `@@ -\d+,?\d* \+(\d+),?\d* @@` searched anywhere in a
    line, whose capture is read with `parseInt`. */
module HunkHeader {
  import opened Wrappers
  import opened Text

  /** Where `\d+,?\d*` stops when it starts at `i`, or `None` when it cannot
      start there. Greedy matching is the only successful one: `\d+` must take
      every digit, and a following comma must be taken, since what comes
      next in the expression is a space. */
  function RangeEnd(s: string, i: nat): (r: Option<nat>)
    ensures r.Some? ==> i < r.value <= |s|
  {
    var a := DigitRun(s, i);
    if a == 0 then None
    else if i + a < |s| && s[i + a] == ',' then Some(i + a + 1 + DigitRun(s, i + a + 1))
    else Some(i + a)
  }

  /** The captured new-file start when the expression matches at offset `i`. */
  function HeaderAt(s: string, i: nat): Option<nat>
  {
    if HasAt(s, i, "@@ -") && RangeEnd(s, i + 4).Some? then NewSideAt(s, RangeEnd(s, i + 4).value)
    else None
  }

  /** The rest of the expression, ` \+(\d+),?\d* @@`, matched at offset `j`. */
  function NewSideAt(s: string, j: nat): Option<nat>
  {
    if HasAt(s, j, " +") && RangeEnd(s, j + 2).Some? && HasAt(s, RangeEnd(s, j + 2).value, " @@")
    then Some(StartAt(s, j + 2))
    else None
  }

  /** `parseInt` of the digit run at `i`. */
  function StartAt(s: string, i: nat): nat
    requires i <= |s|
  {
    DigitsValue(s[i..i + DigitRun(s, i)])
  }

  /** `line.match(/@@ -\d+,?\d* \+(\d+),?\d* @@/)` followed by `parseInt` of the
      capture: the new-file start of the leftmost header in the line. */
  function Parse(s: string): (r: Option<nat>)
    ensures r.None? <==> forall k: nat :: HeaderAt(s, k).None?
    ensures r.Some? ==> exists k: nat :: HeaderAt(s, k) == r && forall j: nat :: j < k ==> HeaderAt(s, j).None?
  {
    var r := Leftmost(Headers(s), 0, |s|);
    if r.Some? then
      HeaderFound(s, r);
      r
    else
      HeaderMissing(s);
      r
  }

  /** The expression's capture at every offset. */
  function Headers(s: string): nat -> Option<nat> {
    (k: nat) => HeaderAt(s, k)
  }

  /** A start the search returns comes from the leftmost match. */
  lemma HeaderFound(s: string, r: Option<nat>)
    requires r == Leftmost(Headers(s), 0, |s|) && r.Some?
    ensures exists k: nat :: HeaderAt(s, k) == r && forall j: nat :: j < k ==> HeaderAt(s, j).None?
  {
    var at := Headers(s);
    var k :| 0 <= k <= |s| && at(k) == r && NoneBetween(at, 0, k);
    assert HeaderAt(s, k) == r;
    forall j: nat | j < k
      ensures HeaderAt(s, j).None?
    {
      assert at(j).None?;
    }
  }

  /** A search that returns nothing saw no match anywhere. */
  lemma HeaderMissing(s: string)
    requires Leftmost(Headers(s), 0, |s|).None?
    ensures forall k: nat :: HeaderAt(s, k).None?
  {
    var at := Headers(s);
    forall k: nat
      ensures HeaderAt(s, k).None?
    {
      if k <= |s| {
        assert at(k).None?;
      } else {
        assert !HasAt(s, k, "@@ -");
      }
    }
  }

  /** One side of a hunk header: a start line and an optional line count. */
  datatype Range = Range(start: nat, count: Option<nat>)

  function RangeText(r: Range): string {
    NatDigits(r.start) + match r.count { case Some(c) => "," + NatDigits(c) case None => "" }
  }

  /** The header a `diff -u` producer writes for a hunk. */
  function Format(oldRange: Range, newRange: Range): string {
    "@@ -" + RangeText(oldRange) + " +" + RangeText(newRange) + " @@"
  }

  /** An occurrence of `x + y` is an occurrence of `x` followed by one of `y`. */
  lemma HasAtConcat(s: string, i: nat, x: string, y: string)
    requires HasAt(s, i, x + y)
    ensures HasAt(s, i, x) && HasAt(s, i + |x|, y)
  {
    assert s[i..i + |x|] == (x + y)[..|x|];
    assert s[i + |x|..i + |x| + |y|] == (x + y)[|x|..];
  }

  /** A run of exactly `n` digits starting at `i` is what `DigitRun` measures. */
  lemma {:induction false} DigitRunOf(s: string, i: nat, n: nat)
    requires i + n <= |s|
    requires forall k :: i <= k < i + n ==> IsDigit(s[k])
    requires i + n == |s| || !IsDigit(s[i + n])
    ensures DigitRun(s, i) == n
    decreases n
  {
    if n > 0 {
      DigitRunOf(s, i + 1, n - 1);
    }
  }

  /** A digit string at `i` that is followed by a non-digit is the whole run. */
  lemma DigitRunOfString(s: string, i: nat, d: string)
    requires HasAt(s, i, d) && AllDigits(d)
    requires i + |d| < |s| && !IsDigit(s[i + |d|])
    ensures DigitRun(s, i) == |d| && s[i..i + DigitRun(s, i)] == d
  {
    assert forall k :: i <= k < i + |d| ==> s[k] == d[k - i];
    DigitRunOf(s, i, |d|);
  }

  /** Where `RangeText(r)` sits at offset `i`, followed by a space, `\d+,?\d*`
      stops exactly at its end, and its leading digit run is the start. */
  lemma RangeEndOf(s: string, i: nat, r: Range)
    requires HasAt(s, i, RangeText(r)) && i + |RangeText(r)| < |s| && s[i + |RangeText(r)|] == ' '
    ensures RangeEnd(s, i) == Some(i + |RangeText(r)|)
    ensures DigitRun(s, i) == |NatDigits(r.start)|
    ensures s[i..i + DigitRun(s, i)] == NatDigits(r.start)
  {
    var d := NatDigits(r.start);
    match r.count {
      case None =>
        DigitRunOfString(s, i, d);
      case Some(c) =>
        var e := NatDigits(c);
        assert RangeText(r) == d + ("," + e);
        HasAtConcat(s, i, d, "," + e);
        HasAtConcat(s, i + |d|, ",", e);
        RangeEndOfCounted(s, i, d, e);
    }
  }

  lemma RangeEndOfCounted(s: string, i: nat, d: string, e: string)
    requires AllDigits(d) && AllDigits(e) && |d| > 0
    requires HasAt(s, i, d) && HasAt(s, i + |d|, ",") && HasAt(s, i + |d| + 1, e)
    requires i + |d| + 1 + |e| < |s| && s[i + |d| + 1 + |e|] == ' '
    ensures RangeEnd(s, i) == Some(i + |d| + 1 + |e|)
    ensures DigitRun(s, i) == |d| && s[i..i + DigitRun(s, i)] == d
  {
    assert s[i + |d|] == ',';
    DigitRunOfString(s, i, d);
    DigitRunOfString(s, i + |d| + 1, e);
  }

  /** The new side ` +c[,n] @@` at offset `j` yields `c`. */
  lemma NewSideAtOf(s: string, j: nat, r: Range)
    requires HasAt(s, j, " +") && HasAt(s, j + 2, RangeText(r)) && HasAt(s, j + 2 + |RangeText(r)|, " @@")
    ensures NewSideAt(s, j) == Some(r.start)
  {
    var k := j + 2 + |RangeText(r)|;
    HasAtFirst(s, k, " @@");
    RangeEndOf(s, j + 2, r);
    StartAtOf(s, j + 2, r.start);
    NewSideAtFrom(s, j, k, r.start);
  }

  /** The pieces of ` \+(\d+),?\d* @@` put together. */
  lemma NewSideAtFrom(s: string, j: nat, k: nat, start: nat)
    requires HasAt(s, j, " +") && RangeEnd(s, j + 2) == Some(k) && HasAt(s, k, " @@")
    requires j + 2 <= |s| && StartAt(s, j + 2) == start
    ensures NewSideAt(s, j) == Some(start)
  {
  }

  /** `parseInt` of a digit run that spells `n` is `n`. */
  lemma StartAtOf(s: string, i: nat, n: nat)
    requires i + DigitRun(s, i) <= |s| && s[i..i + DigitRun(s, i)] == NatDigits(n)
    ensures StartAt(s, i) == n
  {
    DigitsRoundTrip(n);
  }

  /** An occurrence of a non-empty string starts with its first code point. */
  lemma HasAtFirst(s: string, i: nat, t: string)
    requires HasAt(s, i, t) && |t| > 0
    ensures i < |s| && s[i] == t[0]
  {
    assert s[i] == s[i..i + |t|][0];
  }

  /** Where each piece of a formatted header sits in a line that starts with it. */
  lemma FormatLayout(oldRange: Range, newRange: Range, tail: string)
    ensures var s := Format(oldRange, newRange) + tail;
            var j := 4 + |RangeText(oldRange)|;
            && HasAt(s, 0, "@@ -") && HasAt(s, 4, RangeText(oldRange)) && HasAt(s, j, " +")
            && HasAt(s, j + 2, RangeText(newRange)) && HasAt(s, j + 2 + |RangeText(newRange)|, " @@")
  {
    var a := RangeText(oldRange);
    var b := RangeText(newRange);
    var p2 := "@@ -" + a;
    var p3 := p2 + " +";
    var p4 := p3 + b;
    var f := p4 + " @@";
    var s := f + tail;
    assert f == Format(oldRange, newRange);
    assert HasAt(s, 0, f + tail);
    HasAtConcat(s, 0, f, tail);
    HasAtConcat(s, 0, p4, " @@");
    HasAtConcat(s, 0, p3, b);
    HasAtConcat(s, 0, p2, " +");
    HasAtConcat(s, 0, "@@ -", a);
  }

  /** A formatted header matches the header expression at its first offset. */
  lemma HeaderAtFormat(oldRange: Range, newRange: Range, tail: string)
    ensures HeaderAt(Format(oldRange, newRange) + tail, 0) == Some(newRange.start)
  {
    FormatLayout(oldRange, newRange, tail);
    HeaderAtParts(Format(oldRange, newRange) + tail, oldRange, newRange);
  }

  lemma HeaderAtParts(s: string, oldRange: Range, newRange: Range)
    requires HasAt(s, 0, "@@ -") && HasAt(s, 4, RangeText(oldRange))
    requires HasAt(s, 4 + |RangeText(oldRange)|, " +")
    requires HasAt(s, 6 + |RangeText(oldRange)|, RangeText(newRange))
    requires HasAt(s, 6 + |RangeText(oldRange)| + |RangeText(newRange)|, " @@")
    ensures HeaderAt(s, 0) == Some(newRange.start)
  {
    var j := 4 + |RangeText(oldRange)|;
    HasAtFirst(s, j, " +");
    RangeEndOf(s, 4, oldRange);
    NewSideAtOf(s, j, newRange);
    HeaderAtFrom(s, j, newRange.start);
  }

  /** The pieces of the header expression put together. */
  lemma HeaderAtFrom(s: string, j: nat, start: nat)
    requires HasAt(s, 0, "@@ -") && RangeEnd(s, 4) == Some(j) && NewSideAt(s, j) == Some(start)
    ensures HeaderAt(s, 0) == Some(start)
  {
  }

  /** Round trip: a line that begins with a well-formed header, whatever text
      follows it, yields the header's new-file start. */
  lemma ParseFormat(oldRange: Range, newRange: Range, tail: string)
    ensures Parse(Format(oldRange, newRange) + tail) == Some(newRange.start)
  {
    var s := Format(oldRange, newRange) + tail;
    HeaderAtFormat(oldRange, newRange, tail);
    LeftmostFirst(Headers(s), 0, |s|);
  }
}
