/** Strings as the analyzer sees them: JavaScript's whitespace class, prefix and
    substring tests, `trim`, `substring(0, n)`, `split('\n')` and the decimal
    digits that `parseInt` reads. Strings are sequences of code points. */
module Text {
  import opened Wrappers

  /** The JavaScript `\s` class, which is also the set `String.prototype.trim`
      strips: the WhiteSpace and LineTerminator code points. */
  predicate IsSpace(c: char) {
    || c == ' ' || c == '\t' || c == '\n' || c == '\r'
    || c == '\U{000B}' || c == '\U{000C}' || c == '\U{00A0}' || c == '\U{1680}'
    || ('\U{2000}' <= c <= '\U{200A}')
    || c == '\U{2028}' || c == '\U{2029}' || c == '\U{202F}' || c == '\U{205F}'
    || c == '\U{3000}' || c == '\U{FEFF}'
  }

  /** The code points that `.` does not match in a JavaScript regular
      expression written without the `s` flag. */
  predicate IsLineTerminator(c: char) {
    c == '\n' || c == '\r' || c == '\U{2028}' || c == '\U{2029}'
  }

  /** `\d`: the ASCII decimal digits only. */
  predicate IsDigit(c: char) {
    '0' <= c <= '9'
  }

  /** `t` occurs in `s` starting at offset `i`. */
  predicate HasAt(s: string, i: nat, t: string) {
    i + |t| <= |s| && s[i..i + |t|] == t
  }

  /** `s.startsWith(t)`. */
  predicate StartsWith(s: string, t: string)
    ensures StartsWith(s, t) && |t| > 0 ==> |s| > 0 && s[0] == t[0]
  {
    HasAt(s, 0, t)
  }

  /** `t` is what remains of `s` after dropping a prefix. */
  predicate IsSuffix(s: string, t: string) {
    |t| <= |s| && t == s[|s| - |t|..]
  }

  /** `s.includes(t)`: `t` occurs somewhere in `s`. */
  predicate Contains(s: string, t: string) {
    exists i: nat | i <= |s| :: HasAt(s, i, t)
  }

  /** `at` fails at every offset in `[i, k)`. */
  ghost predicate NoneBetween<T>(at: nat -> Option<T>, i: nat, k: nat) {
    forall j :: i <= j < k ==> at(j).None?
  }

  /** The result of `at` at the leftmost offset in `[i, n]` where it succeeds:
      how an unanchored regular expression search picks its match. */
  function Leftmost<T(==)>(at: nat -> Option<T>, i: nat, n: nat): (r: Option<T>)
    requires i <= n
    ensures r.Some? ==> exists k :: i <= k <= n && at(k) == r && NoneBetween(at, i, k)
    ensures r.None? ==> NoneBetween(at, i, n + 1)
    decreases n - i
  {
    if at(i).Some? then
      assert NoneBetween(at, i, i);
      at(i)
    else if i == n then None
    else
      var r := Leftmost(at, i + 1, n);
      assert r.Some? ==> exists k :: i <= k <= n && at(k) == r && NoneBetween(at, i, k) by {
        if r.Some? {
          var k :| i + 1 <= k <= n && at(k) == r && NoneBetween(at, i + 1, k);
          assert NoneBetween(at, i, k);
        }
      }
      r
  }

  /** A search whose first candidate offset succeeds returns that result. */
  lemma LeftmostFirst<T>(at: nat -> Option<T>, i: nat, n: nat)
    requires i <= n && at(i).Some?
    ensures Leftmost(at, i, n) == at(i)
  {
  }

  /** A search returns the result at the first offset where `at` succeeds. */
  lemma {:induction false} LeftmostAt<T>(at: nat -> Option<T>, i: nat, n: nat, k: nat)
    requires i <= k <= n && at(k).Some? && NoneBetween(at, i, k)
    ensures Leftmost(at, i, n) == at(k)
    decreases k - i
  {
    if i < k {
      assert at(i).None?;
      LeftmostAt(at, i + 1, n, k);
    }
  }

  /** Drops leading whitespace: what `\s*` consumes, and the first half of `trim`. */
  function TrimStart(s: string): (r: string)
    ensures |r| <= |s| && r == s[|s| - |r|..]
    ensures forall i :: 0 <= i < |s| - |r| ==> IsSpace(s[i])
    ensures |r| > 0 ==> !IsSpace(r[0])
    decreases |s|
  {
    if |s| > 0 && IsSpace(s[0]) then TrimStart(s[1..]) else s
  }

  /** Drops trailing whitespace: the second half of `trim`. */
  function TrimEnd(s: string): (r: string)
    ensures |r| <= |s| && r == s[..|r|]
    ensures forall i :: |r| <= i < |s| ==> IsSpace(s[i])
    ensures |r| > 0 ==> !IsSpace(r[|r| - 1])
    decreases |s|
  {
    if |s| > 0 && IsSpace(s[|s| - 1]) then TrimEnd(s[..|s| - 1]) else s
  }

  /** `r` is `s` with `a` whitespace code points removed in front and only
      whitespace removed behind. */
  ghost predicate TrimmedAt(s: string, a: nat, r: string) {
    && HasAt(s, a, r)
    && (forall i :: 0 <= i < a ==> IsSpace(s[i]))
    && (forall i :: a + |r| <= i < |s| ==> IsSpace(s[i]))
  }

  /** `s.trim()`: an infix of `s` that neither starts nor ends with whitespace,
      obtained by removing only whitespace on either side; what goes in front
      is exactly what `TrimStart` removes. */
  function Trim(s: string): (r: string)
    ensures TrimmedAt(s, |s| - |TrimStart(s)|, r)
    ensures |r| > 0 ==> !IsSpace(r[0]) && !IsSpace(r[|r| - 1])
  {
    var t := TrimStart(s);
    var r := TrimEnd(t);
    TrimmedParts(s, t, r);
    assert |r| > 0 ==> r[0] == t[0];
    r
  }

  /** Whitespace removed from the front of `s`, then from the back of what
      remains, leaves an infix of `s` trimmed at the first cut. */
  lemma TrimmedParts(s: string, t: string, r: string)
    requires |t| <= |s| && t == s[|s| - |t|..]
    requires forall i :: 0 <= i < |s| - |t| ==> IsSpace(s[i])
    requires |r| <= |t| && r == t[..|r|]
    requires forall i :: |r| <= i < |t| ==> IsSpace(t[i])
    ensures TrimmedAt(s, |s| - |t|, r)
  {
    var a := |s| - |t|;
    forall i | a + |r| <= i < |s|
      ensures IsSpace(s[i])
    {
      assert s[i] == t[i - a];
    }
  }

  /** Every code point of `s` is whitespace. */
  predicate AllSpace(s: string) {
    forall i :: 0 <= i < |s| ==> IsSpace(s[i])
  }

  /** Trimming only ever removes whitespace: the result is empty exactly when
      every code point of the input is whitespace. */
  lemma TrimEmptyIff(s: string)
    ensures Trim(s) == [] <==> AllSpace(s)
  {
    if Trim(s) != [] {
      assert !IsSpace(Trim(s)[0]);
    }
  }

  /** Leading whitespace does not decide whether a string is all whitespace. */
  lemma TrimStartAllSpace(s: string)
    ensures AllSpace(TrimStart(s)) <==> AllSpace(s)
  {
    var t := TrimStart(s);
    if AllSpace(t) && t != [] {
      assert false;
    }
  }

  /** `s.substring(0, n)`. */
  function Take(s: string, n: nat): (r: string)
    ensures |r| == if |s| <= n then |s| else n
    ensures r == s[..|r|]
  {
    if |s| <= n then s else s[..n]
  }

  /** `s.split('\n')`: never empty, one more piece than there are newlines. */
  function Split(s: string): (lines: seq<string>)
    ensures |lines| >= 1
    ensures forall k :: 0 <= k < |lines| ==> '\n' !in lines[k]
    ensures Join(lines) == s
    decreases |s|
  {
    if |s| == 0 then [""]
    else
      var rest := Split(s[1..]);
      if s[0] == '\n' then [""] + rest
      else [[s[0]] + rest[0]] + rest[1..]
  }

  /** `lines.join('\n')`, the inverse of `Split`. */
  function Join(lines: seq<string>): string
    requires |lines| >= 1
  {
    if |lines| == 1 then lines[0] else lines[0] + ("\n" + Join(lines[1..]))
  }

  /** Splitting a joined list of newline-free pieces gives the pieces back. */
  lemma {:induction false} SplitJoin(lines: seq<string>)
    requires |lines| >= 1
    requires forall k :: 0 <= k < |lines| ==> '\n' !in lines[k]
    ensures Split(Join(lines)) == lines
    decreases |lines|
  {
    if |lines| == 1 {
      SplitNoNewline(lines[0]);
    } else {
      SplitJoin(lines[1..]);
      SplitAfterLine(lines[0], Join(lines[1..]));
      assert [lines[0]] + lines[1..] == lines;
    }
  }

  /** A newline-free line followed by a newline splits off as the first piece. */
  lemma SplitAfterLine(a: string, j: string)
    requires '\n' !in a
    ensures Split(a + ("\n" + j)) == [a] + Split(j)
  {
    SplitLeadingNewline(j);
    SplitAfterPrefix(a, "\n" + j);
    assert a + "" == a;
  }

  /** A leading newline splits off an empty first piece. */
  lemma SplitLeadingNewline(j: string)
    ensures Split("\n" + j)[0] == "" && Split("\n" + j)[1..] == Split(j)
  {
    var rest := "\n" + j;
    assert rest[0] == '\n' && rest[1..] == j;
  }

  /** A newline-free string splits into itself. */
  lemma {:induction false} SplitNoNewline(s: string)
    requires '\n' !in s
    ensures Split(s) == [s]
    decreases |s|
  {
    if |s| > 0 {
      SplitNoNewline(s[1..]);
      assert [s[0]] + s[1..] == s;
    }
  }

  /** A newline-free prefix glues onto the first piece of what follows it. */
  lemma {:induction false} SplitAfterPrefix(a: string, t: string)
    requires '\n' !in a
    ensures Split(a + t) == [a + Split(t)[0]] + Split(t)[1..]
    decreases |a|
  {
    if |a| > 0 {
      SplitAfterPrefix(a[1..], t);
      assert (a + t)[0] == a[0] && (a + t)[1..] == a[1..] + t;
      var rest := Split(a[1..] + t);
      assert Split(a + t) == [[a[0]] + rest[0]] + rest[1..];
      assert rest[0] == a[1..] + Split(t)[0];
      assert rest[1..] == Split(t)[1..];
      assert [a[0]] + (a[1..] + Split(t)[0]) == a + Split(t)[0];
    } else {
      assert a + t == t && a + Split(t)[0] == Split(t)[0];
    }
  }

  /** The value of an ASCII digit. */
  function DigitValue(c: char): nat
    requires IsDigit(c)
  {
    c as int - '0' as int
  }

  /** The digit character for a value below ten. */
  function DigitChar(d: nat): (c: char)
    requires d < 10
    ensures IsDigit(c) && DigitValue(c) == d
  {
    ('0' as int + d) as char
  }

  predicate AllDigits(s: string) {
    forall k :: 0 <= k < |s| ==> IsDigit(s[k])
  }

  /** `parseInt` of a string of ASCII digits, leading zeros allowed. */
  function DigitsValue(s: string): nat
    requires AllDigits(s)
    decreases |s|
  {
    if |s| == 0 then 0 else DigitsValue(s[..|s| - 1]) * 10 + DigitValue(s[|s| - 1])
  }

  /** The shortest decimal spelling of `n`. */
  function NatDigits(n: nat): (s: string)
    ensures |s| >= 1 && AllDigits(s)
  {
    if n < 10 then [DigitChar(n)] else NatDigits(n / 10) + [DigitChar(n % 10)]
  }

  /** Reading back a decimal spelling gives the number. */
  lemma {:induction false} DigitsRoundTrip(n: nat)
    ensures DigitsValue(NatDigits(n)) == n
  {
    if n >= 10 {
      DigitsRoundTrip(n / 10);
      var s := NatDigits(n);
      assert s[..|s| - 1] == NatDigits(n / 10);
    }
  }

  /** Length of the run of digits starting at `i`: what a greedy `\d*` takes. */
  function DigitRun(s: string, i: nat): (k: nat)
    ensures i + k <= |s| || k == 0
    ensures forall j :: i <= j < i + k ==> IsDigit(s[j])
    ensures i + k >= |s| || !IsDigit(s[i + k])
    decreases |s| - i
  {
    if i < |s| && IsDigit(s[i]) then 1 + DigitRun(s, i + 1) else 0
  }
}
