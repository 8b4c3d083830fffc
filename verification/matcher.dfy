/** One rule's pass over the diff lines, shared by `findViolations` and
    `findViolationsGrouped`: `regex.test(line)` on every line with the
    expression's `lastIndex` carried from one line to the next, the
    located-line filter, and the cleaned snippet. */
module Matcher {
  import opened Wrappers
  import opened Text
  import opened Locator
  import Rules

  /** A compiled case-insensitive pattern searched in `text` from offset
      `from`: the end offset of the leftmost match that starts at or after
      `from`, if there is one. The regular-expression engine itself is a
      parameter of the model; the arguments are pattern, text and offset. */
  type Search = (string, string, nat) -> Option<nat>

  /** A search procedure and the `g` flag of the compiled expression. */
  datatype Engine = Engine(search: Search, global: bool)

  /** analyzer.js compiles every pattern with the flags `'gi'`. */
  const SourceGlobal := true

  /** The answer of one `test` call and the `lastIndex` it leaves behind. */
  datatype Outcome = Outcome(hit: bool, lastIndex: nat)

  /** `regex.test(text)` from a given `lastIndex`, following RegExpBuiltinExec
      of ECMA-262: a global expression searches from `lastIndex`, and a miss,
      or a `lastIndex` past the end of the text, resets it to 0; a hit moves it
      to the end of the match. A non-global expression always searches the
      whole text and leaves `lastIndex` alone. */
  function Test(e: Engine, pattern: string, text: string, lastIndex: nat): (o: Outcome)
    ensures !e.global ==> o.lastIndex == lastIndex && (o.hit <==> e.search(pattern, text, 0).Some?)
    ensures e.global ==> (o.hit <==> lastIndex <= |text| && e.search(pattern, text, lastIndex).Some?)
    ensures e.global && o.hit ==> o.lastIndex == e.search(pattern, text, lastIndex).value
    ensures e.global && !o.hit ==> o.lastIndex == 0
  {
    if !e.global then Outcome(e.search(pattern, text, 0).Some?, lastIndex)
    else if lastIndex > |text| then Outcome(false, 0)
    else
      match e.search(pattern, text, lastIndex)
      case None => Outcome(false, 0)
      case Some(end) => Outcome(true, end)
  }

  /** The `lastIndex` of a rule's expression when it reaches line `i`: every
      earlier line has been tested, whether or not it was an addition. */
  function LastIndexBefore(e: Engine, pattern: string, texts: seq<string>, i: nat): nat
    requires i <= |texts|
  {
    if i == 0 then 0
    else Test(e, pattern, texts[i - 1], LastIndexBefore(e, pattern, texts, i - 1)).lastIndex
  }

  /** `regex.test(line)` answers true on line `i` of the pass. */
  predicate Fires(e: Engine, pattern: string, texts: seq<string>, i: nat)
    requires i < |texts|
  {
    Test(e, pattern, texts[i], LastIndexBefore(e, pattern, texts, i)).hit
  }

  /** A non-global expression's `lastIndex` never moves from 0. */
  lemma {:induction false} NonGlobalStaysAtZero(e: Engine, pattern: string, texts: seq<string>, i: nat)
    requires !e.global && i <= |texts|
    ensures LastIndexBefore(e, pattern, texts, i) == 0
  {
    if i > 0 {
      NonGlobalStaysAtZero(e, pattern, texts, i - 1);
    }
  }

  /** With a non-global expression, whether line `i` fires depends on that
      line alone: the same text at any position of any diff gives the same
      answer, the answer of a search of the whole line. */
  lemma PerLineTestIsIndependent(e: Engine, pattern: string, texts: seq<string>, i: nat, others: seq<string>, j: nat)
    requires !e.global
    requires i < |texts| && j < |others| && others[j] == texts[i]
    ensures Fires(e, pattern, texts, i) <==> e.search(pattern, texts[i], 0).Some?
    ensures Fires(e, pattern, texts, i) == Fires(e, pattern, others, j)
    ensures Test(e, pattern, texts[i], LastIndexBefore(e, pattern, texts, i)).lastIndex == 0
  {
    NonGlobalStaysAtZero(e, pattern, texts, i);
  }

  /** `.substring(0, 100)`. */
  const MaxSnippet: nat := 100

  /** `[\+\-]`: the change markers the cleaning removes. */
  predicate IsMarker(c: char) {
    c == '+' || c == '-'
  }

  /** `.replace(/^[\+\-]\s*\/, '')`: a leading `+` or `-` and all the
      whitespace that follows it; a line without a leading marker is kept
      whole. */
  function StripMarker(text: string): (r: string)
    ensures IsSuffix(text, r)
    ensures |text| > 0 && IsMarker(text[0]) ==>
              && |r| < |text|
              && (forall i :: 1 <= i < |text| - |r| ==> IsSpace(text[i]))
              && (|r| > 0 ==> !IsSpace(r[0]))
    ensures !(|text| > 0 && IsMarker(text[0])) ==> r == text
  {
    if |text| > 0 && IsMarker(text[0]) then
      var r := TrimStart(text[1..]);
      SkippedInLine(text, r);
      r
    else text
  }

  /** Whitespace skipped after the first code point is whitespace of the line. */
  lemma SkippedInLine(text: string, r: string)
    requires |text| > 0 && r == TrimStart(text[1..])
    ensures IsSuffix(text, r)
    ensures forall i :: 1 <= i < |text| - |r| ==> IsSpace(text[i])
  {
    var u := text[1..];
    forall i | 1 <= i < |text| - |r|
      ensures IsSpace(text[i])
    {
      assert text[i] == u[i - 1];
    }
    assert r == u[|u| - |r|..];
  }

  /** `t`, found at offset `a` of the line, is what the cleaning keeps
      before the cut: in front of it only a leading marker, which is always
      removed, and whitespace; behind it only whitespace; and it neither
      starts nor ends with whitespace. */
  ghost predicate CleanedAt(text: string, a: nat, t: string) {
    && HasAt(text, a, t)
    && (|text| > 0 && IsMarker(text[0]) ==> a >= 1)
    && (forall i :: 0 <= i < a ==> IsSpace(text[i]) || (i == 0 && IsMarker(text[i])))
    && (forall i :: a + |t| <= i < |text| ==> IsSpace(text[i]))
    && (|t| > 0 ==> !IsSpace(t[0]) && !IsSpace(t[|t| - 1]))
  }

  /** The cleaned line of a violation: marker removed, trimmed, cut to 100
      code points. It is the first 100 code points of the one piece of the
      line that `CleanedAt` describes; in particular it is a piece of the
      line, starts with a non-space, and ends with one when it is shorter
      than 100 code points. */
  function Snippet(text: string): (r: string)
    ensures |r| <= MaxSnippet
    ensures Contains(text, r)
    ensures |r| > 0 ==> !IsSpace(r[0])
    ensures 0 < |r| < MaxSnippet ==> !IsSpace(r[|r| - 1])
    ensures CutOfCleaned(text, r)
  {
    CleanedLine(text);
    CleanedSnippet(text);
    Take(Trim(StripMarker(text)), MaxSnippet)
  }

  /** Whatever cleaned piece of the line one finds, the snippet is its first
      100 code points. */
  lemma SnippetExact(text: string, a: nat, t: string)
    requires CleanedAt(text, a, t)
    ensures Snippet(text) == Take(t, MaxSnippet)
  {
  }

  /** `r` is the first 100 code points of a cleaned piece of the line, and
      of every cleaned piece of it. */
  ghost predicate CutOfCleaned(text: string, r: string) {
    && (exists a, t :: CleanedAt(text, a, t) && r == Take(t, MaxSnippet))
    && (forall a, t :: CleanedAt(text, a, t) ==> r == Take(t, MaxSnippet))
  }

  /** The cut of the marker-stripped, trimmed line is the cut of the one
      cleaned piece. */
  lemma CleanedSnippet(text: string)
    ensures CutOfCleaned(text, Take(Trim(StripMarker(text)), MaxSnippet))
  {
    var s := StripMarker(text);
    StrippedPrefix(text);
    var a := CleanedFromStripped(text, s);
    CleanedOnly(text, a, Trim(s));
  }

  /** The offset at which the trimmed suffix sits, as a cleaned piece. */
  lemma CleanedFromStripped(text: string, s: string) returns (a: nat)
    requires StrippedShape(text, s)
    ensures CleanedAt(text, a, Trim(s))
  {
    var t := Trim(s);
    var b: nat := |s| - |TrimStart(s)|;
    assert TrimmedAt(s, b, t);
    assert |t| > 0 ==> !IsSpace(t[0]) && !IsSpace(t[|t| - 1]);
    a := CleanedFromParts(text, s, b, t);
  }

  /** `s` is a suffix of the line, and what precedes it is a leading marker,
      always, and then only whitespace. */
  ghost predicate StrippedShape(text: string, s: string) {
    && IsSuffix(text, s)
    && (|text| > 0 && IsMarker(text[0]) ==> |text| - |s| >= 1)
    && forall i :: 0 <= i < |text| - |s| ==> IsSpace(text[i]) || (i == 0 && IsMarker(text[i]))
  }

  /** What `StripMarker` removes has that shape. */
  lemma StrippedPrefix(text: string)
    ensures StrippedShape(text, StripMarker(text))
  {
  }

  /** Once one cleaned piece is known, every cleaned piece is that one. */
  lemma CleanedOnly(text: string, a: nat, t: string)
    requires CleanedAt(text, a, t)
    ensures forall a', t' :: CleanedAt(text, a', t') ==> t' == t
  {
    forall a', t' | CleanedAt(text, a', t')
      ensures t' == t
    {
      CleanedUnique(text, a, t, a', t');
    }
  }

  /** A trimmed piece of a suffix that follows a removed prefix of that
      shape is a cleaned piece of the line. */
  lemma CleanedFromParts(text: string, s: string, b: nat, t: string) returns (a: nat)
    requires StrippedShape(text, s)
    requires TrimmedAt(s, b, t)
    requires |t| > 0 ==> !IsSpace(t[0]) && !IsSpace(t[|t| - 1])
    ensures a == |text| - |s| + b && CleanedAt(text, a, t)
  {
    var c := |text| - |s|;
    a := c + b;
    HasAtInSuffix(text, s, b, t);
    forall i | c <= i < c + b
      ensures IsSpace(text[i])
    {
      assert text[i] == s[i - c];
    }
    forall i | c + b + |t| <= i < |text|
      ensures IsSpace(text[i])
    {
      assert text[i] == s[i - c];
    }
  }

  /** An occurrence in a suffix is an occurrence in the whole string. */
  lemma HasAtInSuffix(text: string, s: string, b: nat, t: string)
    requires IsSuffix(text, s) && HasAt(s, b, t)
    ensures HasAt(text, |text| - |s| + b, t)
  {
    var c := |text| - |s|;
    forall k | 0 <= k < |t|
      ensures text[c + b + k] == t[k]
    {
      assert t[k] == s[b + k];
    }
  }

  /** Two cleaned pieces of the same line are the same piece. */
  lemma CleanedUnique(text: string, a: nat, t: string, a': nat, t': string)
    requires CleanedAt(text, a, t) && CleanedAt(text, a', t')
    ensures t == t'
  {
    if |t'| > 0 {
      Covers(text, a, t, a', t');
    }
    if |t| > 0 {
      Covers(text, a', t', a, t);
    }
  }

  /** A non-empty cleaned piece lies inside every cleaned piece of its line. */
  lemma Covers(text: string, a: nat, t: string, a': nat, t': string)
    requires CleanedAt(text, a, t) && CleanedAt(text, a', t') && |t'| > 0
    ensures |t| > 0 && a <= a' && a' + |t'| <= a + |t|
  {
    assert text[a'] == t'[0];
    assert text[a' + |t'| - 1] == t'[|t'| - 1];
    InPiece(text, a, t, a');
    InPiece(text, a, t, a' + |t'| - 1);
  }

  /** A non-space code point that is not the removed marker belongs to the
      cleaned piece. */
  lemma InPiece(text: string, a: nat, t: string, j: nat)
    requires CleanedAt(text, a, t)
    requires j < |text| && !IsSpace(text[j]) && (j == 0 ==> !IsMarker(text[0]))
    ensures a <= j < a + |t|
  {
  }

  /** The steps of `Snippet` keep a piece of the line with the ends it
      promises. */
  lemma CleanedLine(text: string)
    ensures var r := Take(Trim(StripMarker(text)), MaxSnippet);
            && |r| <= MaxSnippet && Contains(text, r)
            && (|r| > 0 ==> !IsSpace(r[0]))
            && (0 < |r| < MaxSnippet ==> !IsSpace(r[|r| - 1]))
  {
    var s := StripMarker(text);
    var t := Trim(s);
    CleanedPiece(text, s, |s| - |TrimStart(s)|, t, Take(t, MaxSnippet));
  }

  /** A cut of a trimmed suffix of the line is a piece of the line with the
      ends `Snippet` promises. */
  lemma CleanedPiece(text: string, s: string, a: nat, t: string, r: string)
    requires IsSuffix(text, s)
    requires HasAt(s, a, t)
    requires |t| > 0 ==> !IsSpace(t[0]) && !IsSpace(t[|t| - 1])
    requires r == Take(t, MaxSnippet)
    ensures |r| <= MaxSnippet
    ensures Contains(text, r)
    ensures |r| > 0 ==> !IsSpace(r[0])
    ensures 0 < |r| < MaxSnippet ==> !IsSpace(r[|r| - 1])
  {
    InfixOfTrimmedSuffix(text, s, a, t, r);
    CutKeepsEnds(t, r);
  }

  /** Cutting a string without whitespace at either end keeps a non-space
      first code point, and a non-space last one unless the cut shortened it. */
  lemma CutKeepsEnds(t: string, r: string)
    requires |t| > 0 ==> !IsSpace(t[0]) && !IsSpace(t[|t| - 1])
    requires r == Take(t, MaxSnippet)
    ensures |r| <= MaxSnippet
    ensures |r| > 0 ==> !IsSpace(r[0])
    ensures 0 < |r| < MaxSnippet ==> !IsSpace(r[|r| - 1])
  {
    if 0 < |r| {
      assert r[0] == t[0];
    }
    if 0 < |r| < MaxSnippet {
      assert r == t;
    }
  }

  /** A prefix of a trimmed suffix of `text` occurs in `text`. */
  lemma InfixOfTrimmedSuffix(text: string, s: string, a: nat, t: string, r: string)
    requires IsSuffix(text, s)
    requires HasAt(s, a, t)
    requires |r| <= |t| && r == t[..|r|]
    ensures Contains(text, r)
  {
    var b := |text| - |s| + a;
    forall k | 0 <= k < |r|
      ensures text[b + k] == r[k]
    {
      assert r[k] == t[k] == s[a + k];
    }
    assert HasAt(text, b, r);
  }

  /** An added line yields an empty snippet, and so no violation, exactly
      when everything after its `+` is whitespace. */
  lemma SnippetEmptyIff(text: string)
    requires IsAddition(text)
    ensures Snippet(text) == [] <==> AllSpace(text[1..])
  {
    var u := text[1..];
    assert StripMarker(text) == TrimStart(u);
    var t := Trim(TrimStart(u));
    assert Snippet(text) == [] <==> t == [] by {
      assert Snippet(text) == Take(t, MaxSnippet);
    }
    TrimEmptyIff(TrimStart(u));
    TrimStartAllSpace(u);
  }

  /** One entry of the violations found by a pass: the diff line's index, the
      location the locator recorded for it and its snippet. */
  datatype Hit = Hit(index: nat, at: Location, code: string)

  /** What line `i` contributes when the expression fires on it: an entry
      exactly when the locator recorded the line (an added line) and its
      snippet is not empty. */
  function Candidate(texts: seq<string>, locs: map<nat, Location>, i: nat): (c: Option<Hit>)
    requires i < |texts|
    ensures c.Some? <==> i + 1 in locs && Snippet(texts[i]) != []
    ensures c.Some? ==> c.value == Hit(i, locs[i + 1], Snippet(texts[i]))
  {
    var code := Snippet(texts[i]);
    if i + 1 in locs && code != [] then Some(Hit(i, locs[i + 1], code)) else None
  }

  /** Line `i` produces an entry of the pass. */
  predicate Keeps(e: Engine, pattern: string, texts: seq<string>, locs: map<nat, Location>, i: nat)
    requires i < |texts|
  {
    Fires(e, pattern, texts, i) && Candidate(texts, locs, i).Some?
  }

  /** The `test` answers of the `diffLines.forEach` loop from line `i` on,
      given the expression's `lastIndex` on arrival and the answers so far. */
  function FiredFrom(e: Engine, pattern: string, texts: seq<string>, i: nat, lastIndex: nat, acc: seq<bool>): (fs: seq<bool>)
    requires i <= |texts| && |acc| == i
    requires lastIndex == LastIndexBefore(e, pattern, texts, i)
    requires forall k :: 0 <= k < i ==> acc[k] == Fires(e, pattern, texts, k)
    ensures |fs| == |texts|
    ensures forall k :: 0 <= k < |texts| ==> fs[k] == Fires(e, pattern, texts, k)
    decreases |texts| - i
  {
    if i == |texts| then acc
    else
      var o := Test(e, pattern, texts[i], lastIndex);
      FiredFrom(e, pattern, texts, i + 1, o.lastIndex, acc + [o.hit])
  }

  /** The entries offered by every line. */
  function Candidates(texts: seq<string>, locs: map<nat, Location>): (cs: seq<Option<Hit>>)
    ensures |cs| == |texts|
    ensures forall i :: 0 <= i < |texts| ==> cs[i] == Candidate(texts, locs, i)
  {
    seq(|texts|, i requires 0 <= i < |texts| => Candidate(texts, locs, i))
  }

  /** `hs` holds, in line order and once each, the entries offered by the
      first `n` lines on which the expression fired. */
  ghost predicate Selected(fs: seq<bool>, cs: seq<Option<Hit>>, n: nat, hs: seq<Hit>)
    requires n <= |fs| == |cs|
  {
    && (forall j :: 0 <= j < |hs| ==> hs[j].index < n && fs[hs[j].index] && cs[hs[j].index] == Some(hs[j]))
    && (forall j, k :: 0 <= j < k < |hs| ==> hs[j].index < hs[k].index)
    && (forall i :: 0 <= i < n && fs[i] && cs[i].Some? ==> exists j :: 0 <= j < |hs| && hs[j].index == i)
  }

  /** The `violations.push` half of the loop, from line `i` on. */
  function SelectFrom(fs: seq<bool>, cs: seq<Option<Hit>>, i: nat, acc: seq<Hit>): (hs: seq<Hit>)
    requires i <= |fs| == |cs|
    requires forall k :: 0 <= k < |cs| && cs[k].Some? ==> cs[k].value.index == k
    requires Selected(fs, cs, i, acc)
    ensures Selected(fs, cs, |fs|, hs)
    decreases |fs| - i
  {
    if i == |fs| then acc
    else
      var next := if fs[i] && cs[i].Some? then acc + [cs[i].value] else acc;
      assert Selected(fs, cs, i + 1, next) by {
        forall i' | 0 <= i' < i + 1 && fs[i'] && cs[i'].Some?
          ensures exists j :: 0 <= j < |next| && next[j].index == i'
        {
          if i' == i {
            assert next[|next| - 1].index == i;
          } else {
            var j :| 0 <= j < |acc| && acc[j].index == i';
            assert next[j] == acc[j];
          }
        }
      }
      SelectFrom(fs, cs, i + 1, next)
  }

  /** One pass of a rule's expression over the whole diff, the loop body of
      `findViolations` and `findViolationsGrouped`: the entries of exactly the
      kept lines, each once, in the order of the diff. */
  function Scan(e: Engine, pattern: string, texts: seq<string>, locs: map<nat, Location>): (hs: seq<Hit>)
    ensures forall j :: 0 <= j < |hs| ==>
              && hs[j].index < |texts| && Fires(e, pattern, texts, hs[j].index)
              && Candidate(texts, locs, hs[j].index) == Some(hs[j])
    ensures forall j, k :: 0 <= j < k < |hs| ==> hs[j].index < hs[k].index
    ensures forall i :: 0 <= i < |texts| && Keeps(e, pattern, texts, locs, i) ==> exists j :: 0 <= j < |hs| && hs[j].index == i
  {
    var fs := FiredFrom(e, pattern, texts, 0, 0, []);
    var cs := Candidates(texts, locs);
    var hs := SelectFrom(fs, cs, 0, []);
    SelectedKept(e, pattern, texts, locs, fs, cs, hs);
    hs
  }

  /** Selecting over the fired flags and the candidates of every line
      collects exactly the kept lines. */
  lemma SelectedKept(e: Engine, pattern: string, texts: seq<string>, locs: map<nat, Location>,
                     fs: seq<bool>, cs: seq<Option<Hit>>, hs: seq<Hit>)
    requires |fs| == |texts| && forall k :: 0 <= k < |texts| ==> fs[k] == Fires(e, pattern, texts, k)
    requires |cs| == |texts| && forall i :: 0 <= i < |texts| ==> cs[i] == Candidate(texts, locs, i)
    requires Selected(fs, cs, |fs|, hs)
    ensures forall j :: 0 <= j < |hs| ==>
              && hs[j].index < |texts| && Fires(e, pattern, texts, hs[j].index)
              && Candidate(texts, locs, hs[j].index) == Some(hs[j])
    ensures forall j, k :: 0 <= j < k < |hs| ==> hs[j].index < hs[k].index
    ensures forall i :: 0 <= i < |texts| && Keeps(e, pattern, texts, locs, i) ==> exists j :: 0 <= j < |hs| && hs[j].index == i
  {
  }


  /** Which lines are kept. */
  function KeptFlags(e: Engine, pattern: string, texts: seq<string>, locs: map<nat, Location>): (ks: seq<bool>)
    ensures |ks| == |texts|
    ensures forall i :: 0 <= i < |texts| ==> ks[i] == Keeps(e, pattern, texts, locs, i)
  {
    seq(|texts|, i requires 0 <= i < |texts| => Keeps(e, pattern, texts, locs, i))
  }

  /** How many of the first `n` flags are set. */
  function CountSet(ks: seq<bool>, n: nat): nat
    requires n <= |ks|
  {
    if n == 0 then 0 else CountSet(ks, n - 1) + (if ks[n - 1] then 1 else 0)
  }

  /** The number of kept lines before line `n`: the position a kept line
      `n` takes among the collected entries. */
  function KeptBefore(e: Engine, pattern: string, texts: seq<string>, locs: map<nat, Location>, n: nat): nat
    requires n <= |texts|
  {
    CountSet(KeptFlags(e, pattern, texts, locs), n)
  }

  /** `hs` lists, once each and in order, exactly the lines whose flag is set. */
  ghost predicate Enumerates(ks: seq<bool>, hs: seq<Hit>) {
    && (forall j :: 0 <= j < |hs| ==> hs[j].index < |ks| && ks[hs[j].index])
    && (forall j, k :: 0 <= j < k < |hs| ==> hs[j].index < hs[k].index)
    && (forall i :: 0 <= i < |ks| && ks[i] ==> exists j :: 0 <= j < |hs| && hs[j].index == i)
  }

  /** The entries on lines before `n` are exactly the first `CountSet(ks, n)`. */
  lemma {:induction false} CountedPrefix(ks: seq<bool>, hs: seq<Hit>, n: nat)
    requires Enumerates(ks, hs) && n <= |ks|
    ensures CountSet(ks, n) <= |hs|
    ensures forall j :: 0 <= j < CountSet(ks, n) ==> hs[j].index < n
    ensures CountSet(ks, n) < |hs| ==> hs[CountSet(ks, n)].index >= n
  {
    if n > 0 {
      CountedPrefix(ks, hs, n - 1);
      var c := CountSet(ks, n - 1);
      if ks[n - 1] {
        var j :| 0 <= j < |hs| && hs[j].index == n - 1;
        SlotOf(hs, c, j, n - 1);
      } else if c < |hs| {
        assert ks[hs[c].index];
      }
    }
  }

  /** In a list with strictly increasing indices, the entry on line `m`
      sits right after the entries on earlier lines. */
  lemma SlotOf(hs: seq<Hit>, c: nat, j: nat, m: nat)
    requires forall a, b :: 0 <= a < b < |hs| ==> hs[a].index < hs[b].index
    requires c <= |hs| && forall a :: 0 <= a < c ==> hs[a].index < m
    requires c < |hs| ==> hs[c].index >= m
    requires j < |hs| && hs[j].index == m
    ensures j == c
  {
  }

  /** A flagged line sits at the position counting the flags before it. */
  lemma Position(ks: seq<bool>, hs: seq<Hit>, i: nat)
    requires Enumerates(ks, hs) && i < |ks| && ks[i]
    ensures CountSet(ks, i) < |hs| && hs[CountSet(ks, i)].index == i
  {
    CountedPrefix(ks, hs, i);
    CountedPrefix(ks, hs, i + 1);
  }

  /** Each entry sits at the position counting the flags before its line,
      and there are as many entries as flags. */
  lemma Enumeration(ks: seq<bool>, hs: seq<Hit>)
    requires Enumerates(ks, hs)
    ensures |hs| == CountSet(ks, |ks|)
    ensures forall j :: 0 <= j < |hs| ==> CountSet(ks, hs[j].index) == j
  {
    CountedPrefix(ks, hs, |ks|);
    forall j | 0 <= j < |hs|
      ensures CountSet(ks, hs[j].index) == j
    {
      Position(ks, hs, hs[j].index);
      SlotOf(hs, CountSet(ks, hs[j].index), j, hs[j].index);
    }
  }

  /** The pass collects the kept lines and nothing else: entry `k` is the
      `k`-th kept line, and there is one entry per kept line. */
  lemma ScanExact(e: Engine, pattern: string, texts: seq<string>, locs: map<nat, Location>)
    ensures var hs := Scan(e, pattern, texts, locs);
            && |hs| == KeptBefore(e, pattern, texts, locs, |texts|)
            && (forall j :: 0 <= j < |hs| ==> KeptBefore(e, pattern, texts, locs, hs[j].index) == j)
            && (forall i :: 0 <= i < |texts| && Keeps(e, pattern, texts, locs, i) ==>
                  KeptBefore(e, pattern, texts, locs, i) < |hs| && hs[KeptBefore(e, pattern, texts, locs, i)].index == i)
  {
    var hs := Scan(e, pattern, texts, locs);
    var ks := KeptFlags(e, pattern, texts, locs);
    assert Enumerates(ks, hs);
    Enumeration(ks, hs);
    forall i | 0 <= i < |texts| && Keeps(e, pattern, texts, locs, i)
      ensures KeptBefore(e, pattern, texts, locs, i) < |hs| && hs[KeptBefore(e, pattern, texts, locs, i)].index == i
    {
      Position(ks, hs, i);
    }
  }
  /** The entries a rule files: the first `max` for `findViolationsGrouped`
      (`violations.slice(0, 3)`), all of them for `findViolations`. */
  function Cap(mode: Rules.Mode, hs: seq<Hit>): (r: seq<Hit>)
    ensures |r| <= |hs| && r == hs[..|r|]
    ensures mode.Uncapped? ==> r == hs
    ensures mode.Capped? ==> |r| == if |hs| <= mode.max then |hs| else mode.max
  {
    match mode
    case Uncapped => hs
    case Capped(max) => if |hs| <= max then hs else hs[..max]
  }

  // A literal searcher, enough to exhibit how the carried `lastIndex` behaves.

  /** ASCII letters without case, as the `i` flag compares them. */
  function Fold(c: char): char {
    if 'A' <= c <= 'Z' then (c as int + 32) as char else c
  }

  /** `pattern`, read as literal text, occurs at offset `k` of `text`. */
  predicate OccursAt(text: string, k: nat, pattern: string) {
    k + |pattern| <= |text| && forall j :: 0 <= j < |pattern| ==> Fold(text[k + j]) == Fold(pattern[j])
  }

  /** The end of the literal occurrence at offset `k`, if one starts there. */
  function LiteralAt(text: string, pattern: string, k: nat): Option<nat> {
    if OccursAt(text, k, pattern) then Some(k + |pattern|) else None
  }

  /** A `Search` for patterns without metacharacters: the end of the
      leftmost literal occurrence at or after `from`. */
  function LiteralFind(pattern: string, text: string, from: nat): (r: Option<nat>)
    ensures r.Some? ==> exists k :: from <= k && OccursAt(text, k, pattern) && r.value == k + |pattern|
    ensures r.None? ==> forall k :: from <= k ==> !OccursAt(text, k, pattern)
  {
    if from > |text| then None
    else
      var at := (k: nat) => LiteralAt(text, pattern, k);
      var r := Leftmost(at, from, |text|);
      assert r.Some? ==> exists k :: from <= k && OccursAt(text, k, pattern) && r.value == k + |pattern| by {
        if r.Some? {
          var k :| from <= k <= |text| && at(k) == r && NoneBetween(at, from, k);
          assert LiteralAt(text, pattern, k) == r;
        }
      }
      assert r.None? ==> forall k :: from <= k ==> !OccursAt(text, k, pattern) by {
        if r.None? {
          forall k | from <= k ensures !OccursAt(text, k, pattern) {
            if k <= |text| {
              assert at(k).None?;
            }
          }
        }
      }
      r
  }

  /** The lines of the counterexample: the pattern is indented on the first
      added line and not on the second. */
  const StaleLines: seq<string> := ["+  " + Statement, ['+'] + Statement]

  /** The statement the counterexample's lines hold. */
  const Statement := "debugger;"

  /** The counterexample's pattern is the expression of analyzer.js's
      `debugger;` call, which runs on every diff. Its text has no
      metacharacter, so the literal searcher is how the expression searches
      these lines. */
  lemma StatementIsDebuggerRule()
    ensures Rules.SourceRules[22].pattern == Statement
    ensures Rules.SourceRules[22].gate == Rules.Always
  {
    Rules.DebuggerRule();
  }

  /** The `g` flag of analyzer.js makes `test` stateful: after the first
      line matches, `lastIndex` is 12, past the end of the 10-code-point second
      line, so the second line is not reported although it holds the very
      same statement and is located. */
  lemma StaleLastIndexSkipsMatch()
    ensures Keeps(Engine(LiteralFind, SourceGlobal), Statement, StaleLines, Locate(StaleLines), 0)
    ensures Contains(StaleLines[1], Statement) && 2 in Locate(StaleLines)
    ensures !Fires(Engine(LiteralFind, SourceGlobal), Statement, StaleLines, 1)
  {
    var e := Engine(LiteralFind, SourceGlobal);
    StaleFirstMatch();
    GlobalFirstLine(e, Statement, StaleLines);
    StatementStarts();
    KeptWhenFires(e, 0, 3);
    GlobalPastEnd(e, Statement, StaleLines, 1);
    StaleLinesLocated();
    OccursAfterMarker('+', Statement);
  }

  /** A global expression that matches the first line fires there and
      leaves `lastIndex` at the end of that match for the second. */
  lemma GlobalFirstLine(e: Engine, pattern: string, texts: seq<string>)
    requires e.global && |texts| > 0 && e.search(pattern, texts[0], 0).Some?
    ensures Fires(e, pattern, texts, 0)
    ensures LastIndexBefore(e, pattern, texts, 1) == e.search(pattern, texts[0], 0).value
  {
  }

  /** A global expression whose `lastIndex` is past the end of a line does
      not fire on it, whatever the line holds. */
  lemma GlobalPastEnd(e: Engine, pattern: string, texts: seq<string>, i: nat)
    requires e.global && i < |texts| && LastIndexBefore(e, pattern, texts, i) > |texts[i]|
    ensures !Fires(e, pattern, texts, i)
  {
  }

  /** A text placed after a one-code-point marker occurs at offset 1. */
  lemma OccursAfterMarker(marker: char, t: string)
    ensures HasAt([marker] + t, 1, t)
  {
    assert ([marker] + t)[1..1 + |t|] == t;
  }

  /** Compiled without the `g` flag, the same expression reports both lines
      of the counterexample. */
  lemma PerLineReportsBoth()
    ensures Keeps(Engine(LiteralFind, false), Statement, StaleLines, Locate(StaleLines), 0)
    ensures Keeps(Engine(LiteralFind, false), Statement, StaleLines, Locate(StaleLines), 1)
  {
    PerLineFirst();
    PerLineSecond();
  }

  /** The first line: the statement after two spaces. */
  lemma PerLineFirst()
    ensures Keeps(Engine(LiteralFind, false), Statement, StaleLines, Locate(StaleLines), 0)
  {
    var e := Engine(LiteralFind, false);
    StaleFirstMatch();
    PerLineTestIsIndependent(e, Statement, StaleLines, 0, StaleLines, 0);
    StatementStarts();
    KeptWhenFires(e, 0, 3);
  }

  /** The second line: the statement right after the marker. */
  lemma PerLineSecond()
    ensures Keeps(Engine(LiteralFind, false), Statement, StaleLines, Locate(StaleLines), 1)
  {
    var e := Engine(LiteralFind, false);
    FindAfterMarker('+', Statement);
    PerLineTestIsIndependent(e, Statement, StaleLines, 1, StaleLines, 1);
    StatementStarts();
    KeptWhenFires(e, 1, 1);
  }

  /** Where the statement starts on each line of the counterexample. */
  lemma StatementStarts()
    ensures 3 < |StaleLines[0]| && !IsSpace(StaleLines[0][3])
    ensures 1 < |StaleLines[1]| && !IsSpace(StaleLines[1][1])
  {
    assert StaleLines[0][3] == Statement[0];
    assert StaleLines[1][1] == Statement[0];
  }

  /** A line of the counterexample on which the expression fires is kept:
      it is located and its snippet is not blank. */
  lemma KeptWhenFires(e: Engine, i: nat, k: nat)
    requires i < |StaleLines|
    requires 1 <= k < |StaleLines[i]|
    requires !IsSpace(StaleLines[i][k])
    requires Fires(e, Statement, StaleLines, i)
    ensures Keeps(e, Statement, StaleLines, Locate(StaleLines), i)
  {
    StaleLinesLocated();
    SnippetNotEmpty(StaleLines[i], k);
  }

  /** A text right after a one-code-point marker that does not start it is
      found there. */
  lemma FindAfterMarker(marker: char, t: string)
    requires |t| > 0 && Fold(marker) != Fold(t[0])
    ensures LiteralFind(t, [marker] + t, 0) == Some(1 + |t|)
  {
    MarkerOccurrences(marker, t);
    LiteralFindLeftmost(t, [marker] + t, 0, 1);
  }

  /** Behind a marker that does not start it, a text occurs at offset 1 and
      not at offset 0. */
  lemma MarkerOccurrences(marker: char, t: string)
    requires |t| > 0 && Fold(marker) != Fold(t[0])
    ensures !OccursAt([marker] + t, 0, t) && OccursAt([marker] + t, 1, t)
  {
    var s := [marker] + t;
    assert Fold(s[0]) != Fold(t[0]);
    forall j | 0 <= j < |t|
      ensures Fold(s[1 + j]) == Fold(t[j])
    {
      assert s[1 + j] == t[j];
    }
  }

  /** On the first line the leftmost occurrence ends at offset 12. */
  lemma StaleFirstMatch()
    ensures LiteralFind(Statement, StaleLines[0], 0) == Some(12)
  {
    var t0 := StaleLines[0];
    forall j | 0 <= j < 3
      ensures !OccursAt(t0, j, Statement)
    {
      assert Fold(t0[j]) != Fold(Statement[0]);
    }
    assert OccursAt(t0, 3, Statement);
    LiteralFindLeftmost(Statement, t0, 0, 3);
  }

  /** The literal searcher answers with the end of the first occurrence at or
      after `from`. */
  lemma LiteralFindLeftmost(pattern: string, text: string, from: nat, k: nat)
    requires from <= k && OccursAt(text, k, pattern)
    requires forall j :: from <= j < k ==> !OccursAt(text, j, pattern)
    ensures LiteralFind(pattern, text, from) == Some(k + |pattern|)
  {
    var at := (j: nat) => LiteralAt(text, pattern, j);
    assert at(k).Some?;
    var r := Leftmost(at, from, |text|);
    assert LiteralFind(pattern, text, from) == r;
    if r.None? {
      assert false;
    }
    var k' :| from <= k' <= |text| && at(k') == r && NoneBetween(at, from, k');
    if k' != k {
      assert false;
    }
  }

  /** Both lines of the counterexample are added lines the locator records. */
  lemma StaleLinesLocated()
    ensures IsAddition(StaleLines[0]) && IsAddition(StaleLines[1])
    ensures 1 in Locate(StaleLines) && 2 in Locate(StaleLines)
  {
    assert StartsWith(StaleLines[0], "+") && StartsWith(StaleLines[1], "+");
    assert StaleLines[0][1] != '+' && StaleLines[1][1] != '+';
    assert IsAddition(StaleLines[0]) && IsAddition(StaleLines[1]);
  }

  /** An added line with a non-space after its `+` has a snippet. */
  lemma SnippetNotEmpty(text: string, k: nat)
    requires IsAddition(text) && 1 <= k < |text| && !IsSpace(text[k])
    ensures Snippet(text) != []
  {
    SnippetEmptyIff(text);
    assert text[1..][k - 1] == text[k];
  }
}
