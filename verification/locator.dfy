/** The diff line locator: one forward pass over the lines of the diff that
    keeps the current file and the current new-file line number, and records,
    under the 1-based diff line number, where every added line lands. */
module Locator {
  import opened Wrappers
  import opened Text
  import HunkHeader

  /** `{ file, line }`: a position in the new version of a file. The locator's
      running state has the same shape. */
  datatype Location = Location(file: string, line: nat)

  /** `currentFile = ''`, `currentLineNumber = 0`. */
  const Start := Location("", 0)

  /** A diff line as the locator's `if`/`else if` chain sees it: the branch it
      takes, with what the branch's regular expression captured. */
  datatype Line =
    | FileHeader(path: Option<string>)
    | HunkLine(start: Option<nat>)
    | Addition
    | Context
    | Ignored

  /** `line.startsWith('+') && !line.startsWith('+++')`. */
  predicate IsAddition(text: string) {
    StartsWith(text, "+") && !StartsWith(text, "+++")
  }

  /** `m(.+)$` can match at offset `k`: `m` there, followed by at least one
      code point, none of them a line terminator, up to the end of the line. */
  predicate CaptureStartsAt(text: string, m: string, k: nat) {
    k + |m| < |text| && HasAt(text, k, m) && NoTerminatorFrom(text, k + |m|)
  }

  /** The capture of `m(.+)$` when the match starts at offset `k`. */
  function CaptureAt(text: string, m: string, k: nat): Option<string> {
    if CaptureStartsAt(text, m, k) then Some(text[k + |m|..]) else None
  }

  /** No line terminator at or after offset `i`. */
  predicate NoTerminatorFrom(text: string, i: nat)
    requires i <= |text|
    ensures NoTerminatorFrom(text, i) <==> forall k :: i <= k < |text| ==> !IsLineTerminator(text[k])
    decreases |text| - i
  {
    i == |text| || (!IsLineTerminator(text[i]) && NoTerminatorFrom(text, i + 1))
  }

  /** The capture at every offset. */
  function Captures(text: string, m: string): nat -> Option<string> {
    (k: nat) => CaptureAt(text, m, k)
  }

  /** `line.match(/m(.+)$/)[1]`: the text after the leftmost `m` whose
      remainder is non-empty and free of line terminators; `None` when there
      is no such `m`. */
  function CaptureAfter(text: string, m: string): (r: Option<string>)
    ensures r.None? <==> forall k: nat :: !CaptureStartsAt(text, m, k)
    ensures r.Some? ==> exists k: nat :: CaptureStartsAt(text, m, k) && r.value == text[k + |m|..]
                                        && forall j: nat :: j < k ==> !CaptureStartsAt(text, m, j)
  {
    var r := Leftmost(Captures(text, m), 0, |text|);
    if r.Some? then
      CaptureFound(text, m, r);
      r
    else
      CaptureMissing(text, m);
      r
  }

  /** A capture the search returns comes from a leftmost match. */
  lemma CaptureFound(text: string, m: string, r: Option<string>)
    requires r == Leftmost(Captures(text, m), 0, |text|) && r.Some?
    ensures exists k: nat :: CaptureStartsAt(text, m, k) && r.value == text[k + |m|..]
                            && forall j: nat :: j < k ==> !CaptureStartsAt(text, m, j)
  {
    var at := Captures(text, m);
    var k :| 0 <= k <= |text| && at(k) == r && NoneBetween(at, 0, k);
    NoCaptureBefore(text, m, k);
    assert CaptureAt(text, m, k) == r;
  }

  /** Offsets where the search found nothing are offsets without a match. */
  lemma NoCaptureBefore(text: string, m: string, k: nat)
    requires NoneBetween(Captures(text, m), 0, k)
    ensures forall j: nat :: j < k ==> !CaptureStartsAt(text, m, j)
  {
    forall j: nat | j < k
      ensures !CaptureStartsAt(text, m, j)
    {
      assert Captures(text, m)(j).None?;
    }
  }

  /** A search that returns nothing saw no match anywhere. */
  lemma CaptureMissing(text: string, m: string)
    requires Leftmost(Captures(text, m), 0, |text|).None?
    ensures forall k: nat :: !CaptureStartsAt(text, m, k)
  {
    var at := Captures(text, m);
    forall k: nat
      ensures !CaptureStartsAt(text, m, k)
    {
      if k <= |text| {
        assert at(k).None?;
      }
    }
  }

  /** The capture is fixed by any offset where the expression matches and
      nowhere before it. */
  lemma CaptureIsLeftmost(text: string, m: string, k: nat)
    requires CaptureStartsAt(text, m, k)
    requires forall j: nat :: j < k ==> !CaptureStartsAt(text, m, j)
    ensures CaptureAfter(text, m) == Some(text[k + |m|..])
  {
    var at := Captures(text, m);
    forall j: nat | j < k
      ensures at(j).None?
    {
      assert !CaptureStartsAt(text, m, j);
    }
    LeftmostAt(at, 0, |text|, k);
  }

  /** `line.match(/b\/(.+)$/)` and its capture, the file a `diff --git` line
      switches to: the text after the leftmost `b/` whose remainder is
      non-empty and free of line terminators, and `None` when a line
      terminator follows every `b/`. */
  function FilePath(text: string): (r: Option<string>)
    ensures r.None? <==> forall k: nat :: !CaptureStartsAt(text, "b/", k)
    ensures r.Some? ==> exists k: nat :: CaptureStartsAt(text, "b/", k) && r.value == text[k + 2..]
                                        && forall j: nat :: j < k ==> !CaptureStartsAt(text, "b/", j)
  {
    CaptureAfter(text, "b/")
  }

  /** What `git diff` writes before the old path of a file header. */
  const GitPrefix := "diff --git a/"

  /** The line holds no line terminator. */
  predicate OneLine(text: string) {
    forall i :: 0 <= i < |text| ==> !IsLineTerminator(text[i])
  }

  /** As written, the capture starts at the first `b/` of the line, which
      may lie inside the old path: with `b/` right after a `b`-free start of
      the old path, everything after that `b/`, the rest of the old path and
      the whole new side included, becomes the file. */
  lemma FilePathTakesFirstB(x: string, y: string)
    requires 'b' !in x && |y| > 0 && OneLine(y)
    ensures FilePath(GitPrefix + x + "b/" + y) == Some(y)
  {
    var text := GitPrefix + x + "b/" + y;
    var pre := GitPrefix + x;
    var k := |pre|;
    assert 'b' !in GitPrefix;
    forall j: nat | j < k
      ensures !CaptureStartsAt(text, "b/", j)
    {
      assert text[j] == pre[j];
    }
    assert text[k..k + 2] == "b/";
    assert text[k + 2..] == y;
    CaptureIsLeftmost(text, "b/", k);
  }

  /** A header of a file under `lib/`, which analyzer.js places in the file
      `x.js b/lib/x.js`. */
  const LibHeader := "diff --git a/lib/x.js b/lib/x.js"

  /** The file analyzer.js records for `LibHeader` runs from the `b/` of
      `lib/` in the old path to the end of the line. */
  lemma LibHeaderMisread()
    ensures FilePath(LibHeader) == Some("x.js b/lib/x.js")
  {
    assert LibHeader == GitPrefix + "li" + "b/" + "x.js b/lib/x.js";
    FilePathTakesFirstB("li", "x.js b/lib/x.js");
  }

  /** The path evidently meant: the new side of the header, the text after
      the leftmost ` b/`, read the same way. */
  function NewPath(text: string): (r: Option<string>)
    ensures r.None? <==> forall k: nat :: !CaptureStartsAt(text, " b/", k)
    ensures r.Some? ==> exists k: nat :: CaptureStartsAt(text, " b/", k) && r.value == text[k + 3..]
                                        && forall j: nat :: j < k ==> !CaptureStartsAt(text, " b/", j)
  {
    CaptureAfter(text, " b/")
  }

  /** A `git diff` header `diff --git a/p b/q` yields the new path `q`
      whenever the old path `p` does not itself hold ` b/`. */
  lemma NewPathRoundTrip(p: string, q: string)
    requires !Contains(p, " b/") && |q| > 0 && OneLine(q)
    ensures NewPath(GitPrefix + p + " b/" + q) == Some(q)
  {
    var text := GitPrefix + p + " b/" + q;
    var k := |GitPrefix| + |p|;
    forall j: nat | j < k
      ensures !HasAt(text, j, " b/")
    {
      NoSeparatorBefore(p, q, j);
    }
    assert text[k..k + 3] == " b/";
    assert text[k + 3..] == q;
    CaptureIsLeftmost(text, " b/", k);
  }

  /** The corrected reading of `LibHeader` is its new path `lib/x.js`. */
  lemma LibHeaderNewPath()
    ensures NewPath(LibHeader) == Some("lib/x.js")
  {
    assert LibHeader == GitPrefix + "lib/x.js" + " b/" + "lib/x.js";
    NoSpaceNoSeparator("lib/x.js");
    NewPathRoundTrip("lib/x.js", "lib/x.js");
  }

  /** A path without spaces holds no ` b/`. */
  lemma NoSpaceNoSeparator(p: string)
    requires ' ' !in p
    ensures !Contains(p, " b/")
  {
    forall i: nat | i <= |p|
      ensures !HasAt(p, i, " b/")
    {
      if i < |p| {
        assert p[i] != ' ';
      }
    }
  }

  /** No ` b/` starts before the separator of `diff --git a/p b/q`. */
  lemma NoSeparatorBefore(p: string, q: string, j: nat)
    requires !Contains(p, " b/") && j < |GitPrefix| + |p|
    ensures !HasAt(GitPrefix + p + " b/" + q, j, " b/")
  {
    var text := GitPrefix + p + " b/" + q;
    var n := |GitPrefix|;
    if j + 1 < n {
      assert GitPrefix[j + 1] in GitPrefix && 'b' !in GitPrefix;
      assert text[j + 1] == GitPrefix[j + 1];
      Mismatch(text, j, " b/", 1);
    } else if j < n {
      assert text[j] == '/';
      Mismatch(text, j, " b/", 0);
    } else if j + 3 <= n + |p| {
      assert !HasAt(p, j - n, " b/");
      assert text[j..j + 3] == p[j - n..j - n + 3];
    } else {
      assert text[j + 2] == (" b/" + q)[j + 2 - n - |p|];
      Mismatch(text, j, " b/", 2);
    }
  }

  /** One differing code point rules an occurrence out. */
  lemma Mismatch(s: string, j: nat, t: string, d: nat)
    requires d < |t| && (j + |t| <= |s| ==> s[j + d] != t[d])
    ensures !HasAt(s, j, t)
  {
  }

  /** The branch of analyzer.js's chain that a line of text takes. */
  function Lex(text: string): (l: Line)
    ensures l.Addition? <==> IsAddition(text)
    ensures l.Context? <==> StartsWith(text, " ")
    ensures l.FileHeader? <==> StartsWith(text, "diff --git")
    ensures l.HunkLine? <==> StartsWith(text, "@@")
    ensures l.FileHeader? ==> l.path == FilePath(text)
    ensures l.HunkLine? ==> l.start == HunkHeader.Parse(text)
  {
    if StartsWith(text, "diff --git") then FileHeader(FilePath(text))
    else if StartsWith(text, "@@") then HunkLine(HunkHeader.Parse(text))
    else if IsAddition(text) then Addition
    else if StartsWith(text, " ") then Context
    else Ignored
  }

  /** Every line of the diff, lexed. */
  function LexAll(texts: seq<string>): (ls: seq<Line>)
    ensures |ls| == |texts|
    ensures forall i :: 0 <= i < |texts| ==> ls[i] == Lex(texts[i])
  {
    seq(|texts|, i requires 0 <= i < |texts| => Lex(texts[i]))
  }

  /** The line advances the counter: an addition or a context line. */
  predicate Advances(l: Line) {
    l.Addition? || l.Context?
  }

  /** The line is a hunk header whose expression matched, so it sets the counter. */
  predicate SetsCounter(l: Line) {
    l.HunkLine? && l.start.Some?
  }

  /** The line is a file header whose expression matched, so it sets the file. */
  predicate SetsFile(l: Line) {
    l.FileHeader? && l.path.Some?
  }

  /** One iteration of the locator's `forEach`, as it changes the running state. */
  function Step(at: Location, l: Line): (next: Location)
    // an accepted hunk header restarts numbering at its new-file start
    ensures SetsCounter(l) ==> next.line == l.start.value
    // otherwise the counter moves by one exactly on additions and context lines
    ensures !SetsCounter(l) ==> next.line == at.line + (if Advances(l) then 1 else 0)
    // an accepted file header switches to its path, and the file changes nowhere else
    ensures SetsFile(l) ==> next.file == l.path.value
    ensures !SetsFile(l) ==> next.file == at.file
  {
    match l
    case FileHeader(path) => (match path { case Some(f) => at.(file := f) case None => at })
    case HunkLine(start) => (match start { case Some(n) => at.(line := n) case None => at })
    case Addition => at.(line := at.line + 1)
    case Context => at.(line := at.line + 1)
    case Ignored => at
  }

  /** The running state just before the line at 0-based `index` is visited. */
  function LocationAt(ls: seq<Line>, index: nat): Location
    requires index <= |ls|
  {
    if index == 0 then Start else Step(LocationAt(ls, index - 1), ls[index - 1])
  }

  /** `lineToFile` after the visit of the first `n` lines. */
  ghost predicate RecordedUpTo(ls: seq<Line>, n: nat, m: map<nat, Location>)
    requires n <= |ls|
  {
    && (forall k :: k in m ==> 1 <= k <= n && ls[k - 1].Addition? && m[k] == LocationAt(ls, k - 1))
    && (forall i :: 0 <= i < n && ls[i].Addition? ==> i + 1 in m)
  }

  /** The `forEach` from line `i` on, with the running state and the map so far. */
  function LocateFrom(ls: seq<Line>, i: nat, at: Location, acc: map<nat, Location>): (m: map<nat, Location>)
    requires i <= |ls|
    requires at == LocationAt(ls, i)
    requires RecordedUpTo(ls, i, acc)
    ensures RecordedUpTo(ls, |ls|, m)
    decreases |ls| - i
  {
    if i == |ls| then acc
    else
      var acc' := if ls[i].Addition? then acc[i + 1 := at] else acc;
      LocateFrom(ls, i + 1, Step(at, ls[i]), acc')
  }

  /** `lineToFile` (analyzer.js:21-48): an entry under `i + 1` exactly for
      every line `i` that starts with `+` but not `+++`, holding the running
      state at the moment that line was reached. */
  function Locate(texts: seq<string>): (m: map<nat, Location>)
    ensures forall k :: k in m ==> 1 <= k <= |texts|
    ensures forall i :: 0 <= i < |texts| ==> (i + 1 in m <==> IsAddition(texts[i]))
    ensures forall i :: 0 <= i < |texts| && i + 1 in m ==> m[i + 1] == LocationAt(LexAll(texts), i)
  {
    var ls := LexAll(texts);
    var m := LocateFrom(ls, 0, Start, map[]);
    assert forall i :: 0 <= i < |texts| ==> ls[i].Addition? == IsAddition(texts[i]);
    m
  }

  /** Lines in `[a, b)` that advance the counter. */
  function AdvancingBetween(ls: seq<Line>, a: nat, b: nat): nat
    requires a <= b <= |ls|
    decreases b - a
  {
    if a == b then 0 else AdvancingBetween(ls, a, b - 1) + (if Advances(ls[b - 1]) then 1 else 0)
  }

  /** Between hunk headers the counter moves by one per addition or context
      line and by nothing else: removals do not advance it, and neither does a
      file header. */
  lemma {:induction false} CounterWithinHunk(ls: seq<Line>, a: nat, b: nat)
    requires a <= b <= |ls|
    requires forall k :: a <= k < b ==> !SetsCounter(ls[k])
    ensures LocationAt(ls, b).line == LocationAt(ls, a).line + AdvancingBetween(ls, a, b)
    decreases b - a
  {
    if a < b {
      CounterWithinHunk(ls, a, b - 1);
    }
  }

  /** Between file headers the file does not change. */
  lemma {:induction false} FileWithinSection(ls: seq<Line>, a: nat, b: nat)
    requires a <= b <= |ls|
    requires forall k :: a <= k < b ==> !SetsFile(ls[k])
    ensures LocationAt(ls, b).file == LocationAt(ls, a).file
    decreases b - a
  {
    if a < b {
      FileWithinSection(ls, a, b - 1);
    }
  }

  /** Nothing requires a header first: before any accepted file or hunk
      header an added line is located in the file `''` at the number of
      additions and context lines seen so far, so the first one at `('', 0)`. */
  lemma BeforeAnyHeader(texts: seq<string>, i: nat)
    requires i < |texts| && IsAddition(texts[i])
    requires forall k :: 0 <= k < i ==> !SetsCounter(Lex(texts[k])) && !SetsFile(Lex(texts[k]))
    ensures i + 1 in Locate(texts)
    ensures Locate(texts)[i + 1] == Location("", AdvancingBetween(LexAll(texts), 0, i))
  {
    var ls := LexAll(texts);
    assert LocationAt(ls, i) == Location("", AdvancingBetween(ls, 0, i)) by {
      assert forall k :: 0 <= k < i ==> !SetsCounter(ls[k]) && !SetsFile(ls[k]);
      CounterWithinHunk(ls, 0, i);
      FileWithinSection(ls, 0, i);
    }
  }

  /** After an accepted hunk header, lines up to the next accepted hunk header
      are numbered consecutively from the header's new-file start, whatever
      file headers and removals come between. */
  lemma NumberedFromHunkStart(ls: seq<Line>, h: nat, i: nat)
    requires h < i <= |ls|
    requires SetsCounter(ls[h])
    requires forall k :: h < k < i ==> !SetsCounter(ls[k])
    ensures LocationAt(ls, i).line == ls[h].start.value + AdvancingBetween(ls, h + 1, i)
  {
    CounterWithinHunk(ls, h + 1, i);
  }

  /** After an accepted file header, lines up to the next accepted file header
      are located in its path. */
  lemma LocatedInLatestFile(ls: seq<Line>, h: nat, i: nat)
    requires h < i <= |ls|
    requires SetsFile(ls[h])
    requires forall k :: h < k < i ==> !SetsFile(ls[k])
    ensures LocationAt(ls, i).file == ls[h].path.value
  {
    FileWithinSection(ls, h + 1, i);
  }
}
