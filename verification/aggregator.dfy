/** The `issues` object and how the rule calls fill it: each call runs its
    rule's pass over the diff (when the rule's gate lets it), keeps the first
    three entries or all of them, and appends them to the bucket of the
    rule's priority. */
module Aggregator {
  import opened Wrappers
  import opened Text
  import opened Locator
  import opened Rules
  import opened Matcher

  /** `{ type, file, line, code, impact }`, one entry of a bucket. */
  datatype Violation = Violation(issueType: string, file: string, line: nat, code: string, impact: string)

  /** `issues`: one list per priority, in the order entries were pushed. */
  datatype Buckets = Buckets(critical: seq<Violation>, high: seq<Violation>, medium: seq<Violation>,
                             low: seq<Violation>, info: seq<Violation>)
  {
    /** `issues[priority]`. */
    function Get(p: Priority): seq<Violation> {
      match p
      case Critical => critical
      case High => high
      case Medium => medium
      case Low => low
      case Info => info
    }

    /** `issues[priority].push(...)` for every entry of `vs`, in order: the
        chosen bucket grows by `vs` at its end and the others stay as they are. */
    function Add(p: Priority, vs: seq<Violation>): (b: Buckets)
      ensures b.Get(p) == Get(p) + vs
      ensures forall q :: q != p ==> b.Get(q) == Get(q)
    {
      match p
      case Critical => this.(critical := critical + vs)
      case High => this.(high := high + vs)
      case Medium => this.(medium := medium + vs)
      case Low => this.(low := low + vs)
      case Info => this.(info := info + vs)
    }
  }

  /** The five empty arrays of the initial `issues` object. */
  const Empty := Buckets([], [], [], [], [])

  /** The diff as every rule call sees it: the whole text (for the gates), its
      lines and the locator's map from 1-based line numbers to locations. */
  datatype Diff = Diff(text: string, lines: seq<string>, locs: map<nat, Location>)

  /** `diffContent.split('\n')` and the locator's pass over the lines. */
  function Prepare(text: string): (d: Diff)
    ensures d.text == text && |d.lines| >= 1 && Join(d.lines) == text
    ensures forall k :: 0 <= k < |d.lines| ==> '\n' !in d.lines[k]
    ensures forall i :: 0 <= i < |d.lines| ==> (i + 1 in d.locs <==> IsAddition(d.lines[i]))
    ensures forall i :: 0 <= i < |d.lines| && i + 1 in d.locs ==> d.locs[i + 1] == LocationAt(LexAll(d.lines), i)
  {
    var lines := Split(text);
    Diff(text, lines, Locate(lines))
  }

  /** The entry a rule pushes for one kept line. */
  function ToViolation(r: Rule, h: Hit): Violation {
    Violation(r.issueType, h.at.file, h.at.line, h.code, r.impact)
  }

  /** `v` reports added line `i` of the diff: the file and line the locator
      recorded for it, and its snippet, which is not empty. */
  predicate Reports(d: Diff, v: Violation, i: nat) {
    && i < |d.lines| && i + 1 in d.locs
    && d.locs[i + 1] == Location(v.file, v.line)
    && v.code == Snippet(d.lines[i]) && v.code != []
  }

  /** What one call of `findViolationsGrouped` (capped) or `findViolations`
      (uncapped) pushes: nothing when the rule's gate is closed, otherwise one
      entry per kept line, in diff order, cut to the rule's cap. */
  function RuleViolations(d: Diff, e: Engine, r: Rule): (vs: seq<Violation>)
    ensures !Open(r.gate, d.text) ==> vs == []
    ensures r.mode.Capped? ==> |vs| <= r.mode.max
  {
    if Open(r.gate, d.text) then
      var kept := Cap(r.mode, Scan(e, r.pattern, d.lines, d.locs));
      seq(|kept|, j requires 0 <= j < |kept| => ToViolation(r, kept[j]))
    else []
  }

  /** With its gate open, a rule pushes the entries of its pass in diff
      order, as many as its cap allows. */
  lemma RuleViolationsShape(d: Diff, e: Engine, r: Rule)
    requires Open(r.gate, d.text)
    ensures var hs := Scan(e, r.pattern, d.lines, d.locs);
            var vs := RuleViolations(d, e, r);
            && |vs| == |Cap(r.mode, hs)|
            && forall j :: 0 <= j < |vs| ==> vs[j] == ToViolation(r, hs[j])
  {
  }

  /** Every entry a rule pushes carries the rule's type and impact and reports
      an added line on which the rule's expression fired. */
  lemma RuleViolationsSound(d: Diff, e: Engine, r: Rule)
    ensures forall v :: v in RuleViolations(d, e, r) ==> FromRule(d, e, r, v)
  {
    var vs := RuleViolations(d, e, r);
    forall v | v in vs
      ensures FromRule(d, e, r, v)
    {
      var j :| 0 <= j < |vs| && vs[j] == v;
      EntrySound(d, e, r, j);
    }
  }

  /** Entry `j` of an open rule's output reports the line of the `j`-th hit. */
  lemma EntrySound(d: Diff, e: Engine, r: Rule, j: nat)
    requires j < |RuleViolations(d, e, r)|
    ensures FromRule(d, e, r, RuleViolations(d, e, r)[j])
  {
    RuleViolationsShape(d, e, r);
    var hs := Scan(e, r.pattern, d.lines, d.locs);
    var i := hs[j].index;
    assert Candidate(d.lines, d.locs, i) == Some(hs[j]);
    assert Reports(d, RuleViolations(d, e, r)[j], i);
  }

  /** What a rule whose gate is open pushes, exactly: as many entries as
      there are kept lines, or its cap if that is smaller, and for each kept
      line counted below that number, its entry at the position counting the
      kept lines before it. */
  lemma RuleViolationsComplete(d: Diff, e: Engine, r: Rule)
    requires Open(r.gate, d.text)
    ensures var n := KeptBefore(e, r.pattern, d.lines, d.locs, |d.lines|);
            |RuleViolations(d, e, r)| == if r.mode.Capped? && r.mode.max < n then r.mode.max else n
    ensures forall i ::
              && 0 <= i < |d.lines| && Keeps(e, r.pattern, d.lines, d.locs, i)
              && KeptBefore(e, r.pattern, d.lines, d.locs, i) < |RuleViolations(d, e, r)|
              ==>
              RuleViolations(d, e, r)[KeptBefore(e, r.pattern, d.lines, d.locs, i)]
                == ToViolation(r, Hit(i, d.locs[i + 1], Snippet(d.lines[i])))
  {
    var hs := Scan(e, r.pattern, d.lines, d.locs);
    RuleViolationsShape(d, e, r);
    ScanExact(e, r.pattern, d.lines, d.locs);
    forall i | 0 <= i < |d.lines| && Keeps(e, r.pattern, d.lines, d.locs, i)
                 && KeptBefore(e, r.pattern, d.lines, d.locs, i) < |RuleViolations(d, e, r)|
      ensures RuleViolations(d, e, r)[KeptBefore(e, r.pattern, d.lines, d.locs, i)]
                == ToViolation(r, Hit(i, d.locs[i + 1], Snippet(d.lines[i])))
    {
      var j := KeptBefore(e, r.pattern, d.lines, d.locs, i);
      assert hs[j].index == i;
      assert Candidate(d.lines, d.locs, i) == Some(hs[j]);
    }
  }

  /** Every rule call's output on one diff. */
  function Calls(d: Diff, e: Engine): Rule -> seq<Violation> {
    r => RuleViolations(d, e, r)
  }

  /** The reference meaning of a sequence of rule calls for one bucket: the
      outputs of the calls of that priority, concatenated in call order. */
  function Filed(out: Rule -> seq<Violation>, rules: seq<Rule>, p: Priority): seq<Violation>
    decreases |rules|
  {
    if |rules| == 0 then []
    else
      var last := rules[|rules| - 1];
      Filed(out, rules[..|rules| - 1], p) + Own(out, last, p)
  }

  /** What one call contributes to bucket `p`. */
  function Own(out: Rule -> seq<Violation>, r: Rule, p: Priority): seq<Violation> {
    if r.priority == p then out(r) else []
  }

  /** The reference meaning read from the first call on. */
  lemma {:induction false} FiledFromFirst(out: Rule -> seq<Violation>, rules: seq<Rule>, p: Priority)
    requires |rules| > 0
    ensures Filed(out, rules, p) == Own(out, rules[0], p) + Filed(out, rules[1..], p)
    decreases |rules|
  {
    if |rules| > 1 {
      var init := rules[..|rules| - 1];
      FiledFromFirst(out, init, p);
      assert init[1..] == rules[1..][..|rules[1..]| - 1];
      assert init[0] == rules[0];
    } else {
      assert rules[1..] == [];
      assert rules[..0] == [];
    }
  }

  /** Running the rule calls in order on top of buckets `b`, call `r`
      pushing `out(r)` into its bucket: every bucket ends with exactly the
      entries the reference meaning gives it. */
  function Run(out: Rule -> seq<Violation>, rules: seq<Rule>, b: Buckets): (res: Buckets)
    ensures forall p :: res.Get(p) == b.Get(p) + Filed(out, rules, p)
    decreases |rules|
  {
    if |rules| == 0 then b
    else
      var r := rules[0];
      var next := b.Add(r.priority, out(r));
      var res := Run(out, rules[1..], next);
      assert forall p :: res.Get(p) == b.Get(p) + Filed(out, rules, p) by {
        forall p
          ensures res.Get(p) == b.Get(p) + Filed(out, rules, p)
        {
          FiledFromFirst(out, rules, p);
          AddOwn(b, out, r, p);
          Associate(b.Get(p), Own(out, r, p), Filed(out, rules[1..], p));
        }
      }
      res
  }

  /** Pushing a call's output adds to bucket `p` exactly what the call owns there. */
  lemma AddOwn(b: Buckets, out: Rule -> seq<Violation>, r: Rule, p: Priority)
    ensures b.Add(r.priority, out(r)).Get(p) == b.Get(p) + Own(out, r, p)
  {
  }

  /** Appending is associative. */
  lemma Associate(a: seq<Violation>, b: seq<Violation>, c: seq<Violation>)
    ensures (a + b) + c == a + (b + c)
  {
  }

  /** `v` is an entry rule `r` may push: the rule's type and impact, on an
      added line on which the rule's expression fired. */
  ghost predicate FromRule(d: Diff, e: Engine, r: Rule, v: Violation) {
    && v.issueType == r.issueType && v.impact == r.impact
    && exists i :: Reports(d, v, i) && Fires(e, r.pattern, d.lines, i)
  }

  /** Every entry of a bucket was pushed by a call of that priority. */
  lemma {:induction false} FiledOrigin(out: Rule -> seq<Violation>, rules: seq<Rule>, p: Priority)
    ensures forall v :: v in Filed(out, rules, p) ==>
              exists k :: 0 <= k < |rules| && rules[k].priority == p && v in out(rules[k])
    decreases |rules|
  {
    if |rules| > 0 {
      var n := |rules| - 1;
      var init := rules[..n];
      FiledOrigin(out, init, p);
      forall v | v in Filed(out, rules, p)
        ensures exists k :: 0 <= k < |rules| && rules[k].priority == p && v in out(rules[k])
      {
        if v in Filed(out, init, p) {
          var k :| 0 <= k < |init| && init[k].priority == p && v in out(init[k]);
          assert rules[k] == init[k];
        } else {
          assert rules[n].priority == p && v in out(rules[n]);
        }
      }
    }
  }

  /** A bucket no call files into stays empty. */
  lemma {:induction false} FiledUnused(out: Rule -> seq<Violation>, rules: seq<Rule>, p: Priority)
    requires forall k :: 0 <= k < |rules| ==> rules[k].priority != p || out(rules[k]) == []
    ensures Filed(out, rules, p) == []
    decreases |rules|
  {
    if |rules| > 0 {
      FiledUnused(out, rules[..|rules| - 1], p);
    }
  }

  /** A rule can only report lines the locator recorded: on a diff without
      added lines it pushes nothing. */
  lemma RuleSilentWithoutAdditions(d: Diff, e: Engine, r: Rule)
    requires d.locs == map[]
    ensures RuleViolations(d, e, r) == []
  {
    var vs := RuleViolations(d, e, r);
    RuleViolationsSound(d, e, r);
    if vs != [] {
      NoReportWithoutLocations(d, e, r, vs[0]);
      assert false;
    }
  }

  /** With no recorded line there is nothing a rule's entry can report. */
  lemma NoReportWithoutLocations(d: Diff, e: Engine, r: Rule, v: Violation)
    requires d.locs == map[]
    ensures !FromRule(d, e, r, v)
  {
  }

  /** The `.map(` rule runs exactly on diffs that contain `.map(` and no `key=`. */
  lemma MapRuleRunsOnlyWithoutKeys(d: Diff, e: Engine)
    requires !Contains(d.text, ".map(") || Contains(d.text, "key=")
    ensures RuleViolations(d, e, SourceRules[18]) == []
  {
    MapRuleGate(d.text);
  }

  /** The useEffect rule pushes nothing, whatever the diff. */
  lemma UseEffectRuleSilent(d: Diff, e: Engine)
    ensures RuleViolations(d, e, SourceRules[19]) == []
  {
    UseEffectRuleNeverRuns(d.text);
  }
}
