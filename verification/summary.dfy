/** The end of the run: the per-priority counts, the total that leaves
    `info` out, the closing verdict, and the whole analysis of a diff from its
    text to its report. */
module Summary {
  import opened Text
  import opened Locator
  import opened Rules
  import opened Matcher
  import opened Aggregator

  /** The four closing lines: all checks passed, critical (must fix), high
      priority (should fix), and review as needed. */
  datatype Verdict = Pass | Block | Warn | Review

  /** The summary table and its verdict. */
  datatype Report = Report(critical: nat, high: nat, medium: nat, low: nat, info: nat, total: nat, verdict: Verdict)

  /** How strongly a verdict asks for changes. */
  function Rank(v: Verdict): nat {
    match v
    case Pass => 0
    case Review => 1
    case Warn => 2
    case Block => 3
  }

  /** The counts of the five buckets, their total without `info`, and the
      verdict chosen from the total and the two top counts. */
  function Summarize(b: Buckets): (r: Report)
    ensures r.critical == |b.critical| && r.high == |b.high| && r.medium == |b.medium| && r.low == |b.low|
    ensures r.info == |b.info|
    ensures r.total == |b.critical| + |b.high| + |b.medium| + |b.low|
    ensures r.verdict == Pass <==> forall p :: p != Info ==> b.Get(p) == []
    ensures r.verdict == Block <==> b.critical != []
    ensures r.verdict == Warn <==> b.critical == [] && b.high != []
    ensures r.verdict == Review <==> b.critical == [] && b.high == [] && (b.medium != [] || b.low != [])
  {
    var total := |b.critical| + |b.high| + |b.medium| + |b.low|;
    var verdict :=
      if total == 0 then Pass
      else if |b.critical| > 0 then Block
      else if |b.high| > 0 then Warn
      else Review;
    assert verdict == Pass <==> forall p :: p != Info ==> b.Get(p) == [] by {
      if verdict != Pass {
        assert b.Get(Critical) != [] || b.Get(High) != [] || b.Get(Medium) != [] || b.Get(Low) != [];
      }
    }
    Report(|b.critical|, |b.high|, |b.medium|, |b.low|, |b.info|, total, verdict)
  }

  /** Informational entries are shown but never counted: they change neither
      the total nor the verdict. */
  lemma InfoNeverCounts(b: Buckets, vs: seq<Violation>)
    ensures Summarize(b.Add(Info, vs)).total == Summarize(b).total
    ensures Summarize(b.Add(Info, vs)).verdict == Summarize(b).verdict
  {
    assert b.Add(Info, vs).critical == b.critical;
    assert b.Add(Info, vs).high == b.high;
    assert b.Add(Info, vs).medium == b.medium;
    assert b.Add(Info, vs).low == b.low;
  }

  /** More entries never soften the verdict. */
  lemma VerdictMonotone(b: Buckets, p: Priority, vs: seq<Violation>)
    ensures Rank(Summarize(b).verdict) <= Rank(Summarize(b.Add(p, vs)).verdict)
    ensures Summarize(b).total <= Summarize(b.Add(p, vs)).total
  {
    var b' := b.Add(p, vs);
    assert |b.critical| <= |b'.critical| by { assert b'.Get(Critical) == b.Get(Critical) + (if p == Critical then vs else []); }
    assert |b.high| <= |b'.high| by { assert b'.Get(High) == b.Get(High) + (if p == High then vs else []); }
    assert |b.medium| <= |b'.medium| by { assert b'.Get(Medium) == b.Get(Medium) + (if p == Medium then vs else []); }
    assert |b.low| <= |b'.low| by { assert b'.Get(Low) == b.Get(Low) + (if p == Low then vs else []); }
  }

  /** The buckets after every rule call, and the summary of them. */
  datatype Analysis = Analysis(issues: Buckets, report: Report)

  /** The whole run on a diff's text: split and locate, run the rules in
      order from empty buckets, summarize. */
  function Analyze(text: string, rules: seq<Rule>, e: Engine): (a: Analysis)
    ensures a.report == Summarize(a.issues)
    ensures forall p :: a.issues.Get(p) == Filed(Calls(Prepare(text), e), rules, p)
  {
    var out := Calls(Prepare(text), e);
    var issues := Run(out, rules, Empty);
    RunFromEmpty(out, rules);
    Analysis(issues, Summarize(issues))
  }

  /** From empty buckets, each bucket ends as the reference meaning. */
  lemma RunFromEmpty(out: Rule -> seq<Violation>, rules: seq<Rule>)
    ensures forall p :: Run(out, rules, Empty).Get(p) == Filed(out, rules, p)
  {
    var res := Run(out, rules, Empty);
    forall p
      ensures res.Get(p) == Filed(out, rules, p)
    {
      NothingBefore(res.Get(p), Empty.Get(p), Filed(out, rules, p));
    }
  }

  /** What follows an empty bucket is the whole bucket. */
  lemma NothingBefore(x: seq<Violation>, e: seq<Violation>, f: seq<Violation>)
    requires e == [] && x == e + f
    ensures x == f
  {
  }

  /** analyzer.js itself: its rule table, and every expression compiled with
      the `g` flag, over a given regular-expression search. */
  function AnalyzeSource(text: string, search: Search): (a: Analysis)
    ensures a.issues.info == [] && a.report.info == 0
    ensures a.report.total <= GroupCap * |SourceRules|
  {
    var a := Analyze(text, SourceRules, Engine(search, SourceGlobal));
    SourceShape(text, Engine(search, SourceGlobal));
    a
  }

  /** Every entry of every bucket names a rule of that bucket's priority with
      its type and impact, and reports an added line of the diff: at the file
      and new-file line the locator computes for that line, with the line's
      snippet, on a line where the rule's expression fired. */
  lemma AnalyzeSound(text: string, rules: seq<Rule>, e: Engine, p: Priority, v: Violation)
    requires v in Analyze(text, rules, e).issues.Get(p)
    ensures exists k, i :: 0 <= k < |rules| && 0 <= i < |Split(text)| && Sound(text, rules[k], p, e, v, i)
  {
    var d := Prepare(text);
    FiledOrigin(Calls(d, e), rules, p);
    var k :| 0 <= k < |rules| && rules[k].priority == p && v in Calls(d, e)(rules[k]);
    RuleViolationsSound(d, e, rules[k]);
    assert FromRule(d, e, rules[k], v);
    var i :| Reports(d, v, i) && Fires(e, rules[k].pattern, d.lines, i);
    assert Sound(text, rules[k], p, e, v, i);
  }

  /** `v` is a correct entry of rule `r` in bucket `p` for line `i` of the
      diff's text. */
  predicate Sound(text: string, r: Rule, p: Priority, e: Engine, v: Violation, i: nat)
    requires i < |Split(text)|
  {
    var lines := Split(text);
    && r.priority == p && v.issueType == r.issueType && v.impact == r.impact
    && IsAddition(lines[i])
    && Location(v.file, v.line) == LocationAt(LexAll(lines), i)
    && v.code == Snippet(lines[i]) && v.code != []
    && Fires(e, r.pattern, lines, i)
  }

  /** A diff without added lines passes, with every bucket empty, whatever
      the rules. */
  lemma NoAdditionsPass(text: string, rules: seq<Rule>, e: Engine)
    requires forall i :: 0 <= i < |Split(text)| ==> !IsAddition(Split(text)[i])
    ensures forall p :: Analyze(text, rules, e).issues.Get(p) == []
    ensures Analyze(text, rules, e).report.verdict == Pass
  {
    var d := Prepare(text);
    assert d.locs == map[];
    forall p
      ensures Filed(Calls(d, e), rules, p) == []
    {
      forall k | 0 <= k < |rules|
        ensures Calls(d, e)(rules[k]) == []
      {
        RuleSilentWithoutAdditions(d, e, rules[k]);
      }
      FiledUnused(Calls(d, e), rules, p);
    }
  }

  /** analyzer.js's table never files into `info`, and each of its calls
      keeps at most three entries, so the total is at most 87. */
  lemma SourceShape(text: string, e: Engine)
    ensures Analyze(text, SourceRules, e).issues.info == []
    ensures Analyze(text, SourceRules, e).report.total <= GroupCap * |SourceRules|
  {
    SourceRulesShape();
    CappedTable(text, SourceRules, e, GroupCap);
  }

  /** A table of capped rules none of which files into `info` leaves `info`
      empty and keeps the total within the cap times the number of rules. */
  lemma CappedTable(text: string, rules: seq<Rule>, e: Engine, cap: nat)
    requires forall k :: 0 <= k < |rules| ==> rules[k].priority != Info && rules[k].mode == Capped(cap)
    ensures Analyze(text, rules, e).issues.info == []
    ensures Analyze(text, rules, e).report.total <= cap * |rules|
  {
    var out := Calls(Prepare(text), e);
    FiledUnused(out, rules, Info);
    forall k | 0 <= k < |rules|
      ensures |out(rules[k])| <= cap
    {
      assert rules[k].mode == Capped(cap);
    }
    FiledTotal(out, rules);
    TotalBound(out, rules, cap);
    assert Analyze(text, rules, e).issues.Get(Info) == [];
  }

  /** The sum of the calls' output lengths. */
  function Pushed(out: Rule -> seq<Violation>, rules: seq<Rule>): nat
    decreases |rules|
  {
    if |rules| == 0 then 0 else Pushed(out, rules[..|rules| - 1]) + |out(rules[|rules| - 1])|
  }

  /** Every pushed entry lands in exactly one bucket. */
  lemma {:induction false} FiledTotal(out: Rule -> seq<Violation>, rules: seq<Rule>)
    ensures |Filed(out, rules, Critical)| + |Filed(out, rules, High)| + |Filed(out, rules, Medium)|
            + |Filed(out, rules, Low)| + |Filed(out, rules, Info)| == Pushed(out, rules)
    decreases |rules|
  {
    if |rules| > 0 {
      FiledTotal(out, rules[..|rules| - 1]);
    }
  }

  /** Calls that each push at most `cap` entries push at most `cap` per call. */
  lemma {:induction false} TotalBound(out: Rule -> seq<Violation>, rules: seq<Rule>, cap: nat)
    requires forall k :: 0 <= k < |rules| ==> |out(rules[k])| <= cap
    ensures Pushed(out, rules) <= cap * |rules|
    decreases |rules|
  {
    if |rules| > 0 {
      TotalBound(out, rules[..|rules| - 1], cap);
      assert cap * |rules| == cap * (|rules| - 1) + cap;
    }
  }
}
