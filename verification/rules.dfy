/** The rule table: the descriptor schema and the 29 calls of analyzer.js
    (lines 137-369) written down as data, in the order they run. */
module Rules {
  import opened Text

  /** The five keys of the `issues` object. */
  datatype Priority = Critical | High | Medium | Low | Info

  /** `findViolationsGrouped` keeps the first `max` candidates;
      `findViolations` keeps every candidate. */
  datatype Mode = Capped(max: nat) | Uncapped

  /** A whole-diff condition checked before a rule runs at all:
      `diffContent.includes(present) && !diffContent.includes(absent)`. */
  datatype Gate = Always | ContainsAndNot(present: string, absent: string)

  /** One call of the matcher: issue type, pattern source (a case-insensitive
      regular expression, kept opaque), priority bucket, impact note, the
      condition around the call and the capping of the function called. */
  datatype Rule = Rule(issueType: string, pattern: string, priority: Priority, impact: string, gate: Gate, mode: Mode)

  /** `violations.slice(0, 3)`. */
  const GroupCap: nat := 3

  /** The gate lets the rule run on this diff: always for an unconditional
      call, and otherwise exactly when the first text occurs somewhere in the
      diff and the second occurs nowhere. */
  predicate Open(g: Gate, diff: string)
    ensures Open(g, diff) <==>
              || g.Always?
              || ((exists i: nat :: HasAt(diff, i, g.present)) && forall i: nat :: !HasAt(diff, i, g.absent))
  {
    match g
    case Always => true
    case ContainsAndNot(present, absent) => Contains(diff, present) && !Contains(diff, absent)
  }

  /** The calls of analyzer.js, in program order. */
  const SourceRules: seq<Rule> := [
      // analyzer.js:137-142
      Rule("Hardcoded password", "password\\s*=\\s*[\"'][^\"']+[\"']", Critical, "🔴 Credential exposure", Always, Capped(GroupCap)),
      // analyzer.js:144-149
      Rule("Hardcoded API key", "api[_-]?key\\s*=\\s*[\"'][^\"']+[\"']", Critical, "🔴 Unauthorized access", Always, Capped(GroupCap)),
      // analyzer.js:151-156
      Rule("Hardcoded secret/token", "(private[_-]?key|secret[_-]?key|token)\\s*=\\s*[\"']", Critical, "🔴 Security breach", Always, Capped(GroupCap)),
      // analyzer.js:159-164
      Rule("XSS vulnerability", "dangerouslySetInnerHTML", High, "⚠️ Cross-site scripting risk", Always, Capped(GroupCap)),
      // analyzer.js:166-171
      Rule("Dangerous eval() usage", "eval\\s*\\(", High, "⚠️ Code injection risk", Always, Capped(GroupCap)),
      // analyzer.js:173-178
      Rule("innerHTML usage", "innerHTML\\s*=", High, "⚠️ Potential XSS", Always, Capped(GroupCap)),
      // analyzer.js:180-185
      Rule("System command execution", "(Runtime\\.getRuntime|\\bexec\\(|\\bsystem\\()", High, "⚠️ Command injection risk", Always, Capped(GroupCap)),
      // analyzer.js:188-193
      Rule("SQL Injection vulnerability", "executeQuery\\s*\\([^)]*\\+[^)]*\\)|executeSql\\s*\\([^)]*\\+", Critical, "🔴 Use PreparedStatement", Always, Capped(GroupCap)),
      // analyzer.js:196-201
      Rule("Insecure HTTP URL", "http://", Medium, "💡 Use HTTPS instead", Always, Capped(GroupCap)),
      // analyzer.js:207-212
      Rule("NullPointerException risk", "\\.equals\\s*\\(\\s*null\\s*\\)|null\\s*\\.equals", Critical, "🔴 Use Objects.equals()", Always, Capped(GroupCap)),
      // analyzer.js:214-219
      Rule("Empty catch block", "catch\\s*\\([^)]*Exception[^)]*\\)\\s*\\{\\s*\\}", Critical, "🔴 Swallows exceptions silently", Always, Capped(GroupCap)),
      // analyzer.js:222-227
      Rule("Unmanaged thread creation", "new\\s+Thread\\s*\\(", High, "⚠️ Use ExecutorService", Always, Capped(GroupCap)),
      // analyzer.js:230-235
      Rule("System.out usage", "System\\.(out|err)\\.println", Medium, "💡 Use Logger (SLF4J/Log4j)", Always, Capped(GroupCap)),
      // analyzer.js:237-242
      Rule("printStackTrace() usage", "\\.printStackTrace\\s*\\(", Medium, "💡 Use Logger.error()", Always, Capped(GroupCap)),
      // analyzer.js:245-250
      Rule("Deprecated API usage", "@Deprecated", Low, "📝 Use recommended alternative", Always, Capped(GroupCap)),
      // analyzer.js:256-261
      Rule("Direct state mutation", "this\\.state\\.[a-zA-Z_]+\\s*=", Critical, "🔴 Use this.setState()", Always, Capped(GroupCap)),
      // analyzer.js:263-268
      Rule("Props mutation", "props\\.[a-zA-Z_]+\\s*=", Critical, "🔴 Props are immutable", Always, Capped(GroupCap)),
      // analyzer.js:271-276
      Rule("Direct DOM manipulation", "document\\.(getElementById|querySelector|getElementsBy)", High, "⚠️ Use React refs or state", Always, Capped(GroupCap)),
      // analyzer.js:280-285
      Rule("Missing key prop in .map()", "\\.map\\s*\\(", High, "⚠️ Add unique key prop", ContainsAndNot(".map(", "key="), Capped(GroupCap)),
      // analyzer.js:289-294
      Rule("useEffect without deps array", "useEffect\\s*\\([^)]*\\)(?!.*\\[)", High, "⚠️ Causes infinite re-renders", ContainsAndNot("useEffect(", "useEffect("), Capped(GroupCap)),
      // analyzer.js:297-302
      Rule("Deprecated lifecycle method", "component(WillMount|WillReceiveProps|WillUpdate)", High, "⚠️ Migrate to modern APIs", Always, Capped(GroupCap)),
      // analyzer.js:305-310
      Rule("Using 'var' keyword", "\\bvar\\s+[a-zA-Z_]", Low, "📝 Use const/let instead", Always, Capped(GroupCap)),
      // analyzer.js:316-321
      Rule("Debugger statement", "debugger;", High, "⚠️ Remove before production", Always, Capped(GroupCap)),
      // analyzer.js:324-329
      Rule("Console statements", "console\\.(log|error|warn|debug)", Medium, "💡 Use proper logging", Always, Capped(GroupCap)),
      // analyzer.js:331-336
      Rule("TODO/FIXME comment", "(TODO|FIXME)", Medium, "💡 Address before merge", Always, Capped(GroupCap)),
      // analyzer.js:342-347
      Rule("SELECT * query", "SELECT\\s+\\*|select\\s+\\*", High, "⚠️ Specify needed columns", Always, Capped(GroupCap)),
      // analyzer.js:349-354
      Rule("N+1 query problem", "[nN]\\+1", High, "⚠️ Use JOIN or batch loading", Always, Capped(GroupCap)),
      // analyzer.js:357-362
      Rule("Nested .map() loops", "\\.map\\([^)]*\\.map\\(", Medium, "💡 O(n²) complexity - optimize", Always, Capped(GroupCap)),
      // analyzer.js:364-369
      Rule("Nested for loops", "for\\s*\\([^)]*\\)\\s*\\{[^}]*for\\s*\\(", Medium, "📝 Review algorithm complexity", Always, Capped(GroupCap))
    ]

  /** Every rule of the table files into one of the four counted buckets,
      none into `info`, and every one keeps at most three matches. */
  lemma SourceRulesShape()
    ensures |SourceRules| == 29
    ensures forall i :: 0 <= i < |SourceRules| ==> SourceRules[i].priority != Info
    ensures forall i :: 0 <= i < |SourceRules| ==> SourceRules[i].mode == Capped(GroupCap)
  {
  }

  /** The `.map(` rule runs only on a diff that contains `.map(` and nowhere
      contains `key=`. */
  lemma MapRuleGate(diff: string)
    ensures SourceRules[18].pattern == "\\.map\\s*\\("
    ensures Open(SourceRules[18].gate, diff) <==> Contains(diff, ".map(") && !Contains(diff, "key=")
  {
  }

  /** The `debugger;` rule is an always-on, high-priority call whose
      expression is the statement itself. */
  lemma DebuggerRule()
    ensures SourceRules[22].pattern == "debugger;" && SourceRules[22].priority == High
    ensures SourceRules[22].gate == Always
  {
  }

  /** The `useEffect` gate tests the same text for presence and absence, so
      it is closed on every diff. */
  lemma UseEffectRuleNeverRuns(diff: string)
    ensures SourceRules[19].issueType == "useEffect without deps array"
    ensures !Open(SourceRules[19].gate, diff)
  {
  }
}
