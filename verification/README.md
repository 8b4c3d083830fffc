# A model of the PR review analyzer in Dafny

`analyzer.js` is a command-line tool. It reads a unified diff and splits it into lines. It records where every added line lands in the new version of its file. Then it runs a fixed table of 29 case-insensitive regular expressions over the diff lines. Each line on which an expression fires, and which is a recorded added line with a non-blank cleaned snippet, becomes an issue in one of five priority buckets. At most three such lines are kept per rule. Finally the tool prints a count per bucket, a total that leaves `info` out, and a one-line verdict.

This project models that core as pure Dafny functions and proves properties of it:

- `Text`: the string operations the tool relies on: `split('\n')` and its inverse, `trim()`, `startsWith`, `includes`, decimal digits and `parseInt`.
- `HunkHeader`: the hunk header expression `@@ -\d+,?\d* \+(\d+),?\d* @@` written as a parser. A round trip shows that a header a diff producer writes is read back as its new-file start.
- `Locator`: the line locator. Each line takes one branch of the locator's `if`/`else if` chain (file header, hunk header, addition, context, other). One forward pass gives `lineToFile`: an entry under `index + 1` for every added line, holding the current file and the current new-file line.
- `Rules`: the rule schema and the rule table, including the two rules that run only under a condition on the whole diff.
- `Matcher`: one pass of a rule over the lines. It models `RegExp.prototype.test` with its `lastIndex`, the located-line filter, the snippet cleaning, and the three-entry cap. The regular-expression engine is a parameter (`Search`), so every result holds for any engine. A literal searcher is included for the counterexample.
- `Aggregator`: one rule call filing into the buckets, and the whole table run in order from empty buckets.
- `Summary`: the counts, the total and the verdict. `Analyze` is the end-to-end function from diff text to report.

## Model

| member | source | states |
|---|---|---|
| Text.Split | analyzer.js:18 | `split('\n')` gives at least one piece. No piece contains a newline. Joining the pieces with newlines gives the text back. |
| Text.SplitJoin | analyzer.js:18 | Splitting the newline-join of newline-free pieces returns exactly those pieces, so `Split` and `Join` are mutually inverse. |
| Text.Trim | analyzer.js:74 | `trim()` keeps an infix of its argument. Only whitespace is removed on either side, and exactly the whitespace `TrimStart` removes in front. A non-empty result starts and ends with a non-whitespace code point. |
| Text.TrimEmptyIff | analyzer.js:74-77 | A trimmed string is empty exactly when every code point of the original is whitespace. |
| Text.DigitsRoundTrip | analyzer.js:37 | `parseInt` of the decimal digits of `n` is `n`. |
| HunkHeader.Parse | analyzer.js:35-37 | `match` finds the leftmost offset where the hunk header expression matches, and the result is that match's new-file start. It is `None` exactly when the expression matches nowhere in the line. |
| HunkHeader.ParseFormat | analyzer.js:35-37 | A line that begins with `@@ -a[,b] +c[,d] @@`, followed by any text, yields `c` as the captured new-file start. |
| Locator.FilePath | analyzer.js:28-30 | `match(/b\/(.+)$/)` captures everything after the leftmost `b/` that is followed by at least one code point and no line terminator up to the end of the line. It is `None` exactly when no `b/` is followed that way. |
| Locator.FilePathTakesFirstB | analyzer.js:28-30 | On `diff --git a/` followed by a `b`-free text, then `b/`, then `y`, the capture is `y`, even when `y` still holds the rest of the old path and the whole new path. |
| Locator.LibHeaderMisread | analyzer.js:28-30 | `diff --git a/lib/x.js b/lib/x.js` is recorded as the file `x.js b/lib/x.js`. |
| Locator.NewPathRoundTrip | analyzer.js:26-30 | Reading the text after the leftmost ` b/` instead gives `q` for every header `diff --git a/p b/q` whose old path holds no ` b/`. |
| Locator.LibHeaderNewPath | analyzer.js:26-30 | The corrected reading of the `lib/` header is `lib/x.js`. |
| Locator.Lex | analyzer.js:27-47 | A line takes the branch whose `startsWith` test it passes first. The addition branch is taken exactly when the line starts with `+` but not `+++`. File headers carry the `b/` capture and hunk headers the parsed start. |
| Locator.Step | analyzer.js:25-47 | One iteration: an accepted hunk header sets the counter to its start. Otherwise additions and context lines add one and every other line leaves it alone. Only an accepted file header changes the file. |
| Locator.Locate | analyzer.js:21-48 | `lineToFile` has a key `i + 1` exactly for the added lines `i`, and no other keys. Each entry is the running file and counter just before line `i` is visited. |
| Locator.CounterWithinHunk | analyzer.js:34-47 | Between accepted hunk headers the counter grows by the number of addition and context lines passed. |
| Locator.FileWithinSection | analyzer.js:27-32 | Between accepted file headers the file does not change. |
| Locator.BeforeAnyHeader | analyzer.js:21-44 | An addition that comes before any accepted header is still recorded. Its file is `''` and its line is the number of addition and context lines before it, counted from 0. |
| Locator.NumberedFromHunkStart | analyzer.js:34-47 | After an accepted hunk header, a line's counter is the header's start plus the addition and context lines between them. |
| Locator.LocatedInLatestFile | analyzer.js:27-31 | After an accepted file header, every line up to the next one is located in that header's file. |
| Rules.Open | analyzer.js:279-295 | An unconditional call always runs. A conditional one runs exactly when its first text occurs somewhere in the diff and its second occurs nowhere. |
| Rules.SourceRulesShape | analyzer.js:137-369 | The table has 29 calls. None files into `info`. Every one is a `findViolationsGrouped` call, capped at three entries. |
| Rules.MapRuleGate | analyzer.js:279-286 | The `.map(` rule runs exactly when the diff contains `.map(` and does not contain `key=`. |
| Rules.DebuggerRule | analyzer.js:316-321 | The `debugger;` call is unconditional, files into `high`, and its expression is the statement text itself, the pattern of the counterexample under Findings. |
| Rules.UseEffectRuleNeverRuns | analyzer.js:288-295 | The `useEffect` rule's condition requires a substring to be both present and absent, so the rule runs on no diff. |
| Matcher.Test | analyzer.js:63-66 | `test` with the `g` flag searches from `lastIndex`. A hit moves `lastIndex` to the end of the match. A miss, or a `lastIndex` past the end of the text, resets it to 0. Without the flag, `test` searches the whole text and never moves `lastIndex`. |
| Matcher.PerLineTestIsIndependent | analyzer.js:95-99 | Without the `g` flag, a line fires exactly when the expression occurs in it, whatever lines came before. The same text fires identically at any position of any diff. |
| Matcher.StripMarker | analyzer.js:73 | `replace(/^[\+\-]\s*/, '')`: a line that starts with `+` or `-` loses that code point and every whitespace code point after it, so what is left is empty or starts with a non-whitespace code point. Any other line is returned unchanged. |
| Matcher.Snippet | analyzer.js:72-75 | The cleaned line is the first 100 code points of the line's one cleaned piece. That piece has before it only whitespace and a leading `+` or `-`, which is always removed. After it there is only whitespace, and it neither starts nor ends with whitespace. So the snippet is at most 100 code points, occurs in the line, starts with a non-whitespace code point, and ends with one when it is shorter than 100. |
| Matcher.SnippetExact | analyzer.js:72-75 | Any piece of the line that meets that description gives the snippet: there is exactly one. |
| Matcher.SnippetEmptyIff | analyzer.js:72-77 | An added line gives an empty snippet, and so no entry, exactly when everything after its `+` is whitespace. |
| Matcher.Candidate | analyzer.js:100-115 | A line that fired gives an entry exactly when `lineToFile` has its `index + 1` and its snippet is non-empty. The entry holds that location and that snippet. |
| Matcher.Scan | analyzer.js:96-118 | The collected `violations` are in line order, with no repeats. Each is a located line with a non-empty snippet on which `test` answered true in the threaded pass. Every such line is collected. |
| Matcher.ScanExact | analyzer.js:96-118 | Against an independent count of the kept lines: the pass has one entry per kept line, entry `k` is on a line with exactly `k` kept lines before it, and every kept line is at that position. |
| Matcher.Cap | analyzer.js:120-121 | `slice(0, 3)` keeps a prefix of length `min(n, 3)`. Without a cap, every entry is kept. |
| Matcher.StaleLastIndexSkipsMatch | analyzer.js:95-99 | Counterexample with the `g` flag and the `debugger;` rule, on two added lines that both contain the statement. The first line fires and is kept. The located second line does not fire, because `lastIndex` is left at 12, past its end. |
| Matcher.StatementIsDebuggerRule | analyzer.js:316-321 | The counterexample's pattern is the expression of the unconditional `debugger;` call. |
| Matcher.PerLineReportsBoth | analyzer.js:95-99 | On the same two lines, an expression compiled without the `g` flag fires on both and keeps both. |
| Aggregator.Prepare | analyzer.js:17-48 | The diff's lines are its `split('\n')`, which join back to the text. `lineToFile` is keyed exactly by the added lines, with the locator's running state. |
| Aggregator.Buckets.Add | analyzer.js:122-129 | `issues[priority].push(...)` for each entry grows the chosen bucket by exactly those entries at its end and leaves the other four buckets as they were. |
| Aggregator.RuleViolations | analyzer.js:94-131 | A rule whose condition fails files nothing. A capped rule files at most its cap. |
| Aggregator.RuleViolationsSound | analyzer.js:98-114 | Every entry a rule files reports an added line on which the rule's expression fired. The entry holds the line's recorded location and its non-empty snippet. |
| Aggregator.RuleViolationsComplete | analyzer.js:98-129 | An open rule pushes one entry per kept line, or only its cap of them when there are more. The entry of a kept line with `k` kept lines before it is entry `k` whenever `k` is below that number. It carries the line's location and snippet, so `slice(0, 3)` keeps exactly the first three kept lines of the diff. |
| Aggregator.Run | analyzer.js:137-369 | Running the calls in order leaves each bucket as its old contents followed by the entries of that priority's calls, in call order. |
| Aggregator.FiledOrigin | analyzer.js:121-129 | Every entry of bucket `p` was pushed by a call of priority `p`. |
| Aggregator.RuleSilentWithoutAdditions | analyzer.js:101-103 | A diff without recorded lines gets no entry from any rule. |
| Aggregator.MapRuleRunsOnlyWithoutKeys | analyzer.js:279-286 | On a diff without `.map(`, or with `key=`, the `.map(` rule files nothing. |
| Aggregator.UseEffectRuleSilent | analyzer.js:288-295 | The `useEffect` rule files nothing on any diff. |
| Summary.Summarize | analyzer.js:405-433 | The counts are the bucket sizes, and the total excludes `info`. The verdict is "all checks passed" exactly when every non-`info` bucket is empty. It is "critical" exactly when the critical bucket is non-empty. It is "high priority" exactly when critical is empty and high is not. Otherwise it is "review". |
| Summary.InfoNeverCounts | analyzer.js:409-410 | Informational entries change neither the total nor the verdict. |
| Summary.VerdictMonotone | analyzer.js:423-432 | More entries never lower the total or soften the verdict. |
| Summary.Analyze | analyzer.js:17-433 | The report is the summary of the final buckets. Each bucket is exactly the in-order concatenation of its priority's rule outputs. |
| Summary.AnalyzeSound | analyzer.js:98-129 | Every reported entry names a rule of its bucket's priority, with that rule's type and impact. It reports an added line of the diff, at the located file and line, with that line's snippet, on a line where the rule fired. |
| Summary.NoAdditionsPass | analyzer.js:41-424 | A diff without added lines leaves every bucket empty and passes all checks, whatever the rules. |
| Summary.AnalyzeSource | analyzer.js:137-410 | With the tool's own table and the `g` flag, `info` stays empty and the total is at most 3 × 29 = 87. |
| Summary.CappedTable | analyzer.js:120-121 | A table of rules capped at `c` that never file into `info` leaves `info` empty and totals at most `c` per rule. |
| Summary.FiledTotal | analyzer.js:405-410 | Every pushed entry lands in exactly one bucket: the five bucket sizes add up to the number of entries pushed. |

## Left out

- Command-line handling and file reading (analyzer.js:7-17): the model starts from the diff's text.
- The printed report (analyzer.js:134, 204, 253, 313, 339, 372-403, 412-436): headings, tables, the escaping of `|` in snippets, and emoji are output formatting. The model computes the counts, total and verdict those lines print.
- Regular-expression matching: `Search` is a parameter of the model. The 29 patterns are kept as text. Case-insensitive Unicode folding and backtracking semantics are not modelled; the literal searcher folds ASCII letters only.
- Code units: JavaScript strings are UTF-16, and `substring`, `length` and `lastIndex` count code units. The model counts code points, so the 100-character cut and the offsets differ on text outside the Basic Multilingual Plane.
- `parseInt` reads digits as a double. The model uses unbounded naturals, so starts above 2^53 are not rounded.
- `split('\n')` leaves `\r` at the end of CRLF lines. The model keeps it too, but makes no separate statement about CRLF diffs.
- The corrected engine is `Engine(search, false)`. Matcher.PerLineReportsBoth shows it reporting both lines of the counterexample. `Analyze` and every lemma about it take the engine as a parameter, so they hold for the corrected engine as well as for the tool's `g` flag, which `AnalyzeSource` uses.
- Matcher.Scan is computed in two passes: the fired flags first, then the located-line filter. The source does both in one `forEach`. The results are the same, because the filter does not touch `lastIndex`.
- findViolations (analyzer.js:62-89) is defined but never called by the table. It is modelled as the `Uncapped` mode of the same pass.
- HunkHeader.Parse: the leftmost match is stated over the model's own matcher, HeaderAt. Only the round trip on well-formed headers is proved, and no separate statement is made about which malformed lines still match the unanchored expression.
- Locator.NewPath: the locator keeps the file reader as written, `FilePath`, because every statement about `lineToFile`, the entries and the report is about the tool as it runs. The corrected reader is stated and proved beside it rather than substituted.
- Rules.UseEffectRuleNeverRuns: the condition at analyzer.js:288 is modelled as written. What the authors meant it to test cannot be read from the code, so no corrected version is given.

## Findings

| source | as written | input that shows it | evidently intended | confidence | as-written member | corrected member |
|---|---|---|---|---|---|---|
| analyzer.js:95-99 | Every expression is compiled with the `g` flag and reused for all lines. So `test` resumes each line's search at the `lastIndex` left by the previous hit. | Two added lines `+  debugger;` and `+debugger;`. After the first line, `lastIndex` is 12, past the end of the 10-code-point second line. The second line is not reported. | Each line is tested on its own: compile without `g`, or reset `lastIndex` before each line. | not executed | Matcher.StaleLastIndexSkipsMatch | Matcher.PerLineTestIsIndependent |
| analyzer.js:28-30 | The file of a `diff --git` line is the capture of `/b\/(.+)$/`. That expression starts at the first `b/` anywhere in the line, which can lie inside the old path `a/...`. | `diff --git a/lib/x.js b/lib/x.js`. The first `b/` is the end of `lib/`, so every addition below it is reported in the file `x.js b/lib/x.js`. | The new-side path after ` b/`, here `lib/x.js`. | not executed | Locator.LibHeaderMisread | Locator.NewPathRoundTrip |
