/** `computeProblems` of the manifest editor: the line-by-line checks of a
    `manifest.yml` and the diagnostics they report. */
module Validator {
  import opened Wrappers
  import opened Strings
  import opened Manifest
  import opened Patterns
  import opened Lines

  /** A problem marker: message, 1-based line (absent for whole-file problems),
      1-based start and end columns of the marked range, and severity (absent for
      the default, an error). */
  datatype Diagnostic = Diagnostic(
    description: string,
    line: Option<nat>,
    start: nat,
    end: Option<nat>,
    severity: Option<string>)

  /** The keys whose values the validator checks, in the order it checks them. */
  datatype ValueRule = MemoryRule | InstancesRule | TimeoutRule | NoRouteRule

  const IndentationMessage: string := "Invalid indentation: mixed spaces and tabs"
  const MissingCommandMessage: string := "Missing application command"
  const WarningSeverity: string := "warning"
  const CommandKey: string := "command: "
  const ApplicationsKey: string := "applications:"

  function RuleKey(rule: ValueRule): (key: string)
    ensures |key| > 0 && IsAsciiLetter(key[0])
  {
    match rule
    case MemoryRule => "memory: "
    case InstancesRule => "instances: "
    case TimeoutRule => "timeout: "
    case NoRouteRule => "no-route: "
  }

  function RuleMessage(rule: ValueRule): string {
    match rule
    case MemoryRule => "Invalid memory unit"
    case InstancesRule => "Invalid application instances"
    case TimeoutRule => "Invalid application start timeout"
    case NoRouteRule => "Invalid no-route property"
  }

  /** The value a rule accepts after its key. */
  predicate RuleAccepts(rule: ValueRule, value: string) {
    match rule
    case MemoryRule => MatchMemory(value)
    case InstancesRule => MatchCount(value)
    case TimeoutRule => MatchCount(value)
    case NoRouteRule => IsTrueFlag(value)
  }

  /** The line holds `rule`'s key and a value the rule does not accept. */
  predicate Violates(line: string, rule: ValueRule) {
    KeyLine(line, RuleKey(rule)) && !RuleAccepts(rule, ValueOf(line, RuleKey(rule)))
  }

  /** A diagnostic of line `number`: an error whose range starts within the line. */
  predicate OnLine(d: Diagnostic, number: nat) {
    d.line == Some(number) && d.severity.None? && d.start >= 1
  }

  /** The indentation check: a line whose first character after the leading spaces
      is not a letter or `-` is marked from column 1 to just after its leading white
      space, or, with no leading white space, with no end. */
  function IndentationProblems(line: string, number: nat): (ds: seq<Diagnostic>)
    ensures |ds| == if IndentOk(line) then 0 else 1
    ensures forall d :: d in ds ==> OnLine(d, number)
  {
    if IndentOk(line) then []
    else
      var w := LeadingWhitespace(line);
      [Diagnostic(IndentationMessage, Some(number), 1, if w > 0 then Some(w + 1) else None, None)]
  }

  /** One value check: a line with the rule's key and a rejected value is marked from
      its key to the end of the line. Columns count UTF-16 code units, as JavaScript's
      `line.length` does; the leading spaces are one unit each. */
  function RuleProblems(line: string, number: nat, rule: ValueRule): (ds: seq<Diagnostic>)
    ensures |ds| == if Violates(line, rule) then 1 else 0
    ensures forall d :: d in ds ==> OnLine(d, number)
  {
    if Violates(line, rule) then
      [Diagnostic(RuleMessage(rule), Some(number), LeadingSpaces(line) + 1, Some(Utf16Length(line) + 1), None)]
    else []
  }

  /** Two different rule keys cannot both start a line. */
  lemma {:induction false} RulesExclusive(line: string, a: ValueRule, b: ValueRule)
    requires KeyLine(line, RuleKey(a)) && KeyLine(line, RuleKey(b))
    ensures a == b
  {
    var n := LeadingSpaces(line);
    assert line[n..][..|RuleKey(a)|] == RuleKey(a);
    assert line[n..][..|RuleKey(b)|] == RuleKey(b);
    assert RuleKey(a)[0] == line[n] == RuleKey(b)[0];
    assert RuleKey(a)[1] == line[n + 1] == RuleKey(b)[1];
  }

  /** A line that starts with a rule's key is correctly indented. */
  lemma {:induction false} KeyLineIndentOk(line: string, key: string)
    requires |key| > 0 && IsAsciiLetter(key[0]) && KeyLine(line, key)
    ensures IndentOk(line)
  {
    var n := LeadingSpaces(line);
    assert line[n..][..|key|][0] == line[n];
  }

  /** A rule whose value a line violates is the only one, and the line is correctly
      indented. */
  lemma {:induction false} OnlyRule(line: string, a: ValueRule)
    requires Violates(line, a)
    ensures forall b :: Violates(line, b) ==> b == a
    ensures IndentOk(line)
  {
    forall b | Violates(line, b)
      ensures b == a
    {
      RulesExclusive(line, a, b);
    }
    KeyLineIndentOk(line, RuleKey(a));
  }

  /** The checks of one non-blank line, in the order the validator runs them. */
  function LineChecks(line: string, number: nat): (ds: seq<Diagnostic>)
    ensures forall d :: d in ds ==> OnLine(d, number)
  {
    IndentationProblems(line, number)
    + RuleProblems(line, number, MemoryRule)
    + RuleProblems(line, number, InstancesRule)
    + RuleProblems(line, number, TimeoutRule)
    + RuleProblems(line, number, NoRouteRule)
  }

  /** The checks exclude each other: a line gets at most one diagnostic. */
  lemma {:induction false} LineChecksAtMostOne(line: string, number: nat)
    ensures |LineChecks(line, number)| <= 1
  {
    if Violates(line, MemoryRule) {
      OnlyRule(line, MemoryRule);
    } else if Violates(line, InstancesRule) {
      OnlyRule(line, InstancesRule);
    } else if Violates(line, TimeoutRule) {
      OnlyRule(line, TimeoutRule);
    } else if Violates(line, NoRouteRule) {
      OnlyRule(line, NoRouteRule);
    }
  }

  /** The problems of one line: none for a blank line, and at most one otherwise. */
  function LineProblems(line: string, number: nat): (ds: seq<Diagnostic>)
    ensures IsBlank(line) ==> ds == []
    ensures |ds| <= 1
    ensures forall d :: d in ds ==> OnLine(d, number)
  {
    if IsBlank(line) then []
    else
      LineChecksAtMostOne(line, number);
      LineChecks(line, number)
  }

  /** A line has a problem exactly when it is not blank and is badly indented or
      holds a rejected value. */
  lemma {:induction false} LineProblemsIff(line: string, number: nat)
    ensures LineProblems(line, number) != [] <==>
      !IsBlank(line) && (!IndentOk(line) || exists rule :: Violates(line, rule))
  {
    if !IsBlank(line) && exists rule :: Violates(line, rule) {
      var rule :| Violates(line, rule);
      match rule
      case MemoryRule =>
      case InstancesRule =>
      case TimeoutRule =>
      case NoRouteRule =>
    }
  }

  /** A line of `n` leading spaces and then `tail`: the spaces are one code unit
      each, and the line has as many code units as it has code points when it lies
      within the Basic Multilingual Plane. */
  lemma {:induction false} BlankPrefixUnits(line: string, n: nat, tail: string)
    requires n <= |line| && line == line[..n] + tail
    requires forall i :: 0 <= i < n ==> line[i] == ' '
    ensures Utf16Length(line[..n]) == n
    ensures Utf16Length(line) == n + Utf16Length(tail)
    ensures IsBmp(line) ==> Utf16Length(line) == |line| && line[n..] == tail
  {
    var blanks := line[..n];
    assert IsBmp(blanks);
    Utf16LengthBmpIff(blanks);
    Utf16LengthConcat(blanks, tail);
    Utf16LengthBmpIff(line);
  }

  /** On a line holding a key after its leading spaces, the spaces are one code unit
      each and the rest of the line is the key and its value. Within the Basic
      Multilingual Plane, code units are code points, so the key and value are the
      text of the line from just after its spaces. */
  lemma {:induction false} KeyValueUnits(line: string, rule: ValueRule)
    requires KeyLine(line, RuleKey(rule))
    ensures Utf16Length(line[..LeadingSpaces(line)]) == LeadingSpaces(line)
    ensures Utf16Length(line) == LeadingSpaces(line) + Utf16Length(RuleKey(rule) + ValueOf(line, RuleKey(rule)))
    ensures IsBmp(line) ==>
      Utf16Length(line) == |line| && line[LeadingSpaces(line)..] == RuleKey(rule) + ValueOf(line, RuleKey(rule))
  {
    var n := LeadingSpaces(line);
    var tail := RuleKey(rule) + ValueOf(line, RuleKey(rule));
    assert line == line[..n] + tail;
    BlankPrefixUnits(line, n, tail);
  }

  /** The marked range of a value problem is the key and value of the line: it
      starts after the leading spaces and spans the code units of the key and value,
      up to the end of the line. */
  lemma {:induction false} RuleProblemRange(line: string, number: nat, rule: ValueRule)
    requires Violates(line, rule)
    ensures var d := RuleProblems(line, number, rule)[0];
      d.line == Some(number) && d.description == RuleMessage(rule)
      && d.start == LeadingSpaces(line) + 1 && d.end == Some(Utf16Length(line) + 1)
      && d.end.value - d.start == Utf16Length(RuleKey(rule) + ValueOf(line, RuleKey(rule)))
  {
    assert Utf16Length(line) == LeadingSpaces(line) + Utf16Length(RuleKey(rule) + ValueOf(line, RuleKey(rule))) by {
      KeyValueUnits(line, rule);
    }
  }

  /** An indentation problem carries its message and line number, and its marked
      range is the leading white space. */
  lemma {:induction false} IndentationProblemRange(line: string, number: nat)
    requires !IndentOk(line)
    ensures var d := IndentationProblems(line, number)[0];
      d.description == IndentationMessage && d.line == Some(number)
      && d.start == 1
      && (d.end.Some? ==> (d.end.value >= 2 && AllSpace(line[..d.end.value - 1])
          && (d.end.value - 1 < |line| ==> !IsJsSpace(line[d.end.value - 1]))))
      && (d.end.None? ==> |line| == 0 || !IsJsSpace(line[0]))
  {
  }

  // ---------------------------------------------------------------------------
  // The scan over all lines

  /** The problems of the first `k` lines, line numbers counted from 1. */
  function ProblemsUpTo(lines: seq<string>, k: nat): seq<Diagnostic>
    requires k <= |lines|
  {
    if k == 0 then [] else ProblemsUpTo(lines, k - 1) + LineProblems(lines[k - 1], k)
  }

  lemma {:induction false} ProblemsUpToStep(lines: seq<string>, j: nat)
    requires j < |lines|
    ensures ProblemsUpTo(lines, j + 1) == ProblemsUpTo(lines, j) + LineProblems(lines[j], j + 1)
  {
  }

  /** Some non-blank line starts with `key` after its leading spaces. */
  predicate HasKeyLine(lines: seq<string>, key: string) {
    exists i :: 0 <= i < |lines| && !IsBlank(lines[i]) && KeyLine(lines[i], key)
  }

  const MissingCommandWarning: Diagnostic :=
    Diagnostic(MissingCommandMessage, None, 0, None, Some(WarningSeverity))

  /** The problems the scan of all lines reports: the line problems in line order,
      then the warning for an application list without any `command:`. */
  function LineScan(lines: seq<string>): seq<Diagnostic> {
    ProblemsUpTo(lines, |lines|)
    + (if !HasKeyLine(lines, CommandKey) && HasKeyLine(lines, ApplicationsKey) then [MissingCommandWarning] else [])
  }

  /** Some non-blank line among the first `k` starts with `key`: the flag the loop
      keeps for `key`, negated. */
  predicate SeenKey(lines: seq<string>, k: nat, key: string)
    requires k <= |lines|
  {
    k > 0 && (SeenKey(lines, k - 1, key) || (!IsBlank(lines[k - 1]) && KeyLine(lines[k - 1], key)))
  }

  lemma {:induction false} SeenKeyStep(lines: seq<string>, j: nat, key: string)
    requires j < |lines|
    ensures SeenKey(lines, j + 1, key) <==>
      SeenKey(lines, j, key) || (!IsBlank(lines[j]) && KeyLine(lines[j], key))
  {
  }

  lemma {:induction false} SeenKeyIff(lines: seq<string>, k: nat, key: string)
    requires k <= |lines|
    ensures SeenKey(lines, k, key) <==> HasKeyLine(lines[..k], key)
    decreases k
  {
    if k > 0 {
      var j := k - 1;
      SeenKeyIff(lines, j, key);
      SeenKeyStep(lines, j, key);
      assert lines[..j + 1] == lines[..j] + [lines[j]];
      HasKeyLineStep(lines[..j], lines[j], key);
    }
  }

  /** The loop of `computeProblems`: skip blank lines, run the checks of every other
      line, and track whether a `command:` and an `applications:` line were seen. */
  method ScanLines(lines: seq<string>) returns (problems: seq<Diagnostic>)
    ensures problems == LineScan(lines)
  {
    problems := [];
    var missingCommand := true;
    var missingApplications := true;
    var i := 0;
    while i < |lines|
      invariant 0 <= i <= |lines|
      invariant problems == ProblemsUpTo(lines, i)
      invariant missingCommand == !SeenKey(lines, i, CommandKey)
      invariant missingApplications == !SeenKey(lines, i, ApplicationsKey)
    {
      var line := lines[i];
      ProblemsUpToStep(lines, i);
      SeenKeyStep(lines, i, CommandKey);
      SeenKeyStep(lines, i, ApplicationsKey);
      if IsBlank(line) {
        i := i + 1;
        continue;
      }
      problems := problems + LineChecks(line, i + 1);
      if KeyLine(line, CommandKey) {
        missingCommand := false;
      }
      if KeyLine(line, ApplicationsKey) {
        missingApplications := false;
      }
      i := i + 1;
    }
    SeenKeyIff(lines, i, CommandKey);
    SeenKeyIff(lines, i, ApplicationsKey);
    assert lines[..i] == lines;
    if missingCommand && !missingApplications {
      problems := problems + [MissingCommandWarning];
    }
  }

  lemma {:induction false} HasKeyLineStep(lines: seq<string>, line: string, key: string)
    ensures HasKeyLine(lines + [line], key) <==>
      HasKeyLine(lines, key) || (!IsBlank(line) && KeyLine(line, key))
  {
    var l := lines + [line];
    if HasKeyLine(l, key) {
      var i :| 0 <= i < |l| && !IsBlank(l[i]) && KeyLine(l[i], key);
      if i < |lines| {
        assert l[i] == lines[i];
      }
    }
    if HasKeyLine(lines, key) {
      var i :| 0 <= i < |lines| && !IsBlank(lines[i]) && KeyLine(lines[i], key);
      assert l[i] == lines[i];
    }
    assert l[|lines|] == line;
  }

  /** Every diagnostic of `ps` is on one of lines 1 to `k`. */
  predicate LinesWithin(ps: seq<Diagnostic>, k: nat) {
    forall j :: 0 <= j < |ps| ==> ps[j].line.Some? && 1 <= ps[j].line.value <= k
  }

  /** The diagnostics of `ps` are on strictly increasing lines. */
  predicate LineOrdered(ps: seq<Diagnostic>)
    requires forall j :: 0 <= j < |ps| ==> ps[j].line.Some?
  {
    forall i, j :: 0 <= i < j < |ps| ==> ps[i].line.value < ps[j].line.value
  }

  /** Groups of diagnostics in which group `i` holds at most one diagnostic, and
      only of line `i + 1`. */
  predicate OnePerLine(groups: seq<seq<Diagnostic>>) {
    forall i :: 0 <= i < |groups| ==> |groups[i]| <= 1 && forall d :: d in groups[i] ==> OnLine(d, i + 1)
  }

  /** The groups one after the other. */
  function Concat(groups: seq<seq<Diagnostic>>): seq<Diagnostic>
    decreases |groups|
  {
    if |groups| == 0 then [] else Concat(groups[..|groups| - 1]) + groups[|groups| - 1]
  }

  /** The problems of each of the first `k` lines, those of line `i + 1` at index `i`. */
  function LineGroups(lines: seq<string>, k: nat): (groups: seq<seq<Diagnostic>>)
    requires k <= |lines|
    ensures |groups| == k
    decreases k
  {
    if k == 0 then [] else LineGroups(lines, k - 1) + [LineProblems(lines[k - 1], k)]
  }

  lemma {:induction false} LineGroupAt(lines: seq<string>, k: nat, i: nat)
    requires i < k <= |lines|
    ensures LineGroups(lines, k)[i] == LineProblems(lines[i], i + 1)
    decreases k
  {
    if i < k - 1 {
      LineGroupAt(lines, k - 1, i);
      assert LineGroups(lines, k)[i] == LineGroups(lines, k - 1)[i];
    }
  }

  lemma {:induction false} ProblemsUpToConcat(lines: seq<string>, k: nat)
    requires k <= |lines|
    ensures ProblemsUpTo(lines, k) == Concat(LineGroups(lines, k))
    decreases k
  {
    if k > 0 {
      var j := k - 1;
      ProblemsUpToConcat(lines, j);
      var g := LineGroups(lines, k);
      assert g[..j] == LineGroups(lines, j);
      assert g[j] == LineProblems(lines[j], k);
    }
  }

  /** Adding a group of at most one diagnostic of the next line keeps one per line. */
  lemma {:induction false} OnePerLineSnoc(groups: seq<seq<Diagnostic>>, last: seq<Diagnostic>)
    requires OnePerLine(groups)
    requires |last| <= 1 && forall d :: d in last ==> OnLine(d, |groups| + 1)
    ensures OnePerLine(groups + [last])
  {
    var g := groups + [last];
    forall i | 0 <= i < |g|
      ensures |g[i]| <= 1 && forall d :: d in g[i] ==> OnLine(d, i + 1)
    {
      if i < |groups| {
        assert g[i] == groups[i];
      }
    }
  }

  lemma {:induction false} LineGroupsOnePerLine(lines: seq<string>, k: nat)
    requires k <= |lines|
    ensures OnePerLine(LineGroups(lines, k))
    decreases k
  {
    if k > 0 {
      var j := k - 1;
      var g := LineGroups(lines, j);
      var last := LineProblems(lines[j], k);
      assert LineGroups(lines, k) == g + [last];
      assert OnePerLine(g + [last]) by {
        LineGroupsOnePerLine(lines, j);
        assert |g| + 1 == k;
        OnePerLineSnoc(g, last);
      }
    }
  }

  lemma {:induction false} OnePerLineInit(groups: seq<seq<Diagnostic>>, n: nat)
    requires n <= |groups| && OnePerLine(groups)
    ensures OnePerLine(groups[..n])
  {
    var init := groups[..n];
    forall i | 0 <= i < |init|
      ensures |init[i]| <= 1 && forall d :: d in init[i] ==> OnLine(d, i + 1)
    {
      assert init[i] == groups[i];
    }
  }

  /** Appending at most one diagnostic of line `n + 1` to diagnostics of lines 1 to
      `n` keeps them in line order. */
  lemma {:induction false} AppendLine(prev: seq<Diagnostic>, here: seq<Diagnostic>, n: nat)
    requires LinesWithin(prev, n) && LineOrdered(prev)
    requires |here| <= 1 && forall d :: d in here ==> OnLine(d, n + 1)
    ensures LinesWithin(prev + here, n + 1) && LineOrdered(prev + here)
  {
    var ps := prev + here;
    forall j | 0 <= j < |ps|
      ensures ps[j].line.Some? && 1 <= ps[j].line.value <= n + 1
    {
      if j < |prev| {
        assert ps[j] == prev[j];
      } else {
        assert ps[j] == here[j - |prev|];
        assert here[j - |prev|] in here;
      }
    }
    forall i, j | 0 <= i < j < |ps|
      ensures ps[i].line.value < ps[j].line.value
    {
      assert ps[i] == prev[i];
      if j < |prev| {
        assert ps[j] == prev[j];
      } else {
        assert ps[j] == here[j - |prev|];
        assert here[j - |prev|] in here;
      }
    }
  }

  /** Concatenated groups come in line order, group `i` on line `i + 1`. */
  lemma {:induction false} ConcatInLineOrder(groups: seq<seq<Diagnostic>>)
    requires OnePerLine(groups)
    ensures LinesWithin(Concat(groups), |groups|) && LineOrdered(Concat(groups))
    decreases |groups|
  {
    if |groups| > 0 {
      var n := |groups| - 1;
      var init := groups[..n];
      OnePerLineInit(groups, n);
      ConcatInLineOrder(init);
      assert |init| == n;
      AppendLine(Concat(init), groups[n], n);
      assert n + 1 == |groups|;
    }
  }

  /** No diagnostic of lines 1 to `n` is on line `n + 1`. */
  lemma {:induction false} WithinNotOn(ps: seq<Diagnostic>, n: nat, d: Diagnostic)
    requires LinesWithin(ps, n) && d in ps
    ensures d.line != Some(n + 1)
  {
    var m :| 0 <= m < |ps| && ps[m] == d;
    assert ps[m].line.value <= n;
  }

  /** The diagnostics of line `i + 1` among the concatenated groups are exactly
      group `i`. */
  lemma {:induction false} ConcatOfLine(groups: seq<seq<Diagnostic>>, i: nat, d: Diagnostic)
    requires OnePerLine(groups) && i < |groups|
    ensures d in Concat(groups) && d.line == Some(i + 1) <==> d in groups[i]
    decreases |groups|
  {
    var n := |groups| - 1;
    var init := groups[..n];
    var last := groups[n];
    assert Concat(groups) == Concat(init) + last;
    assert d in last ==> OnLine(d, n + 1);
    OnePerLineInit(groups, n);
    if i < n {
      ConcatOfLine(init, i, d);
      assert init[i] == groups[i];
    } else {
      assert i == n;
      if d in Concat(init) {
        ConcatInLineOrder(init);
        assert |init| == n;
        WithinNotOn(Concat(init), n, d);
      }
    }
  }

  /** Every line problem carries its line number, and the problems come in line
      order, at most one per line. */
  lemma {:induction false} ProblemsInLineOrder(lines: seq<string>, k: nat)
    requires k <= |lines|
    ensures LinesWithin(ProblemsUpTo(lines, k), k)
    ensures LineOrdered(ProblemsUpTo(lines, k))
  {
    ProblemsUpToConcat(lines, k);
    LineGroupsOnePerLine(lines, k);
    ConcatInLineOrder(LineGroups(lines, k));
  }

  /** The problems reported for line `i + 1` are exactly that line's problems. */
  lemma {:induction false} ProblemsOfLine(lines: seq<string>, k: nat, i: nat, d: Diagnostic)
    requires i < k <= |lines|
    ensures d in ProblemsUpTo(lines, k) && d.line == Some(i + 1) <==> d in LineProblems(lines[i], i + 1)
  {
    ProblemsUpToConcat(lines, k);
    LineGroupsOnePerLine(lines, k);
    ConcatOfLine(LineGroups(lines, k), i, d);
    LineGroupAt(lines, k, i);
  }

  /** The missing-command warning is reported exactly when some line starts an
      application list and no line holds a `command:` key. */
  lemma {:induction false} MissingCommandIff(lines: seq<string>)
    ensures MissingCommandWarning in LineScan(lines) <==>
      HasKeyLine(lines, ApplicationsKey) && !HasKeyLine(lines, CommandKey)
    ensures forall j :: 0 <= j < |LineScan(lines)| - 1 ==> LineScan(lines)[j] != MissingCommandWarning
  {
    ProblemsInLineOrder(lines, |lines|);
    var ps := ProblemsUpTo(lines, |lines|);
    forall j | 0 <= j < |ps|
      ensures ps[j] != MissingCommandWarning
    {
      assert ps[j].line.Some? && MissingCommandWarning.line.None?;
    }
    assert MissingCommandWarning !in ps;
  }

  // ---------------------------------------------------------------------------
  // `computeProblems`

  /** How `cfService.getManifestInfo` answered: it is only consulted for the message
      of a failure. */
  datatype ManifestInfo = InfoOk | InfoFailed(message: string)

  /** The value `computeProblems` returns: problems at once, or a promise of them. */
  datatype Validation = Immediate(problems: seq<Diagnostic>) | Deferred(problems: seq<Diagnostic>)

  /** The problem reported for a failed manifest-info request: its message, for the
      whole file. */
  function InfoProblem(message: string): Diagnostic {
    Diagnostic(message, None, 0, None, None)
  }

  /** `computeProblems` for a file titled `title` with text `contents`. Outside a
      manifest file it reports nothing; in one it reports the scan's problems,
      followed at most by the one problem of the manifest-info request. */
  function ComputeProblems(title: Option<string>, contents: string, info: ManifestInfo): (r: Validation)
    ensures !IsEnabled(title) ==> r == Immediate([])
    ensures IsEnabled(title) ==> LineScan(SplitLines(contents)) <= r.problems
    ensures |r.problems| <= |LineScan(SplitLines(contents))| + 1
  {
    if !IsEnabled(title) then Immediate([])
    else
      var problems := LineScan(SplitLines(contents));
      if title.Some? then
        match info
        case InfoOk => Deferred(problems)
        case InfoFailed(message) => Deferred(problems + [InfoProblem(message)])
      else Immediate(problems)
  }

  /** In a manifest file the problems always come through the manifest-info request
      (an enabled editor has a file path), and a failed request adds its message last. */
  lemma {:induction false} ComputeProblemsEnabled(title: Option<string>, contents: string, info: ManifestInfo)
    requires IsEnabled(title)
    ensures var scan := LineScan(SplitLines(contents));
      ComputeProblems(title, contents, info)
        == Deferred(if info.InfoFailed? then scan + [InfoProblem(info.message)] else scan)
  {
    NotEnabledWithoutPath();
  }
}
