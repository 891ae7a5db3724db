/** How the two halves of the manifest editor fit together: the skeleton that content
    assist offers is a manifest the validator has nothing to say about. */
module Consistency {
  import opened Strings
  import opened Patterns
  import opened Lines
  import opened Template
  import opened Validator

  /** No line of the skeleton holds a `\n` or ends with a `\r`. */
  lemma {:induction false} TemplateLinesPlain()
    ensures forall k :: 0 <= k < |TemplateLines| ==> NoNewline(TemplateLines[k]) && !EndsWithCR(TemplateLines[k])
  {
    var L := TemplateLines;
    assert NoNewline(L[0]) && !EndsWithCR(L[0]);
    assert NoNewline(L[1]) && !EndsWithCR(L[1]);
    assert NoNewline(L[2]) && !EndsWithCR(L[2]);
    assert NoNewline(L[3]) && !EndsWithCR(L[3]);
    assert NoNewline(L[4]) && !EndsWithCR(L[4]);
    assert NoNewline(L[5]) && !EndsWithCR(L[5]);
    assert NoNewline(L[6]) && !EndsWithCR(L[6]);
    assert NoNewline(L[7]) && !EndsWithCR(L[7]);
  }

  /** A line whose first character after its leading spaces is a letter or `-` is not
      blank. */
  lemma {:induction false} IndentedNotBlank(line: string)
    requires IndentOk(line)
    ensures !IsBlank(line)
  {
    IsBlankIff(line);
    assert !IsJsSpace(line[LeadingSpaces(line)]);
  }

  /** A key line continues, after its leading spaces, with the key's first character. */
  lemma {:induction false} KeyLineFirst(line: string, key: string)
    requires |key| > 0 && KeyLine(line, key)
    ensures LeadingSpaces(line) < |line| && line[LeadingSpaces(line)] == key[0]
  {
    var n := LeadingSpaces(line);
    assert line[n..][..|key|][0] == line[n];
  }

  /** The first characters of the checked keys. */
  const RuleInitials: set<char> :=
    {RuleKey(MemoryRule)[0], RuleKey(InstancesRule)[0], RuleKey(TimeoutRule)[0], RuleKey(NoRouteRule)[0]}

  /** A well-indented line that opens with none of the checked keys has no problem. */
  lemma {:induction false} PlainLineClean(line: string, number: nat)
    requires IndentOk(line) && line[LeadingSpaces(line)] !in RuleInitials
    ensures LineProblems(line, number) == []
  {
    IndentedNotBlank(line);
    forall rule
      ensures !Violates(line, rule)
    {
      assert RuleKey(rule)[0] in RuleInitials by {
        match rule
        case MemoryRule =>
        case InstancesRule =>
        case TimeoutRule =>
        case NoRouteRule =>
      }
      if KeyLine(line, RuleKey(rule)) {
        KeyLineFirst(line, RuleKey(rule));
      }
    }
  }

  /** A line holding a checked key with an accepted value has no problem. */
  lemma {:induction false} ValueLineClean(line: string, number: nat, rule: ValueRule)
    requires KeyLine(line, RuleKey(rule)) && RuleAccepts(rule, ValueOf(line, RuleKey(rule)))
    ensures LineProblems(line, number) == []
  {
    KeyLineIndentOk(line, RuleKey(rule));
    IndentedNotBlank(line);
    forall other
      ensures !Violates(line, other)
    {
      if KeyLine(line, RuleKey(other)) {
        RulesExclusive(line, rule, other);
      }
    }
  }

  lemma {:induction false} LeadingTwo(line: string)
    requires |line| > 2 && line[0] == ' ' && line[1] == ' ' && line[2] != ' '
    ensures LeadingSpaces(line) == 2
  {
    assert LeadingSpaces(line[2..]) == 0;
    assert line[1..][1..] == line[2..];
  }

  /** A line that opens, unindented, with a letter or `-` that starts no checked key
      has no problem. */
  lemma {:induction false} UnindentedLineClean(line: string, number: nat)
    requires |line| > 0 && IsIndentChar(line[0]) && line[0] !in RuleInitials
    ensures LineProblems(line, number) == []
  {
    assert LeadingSpaces(line) == 0;
    PlainLineClean(line, number);
  }

  /** The same for a line indented by two spaces. */
  lemma {:induction false} IndentedLineClean(line: string, number: nat)
    requires |line| > 2 && line[0] == ' ' && line[1] == ' '
    requires IsIndentChar(line[2]) && line[2] !in RuleInitials
    ensures LineProblems(line, number) == []
  {
    LeadingTwo(line);
    PlainLineClean(line, number);
  }

  lemma {:induction false} DocumentStartLine()
    ensures LineProblems(TemplateLines[0], 1) == []
  {
    UnindentedLineClean(TemplateLines[0], 1);
  }

  lemma {:induction false} ApplicationsLine()
    ensures LineProblems(TemplateLines[1], 2) == []
  {
    UnindentedLineClean(TemplateLines[1], 2);
  }

  lemma {:induction false} NameLine()
    ensures LineProblems(TemplateLines[2], 3) == []
  {
    UnindentedLineClean(TemplateLines[2], 3);
  }

  lemma {:induction false} HostLine()
    ensures LineProblems(TemplateLines[3], 4) == []
  {
    IndentedLineClean(TemplateLines[3], 4);
  }

  lemma {:induction false} CommandLine()
    ensures LineProblems(TemplateLines[4], 5) == []
  {
    IndentedLineClean(TemplateLines[4], 5);
  }

  lemma {:induction false} PathLine()
    ensures LineProblems(TemplateLines[7], 8) == []
  {
    IndentedLineClean(TemplateLines[7], 8);
  }

  lemma {:induction false} MemoryTemplateLine()
    ensures LineProblems(TemplateLines[5], 6) == []
  {
    var line := TemplateLines[5];
    LeadingTwo(line);
    assert line[2..][..8] == "memory: ";
    assert ValueOf(line, "memory: ") == "256M";
    assert DigitRun("56M") == 2 by {
      assert "56M"[1..] == "6M";
      assert "6M"[1..] == "M";
    }
    assert MatchMemory("256M") by {
      assert "256M"[1..] == "56M";
      assert "256M"[3..] == "M";
    }
    ValueLineClean(line, 6, MemoryRule);
  }

  lemma {:induction false} InstancesTemplateLine()
    ensures LineProblems(TemplateLines[6], 7) == []
  {
    var line := TemplateLines[6];
    LeadingTwo(line);
    assert line[2..][..11] == "instances: ";
    assert ValueOf(line, "instances: ") == "1";
    assert MatchCount("1") by {
      assert "1"[1..] == "";
    }
    ValueLineClean(line, 7, InstancesRule);
  }

  /** One more clean line keeps the scan clean. */
  lemma {:induction false} CleanStep(lines: seq<string>, k: nat)
    requires 1 <= k <= |lines|
    requires ProblemsUpTo(lines, k - 1) == [] && LineProblems(lines[k - 1], k) == []
    ensures ProblemsUpTo(lines, k) == []
  {
  }

  lemma {:induction false} TemplateLinesClean()
    ensures ProblemsUpTo(TemplateLines, |TemplateLines|) == []
  {
    var L := TemplateLines;
    DocumentStartLine();
    ApplicationsLine();
    NameLine();
    HostLine();
    CommandLine();
    MemoryTemplateLine();
    InstancesTemplateLine();
    PathLine();
    CleanStep(L, 1);
    CleanStep(L, 2);
    CleanStep(L, 3);
    CleanStep(L, 4);
    CleanStep(L, 5);
    CleanStep(L, 6);
    CleanStep(L, 7);
    CleanStep(L, 8);
  }

  lemma {:induction false} CommandTemplateLine()
    ensures !IsBlank(TemplateLines[4]) && KeyLine(TemplateLines[4], CommandKey)
  {
    var line := TemplateLines[4];
    LeadingTwo(line);
    assert line[2..][..9] == CommandKey;
    IndentedNotBlank(line);
  }

  lemma {:induction false} ApplicationsTemplateLine()
    ensures !IsBlank(TemplateLines[1]) && KeyLine(TemplateLines[1], ApplicationsKey)
  {
    var line := TemplateLines[1];
    assert LeadingSpaces(line) == 0;
    assert line[..13] == ApplicationsKey;
    IndentedNotBlank(line);
  }

  lemma {:induction false} TemplateHasKeys()
    ensures HasKeyLine(TemplateLines, CommandKey)
    ensures HasKeyLine(TemplateLines, ApplicationsKey)
  {
    CommandTemplateLine();
    ApplicationsTemplateLine();
    assert 0 <= 4 < |TemplateLines|;
    assert 0 <= 1 < |TemplateLines|;
  }

  /** The unfilled skeleton, with either line delimiter, passes the validator's line
      scan without a single problem or warning. */
  lemma {:induction false} TemplatePassesValidation(delimiter: string)
    requires delimiter == LF || delimiter == CRLF
    ensures LineScan(SplitLines(TemplateText(delimiter))) == []
  {
    TemplateLinesPlain();
    if delimiter == LF {
      SplitLinesJoinLF(TemplateLines);
    } else {
      SplitLinesJoinCRLF(TemplateLines);
    }
    TemplateLinesClean();
    TemplateHasKeys();
  }
}
