/** The manifest skeleton offered at the start of an empty file, and the fill of its
    `<name>` and `<host>` placeholders from a project name (manifestEditor.js,
    `manifestTemplate` and the metadata callback of `computeContentAssist`). */
module Template {
  import opened Wrappers
  import opened Strings
  import opened Slug
  import opened Positions

  /** `manifestTemplate`: the lines of the skeleton manifest. */
  const TemplateLines: seq<string> := [
    "---",
    "applications:",
    "- name: <name>",
    "  host: <host>",
    "  command: <command>",
    "  memory: 256M",
    "  instances: 1",
    "  path: ."
  ]

  const NameMarker: string := "<name>"
  const HostMarker: string := "<host>"

  /** `manifestTemplate.join(delimiter)`. */
  function TemplateText(delimiter: string): string {
    Join(TemplateLines, delimiter)
  }

  predicate NoDollar(s: string) {
    forall i :: 0 <= i < |s| ==> s[i] != '$'
  }

  /** The text `String.prototype.replace` substitutes for one match of a pattern
      without capture groups: `$$` is `$`, `$&` the match, `` $` `` the text before
      it and `$'` the text after it; any other `$` stands for itself. */
  function Expand(rep: string, matched: string, before: string, after: string): (r: string)
    ensures NoDollar(rep) ==> r == rep
    decreases |rep|
  {
    if |rep| == 0 then ""
    else if rep[0] == '$' && |rep| >= 2 && rep[1] == '$' then
      "$" + Expand(rep[2..], matched, before, after)
    else if rep[0] == '$' && |rep| >= 2 && rep[1] == '&' then
      matched + Expand(rep[2..], matched, before, after)
    else if rep[0] == '$' && |rep| >= 2 && rep[1] == '`' then
      before + Expand(rep[2..], matched, before, after)
    else if rep[0] == '$' && |rep| >= 2 && rep[1] == '\'' then
      after + Expand(rep[2..], matched, before, after)
    else
      [rep[0]] + Expand(rep[1..], matched, before, after)
  }

  /** `s.replace(/pat/g, rep)` for a literal, non-empty pattern, from index `from` on:
      every leftmost, non-overlapping occurrence is replaced by the expansion of `rep`. */
  function ReplaceFrom(s: string, pat: string, rep: string, from: nat): string
    requires |pat| > 0 && from <= |s|
    decreases |s| - from
  {
    match IndexOfFrom(s, pat, from)
    case None => s[from..]
    case Some(i) =>
      s[from..i] + Expand(rep, pat, s[..i], s[i + |pat|..])
      + ReplaceFrom(s, pat, rep, i + |pat|)
  }

  function ReplaceAll(s: string, pat: string, rep: string): string
    requires |pat| > 0
  {
    ReplaceFrom(s, pat, rep, 0)
  }

  /** One step of a replacement: the text before the next occurrence, its
      replacement, then the rest. */
  lemma {:induction false} ReplaceFromStep(s: string, pat: string, rep: string, from: nat, i: nat, next: nat)
    requires |pat| > 0 && from <= |s| && IndexOfFrom(s, pat, from) == Some(i) && next == i + |pat|
    ensures next <= |s|
    ensures ReplaceFrom(s, pat, rep, from)
      == s[from..i] + Expand(rep, pat, s[..i], s[next..]) + ReplaceFrom(s, pat, rep, next)
  {
  }

  /** A replacement without `$` is literal: replacing every occurrence is the same
      as splitting at the pattern and joining with the replacement. */
  lemma {:induction false} ReplaceLiteral(s: string, pat: string, rep: string, from: nat)
    requires |pat| > 0 && from <= |s| && NoDollar(rep)
    ensures ReplaceFrom(s, pat, rep, from) == Join(SplitFrom(s, pat, from), rep)
    decreases |s| - from
  {
    match IndexOfFrom(s, pat, from)
    case None =>
      SplitFromLast(s, pat, from);
    case Some(i) =>
      var next := i + |pat|;
      ReplaceFromStep(s, pat, rep, from, i, next);
      SplitFromStep(s, pat, from, i, next);
      ReplaceLiteral(s, pat, rep, next);
      JoinCons(s[from..i], SplitFrom(s, pat, next), rep);
  }

  /** A text in which the pattern does not occur is left unchanged. */
  lemma {:induction false} ReplaceAbsent(s: string, pat: string, rep: string)
    requires |pat| > 0 && !Contains(s, pat)
    ensures ReplaceAll(s, pat, rep) == s
  {
  }

  /** The skeleton with `<name>` replaced by the project name and `<host>` by its slug,
      as the metadata callback builds it. */
  function FillTemplate(delimiter: string, projectName: string): string {
    var named := ReplaceAll(TemplateText(delimiter), NameMarker, projectName);
    ReplaceAll(named, HostMarker, Slugify(projectName))
  }

  /** The host substitution is always literal (a slug holds no `$`); the name
      substitution is literal whenever the project name holds no `$`. */
  lemma {:induction false} FillIsLiteralSubstitution(delimiter: string, projectName: string)
    ensures var named := ReplaceAll(TemplateText(delimiter), NameMarker, projectName);
      FillTemplate(delimiter, projectName) == Join(Split(named, HostMarker), Slugify(projectName))
    ensures NoDollar(projectName) ==>
      ReplaceAll(TemplateText(delimiter), NameMarker, projectName)
        == Join(Split(TemplateText(delimiter), NameMarker), projectName)
  {
    var named := ReplaceAll(TemplateText(delimiter), NameMarker, projectName);
    var slug := Slugify(projectName);
    assert NoDollar(slug);
    ReplaceLiteral(named, HostMarker, slug, 0);
    if NoDollar(projectName) {
      ReplaceLiteral(TemplateText(delimiter), NameMarker, projectName, 0);
    }
  }

  /** Replacing a pattern keeps an occurrence of `m` that no occurrence of the
      pattern overlaps. */
  lemma {:induction false} ReplaceKeeps(s: string, pat: string, rep: string, from: nat, m: string, j: nat)
    requires |pat| > 0 && from <= j && OccursAt(s, m, j)
    requires forall i :: OccursAt(s, pat, i) ==> i + |pat| <= j || j + |m| <= i
    ensures Contains(ReplaceFrom(s, pat, rep, from), m)
    decreases |s| - from
  {
    match IndexOfFrom(s, pat, from)
    case None =>
      OccursInSuffix(s, from, m, j);
    case Some(i) =>
      var next := i + |pat|;
      if next <= j {
        ReplaceKeeps(s, pat, rep, next, m, j);
        KeepsFromTail(s, pat, rep, from, i, next, m);
      } else {
        KeepsFromHead(s, pat, rep, from, i, next, m, j);
      }
  }

  lemma {:induction false} KeepsFromTail(s: string, pat: string, rep: string, from: nat, i: nat, next: nat, m: string)
    requires |pat| > 0 && from <= |s| && IndexOfFrom(s, pat, from) == Some(i) && next == i + |pat|
    requires next <= |s| && Contains(ReplaceFrom(s, pat, rep, next), m)
    ensures Contains(ReplaceFrom(s, pat, rep, from), m)
  {
    ReplaceFromStep(s, pat, rep, from, i, next);
    var head := s[from..i] + Expand(rep, pat, s[..i], s[next..]);
    var tail := ReplaceFrom(s, pat, rep, next);
    OccursInRight(head, tail, m, IndexOf(tail, m).value);
  }

  lemma {:induction false} KeepsFromHead(s: string, pat: string, rep: string, from: nat, i: nat, next: nat, m: string, j: nat)
    requires |pat| > 0 && from <= j <= |s| && IndexOfFrom(s, pat, from) == Some(i) && next == i + |pat|
    requires OccursAt(s, m, j) && j + |m| <= i
    ensures Contains(ReplaceFrom(s, pat, rep, from), m)
  {
    ReplaceFromStep(s, pat, rep, from, i, next);
    var piece := s[from..i];
    var expanded := Expand(rep, pat, s[..i], s[next..]);
    var tail := ReplaceFrom(s, pat, rep, next);
    OccursInPrefix(s, i, m, j);
    OccursInSuffix(s[..i], from, m, j);
    assert s[..i][from..] == piece;
    OccursInLeft(piece, expanded, m, j - from);
    OccursInLeft(piece + expanded, tail, m, j - from);
  }

  const CommandMarker: string := "<command>"

  /** A `<command>` placeholder survives the replacement of another marker. */
  lemma {:induction false} CommandSurvives(s: string, pat: string, rep: string)
    requires IsMarker(pat) && pat != CommandMarker && Contains(s, CommandMarker)
    ensures Contains(ReplaceAll(s, pat, rep), CommandMarker)
  {
    var j := IndexOf(s, CommandMarker).value;
    assert IsMarker(CommandMarker);
    forall i | OccursAt(s, pat, i)
      ensures i + |pat| <= j || j + |CommandMarker| <= i
    {
      if !(i + |pat| <= j || j + |CommandMarker| <= i) {
        MarkersDoNotOverlap(s, pat, i, CommandMarker, j);
      }
    }
    ReplaceKeeps(s, pat, rep, 0, CommandMarker, j);
  }

  /** An occurrence inside one part is an occurrence in the joined text. */
  lemma {:induction false} OccursInJoin(parts: seq<string>, sep: string, k: nat, m: string, j: nat)
    requires k < |parts| && OccursAt(parts[k], m, j)
    ensures Contains(Join(parts, sep), m)
    decreases k
  {
    if |parts| == 1 {
      assert Join(parts, sep) == parts[0];
    } else {
      JoinHead(parts, sep);
      var rest := Join(parts[1..], sep);
      if k == 0 {
        OccursInLeft(parts[0], sep, m, j);
        OccursInLeft(parts[0] + sep, rest, m, j);
      } else {
        assert parts[1..][k - 1] == parts[k];
        OccursInJoin(parts[1..], sep, k - 1, m, j);
        OccursInRight(parts[0] + sep, rest, m, IndexOf(rest, m).value);
      }
    }
  }

  /** The skeleton holds a `<command>` placeholder, whatever the line delimiter. */
  lemma {:induction false} TemplateHasCommand(delimiter: string)
    ensures Contains(TemplateText(delimiter), CommandMarker)
  {
    var line := TemplateLines[4];
    assert line[11..20] == CommandMarker;
    OccursInJoin(TemplateLines, delimiter, 4, CommandMarker, 11);
  }

  lemma {:induction false} HasCommandHasPositions(s: string)
    requires Contains(s, CommandMarker)
    ensures GetPositions(s).Success?
  {
    var k := IndexOf(s, CommandMarker).value;
    assert IsMarker(CommandMarker);
    assert IsMarkerAt(s, k, 9);
    MarkerAtSpec(s, k);
  }

  /** The unfilled skeleton always has a placeholder, whatever the line delimiter, so
      `getPositions` on it does not throw. */
  lemma {:induction false} TemplateHasPositions(delimiter: string)
    ensures GetPositions(TemplateText(delimiter)).Success?
  {
    TemplateHasCommand(delimiter);
    HasCommandHasPositions(TemplateText(delimiter));
  }

  /** The placeholders the fill replaces are `<\w+>` markers. */
  lemma {:induction false} FillMarkers()
    ensures IsMarker(NameMarker) && IsMarker(HostMarker)
  {
  }

  /** The filled skeleton still holds `<command>`, so `getPositions` on it does not throw. */
  lemma {:induction false} FilledTemplateHasPositions(delimiter: string, projectName: string)
    ensures Contains(FillTemplate(delimiter, projectName), CommandMarker)
    ensures GetPositions(FillTemplate(delimiter, projectName)).Success?
  {
    FillMarkers();
    TemplateHasCommand(delimiter);
    var t := TemplateText(delimiter);
    var named := ReplaceAll(t, NameMarker, projectName);
    CommandSurvives(t, NameMarker, projectName);
    var slug := Slugify(projectName);
    var filled := ReplaceAll(named, HostMarker, slug);
    CommandSurvives(named, HostMarker, slug);
    HasCommandHasPositions(filled);
  }
}
