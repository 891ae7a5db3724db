/** Recognising the manifest file and naming its project: `isEnabled` and
    `getProjectName` of the manifest editor (manifestEditor.js). */
module Manifest {
  import opened Wrappers
  import opened Strings

  /** The only file name the editor support is enabled for. */
  const ManifestFileName: string := "manifest.yml"

  /** The separator between workspace and project in a project label. */
  const LabelSeparator: string := " | "

  /** `isEnabled()`: the file path is set (and non-empty) and its last `/`-separated
      segment is `manifest.yml`. */
  predicate IsEnabled(filePath: Option<string>) {
    match filePath
    case None => false
    case Some(p) =>
      var parts := Split(p, "/");
      p != "" && parts[|parts| - 1] == ManifestFileName
  }

  lemma {:induction false} NoSlashInFileName()
    ensures forall j :: 0 <= j < |ManifestFileName| ==> ManifestFileName[j] != '/'
  {
  }

  /** The last `/`-separated segment of `p`: where it starts, and that it holds no `/`. */
  lemma {:induction false} LastSegment(p: string) returns (k: nat)
    ensures k <= |p|
    ensures k == 0 || p[k - 1] == '/'
    ensures var parts := Split(p, "/"); parts[|parts| - 1] == p[k..]
    ensures forall j :: k <= j < |p| ==> p[j] != '/'
  {
    var parts := Split(p, "/");
    assert Join(parts, "/") == p && !Contains(parts[|parts| - 1], "/") by {
      SplitFromSpec(p, "/", 0);
      assert p[0..] == p;
    }
    k := JoinedLastStart(p, "/", parts);
    if k > 0 {
      assert p[k - 1..k][0] == p[k - 1];
    }
    NotContainsChar(p[k..], '/');
    forall j | k <= j < |p|
      ensures p[j] != '/'
    {
      assert p[j] == p[k..][j - k];
    }
  }

  lemma {:induction false} EnabledEndsWithName(p: string)
    requires IsEnabled(Some(p))
    ensures p == ManifestFileName || EndsWith(p, "/" + ManifestFileName)
  {
    var k := LastSegment(p);
    var tail := p[k..];
    assert tail == ManifestFileName;
    if k == 0 {
      assert p == tail;
    } else {
      var start := |p| - 13;
      assert start == k - 1;
      assert p[start..] == [p[start]] + tail;
    }
  }

  lemma {:induction false} EndsWithNameEnabled(p: string)
    requires p == ManifestFileName || EndsWith(p, "/" + ManifestFileName)
    ensures IsEnabled(Some(p))
  {
    var k := LastSegment(p);
    NoSlashInFileName();
    var q := if p == ManifestFileName then 0 else |p| - 12;
    assert p[q..] == ManifestFileName;
    assert q > 0 ==> p[q - 1] == '/';
    assert k == q;
  }

  /** The editor is enabled exactly for `manifest.yml` itself and for paths ending
      in `/manifest.yml`. */
  lemma {:induction false} IsEnabledIff(p: string)
    ensures IsEnabled(Some(p)) <==> p == ManifestFileName || EndsWith(p, "/" + ManifestFileName)
  {
    if IsEnabled(Some(p)) {
      EnabledEndsWithName(p);
    }
    if p == ManifestFileName || EndsWith(p, "/" + ManifestFileName) {
      EndsWithNameEnabled(p);
    }
  }

  /** A file without a path is never a manifest. */
  lemma {:induction false} NotEnabledWithoutPath()
    ensures !IsEnabled(None)
  {
  }

  /** `getProjectName(name)`: for a `"workspace | project"` label, the second
      `" | "`-separated segment, trimmed; any other name unchanged. */
  function GetProjectName(name: string): (r: string)
    ensures !Contains(name, LabelSeparator) ==> r == name
    ensures Contains(name, LabelSeparator) ==>
      var i := IndexOf(name, LabelSeparator).value;
      var next := IndexOfFrom(name, LabelSeparator, i + |LabelSeparator|);
      var stop := if next.Some? then next.value else |name|;
      r == Trim(name[i + |LabelSeparator|..stop])
  {
    if Contains(name, LabelSeparator) then
      var s := Split(name, LabelSeparator);
      SplitContains(name, LabelSeparator);
      var i := IndexOf(name, LabelSeparator).value;
      var rest := SplitFrom(name, LabelSeparator, i + |LabelSeparator|);
      assert s == [name[..i]] + rest;
      FirstPiece(name, LabelSeparator, i + |LabelSeparator|);
      if |s| > 1 then Trim(s[1]) else name
    else
      name
  }
}
