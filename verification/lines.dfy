/** `contents.split(/\r?\n/)`, the validator's division of a manifest into lines. */
module Lines {
  import opened Strings

  const LF: string := "\n"
  const CRLF: string := "\r\n"

  predicate NoNewline(s: string) {
    forall i :: 0 <= i < |s| ==> s[i] != '\n'
  }

  predicate EndsWithCR(s: string) {
    |s| > 0 && s[|s| - 1] == '\r'
  }

  /** One piece of a split at `\n` with the optional `\r` before the `\n` removed. */
  function DropCR(piece: string): (r: string)
    ensures EndsWithCR(piece) ==> piece == r + "\r"
    ensures !EndsWithCR(piece) ==> r == piece
  {
    if EndsWithCR(piece) then piece[..|piece| - 1] else piece
  }

  lemma {:induction false} NotContainsNewline(s: string)
    requires !Contains(s, LF)
    ensures NoNewline(s)
  {
    NotContainsChar(s, '\n');
  }

  lemma {:induction false} NoNewlineNotContains(s: string)
    requires NoNewline(s)
    ensures !Contains(s, LF)
  {
    forall j | 0 <= j && j + 1 <= |s|
      ensures !OccursAt(s, LF, j)
    {
      assert s[j..j + 1] == [s[j]];
    }
  }

  /** The pieces of a split at `\n`, each but the last without the `\r` of a `\r\n`. */
  function StripDelimiters(pieces: seq<string>): seq<string> {
    seq(|pieces|, k requires 0 <= k < |pieces| => if k < |pieces| - 1 then DropCR(pieces[k]) else pieces[k])
  }

  /** `contents.split(/\r?\n/)`: the leftmost match of `\r?\n` is a `\n`, together
      with the one `\r` just before it when there is one. The lines hold no `\n`. */
  function SplitLines(contents: string): (lines: seq<string>)
    ensures |lines| >= 1
    ensures forall k :: 0 <= k < |lines| ==> NoNewline(lines[k])
  {
    var pieces := Split(contents, LF);
    var lines := StripDelimiters(pieces);
    forall k | 0 <= k < |lines|
      ensures NoNewline(lines[k])
    {
      NotContainsNewline(pieces[k]);
    }
    lines
  }

  /** Each line but the last, followed by the `\r` of its `\r\n` delimiter. */
  function WithCR(lines: seq<string>): (r: seq<string>)
    ensures |r| == |lines|
    ensures forall k :: 0 <= k < |lines| - 1 ==> r[k] == lines[k] + "\r"
    ensures |lines| > 0 ==> r[|lines| - 1] == lines[|lines| - 1]
  {
    seq(|lines|, k requires 0 <= k < |lines| => if k < |lines| - 1 then lines[k] + "\r" else lines[k])
  }

  lemma {:induction false} JoinCRLF(lines: seq<string>)
    ensures Join(lines, CRLF) == Join(WithCR(lines), LF)
    decreases |lines|
  {
    if |lines| >= 2 {
      JoinCRLF(lines[1..]);
      assert WithCR(lines)[1..] == WithCR(lines[1..]);
      assert lines[0] + CRLF == lines[0] + "\r" + LF;
    }
  }

  /** Removing the `\r` of each delimiter undoes adding it. */
  lemma {:induction false} StripWithCR(lines: seq<string>)
    ensures StripDelimiters(WithCR(lines)) == lines
  {
    var w := WithCR(lines);
    forall k | 0 <= k < |lines| - 1
      ensures DropCR(w[k]) == lines[k]
    {
      assert EndsWithCR(w[k]);
      assert w[k][..|w[k]| - 1] == lines[k];
    }
  }

  lemma {:induction false} WithCRNoSeparator(lines: seq<string>)
    requires forall k :: 0 <= k < |lines| ==> NoNewline(lines[k])
    ensures forall k :: 0 <= k < |lines| ==> !Contains(WithCR(lines)[k], LF)
  {
    var w := WithCR(lines);
    forall k | 0 <= k < |w|
      ensures !Contains(w[k], LF)
    {
      assert NoNewline(w[k]);
      NoNewlineNotContains(w[k]);
    }
  }

  /** Splitting text joined with `\r\n` gives the lines back, whatever they hold
      besides `\n`. */
  lemma {:induction false} SplitLinesJoinCRLF(lines: seq<string>)
    requires |lines| >= 1 && forall k :: 0 <= k < |lines| ==> NoNewline(lines[k])
    ensures SplitLines(Join(lines, CRLF)) == lines
  {
    var w := WithCR(lines);
    JoinCRLF(lines);
    WithCRNoSeparator(lines);
    SplitJoin(w, LF);
    StripWithCR(lines);
  }

  /** Splitting text joined with `\n` gives the lines back when no line but the last
      ends with `\r`, which would be read as part of a `\r\n`. */
  lemma {:induction false} SplitLinesJoinLF(lines: seq<string>)
    requires |lines| >= 1 && forall k :: 0 <= k < |lines| ==> NoNewline(lines[k])
    requires forall k :: 0 <= k < |lines| - 1 ==> !EndsWithCR(lines[k])
    ensures SplitLines(Join(lines, LF)) == lines
  {
    forall k | 0 <= k < |lines|
      ensures !Contains(lines[k], LF)
    {
      NoNewlineNotContains(lines[k]);
    }
    SplitJoin(lines, LF);
  }
}
