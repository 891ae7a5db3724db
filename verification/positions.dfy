/** `getPositions(template)` of the manifest editor: the cursor stops a template
    proposal offers, one per `<\w+>` placeholder. */
module Positions {
  import opened Wrappers
  import opened Strings

  /** A linked-mode stop in a proposal: where a placeholder starts and how long it is,
      both in UTF-16 code units, the units of JavaScript's `indexOf` and `length`. */
  datatype Position = Position(offset: nat, length: nat)

  /** One match of the global regular expression `/<\w+>/g`: where it starts and its text. */
  datatype Match = Match(start: nat, text: string)

  /** A string the regular expression `<\w+>` matches as a whole. */
  predicate IsMarker(m: string) {
    && |m| >= 3 && m[0] == '<' && m[|m| - 1] == '>'
    && forall i :: 1 <= i < |m| - 1 ==> IsWordChar(m[i])
  }

  /** The text of length `n` starting at `j` is a `<\w+>` marker. */
  predicate IsMarkerAt(t: string, j: nat, n: nat) {
    j + n <= |t| && IsMarker(t[j..j + n])
  }

  /** The length of the run of `\w` characters starting at `i`. */
  function WordRun(t: string, i: nat): (n: nat)
    requires i <= |t|
    ensures i + n <= |t|
    ensures forall k :: i <= k < i + n ==> IsWordChar(t[k])
    ensures i + n < |t| ==> !IsWordChar(t[i + n])
    decreases |t| - i
  {
    if i < |t| && IsWordChar(t[i]) then 1 + WordRun(t, i + 1) else 0
  }

  /** The length of the `<\w+>` match that starts exactly at `j`, if there is one. */
  function MarkerAt(t: string, j: nat): (r: Option<nat>)
    requires j <= |t|
    ensures r.Some? ==> j < |t| && 3 <= r.value && j + r.value <= |t| && t[j] == '<'
  {
    if j < |t| && t[j] == '<' then
      var w := WordRun(t, j + 1);
      if w > 0 && j + 1 + w < |t| && t[j + 1 + w] == '>' then Some(w + 2) else None
    else
      None
  }

  /** `MarkerAt` finds exactly the `<\w+>` match at `j`, which is unique: `\w`
      contains neither `<` nor `>`. */
  lemma {:induction false} MarkerAtSpec(t: string, j: nat)
    requires j <= |t|
    ensures forall n: nat :: IsMarkerAt(t, j, n) <==> MarkerAt(t, j) == Some(n)
  {
    if j < |t| && t[j] == '<' {
      var w := WordRun(t, j + 1);
      if w > 0 && j + 1 + w < |t| && t[j + 1 + w] == '>' {
        MarkerAtSome(t, j, w);
      } else {
        MarkerAtNone(t, j, w);
      }
    }
  }

  lemma {:induction false} MarkerAtSome(t: string, j: nat, w: nat)
    requires j < |t| && t[j] == '<' && j + 1 + w < |t| && t[j + 1 + w] == '>' && w > 0
    requires forall k :: j + 1 <= k < j + 1 + w ==> IsWordChar(t[k])
    ensures forall n: nat :: IsMarkerAt(t, j, n) <==> n == w + 2
  {
    forall n: nat
      ensures IsMarkerAt(t, j, n) <==> n == w + 2
    {
    }
  }

  lemma {:induction false} MarkerAtNone(t: string, j: nat, w: nat)
    requires j < |t| && j + 1 + w <= |t|
    requires forall k :: j + 1 <= k < j + 1 + w ==> IsWordChar(t[k])
    requires j + 1 + w < |t| ==> !IsWordChar(t[j + 1 + w])
    requires !(w > 0 && j + 1 + w < |t| && t[j + 1 + w] == '>')
    ensures forall n: nat :: !IsMarkerAt(t, j, n)
  {
    forall n: nat
      ensures !IsMarkerAt(t, j, n)
    {
    }
  }

  /** Inside a marker no other marker starts: its inner characters are `\w` or `>`. */
  lemma {:induction false} NoMarkerInside(t: string, j: nat, n: nat, j': nat)
    requires j <= |t| && MarkerAt(t, j) == Some(n)
    requires j < j' < j + n
    ensures MarkerAt(t, j').None?
  {
    MarkerAtSpec(t, j);
    assert IsMarkerAt(t, j, n);
    assert t[j..j + n][j' - j] == t[j'];
  }

  /** `m` is a match of `<\w+>` in `t`, at or after index `from`. */
  predicate IsMatchIn(t: string, from: nat, m: Match) {
    && from <= m.start <= |t|
    && MarkerAt(t, m.start) == Some(|m.text|)
    && OccursAt(t, m.text, m.start)
  }

  /** Some match in `ms` starts at index `j`. */
  predicate MatchStartsAt(ms: seq<Match>, j: nat) {
    exists k :: 0 <= k < |ms| && ms[k].start == j
  }

  /** The matches are in text order and do not overlap. */
  predicate InTextOrder(ms: seq<Match>) {
    forall k, l :: 0 <= k < l < |ms| ==> ms[k].start + |ms[k].text| <= ms[l].start
  }

  /** `ms` holds exactly the matches of `<\w+>` in `t` from index `from` on, in order. */
  predicate AllMatchesFrom(t: string, from: nat, ms: seq<Match>) {
    && (forall k :: 0 <= k < |ms| ==> IsMatchIn(t, from, ms[k]))
    && InTextOrder(ms)
    && (forall j: nat :: from <= j <= |t| && MarkerAt(t, j).Some? ==> MatchStartsAt(ms, j))
  }

  lemma {:induction false} AllMatchesCons(t: string, from: nat, n: nat, rest: seq<Match>)
    requires from < |t| && MarkerAt(t, from) == Some(n)
    requires AllMatchesFrom(t, from + n, rest)
    ensures AllMatchesFrom(t, from, [Match(from, t[from..from + n])] + rest)
  {
    var m := Match(from, t[from..from + n]);
    var ms := [m] + rest;
    assert IsMatchIn(t, from, m);
    ConsValid(t, from, n, m, rest);
    ConsOrdered(m, rest);
    ConsComplete(t, from, n, m, rest);
  }

  lemma {:induction false} ConsValid(t: string, from: nat, n: nat, m: Match, rest: seq<Match>)
    requires IsMatchIn(t, from, m) && m.start + |m.text| <= from + n
    requires forall k :: 0 <= k < |rest| ==> IsMatchIn(t, from + n, rest[k])
    ensures forall k :: 0 <= k < |[m] + rest| ==> IsMatchIn(t, from, ([m] + rest)[k])
  {
    var ms := [m] + rest;
    forall k | 0 <= k < |ms|
      ensures IsMatchIn(t, from, ms[k])
    {
      if k > 0 {
        assert ms[k] == rest[k - 1];
        assert IsMatchIn(t, from + n, rest[k - 1]);
      }
    }
  }

  lemma {:induction false} ConsOrdered(m: Match, rest: seq<Match>)
    requires InTextOrder(rest)
    requires forall k :: 0 <= k < |rest| ==> m.start + |m.text| <= rest[k].start
    ensures InTextOrder([m] + rest)
  {
    var ms := [m] + rest;
    forall k, l | 0 <= k < l < |ms|
      ensures ms[k].start + |ms[k].text| <= ms[l].start
    {
      assert ms[l] == rest[l - 1];
      if k > 0 {
        assert ms[k] == rest[k - 1];
      }
    }
  }

  lemma {:induction false} ConsComplete(t: string, from: nat, n: nat, m: Match, rest: seq<Match>)
    requires from < |t| && MarkerAt(t, from) == Some(n) && m.start == from
    requires forall j: nat :: from + n <= j <= |t| && MarkerAt(t, j).Some? ==> MatchStartsAt(rest, j)
    ensures forall j: nat :: from <= j <= |t| && MarkerAt(t, j).Some? ==> MatchStartsAt([m] + rest, j)
  {
    var ms := [m] + rest;
    forall j: nat | from <= j <= |t| && MarkerAt(t, j).Some?
      ensures MatchStartsAt(ms, j)
    {
      if j == from {
        assert ms[0].start == j;
      } else if j < from + n {
        NoMarkerInside(t, from, n, j);
      } else {
        assert MatchStartsAt(rest, j);
        var k :| 0 <= k < |rest| && rest[k].start == j;
        assert ms[k + 1].start == j;
      }
    }
  }

  lemma {:induction false} AllMatchesSkip(t: string, from: nat, rest: seq<Match>)
    requires from < |t| && MarkerAt(t, from).None?
    requires AllMatchesFrom(t, from + 1, rest)
    ensures AllMatchesFrom(t, from, rest)
  {
    forall k | 0 <= k < |rest|
      ensures IsMatchIn(t, from, rest[k])
    {
      assert IsMatchIn(t, from + 1, rest[k]);
    }
  }

  /** The successive matches of `/<\w+>/g` in `t` from index `from` on: scanning left
      to right, each match is the leftmost one at or after the end of the previous. */
  function MatchesFrom(t: string, from: nat): (ms: seq<Match>)
    requires from <= |t|
    ensures AllMatchesFrom(t, from, ms)
    decreases |t| - from
  {
    if from == |t| then
      []
    else match MarkerAt(t, from)
      case Some(n) =>
        var rest := MatchesFrom(t, from + n);
        AllMatchesCons(t, from, n, rest);
        [Match(from, t[from..from + n])] + rest
      case None =>
        var rest := MatchesFrom(t, from + 1);
        AllMatchesSkip(t, from, rest);
        rest
  }

  /** `template.match(/<\w+>/g)` with the matches in order; `null` is the empty sequence. */
  function Matches(t: string): (ms: seq<Match>)
    ensures AllMatchesFrom(t, 0, ms)
    ensures |ms| == 0 <==> forall j: nat :: j <= |t| ==> MarkerAt(t, j).None?
  {
    var ms := MatchesFrom(t, 0);
    assert |ms| > 0 ==> IsMatchIn(t, 0, ms[0]);
    ms
  }

  /** The text of a match is a marker. */
  lemma {:induction false} MatchIsMarker(t: string, m: Match)
    requires IsMatchIn(t, 0, m)
    ensures IsMarker(m.text)
  {
    MarkerAtSpec(t, m.start);
    assert IsMarkerAt(t, m.start, |m.text|);
  }

  /** The first occurrence in `t` of the text of match `m` starts at index `i`, at or
      before the match itself, and `p` gives that place and the text's length in
      UTF-16 code units. */
  predicate PositionAt(t: string, m: Match, i: nat, p: Position) {
    && i <= m.start
    && OccursAt(t, m.text, i)
    && (forall j :: 0 <= j < i ==> !OccursAt(t, m.text, j))
    && p.offset == Utf16Length(t[..i])
    && p.length == Utf16Length(m.text)
  }

  /** `p` is the position recorded for match `m`: the first occurrence of the
      match's marker text, which lies within the template and is as many code units
      long as it has characters. */
  predicate PositionFor(t: string, m: Match, p: Position) {
    && IsMarker(m.text)
    && p.length == |m.text|
    && p.offset + p.length <= Utf16Length(t)
    && exists i: nat :: i <= |t| && PositionAt(t, m, i, p)
  }

  /** A marker is ASCII: one code unit per character. */
  lemma {:induction false} MarkerUnits(m: string)
    requires IsMarker(m)
    ensures Utf16Length(m) == |m|
  {
    assert IsBmp(m);
    Utf16LengthBmpIff(m);
  }

  /** The code units of `t` before and inside the occurrence at `i` of `a` do not
      exceed those of `t`. */
  lemma {:induction false} OccurrenceUnits(t: string, a: string, i: nat)
    requires OccursAt(t, a, i)
    ensures Utf16Length(t[..i]) + Utf16Length(a) <= Utf16Length(t)
  {
    var n := |a|;
    assert t == t[..i] + t[i..i + n] + t[i + n..];
    Utf16LengthConcat(t[..i], t[i..i + n]);
    Utf16LengthConcat(t[..i] + t[i..i + n], t[i + n..]);
  }

  /** The position `getPositions` records for one match: `template.indexOf(match)`, the
      first occurrence of the match's text, which need not be the match itself. */
  function PositionOf(t: string, m: Match): (p: Position)
    requires IsMatchIn(t, 0, m)
    ensures PositionFor(t, m, p)
  {
    MatchIsMarker(t, m);
    MarkerUnits(m.text);
    var i := IndexOf(t, m.text).value;
    OccurrenceUnits(t, m.text, i);
    var p := Position(Utf16Length(t[..i]), Utf16Length(m.text));
    assert PositionAt(t, m, i, p);
    p
  }

  /** `getPositions(template)`: one position per match, in match order. With no
      match at all `match` returns `null` and the call to `forEach` on it throws,
      which is the `Failure` case. */
  function GetPositions(t: string): (r: Result<seq<Position>, string>)
    ensures r.Failure? <==> forall j: nat :: j <= |t| ==> MarkerAt(t, j).None?
    ensures r.Success? ==> |r.value| == |Matches(t)| > 0
    ensures r.Success? ==> forall k :: 0 <= k < |r.value| ==>
      PositionFor(t, Matches(t)[k], r.value[k])
  {
    var ms := Matches(t);
    if |ms| == 0 then
      Failure("TypeError: matches is null")
    else
      assert forall k :: 0 <= k < |ms| ==> IsMatchIn(t, 0, ms[k]);
      Success(seq(|ms|, k requires 0 <= k < |ms| => PositionOf(t, ms[k])))
  }

  /** Two different matches with the same text. */
  predicate HasRepeatedMarker(ms: seq<Match>) {
    exists k, l :: 0 <= k < l < |ms| && ms[k].text == ms[l].text
  }

  /** Without repeated markers, two matches with the same text are the same match. */
  lemma {:induction false} SameTextSameMatch(ms: seq<Match>, a: nat, b: nat)
    requires !HasRepeatedMarker(ms) && a < |ms| && b < |ms| && ms[a].text == ms[b].text
    ensures a == b
  {
  }

  /** A marker of length `n` at `o` is the text of some match starting there. */
  lemma {:induction false} MatchAtMarker(t: string, ms: seq<Match>, o: nat, n: nat) returns (l: nat)
    requires AllMatchesFrom(t, 0, ms) && o <= |t| && MarkerAt(t, o) == Some(n)
    ensures l < |ms| && ms[l].start == o && ms[l].text == t[o..o + n]
  {
    assert MatchStartsAt(ms, o);
    l :| 0 <= l < |ms| && ms[l].start == o;
    assert IsMatchIn(t, 0, ms[l]);
  }

  /** Without repeated markers, the first occurrence of a match's text is the match. */
  lemma {:induction false} FirstOccurrenceIsMatch(t: string, ms: seq<Match>, k: nat, p: Position)
    requires AllMatchesFrom(t, 0, ms) && k < |ms| && !HasRepeatedMarker(ms)
    requires PositionFor(t, ms[k], p)
    ensures p.offset == Utf16Length(t[..ms[k].start])
  {
    var o: nat :| o <= |t| && PositionAt(t, ms[k], o, p);
    var n := |ms[k].text|;
    assert o <= |t| && MarkerAt(t, o) == Some(n) by {
      assert IsMarkerAt(t, o, n);
      MarkerAtSpec(t, o);
    }
    var l := MatchAtMarker(t, ms, o, n);
    SameTextSameMatch(ms, l, k);
  }

  /** When the placeholders of a template are all different, every position is the
      position of its own match: its offset counts the code units before the match,
      which within the Basic Multilingual Plane is the match's index. */
  lemma {:induction false} DistinctMarkersExactOffsets(t: string)
    requires GetPositions(t).Success?
    requires !HasRepeatedMarker(Matches(t))
    ensures forall k :: 0 <= k < |GetPositions(t).value| ==>
      GetPositions(t).value[k].offset == Utf16Length(t[..Matches(t)[k].start])
    ensures IsBmp(t) ==> forall k :: 0 <= k < |GetPositions(t).value| ==>
      GetPositions(t).value[k].offset == Matches(t)[k].start
  {
    var ms := Matches(t);
    var ps := GetPositions(t).value;
    forall k | 0 <= k < |ps|
      ensures ps[k].offset == Utf16Length(t[..ms[k].start])
      ensures IsBmp(t) ==> ps[k].offset == ms[k].start
    {
      FirstOccurrenceIsMatch(t, ms, k, ps[k]);
      var before := t[..ms[k].start];
      if IsBmp(t) {
        assert IsBmp(before);
        Utf16LengthBmpIff(before);
      }
    }
  }

  /** An occurrence of a marker opens with `<` and holds no other `<`. */
  lemma {:induction false} NoOpenInside(s: string, a: string, i: nat)
    requires IsMarker(a) && OccursAt(s, a, i)
    ensures s[i] == '<'
    ensures forall k :: i < k < i + |a| ==> s[k] != '<'
  {
    forall k | i < k < i + |a|
      ensures s[k] != '<'
    {
      assert s[k] == s[i..i + |a|][k - i] == a[k - i];
    }
    assert s[i] == s[i..i + |a|][0];
  }

  /** Two occurrences of markers that overlap are the same occurrence of the same
      marker: a marker holds no `<` after its first character. */
  lemma {:induction false} MarkersDoNotOverlap(s: string, a: string, i: nat, b: string, j: nat)
    requires IsMarker(a) && IsMarker(b)
    requires OccursAt(s, a, i) && OccursAt(s, b, j)
    requires i < j + |b| && j < i + |a|
    ensures i == j && a == b
  {
    assert IsMarkerAt(s, i, |a|) && IsMarkerAt(s, j, |b|);
    NoOpenInside(s, a, i);
    NoOpenInside(s, b, j);
    if i == j {
      MarkerAtSpec(s, i);
    }
  }
}
