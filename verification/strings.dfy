/** String primitives with the behaviour of the JavaScript built-ins the manifest
    editor calls: `indexOf`, `split`, `join`, `trim` and the `\s` / `\w` classes. */
module Strings {
  import opened Wrappers

  /** A character in JavaScript's `\s` class, which is also the set `trim` removes:
      the WhiteSpace and LineTerminator characters of ECMA-262. */
  predicate IsJsSpace(c: char) {
    || c == '\t' || c == '\n' || c == '\r' || c == ' '
    || c as int == 0x0B || c as int == 0x0C || c as int == 0xA0 || c as int == 0x1680
    || (0x2000 <= c as int <= 0x200A)
    || c as int == 0x2028 || c as int == 0x2029 || c as int == 0x202F
    || c as int == 0x205F || c as int == 0x3000 || c as int == 0xFEFF
  }

  /** Every character of `s` is white space (vacuously so for the empty string). */
  predicate AllSpace(s: string) {
    forall i :: 0 <= i < |s| ==> IsJsSpace(s[i])
  }

  /** No character of `s` is white space. */
  predicate NoSpace(s: string) {
    forall i :: 0 <= i < |s| ==> !IsJsSpace(s[i])
  }

  /** A character in JavaScript's `\w` class. */
  predicate IsWordChar(c: char) {
    'a' <= c <= 'z' || 'A' <= c <= 'Z' || '0' <= c <= '9' || c == '_'
  }

  predicate IsAsciiLetter(c: char) {
    'a' <= c <= 'z' || 'A' <= c <= 'Z'
  }

  predicate IsDigit(c: char) {
    '0' <= c <= '9'
  }

  // ---------------------------------------------------------------------------
  // Lengths in UTF-16 code units. A Dafny string is a sequence of code points;
  // JavaScript's `length` and the indexes `indexOf` returns count UTF-16 code units,
  // two for a code point outside the Basic Multilingual Plane.

  /** The code point `c` is in the Basic Multilingual Plane: one UTF-16 code unit. */
  predicate IsBmpChar(c: char) {
    c as int < 0x1_0000
  }

  predicate IsBmp(s: string) {
    forall i :: 0 <= i < |s| ==> IsBmpChar(s[i])
  }

  function Utf16Units(c: char): nat {
    if IsBmpChar(c) then 1 else 2
  }

  /** `s.length` in JavaScript: the number of UTF-16 code units of `s`. */
  function Utf16Length(s: string): (n: nat)
    ensures |s| <= n <= 2 * |s|
    decreases |s|
  {
    if |s| == 0 then 0 else Utf16Units(s[0]) + Utf16Length(s[1..])
  }

  /** Code-unit lengths add up over a concatenation. */
  lemma {:induction false} Utf16LengthConcat(a: string, b: string)
    ensures Utf16Length(a + b) == Utf16Length(a) + Utf16Length(b)
    decreases |a|
  {
    if |a| > 0 {
      assert (a + b)[0] == a[0];
      assert (a + b)[1..] == a[1..] + b;
      Utf16LengthConcat(a[1..], b);
    } else {
      assert a + b == b;
    }
  }

  /** The JavaScript length of a string is its number of code points exactly when
      every code point is in the Basic Multilingual Plane. */
  lemma {:induction false} Utf16LengthBmpIff(s: string)
    ensures Utf16Length(s) == |s| <==> IsBmp(s)
    decreases |s|
  {
    if |s| > 0 {
      Utf16LengthBmpIff(s[1..]);
      assert IsBmp(s) <==> IsBmpChar(s[0]) && IsBmp(s[1..]) by {
        if IsBmpChar(s[0]) && IsBmp(s[1..]) {
          forall i | 0 <= i < |s|
            ensures IsBmpChar(s[i])
          {
            if i > 0 {
              assert s[i] == s[1..][i - 1];
            }
          }
        }
        if IsBmp(s) {
          forall i | 0 <= i < |s| - 1
            ensures IsBmpChar(s[1..][i])
          {
            assert s[1..][i] == s[i + 1];
          }
        }
      }
    }
  }

  /** `p` is a prefix of `s`. */
  predicate StartsWith(s: string, p: string) {
    |p| <= |s| && s[..|p|] == p
  }

  /** `p` is a suffix of `s`. */
  predicate EndsWith(s: string, p: string) {
    |p| <= |s| && s[|s| - |p|..] == p
  }

  /** `pat` occurs in `s` starting at index `i`. */
  predicate OccursAt(s: string, pat: string, i: int) {
    0 <= i && i + |pat| <= |s| && s[i..i + |pat|] == pat
  }

  /** `s.indexOf(pat, from)` for `from <= |s|`: the first occurrence at or after `from`. */
  function IndexOfFrom(s: string, pat: string, from: nat): (r: Option<nat>)
    requires from <= |s|
    ensures r.Some? ==> from <= r.value && OccursAt(s, pat, r.value)
    ensures r.Some? ==> forall j :: from <= j < r.value ==> !OccursAt(s, pat, j)
    ensures r.None? ==> forall j :: from <= j ==> !OccursAt(s, pat, j)
    decreases |s| - from
  {
    if OccursAt(s, pat, from) then Some(from)
    else if from == |s| then None
    else IndexOfFrom(s, pat, from + 1)
  }

  /** `s.indexOf(pat)`, with `None` for JavaScript's `-1`. */
  function IndexOf(s: string, pat: string): (r: Option<nat>)
    ensures r.Some? ==> OccursAt(s, pat, r.value)
    ensures r.Some? ==> forall j :: 0 <= j < r.value ==> !OccursAt(s, pat, j)
    ensures r.None? <==> forall j :: 0 <= j ==> !OccursAt(s, pat, j)
  {
    IndexOfFrom(s, pat, 0)
  }

  /** `s.indexOf(pat) !== -1`. */
  predicate Contains(s: string, pat: string) {
    IndexOf(s, pat).Some?
  }

  /** The idiom `s.indexOf(p) === 0` is exactly a prefix test. */
  lemma {:induction false} IndexOfZeroIsPrefix(s: string, p: string)
    ensures IndexOf(s, p) == Some(0) <==> StartsWith(s, p)
  {
  }

  /** An occurrence inside the slice `s[a..b]` is an occurrence in `s`, shifted by `a`. */
  lemma {:induction false} OccursInSlice(s: string, a: nat, b: nat, pat: string, j: int)
    requires a <= b <= |s|
    requires OccursAt(s[a..b], pat, j)
    ensures OccursAt(s, pat, a + j) && a + j + |pat| <= b
  {
    forall k | 0 <= k < |pat|
      ensures s[a + j + k] == pat[k]
    {
      assert s[a..b][j..j + |pat|][k] == s[a..b][j + k];
    }
    assert s[a + j..a + j + |pat|] == pat;
  }

  /** An occurrence in `x` is an occurrence in `x + y` at the same index. */
  lemma {:induction false} OccursInLeft(x: string, y: string, pat: string, k: int)
    requires OccursAt(x, pat, k)
    ensures OccursAt(x + y, pat, k)
  {
    assert (x + y)[k..k + |pat|] == x[k..k + |pat|];
  }

  /** An occurrence in `y` is an occurrence in `x + y`, shifted by `|x|`. */
  lemma {:induction false} OccursInRight(x: string, y: string, pat: string, k: int)
    requires OccursAt(y, pat, k)
    ensures OccursAt(x + y, pat, |x| + k)
  {
    assert (x + y)[|x| + k..|x| + k + |pat|] == y[k..k + |pat|];
  }

  /** An occurrence at or after `from` is an occurrence in the suffix `s[from..]`. */
  lemma {:induction false} OccursInSuffix(s: string, from: nat, pat: string, k: int)
    requires OccursAt(s, pat, k) && from <= k
    ensures OccursAt(s[from..], pat, k - from)
  {
    assert s[from..][k - from..k - from + |pat|] == s[k..k + |pat|];
  }

  /** An occurrence that ends by `to` is an occurrence in the prefix `s[..to]`. */
  lemma {:induction false} OccursInPrefix(s: string, to: nat, pat: string, k: int)
    requires OccursAt(s, pat, k) && k + |pat| <= to <= |s|
    ensures OccursAt(s[..to], pat, k)
  {
    assert s[..to][k..k + |pat|] == s[k..k + |pat|];
  }

  /** `parts.join(sep)`. */
  function Join(parts: seq<string>, sep: string): string
    decreases |parts|
  {
    if |parts| == 0 then ""
    else if |parts| == 1 then parts[0]
    else parts[0] + sep + Join(parts[1..], sep)
  }

  /** `s.substring(from).split(sep)` for a non-empty separator: the pieces between
      successive leftmost, non-overlapping occurrences of `sep`. */
  function SplitFrom(s: string, sep: string, from: nat): (parts: seq<string>)
    requires |sep| > 0 && from <= |s|
    ensures |parts| >= 1
    decreases |s| - from
  {
    match IndexOfFrom(s, sep, from)
    case None => [s[from..]]
    case Some(i) => [s[from..i]] + SplitFrom(s, sep, i + |sep|)
  }

  /** When `piece` is followed by `sep`, no occurrence of `sep` starts inside the
      piece: the piece ends at the leftmost occurrence. For a one-character separator
      this is the same as the piece not containing it. */
  predicate EndsAtLeftmost(piece: string, sep: string)
    requires |sep| > 0
  {
    !Contains(piece + sep[..|sep| - 1], sep)
  }

  /** The text from `from` up to the last character of an occurrence at `i`. */
  lemma {:induction false} SeparatorWindow(s: string, sep: string, from: nat, i: nat)
    requires |sep| > 0 && from <= i && OccursAt(s, sep, i)
    ensures s[from..i + |sep| - 1] == s[from..i] + sep[..|sep| - 1]
  {
    var n := |sep|;
    assert s[i..i + n - 1] == sep[..n - 1];
    assert s[from..i + n - 1] == s[from..i] + s[i..i + n - 1];
  }

  /** The piece before the first occurrence at or after `from` ends at that
      occurrence. */
  lemma {:induction false} HeadEndsAtLeftmost(s: string, sep: string, from: nat, i: nat)
    requires |sep| > 0 && from <= |s| && IndexOfFrom(s, sep, from) == Some(i)
    ensures EndsAtLeftmost(s[from..i], sep)
  {
    var n := |sep|;
    var w := s[from..i] + sep[..n - 1];
    SeparatorWindow(s, sep, from, i);
    if Contains(w, sep) {
      var j := IndexOf(w, sep).value;
      OccursInSlice(s, from, i + n - 1, sep, j);
      assert false;
    }
  }

  /** The pieces of a split hold no separator, each piece but the last ends at the
      leftmost occurrence of the separator, and joining the pieces with it gives the
      text back. */
  lemma {:induction false} SplitFromSpec(s: string, sep: string, from: nat)
    requires |sep| > 0 && from <= |s|
    ensures var parts := SplitFrom(s, sep, from);
      (forall k :: 0 <= k < |parts| ==> !Contains(parts[k], sep))
      && (forall k :: 0 <= k < |parts| - 1 ==> EndsAtLeftmost(parts[k], sep))
      && Join(parts, sep) == s[from..]
    decreases |s| - from
  {
    match IndexOfFrom(s, sep, from)
    case None =>
      NoOccurrenceInSuffix(s, sep, from);
      SplitFromLast(s, sep, from);
    case Some(i) =>
      SplitFromSpec(s, sep, i + |sep|);
      SplitFromSpecStep(s, sep, from, i);
  }

  /** The step of `SplitFromSpec`: the facts for the split after the first occurrence
      give the facts for the split from `from`. */
  lemma {:induction false} SplitFromSpecStep(s: string, sep: string, from: nat, i: nat)
    requires |sep| > 0 && from <= |s| && IndexOfFrom(s, sep, from) == Some(i)
    requires var rest := SplitFrom(s, sep, i + |sep|);
      (forall k :: 0 <= k < |rest| ==> !Contains(rest[k], sep))
      && (forall k :: 0 <= k < |rest| - 1 ==> EndsAtLeftmost(rest[k], sep))
      && Join(rest, sep) == s[i + |sep|..]
    ensures var parts := SplitFrom(s, sep, from);
      (forall k :: 0 <= k < |parts| ==> !Contains(parts[k], sep))
      && (forall k :: 0 <= k < |parts| - 1 ==> EndsAtLeftmost(parts[k], sep))
      && Join(parts, sep) == s[from..]
  {
    var next := i + |sep|;
    var piece := s[from..i];
    var rest := SplitFrom(s, sep, next);
    var parts := [piece] + rest;
    assert next <= |s| && SplitFrom(s, sep, from) == parts by {
      SplitFromStep(s, sep, from, i, next);
    }
    assert !Contains(piece, sep) && EndsAtLeftmost(piece, sep) by {
      NoOccurrenceBefore(s, sep, from, i);
      HeadEndsAtLeftmost(s, sep, from, i);
    }
    ConsPieces(piece, rest, sep);
    assert Join(parts, sep) == s[from..] by {
      JoinCons(piece, rest, sep);
      assert OccursAt(s, sep, i);
      assert s[i..next] == sep;
      assert s[from..] == s[from..i] + s[i..next] + s[next..];
    }
  }

  /** A piece without the separator, ending at its leftmost occurrence, put in front
      of such pieces keeps both properties. */
  lemma {:induction false} ConsPieces(piece: string, rest: seq<string>, sep: string)
    requires |sep| > 0 && !Contains(piece, sep) && EndsAtLeftmost(piece, sep)
    requires forall k :: 0 <= k < |rest| ==> !Contains(rest[k], sep)
    requires forall k :: 0 <= k < |rest| - 1 ==> EndsAtLeftmost(rest[k], sep)
    ensures var parts := [piece] + rest;
      (forall k :: 0 <= k < |parts| ==> !Contains(parts[k], sep))
      && (forall k :: 0 <= k < |parts| - 1 ==> EndsAtLeftmost(parts[k], sep))
  {
    var parts := [piece] + rest;
    forall k | 0 <= k < |parts|
      ensures !Contains(parts[k], sep)
      ensures k < |parts| - 1 ==> EndsAtLeftmost(parts[k], sep)
    {
      if k > 0 {
        assert parts[k] == rest[k - 1];
      }
    }
  }

  lemma {:induction false} JoinCons(x: string, rest: seq<string>, sep: string)
    requires |rest| >= 1
    ensures Join([x] + rest, sep) == x + sep + Join(rest, sep)
  {
    assert ([x] + rest)[1..] == rest;
  }

  /** `s.split(sep)` for a non-empty separator: the first piece ends at the first
      occurrence, and every piece but the last at the leftmost occurrence after it.
      `SplitUnique` shows these facts determine the pieces. */
  function Split(s: string, sep: string): (parts: seq<string>)
    requires |sep| > 0
    ensures |parts| >= 1
    ensures IndexOf(s, sep).None? ==> parts == [s]
    ensures IndexOf(s, sep).Some? ==> parts[0] == s[..IndexOf(s, sep).value]
    ensures forall k :: 0 <= k < |parts| ==> !Contains(parts[k], sep)
    ensures forall k :: 0 <= k < |parts| - 1 ==> EndsAtLeftmost(parts[k], sep)
    ensures Join(parts, sep) == s
  {
    SplitFromSpec(s, sep, 0);
    FirstPiece(s, sep, 0);
    assert IndexOf(s, sep).None? ==> SplitFrom(s, sep, 0) == [s[0..]] by {
      if IndexOf(s, sep).None? {
        SplitFromLast(s, sep, 0);
      }
    }
    assert s[0..] == s;
    SplitFrom(s, sep, 0)
  }

  lemma {:induction false} NoOccurrenceInSuffix(s: string, sep: string, from: nat)
    requires from <= |s|
    requires forall j :: from <= j ==> !OccursAt(s, sep, j)
    ensures !Contains(s[from..], sep)
  {
    if Contains(s[from..], sep) {
      var j := IndexOf(s[from..], sep).value;
      assert s[from..] == s[from..|s|];
      OccursInSlice(s, from, |s|, sep, j);
    }
  }

  lemma {:induction false} NoOccurrenceBefore(s: string, sep: string, from: nat, i: nat)
    requires |sep| > 0 && from <= i <= |s|
    requires forall j :: from <= j < i ==> !OccursAt(s, sep, j)
    ensures !Contains(s[from..i], sep)
  {
    if Contains(s[from..i], sep) {
      var j := IndexOf(s[from..i], sep).value;
      OccursInSlice(s, from, i, sep, j);
    }
  }

  /** A non-empty string that contains the separator splits into at least two pieces. */
  lemma {:induction false} SplitContains(s: string, sep: string)
    requires |sep| > 0
    ensures Contains(s, sep) <==> |Split(s, sep)| > 1
  {
    var parts := Split(s, sep);
    if |parts| == 1 {
      assert Join(parts, sep) == parts[0];
    }
  }

  /** A string that does not contain the one-character string `[c]` has no `c`. */
  lemma {:induction false} NotContainsChar(s: string, c: char)
    requires !Contains(s, [c])
    ensures forall j :: 0 <= j < |s| ==> s[j] != c
  {
    forall j | 0 <= j < |s|
      ensures s[j] != c
    {
      assert s[j..j + 1] == [s[j]];
      assert !OccursAt(s, [c], j);
    }
  }

  /** The first piece of a split ends at the first occurrence of the separator, or at
      the end of the input when there is none. */
  lemma {:induction false} FirstPiece(s: string, sep: string, from: nat)
    requires |sep| > 0 && from <= |s|
    ensures var next := IndexOfFrom(s, sep, from);
      SplitFrom(s, sep, from)[0] == s[from..if next.Some? then next.value else |s|]
  {
  }

  /** The tail of a concatenation that fits in its right part lies in that part. */
  lemma {:induction false} SliceOfRight<T>(a: seq<T>, b: seq<T>, i: nat, j: nat)
    requires |a| <= i <= j <= |a| + |b|
    ensures (a + b)[i..j] == b[i - |a|..j - |a|]
  {
  }

  /** `j` ends with `last`, and, when `several` holds, with the separator just
      before it. */
  predicate EndsWithPiece(j: string, last: string, sep: string, several: bool) {
    |last| <= |j| && j[|j| - |last|..] == last
    && (several ==> |last| + |sep| <= |j| && j[|j| - |last| - |sep|..|j| - |last|] == sep)
  }

  /** A join ends with its last piece, and with the separator just before it when
      there is more than one piece. */
  lemma {:induction false} JoinLast(parts: seq<string>, sep: string)
    requires |parts| >= 1
    ensures EndsWithPiece(Join(parts, sep), parts[|parts| - 1], sep, |parts| > 1)
    ensures |parts| == 1 ==> Join(parts, sep) == parts[0]
    decreases |parts|
  {
    if |parts| > 1 {
      var rest := parts[1..];
      var jr := Join(rest, sep);
      JoinLast(rest, sep);
      assert Join(parts, sep) == (parts[0] + sep) + jr;
      assert parts[|parts| - 1] == rest[|rest| - 1];
      EndsWithPieceCons(parts[0] + sep, jr, rest[|rest| - 1], sep, |rest| > 1);
    }
  }

  /** Text ending with the separator, put in front of a string that ends with a
      piece, gives a string that ends with the separator and that piece. */
  lemma {:induction false} EndsWithPieceCons(a: string, j: string, last: string, sep: string, several: bool)
    requires EndsWithPiece(j, last, sep, several) && (several || j == last)
    requires |sep| <= |a| && a[|a| - |sep|..] == sep
    ensures EndsWithPiece(a + j, last, sep, true)
  {
    var n := |a| + |j|;
    SliceOfRight(a, j, n - |last|, n);
    if several {
      SliceOfRight(a, j, n - |last| - |sep|, n - |last|);
    } else {
      SliceOfLeft(a, j, |a| - |sep|, |a|);
    }
  }

  /** Where the last of the joined pieces starts: just after an occurrence of the
      separator, or at the start of the text when there is one piece. */
  lemma {:induction false} JoinedLastStart(s: string, sep: string, parts: seq<string>) returns (k: nat)
    requires |parts| >= 1 && Join(parts, sep) == s
    ensures k <= |s| && parts[|parts| - 1] == s[k..]
    ensures k == 0 || (|sep| <= k && s[k - |sep|..k] == sep)
  {
    JoinLast(parts, sep);
    k := |s| - |parts[|parts| - 1]|;
  }

  /** A slice of a concatenation that ends in its left part lies in that part. */
  lemma {:induction false} SliceOfLeft<T>(a: seq<T>, b: seq<T>, i: nat, j: nat)
    requires i <= j <= |a|
    ensures (a + b)[i..j] == a[i..j]
  {
  }

  /** The number of leading characters matched by `^ *` (spaces only). */
  function LeadingSpaces(s: string): (n: nat)
    ensures n <= |s|
    ensures forall i :: 0 <= i < n ==> s[i] == ' '
    ensures n < |s| ==> s[n] != ' '
    decreases |s|
  {
    if |s| > 0 && s[0] == ' ' then 1 + LeadingSpaces(s[1..]) else 0
  }

  /** The number of leading characters matched by `^\s*`. */
  function LeadingWhitespace(s: string): (n: nat)
    ensures n <= |s|
    ensures AllSpace(s[..n])
    ensures n < |s| ==> !IsJsSpace(s[n])
    decreases |s|
  {
    if |s| > 0 && IsJsSpace(s[0]) then
      var n := 1 + LeadingWhitespace(s[1..]);
      assert s[..n] == [s[0]] + s[1..][..n - 1];
      n
    else 0
  }

  /** `^\s*` matches exactly the maximal run: a white-space prefix that no white space
      follows has the matcher's length. */
  lemma {:induction false} LeadingWhitespaceUnique(s: string, n: nat)
    requires n <= |s| && AllSpace(s[..n]) && (n < |s| ==> !IsJsSpace(s[n]))
    ensures LeadingWhitespace(s) == n
    decreases n
  {
    if n > 0 {
      assert IsJsSpace(s[..n][0]);
      assert s[1..][..n - 1] == s[..n][1..];
      LeadingWhitespaceUnique(s[1..], n - 1);
    }
  }

  /** `s.trimStart()`: the suffix left after removing leading white space. */
  function TrimStart(s: string): (r: string)
    ensures |r| <= |s| && r == s[|s| - |r|..]
    ensures AllSpace(s[..|s| - |r|])
    ensures |r| > 0 ==> !IsJsSpace(r[0])
  {
    s[LeadingWhitespace(s)..]
  }

  /** `s.trimEnd()`: the prefix left after removing trailing white space. */
  function TrimEnd(s: string): (r: string)
    ensures |r| <= |s| && r == s[..|r|]
    ensures AllSpace(s[|r|..])
    ensures |r| > 0 ==> !IsJsSpace(r[|r| - 1])
    decreases |s|
  {
    if |s| > 0 && IsJsSpace(s[|s| - 1]) then
      var r := TrimEnd(s[..|s| - 1]);
      assert s[..|s| - 1][..|r|] == s[..|r|];
      assert s[|r|..] == s[..|s| - 1][|r|..] + [s[|s| - 1]];
      r
    else s
  }

  /** `s.trim()`: `s` without its leading and trailing white space. */
  function Trim(s: string): (r: string)
    ensures exists a :: (0 <= a && a + |r| <= |s| && r == s[a..a + |r|]
      && AllSpace(s[..a]) && AllSpace(s[a + |r|..]))
    ensures |r| > 0 ==> !IsJsSpace(r[0]) && !IsJsSpace(r[|r| - 1])
  {
    var t := TrimStart(s);
    var r := TrimEnd(t);
    var a := |s| - |t|;
    assert a + |r| <= |s| && r == s[a..a + |r|] && AllSpace(s[..a]) && AllSpace(s[a + |r|..]) by {
      assert s[a..a + |r|] == t[..|r|];
      assert s[a + |r|..] == t[|r|..];
    }
    r
  }

  /** `!s.trim()`: trimming leaves nothing exactly when the string is all white space. */
  lemma {:induction false} TrimEmptyIff(s: string)
    ensures Trim(s) == "" <==> AllSpace(s)
  {
  }

  /** A string with no white space at either end is its own trim. */
  lemma {:induction false} TrimIdentity(s: string)
    requires |s| > 0 ==> !IsJsSpace(s[0]) && !IsJsSpace(s[|s| - 1])
    ensures Trim(s) == s
  {
  }

  /** A suffix free of the separator has no occurrence of it. */
  lemma {:induction false} NoOccurrenceAfter(s: string, sep: string, from: nat)
    requires from <= |s| && !Contains(s[from..], sep)
    ensures IndexOfFrom(s, sep, from).None?
  {
    forall j | from <= j
      ensures !OccursAt(s, sep, j)
    {
      if OccursAt(s, sep, j) {
        OccursInSuffix(s, from, sep, j);
      }
    }
  }

  /** An occurrence with none before it, from `from` on, is the one `indexOf` finds. */
  lemma {:induction false} FirstOccurrence(s: string, pat: string, from: nat, i: nat)
    requires from <= i <= |s| && OccursAt(s, pat, i)
    requires forall j :: from <= j < i ==> !OccursAt(s, pat, j)
    ensures IndexOfFrom(s, pat, from) == Some(i)
  {
  }

  /** An occurrence inside the window `s[a..b]` that holds `piece` is an occurrence
      in `piece`. */
  lemma {:induction false} OccursInWindow(s: string, pat: string, a: nat, b: nat, piece: string, j: nat)
    requires a <= j && j + |pat| <= b <= |s| && s[a..b] == piece
    requires OccursAt(s, pat, j)
    ensures Contains(piece, pat)
  {
    OccursInPrefix(s, b, pat, j);
    OccursInSuffix(s[..b], a, pat, j);
    assert s[..b][a..] == piece;
  }

  /** When the text at `from` is a piece that ends at the leftmost occurrence of the
      separator that follows it, the next occurrence is right after the piece. */
  lemma {:induction false} NextSeparator(s: string, sep: string, from: nat, piece: string, rest: string)
    requires |sep| > 0 && from <= |s| && EndsAtLeftmost(piece, sep)
    requires s[from..] == piece + sep + rest
    ensures IndexOfFrom(s, sep, from) == Some(from + |piece|)
  {
    var i := from + |piece|;
    var n := |sep|;
    var w := piece + sep[..n - 1];
    assert s[i..i + n] == sep by {
      assert s[i..i + n] == s[from..][|piece|..|piece| + n];
    }
    assert s[from..i + n - 1] == w by {
      assert s[from..i + n - 1] == s[from..][..|piece| + n - 1];
      assert (piece + sep + rest)[..|piece| + n - 1] == w;
    }
    forall j | from <= j < i
      ensures !OccursAt(s, sep, j)
    {
      if OccursAt(s, sep, j) {
        OccursInWindow(s, sep, from, i + n - 1, w, j);
      }
    }
    FirstOccurrence(s, sep, from, i);
  }

  /** One step of a split: the piece before the next separator, then the rest. */
  lemma {:induction false} SplitFromStep(s: string, sep: string, from: nat, i: nat, next: nat)
    requires |sep| > 0 && from <= |s| && IndexOfFrom(s, sep, from) == Some(i) && next == i + |sep|
    ensures next <= |s| && SplitFrom(s, sep, from) == [s[from..i]] + SplitFrom(s, sep, next)
  {
  }

  /** The last step of a split: no separator remains, so the rest is one piece. */
  lemma {:induction false} SplitFromLast(s: string, sep: string, from: nat)
    requires |sep| > 0 && from <= |s| && IndexOfFrom(s, sep, from).None?
    ensures SplitFrom(s, sep, from) == [s[from..]]
  {
  }

  lemma {:induction false} SplitFromJoinOne(s: string, sep: string, from: nat, piece: string)
    requires from <= |s| && |sep| > 0 && !Contains(piece, sep) && s[from..] == piece
    ensures SplitFrom(s, sep, from) == [piece]
  {
    NoOccurrenceAfter(s, sep, from);
    SplitFromLast(s, sep, from);
  }

  /** The text `piece + sep + rest` at `from`, seen from `s`. */
  lemma {:induction false} PieceAt(s: string, from: nat, piece: string, sep: string, rest: string)
    requires from <= |s| && s[from..] == piece + sep + rest
    ensures from + |piece| + |sep| <= |s|
    ensures s[from..from + |piece|] == piece
    ensures s[from + |piece| + |sep|..] == rest
  {
    assert s[from..from + |piece|] == s[from..][..|piece|];
    assert s[from + |piece| + |sep|..] == s[from..][|piece| + |sep|..];
  }

  lemma {:induction false} NoneContainTail(parts: seq<string>, sep: string)
    requires |parts| >= 1 && forall k :: 0 <= k < |parts| ==> !Contains(parts[k], sep)
    ensures forall k :: 0 <= k < |parts[1..]| ==> !Contains(parts[1..][k], sep)
  {
    forall k | 0 <= k < |parts[1..]|
      ensures !Contains(parts[1..][k], sep)
    {
      assert parts[1..][k] == parts[k + 1];
    }
  }

  /** When the text at `from` is a piece ending at the leftmost occurrence of the
      separator, the separator and `rest`, the split from `from` is the piece
      followed by the split of `rest`. */
  lemma {:induction false} SplitHeadPiece(s: string, sep: string, from: nat, piece: string, rest: string, next: nat)
    requires |sep| > 0 && from <= |s| && EndsAtLeftmost(piece, sep)
    requires s[from..] == piece + sep + rest && next == from + |piece| + |sep|
    ensures next <= |s| && s[next..] == rest
    ensures SplitFrom(s, sep, from) == [piece] + SplitFrom(s, sep, next)
  {
    var i := from + |piece|;
    NextSeparator(s, sep, from, piece, rest);
    PieceAt(s, from, piece, sep, rest);
    SplitFromStep(s, sep, from, i, next);
  }

  /** Joining at least two parts puts the separator after the first. */
  lemma {:induction false} JoinHead(parts: seq<string>, sep: string)
    requires |parts| >= 2
    ensures Join(parts, sep) == parts[0] + sep + Join(parts[1..], sep)
  {
  }

  lemma {:induction false} LeftmostTail(parts: seq<string>, sep: string)
    requires |sep| > 0 && |parts| >= 1
    requires forall k :: 0 <= k < |parts| - 1 ==> EndsAtLeftmost(parts[k], sep)
    ensures forall k :: 0 <= k < |parts[1..]| - 1 ==> EndsAtLeftmost(parts[1..][k], sep)
  {
    forall k | 0 <= k < |parts[1..]| - 1
      ensures EndsAtLeftmost(parts[1..][k], sep)
    {
      assert parts[1..][k] == parts[k + 1];
    }
  }

  /** Splitting undoes joining, provided no piece contains the separator and every
      piece but the last ends at the leftmost occurrence of the separator after it. */
  lemma {:induction false} SplitFromJoin(s: string, sep: string, from: nat, parts: seq<string>)
    requires |sep| > 0 && from <= |s| && |parts| >= 1
    requires forall k :: 0 <= k < |parts| ==> !Contains(parts[k], sep)
    requires forall k :: 0 <= k < |parts| - 1 ==> EndsAtLeftmost(parts[k], sep)
    requires Join(parts, sep) == s[from..]
    ensures SplitFrom(s, sep, from) == parts
    decreases |parts|
  {
    if |parts| == 1 {
      SplitFromJoinOne(s, sep, from, parts[0]);
      assert parts == [parts[0]];
    } else {
      var p0, tail := parts[0], parts[1..];
      var rest := Join(tail, sep);
      var next := from + |p0| + |sep|;
      assert next <= |s| && s[next..] == rest
        && SplitFrom(s, sep, from) == [p0] + SplitFrom(s, sep, next) by {
        JoinHead(parts, sep);
        assert EndsAtLeftmost(p0, sep);
        SplitHeadPiece(s, sep, from, p0, rest, next);
      }
      assert forall k :: 0 <= k < |tail| ==> !Contains(tail[k], sep) by {
        NoneContainTail(parts, sep);
      }
      assert forall k :: 0 <= k < |tail| - 1 ==> EndsAtLeftmost(tail[k], sep) by {
        LeftmostTail(parts, sep);
      }
      SplitFromJoin(s, sep, next, tail);
      assert parts == [p0] + tail;
    }
  }

  /** The contract of `Split` determines its result: any pieces without the
      separator, each but the last ending at its leftmost occurrence, that join to
      `s` are the split of `s`. */
  lemma {:induction false} SplitUnique(s: string, sep: string, parts: seq<string>)
    requires |sep| > 0 && |parts| >= 1
    requires forall k :: 0 <= k < |parts| ==> !Contains(parts[k], sep)
    requires forall k :: 0 <= k < |parts| - 1 ==> EndsAtLeftmost(parts[k], sep)
    requires Join(parts, sep) == s
    ensures Split(s, sep) == parts
  {
    assert s[0..] == s;
    SplitFromJoin(s, sep, 0, parts);
  }

  /** For a one-character separator, a piece without it ends at its leftmost
      occurrence. */
  lemma {:induction false} OneCharLeftmost(piece: string, sep: string)
    requires |sep| == 1 && !Contains(piece, sep)
    ensures EndsAtLeftmost(piece, sep)
  {
    assert piece + sep[..0] == piece;
  }

  /** Splitting at a one-character separator undoes joining with it, provided no
      piece contains the separator. */
  lemma {:induction false} SplitJoin(parts: seq<string>, sep: string)
    requires |sep| == 1 && |parts| >= 1
    requires forall k :: 0 <= k < |parts| ==> !Contains(parts[k], sep)
    ensures Split(Join(parts, sep), sep) == parts
  {
    forall k | 0 <= k < |parts| - 1
      ensures EndsAtLeftmost(parts[k], sep)
    {
      OneCharLeftmost(parts[k], sep);
    }
    SplitUnique(Join(parts, sep), sep, parts);
  }
}
