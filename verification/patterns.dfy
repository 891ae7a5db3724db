/** The regular expressions the manifest validator tests each line against. Each is
    given twice: as a direct matcher that follows the shape of the expression, and as
    a declarative description of the strings the expression accepts (there is a way
    to divide the line among its parts). A lemma shows that the two agree. */
module Patterns {
  import opened Strings

  predicate AllDigits(s: string) {
    forall i :: 0 <= i < |s| ==> IsDigit(s[i])
  }

  /** Every character of `s` is a space character `' '`, the class of ` *` and ` +`. */
  predicate AllBlanks(s: string) {
    forall i :: 0 <= i < |s| ==> s[i] == ' '
  }

  predicate IsLeadDigit(c: char) {
    '1' <= c <= '9'
  }

  /** The number of leading decimal digits of `s`. */
  function DigitRun(s: string): (n: nat)
    ensures n <= |s| && AllDigits(s[..n])
    ensures n < |s| ==> !IsDigit(s[n])
    decreases |s|
  {
    if |s| > 0 && IsDigit(s[0]) then
      var n := 1 + DigitRun(s[1..]);
      assert s[..n] == [s[0]] + s[1..][..n - 1];
      n
    else 0
  }

  /** A run of digits is no longer than the maximal one at the same place. */
  lemma {:induction false} DigitRunMaximal(s: string, i: nat)
    requires i <= |s| && AllDigits(s[..i])
    ensures i <= DigitRun(s)
    decreases |s|
  {
    if i > 0 {
      assert IsDigit(s[..i][0]);
      assert s[1..][..i - 1] == s[..i][1..];
      DigitRunMaximal(s[1..], i - 1);
    }
  }

  // ---------------------------------------------------------------------------
  // `[1-9][0-9]*`: a positive decimal count without leading zeros

  /** `v[..i]` is matched by `[1-9][0-9]*`. */
  predicate CountPrefix(v: string, i: nat) {
    1 <= i <= |v| && IsLeadDigit(v[0]) && AllDigits(v[1..i])
  }

  /** The end of the longest prefix of `v` matched by `[1-9][0-9]*`, if any. */
  function CountEnd(v: string): (k: nat)
    requires |v| > 0 && IsLeadDigit(v[0])
    ensures CountPrefix(v, k)
    ensures k < |v| ==> !IsDigit(v[k])
  {
    var k := 1 + DigitRun(v[1..]);
    assert v[1..k] == v[1..][..k - 1];
    k
  }

  /** Any prefix matched by `[1-9][0-9]*` that is not followed by a digit is the
      longest one. */
  lemma {:induction false} CountEndUnique(v: string, i: nat)
    requires CountPrefix(v, i) && (i < |v| ==> !IsDigit(v[i]))
    ensures CountEnd(v) == i
  {
    assert v[1..][..i - 1] == v[1..i];
    DigitRunMaximal(v[1..], i - 1);
  }

  // ---------------------------------------------------------------------------
  // `[1-9][0-9]*\s*$`: the accepted values of `instances:` and `timeout:`

  /** Declarative: a count followed by nothing but white space. */
  predicate IsCount(v: string) {
    exists i: nat :: i <= |v| && CountPrefix(v, i) && AllSpace(v[i..])
  }

  /** Matcher: read the longest count, then require white space to the end. */
  predicate MatchCount(v: string) {
    |v| > 0 && IsLeadDigit(v[0]) && AllSpace(v[CountEnd(v)..])
  }

  lemma {:induction false} MatchCountIff(v: string)
    ensures MatchCount(v) <==> IsCount(v)
  {
    if IsCount(v) {
      var i: nat :| i <= |v| && CountPrefix(v, i) && AllSpace(v[i..]);
      assert i < |v| ==> IsJsSpace(v[i..][0]);
      CountEndUnique(v, i);
    }
    if MatchCount(v) {
      assert CountPrefix(v, CountEnd(v));
    }
  }

  // ---------------------------------------------------------------------------
  // `[1-9][0-9]*(MB|GB|M|G)\s*$`: the accepted values of `memory:`

  predicate IsUnit(u: string) {
    u == "MB" || u == "GB" || u == "M" || u == "G"
  }

  /** Declarative: a count, one unit, then nothing but white space. */
  predicate IsMemory(v: string) {
    exists i: nat, j: nat :: i <= j <= |v| && CountPrefix(v, i) && IsUnit(v[i..j]) && AllSpace(v[j..])
  }

  /** Matcher for `(MB|GB|M|G)\s*$`, trying the alternatives in order. */
  predicate MatchUnitTail(t: string) {
    (StartsWith(t, "MB") && AllSpace(t[2..]))
    || (StartsWith(t, "GB") && AllSpace(t[2..]))
    || (StartsWith(t, "M") && AllSpace(t[1..]))
    || (StartsWith(t, "G") && AllSpace(t[1..]))
  }

  /** Matcher: read the longest count, then a unit and trailing white space. */
  predicate MatchMemory(v: string) {
    |v| > 0 && IsLeadDigit(v[0]) && MatchUnitTail(v[CountEnd(v)..])
  }

  lemma {:induction false} MatchUnitTailIff(t: string)
    ensures MatchUnitTail(t) <==> exists j :: 0 <= j <= |t| && IsUnit(t[..j]) && AllSpace(t[j..])
  {
    if MatchUnitTail(t) {
      if StartsWith(t, "MB") || StartsWith(t, "GB") {
        if AllSpace(t[2..]) {
          assert IsUnit(t[..2]) && AllSpace(t[2..]);
        } else {
          assert IsUnit(t[..1]) && AllSpace(t[1..]);
        }
      } else {
        assert IsUnit(t[..1]) && AllSpace(t[1..]);
      }
    }
    if exists j :: 0 <= j <= |t| && IsUnit(t[..j]) && AllSpace(t[j..]) {
      var j :| 0 <= j <= |t| && IsUnit(t[..j]) && AllSpace(t[j..]);
      assert StartsWith(t, t[..j]);
    }
  }

  lemma {:induction false} MemoryMatched(v: string)
    requires IsMemory(v)
    ensures MatchMemory(v)
  {
    var i: nat, j: nat :| i <= j <= |v| && CountPrefix(v, i) && IsUnit(v[i..j]) && AllSpace(v[j..]);
    assert v[i..j][0] == v[i];
    CountEndUnique(v, i);
    var t := v[i..];
    assert t[..j - i] == v[i..j] && t[j - i..] == v[j..];
    MatchUnitTailIff(t);
  }

  lemma {:induction false} MatchedMemory(v: string)
    requires MatchMemory(v)
    ensures IsMemory(v)
  {
    var i := CountEnd(v);
    var t := v[i..];
    MatchUnitTailIff(t);
    var j :| 0 <= j <= |t| && IsUnit(t[..j]) && AllSpace(t[j..]);
    assert t[..j] == v[i..i + j] && t[j..] == v[i + j..];
  }

  lemma {:induction false} MatchMemoryIff(v: string)
    ensures MatchMemory(v) <==> IsMemory(v)
  {
    if IsMemory(v) {
      MemoryMatched(v);
    }
    if MatchMemory(v) {
      MatchedMemory(v);
    }
  }

  // ---------------------------------------------------------------------------
  // `true\s*$`: the accepted value of `no-route:`

  /** Matcher: the value starts with `true` and only white space follows. */
  predicate IsTrueFlag(v: string) {
    StartsWith(v, "true") && AllSpace(v[4..])
  }

  /** Declarative form: `true` followed by some run of white space. */
  ghost predicate TrueThenSpace(v: string) {
    exists w :: AllSpace(w) && v == "true" + w
  }

  lemma {:induction false} IsTrueFlagIff(v: string)
    ensures IsTrueFlag(v) <==> TrueThenSpace(v)
  {
    if IsTrueFlag(v) {
      assert v == "true" + v[4..];
    }
    if TrueThenSpace(v) {
      var w :| AllSpace(w) && v == "true" + w;
      assert v[..4] == "true" && v[4..] == w;
    }
  }

  // ---------------------------------------------------------------------------
  // Anchored line patterns

  /** Matcher for the expression `^ *key.*`: after the leading spaces the line
      continues with `key` (`.*` accepts whatever follows). */
  predicate KeyLine(line: string, key: string) {
    StartsWith(line[LeadingSpaces(line)..], key)
  }

  /** The text after `key` on a key line. */
  function ValueOf(line: string, key: string): (v: string)
    requires KeyLine(line, key)
    ensures line == line[..LeadingSpaces(line)] + key + v
  {
    var n := LeadingSpaces(line);
    assert line == line[..n] + line[n..n + |key|] + line[n + |key|..];
    line[n + |key|..]
  }

  /** A run of spaces that is not followed by another space is the whole leading run. */
  lemma {:induction false} LeadingSpacesUnique(line: string, n: nat)
    requires n <= |line| && AllBlanks(line[..n]) && (n < |line| ==> line[n] != ' ')
    ensures LeadingSpaces(line) == n
    decreases n
  {
    if n > 0 {
      assert line[..n][0] == ' ';
      assert line[1..][..n - 1] == line[..n][1..];
      LeadingSpacesUnique(line[1..], n - 1);
    }
  }

  /** Declarative form of `^ *key`: some run of spaces is followed by `key`. */
  predicate KeyAfterBlanks(line: string, key: string) {
    exists n :: 0 <= n <= |line| && AllBlanks(line[..n]) && StartsWith(line[n..], key)
  }

  /** For a key that does not start with a space, the matcher agrees with the
      declarative form. */
  lemma {:induction false} KeyLineIff(line: string, key: string)
    requires |key| > 0 && key[0] != ' '
    ensures KeyLine(line, key) <==> KeyAfterBlanks(line, key)
  {
    var m := LeadingSpaces(line);
    if KeyLine(line, key) {
      assert AllBlanks(line[..m]);
    }
    if KeyAfterBlanks(line, key) {
      var n :| 0 <= n <= |line| && AllBlanks(line[..n]) && StartsWith(line[n..], key);
      assert line[n..][0] == key[0];
      LeadingSpacesUnique(line, n);
    }
  }

  predicate IsIndentChar(c: char) {
    IsAsciiLetter(c) || c == '-'
  }

  /** Matcher for `/(^[a-zA-Z\-].*)|(^ +[a-zA-Z\-].*)/`: the first character after
      the leading spaces is an ASCII letter or `-`. */
  predicate IndentOk(line: string) {
    var n := LeadingSpaces(line);
    n < |line| && IsIndentChar(line[n])
  }

  /** Declarative form: the line is a (possibly empty) run of spaces followed by a
      letter or `-`; the two alternatives of the expression are the empty and the
      non-empty run. */
  predicate IndentAfterBlanks(line: string) {
    exists n :: 0 <= n < |line| && AllBlanks(line[..n]) && IsIndentChar(line[n])
  }

  lemma {:induction false} IndentOkIff(line: string)
    ensures IndentOk(line) <==> IndentAfterBlanks(line)
  {
    var m := LeadingSpaces(line);
    if IndentOk(line) {
      assert AllBlanks(line[..m]);
    }
    if IndentAfterBlanks(line) {
      var n :| 0 <= n < |line| && AllBlanks(line[..n]) && IsIndentChar(line[n]);
      LeadingSpacesUnique(line, n);
    }
  }

  /** `line.length === 0 || !line.trim()`: the line is empty or white space only. */
  predicate IsBlank(line: string) {
    |line| == 0 || Trim(line) == ""
  }

  lemma {:induction false} IsBlankIff(line: string)
    ensures IsBlank(line) <==> AllSpace(line)
  {
    TrimEmptyIff(line);
  }
}
