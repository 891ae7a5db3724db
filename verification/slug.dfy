/** `slugify(input)` of the manifest editor: the host name derived from a project name,
    `input.toLowerCase().replace(/\s+/g, '-').replace(/[^\w\-]+/g, '').trim()`. */
module Slug {
  import opened Strings

  /** A character a slug may contain: a lower-case ASCII letter, a digit, `_` or `-`. */
  predicate IsSlugChar(c: char) {
    'a' <= c <= 'z' || IsDigit(c) || c == '_' || c == '-'
  }

  predicate AllSlugChars(s: string) {
    forall i :: 0 <= i < |s| ==> IsSlugChar(s[i])
  }

  /** The lower-case form of one character, as far as a slug can observe it.
      ASCII capitals map to their small letters; U+0130 (capital I with dot above)
      maps to `i` followed by U+0307 and U+212A (Kelvin sign) to `k`, the two
      non-ASCII capitals whose lower case contains an ASCII letter. Any other
      character is kept: whatever case mapping applies to it yields a character
      that is neither white space nor in `\w`, so the later steps drop it all the same. */
  function LowerChar(c: char): string {
    if 'A' <= c <= 'Z' then [(c as int + 32) as char]
    else if c as int == 0x130 then ['i', 0x307 as char]
    else if c as int == 0x212A then ['k']
    else [c]
  }

  /** `s.toLowerCase()`, in the sense of `LowerChar`. */
  function ToLower(s: string): (r: string)
    ensures forall i :: 0 <= i < |r| ==> !('A' <= r[i] <= 'Z')
    ensures forall i :: 0 <= i < |r| ==> IsJsSpace(r[i]) ==> r[i] in s
    decreases |s|
  {
    if |s| == 0 then "" else LowerChar(s[0]) + ToLower(s[1..])
  }

  /** `s.replace(/\s+/g, '-')`: every maximal run of white space becomes one `-`. */
  function CollapseSpaces(s: string): (r: string)
    ensures NoSpace(r)
    ensures NoSpace(s) ==> r == s
    ensures forall i :: 0 <= i < |r| ==> r[i] == '-' || r[i] in s
    decreases |s|
  {
    if |s| == 0 then ""
    else if IsJsSpace(s[0]) then "-" + CollapseSpaces(s[LeadingWhitespace(s)..])
    else [s[0]] + CollapseSpaces(s[1..])
  }

  /** `s.replace(/[^\w\-]+/g, '')`: every character outside `\w` and `-` is removed. */
  function StripNonWord(s: string): (r: string)
    ensures forall i :: 0 <= i < |r| ==> IsWordChar(r[i]) || r[i] == '-'
    ensures forall i :: 0 <= i < |r| ==> r[i] in s
    ensures (forall i :: 0 <= i < |s| ==> IsWordChar(s[i]) || s[i] == '-') ==> r == s
    decreases |s|
  {
    if |s| == 0 then ""
    else if IsWordChar(s[0]) || s[0] == '-' then [s[0]] + StripNonWord(s[1..])
    else StripNonWord(s[1..])
  }

  /** Lower-casing works character by character: the lower case of a concatenation is
      the concatenation of the lower cases. With `ToLowerChar` this determines
      `ToLower` completely. */
  lemma {:induction false} ToLowerConcat(a: string, b: string)
    ensures ToLower(a + b) == ToLower(a) + ToLower(b)
    decreases |a|
  {
    if |a| == 0 {
      assert a + b == b;
    } else {
      assert (a + b)[0] == a[0];
      assert (a + b)[1..] == a[1..] + b;
      ToLowerConcat(a[1..], b);
    }
  }

  /** The lower case of a single character is its `LowerChar`. */
  lemma {:induction false} ToLowerChar(c: char)
    ensures ToLower([c]) == LowerChar(c)
  {
    assert [c][1..] == "";
  }

  /** No character of `s` lower-cases to two characters. */
  predicate NoExpandingChar(s: string) {
    forall i :: 0 <= i < |s| ==> s[i] as int != 0x130
  }

  /** Without U+0130, lower-casing keeps the length and maps each character on its
      own: ASCII capitals to their small letters, U+212A to `k`, anything else to
      itself. */
  lemma {:induction false} ToLowerPointwise(s: string)
    requires NoExpandingChar(s)
    ensures |ToLower(s)| == |s|
    ensures forall i :: 0 <= i < |s| ==> [ToLower(s)[i]] == LowerChar(s[i])
    decreases |s|
  {
    if |s| > 0 {
      var rest := s[1..];
      assert NoExpandingChar(rest) by {
        forall i | 0 <= i < |rest|
          ensures rest[i] as int != 0x130
        {
          assert rest[i] == s[i + 1];
        }
      }
      ToLowerPointwise(rest);
      var r := ToLower(s);
      assert r == LowerChar(s[0]) + ToLower(rest);
      assert |LowerChar(s[0])| == 1;
      forall i | 0 <= i < |s|
        ensures [r[i]] == LowerChar(s[i])
      {
        if i > 0 {
          assert r[i] == ToLower(rest)[i - 1];
          assert s[i] == rest[i - 1];
        }
      }
    }
  }

  /** Text without white space passes `CollapseSpaces` unchanged in front of the
      rest. */
  lemma {:induction false} CollapseKeepsWord(x: string, y: string)
    requires NoSpace(x)
    ensures CollapseSpaces(x + y) == x + CollapseSpaces(y)
    decreases |x|
  {
    if |x| == 0 {
      assert x + y == y;
    } else {
      var c, tail := x[0], x[1..];
      var rest := CollapseSpaces(tail + y);
      assert CollapseSpaces(x + y) == [c] + rest by {
        assert x + y == [c] + (tail + y);
        CollapseCons(c, tail + y);
      }
      var z := CollapseSpaces(y);
      assert rest == tail + z by {
        NoSpaceTail(x);
        CollapseKeepsWord(tail, y);
      }
      assert x == [c] + tail;
      ConsConcat(c, tail, z);
    }
  }

  lemma {:induction false} ConsConcat(c: char, a: string, b: string)
    ensures [c] + (a + b) == ([c] + a) + b
  {
  }

  /** A character that is not white space is kept in front. */
  lemma {:induction false} CollapseCons(c: char, s: string)
    requires !IsJsSpace(c)
    ensures CollapseSpaces([c] + s) == [c] + CollapseSpaces(s)
  {
    assert ([c] + s)[1..] == s;
  }

  lemma {:induction false} NoSpaceTail(x: string)
    requires |x| > 0 && NoSpace(x)
    ensures NoSpace(x[1..])
  {
    forall i | 0 <= i < |x[1..]|
      ensures !IsJsSpace(x[1..][i])
    {
      assert x[1..][i] == x[i + 1];
    }
  }

  /** A maximal run of white space in front becomes one `-`. */
  lemma {:induction false} CollapseRun(w: string, y: string)
    requires |w| > 0 && AllSpace(w)
    requires |y| > 0 ==> !IsJsSpace(y[0])
    ensures CollapseSpaces(w + y) == "-" + CollapseSpaces(y)
  {
    var wy := w + y;
    var n := LeadingWhitespace(wy);
    assert IsJsSpace(wy[0]) by {
      assert wy[0] == w[0];
    }
    if n < |w| {
      assert false;
    } else if n > |w| {
      SpaceInRun(wy, n, |w|);
      assert false;
    }
    assert wy[n..] == y;
  }

  /** Every character of a leading run of white space is white space. */
  lemma {:induction false} SpaceInRun(s: string, n: nat, k: nat)
    requires n <= |s| && AllSpace(s[..n]) && k < n
    ensures IsJsSpace(s[k])
  {
    assert s[..n][k] == s[k];
  }

  /** `replace(/\s+/g, '-')` on a word, a run of white space and a rest that starts
      with no white space: the word is kept and the run becomes one `-`. */
  lemma {:induction false} CollapseWordRun(x: string, w: string, y: string)
    requires NoSpace(x) && |w| > 0 && AllSpace(w)
    requires |y| > 0 ==> !IsJsSpace(y[0])
    ensures CollapseSpaces(x + w + y) == x + "-" + CollapseSpaces(y)
  {
    assert x + w + y == x + (w + y);
    CollapseKeepsWord(x, w + y);
    CollapseRun(w, y);
  }

  /** `StripNonWord` works character by character: with `StripChar` this determines
      it completely. */
  lemma {:induction false} StripNonWordConcat(a: string, b: string)
    ensures StripNonWord(a + b) == StripNonWord(a) + StripNonWord(b)
    decreases |a|
  {
    if |a| == 0 {
      assert a + b == b;
    } else {
      assert (a + b)[0] == a[0];
      assert (a + b)[1..] == a[1..] + b;
      StripNonWordConcat(a[1..], b);
    }
  }

  /** A single character is kept when it is in `\w` or is `-`, and removed otherwise. */
  lemma {:induction false} StripChar(c: char)
    ensures StripNonWord([c]) == if IsWordChar(c) || c == '-' then [c] else ""
  {
    assert [c][1..] == "";
  }

  /** `slugify(input)`: the result is made of lower-case letters, digits, `_` and `-`
      only, so in particular it holds no white space. */
  function Slugify(input: string): (r: string)
    ensures AllSlugChars(r)
    ensures NoSpace(r)
  {
    var lower := ToLower(input);
    var dashed := CollapseSpaces(lower);
    var stripped := StripNonWord(dashed);
    assert forall i :: 0 <= i < |stripped| ==> IsSlugChar(stripped[i]);
    TrimIdentity(stripped);
    Trim(stripped)
  }

  lemma {:induction false} ToLowerIdentity(s: string)
    requires AllSlugChars(s)
    ensures ToLower(s) == s
    decreases |s|
  {
    if |s| > 0 {
      ToLowerIdentity(s[1..]);
      assert s == [s[0]] + s[1..];
    }
  }

  /** A string is its own slug exactly when it is made of slug characters. */
  lemma {:induction false} SlugifyFixedPoint(s: string)
    ensures Slugify(s) == s <==> AllSlugChars(s)
  {
    if AllSlugChars(s) {
      ToLowerIdentity(s);
      assert NoSpace(s);
      assert CollapseSpaces(s) == s;
      assert StripNonWord(s) == s;
      TrimIdentity(s);
    }
  }

  /** Slugifying twice gives the same host as slugifying once. */
  lemma {:induction false} SlugifyIdempotent(s: string)
    ensures Slugify(Slugify(s)) == Slugify(s)
  {
    SlugifyFixedPoint(Slugify(s));
  }
}
