/** The string operations the request handler applies to a prompt:
    Python's str.lower, str.strip and the substring test `needle in s`. */
module Text {

  /** Python's str.isspace for a single character: the ASCII whitespace and
      separator controls, NEL, NO-BREAK SPACE and the Unicode space separators. */
  predicate IsSpace(c: char) {
    c == ' ' || ('\t' <= c <= '\r') || ('\U{1C}' <= c <= '\U{1F}')
    || c == '\U{85}' || c == '\U{A0}' || c == '\U{1680}'
    || ('\U{2000}' <= c <= '\U{200A}') || c == '\U{2028}' || c == '\U{2029}'
    || c == '\U{202F}' || c == '\U{205F}' || c == '\U{3000}'
  }

  predicate AllSpace(s: string) {
    forall i :: 0 <= i < |s| ==> IsSpace(s[i])
  }

  /** No whitespace at either end: what str.strip leaves behind. */
  predicate Trimmed(s: string) {
    s == [] || (!IsSpace(s[0]) && !IsSpace(s[|s| - 1]))
  }

  predicate IsUpper(c: char) {
    'A' <= c <= 'Z'
  }

  function LowerChar(c: char): (d: char)
    ensures !IsUpper(d)
    ensures IsSpace(d) == IsSpace(c)
    ensures IsUpper(c) ==> d as int == c as int + 32
    ensures !IsUpper(c) ==> d == c
  {
    if IsUpper(c) then (c as int + 32) as char else c
  }

  /** str.lower, restricted to the ASCII letters. */
  function Lower(s: string): (r: string)
    ensures |r| == |s|
    ensures forall i :: 0 <= i < |s| ==> r[i] == LowerChar(s[i])
  {
    seq(|s|, i requires 0 <= i < |s| => LowerChar(s[i]))
  }

  /** The number of whitespace characters s starts with. */
  function LeadingSpaces(s: string): (n: nat)
    ensures n <= |s| && AllSpace(s[..n])
    ensures n < |s| ==> !IsSpace(s[n])
  {
    if s != [] && IsSpace(s[0]) then
      var m := LeadingSpaces(s[1..]);
      assert s[..m + 1] == [s[0]] + s[1..][..m];
      m + 1
    else 0
  }

  /** The number of whitespace characters s ends with. */
  function TrailingSpaces(s: string): (n: nat)
    ensures n <= |s| && AllSpace(s[|s| - n..])
    ensures n < |s| ==> !IsSpace(s[|s| - n - 1])
  {
    if s != [] && IsSpace(s[|s| - 1]) then
      var p := s[..|s| - 1];
      var m := TrailingSpaces(p);
      assert AllSpace(s[|s| - (m + 1)..]) by {
        forall i | |s| - (m + 1) <= i < |s| ensures IsSpace(s[i]) {
          if i < |s| - 1 {
            assert s[i] == p[|p| - m..][i - (|p| - m)];
          }
        }
      }
      m + 1
    else 0
  }

  /** Leading whitespace removed. */
  function TrimStart(s: string): string {
    s[LeadingSpaces(s)..]
  }

  /** Trailing whitespace removed. */
  function TrimEnd(s: string): string {
    s[..|s| - TrailingSpaces(s)]
  }

  /** str.strip() with no argument: both ends of s cleared of whitespace. */
  function Strip(s: string): (r: string)
    ensures Trimmed(r)
    ensures |r| <= |s|
  {
    TrimEnd(TrimStart(s))
  }

  /** The prompt normalisation of the handler: `.lower().strip()`. */
  function Normalise(s: string): (r: string)
    ensures Trimmed(r) && |r| <= |s|
    ensures forall i :: 0 <= i < |r| ==> !IsUpper(r[i])
  {
    StripKeepsNoCapitals(Lower(s));
    Strip(Lower(s))
  }

  /** Strip keeps only characters of its input, so it adds no capital. */
  lemma StripKeepsNoCapitals(s: string)
    requires forall i :: 0 <= i < |s| ==> !IsUpper(s[i])
    ensures forall i :: 0 <= i < |Strip(s)| ==> !IsUpper(Strip(s)[i])
  {
    var pre, post := StripParts(s);
    forall i | 0 <= i < |Strip(s)| ensures !IsUpper(Strip(s)[i]) {
      assert Strip(s)[i] == (pre + Strip(s) + post)[|pre| + i];
    }
  }

  lemma LeadingPart(s: string) returns (pre: string)
    ensures s == pre + TrimStart(s) && AllSpace(pre)
  {
    var n := LeadingSpaces(s);
    pre := s[..n];
    assert s == s[..n] + s[n..];
  }

  lemma TrailingPart(s: string) returns (post: string)
    ensures s == TrimEnd(s) + post && AllSpace(post)
  {
    var n := TrailingSpaces(s);
    var k := |s| - n;
    post := s[k..];
    assert TrimEnd(s) == s[..k];
    assert s == s[..k] + s[k..];
  }

  /** Strip removes whitespace and nothing else: s is the stripped string with
      whitespace before and after it. */
  lemma StripParts(s: string) returns (pre: string, post: string)
    ensures s == pre + Strip(s) + post
    ensures AllSpace(pre) && AllSpace(post)
  {
    pre := LeadingPart(s);
    post := TrailingPart(TrimStart(s));
  }

  lemma {:induction false} TrimStartOfPadded(a: string, u: string)
    requires AllSpace(a) && (u == [] || !IsSpace(u[0]))
    ensures TrimStart(a + u) == u
    decreases |a|
  {
    if a != [] {
      assert (a + u)[1..] == a[1..] + u;
      TrimStartOfPadded(a[1..], u);
    } else {
      assert a + u == u;
    }
  }

  lemma {:induction false} TrimEndOfPadded(u: string, b: string)
    requires AllSpace(b) && (u == [] || !IsSpace(u[|u| - 1]))
    ensures TrimEnd(u + b) == u
    decreases |b|
  {
    if b != [] {
      assert (u + b)[..|u + b| - 1] == u + b[..|b| - 1];
      TrimEndOfPadded(u, b[..|b| - 1]);
    } else {
      assert u + b == u;
    }
  }

  /** The strip of a string is fixed by its shape: whitespace, a trimmed middle,
      whitespace. */
  lemma StripUnique(a: string, t: string, b: string)
    requires AllSpace(a) && AllSpace(b) && Trimmed(t)
    ensures Strip(a + t + b) == t
  {
    if t == [] {
      assert a + t + b == (a + b) + [];
      TrimStartOfPadded(a + b, []);
    } else {
      assert a + t + b == a + (t + b);
      TrimStartOfPadded(a, t + b);
      TrimEndOfPadded(t, b);
    }
  }

  /** Surrounding whitespace does not change the result of Strip. */
  lemma StripIgnoresPadding(pre: string, s: string, post: string)
    requires AllSpace(pre) && AllSpace(post)
    ensures Strip(pre + s + post) == Strip(s)
  {
    var a, b := StripParts(s);
    var r := Strip(s);
    AllSpaceConcat(pre, a);
    AllSpaceConcat(b, post);
    Regroup(pre, a, r, b, post);
    StripUnique(pre + a, r, b + post);
  }

  lemma AllSpaceConcat(x: string, y: string)
    requires AllSpace(x) && AllSpace(y)
    ensures AllSpace(x + y)
  {
    forall i | 0 <= i < |x + y| ensures IsSpace((x + y)[i]) {
      if i >= |x| { assert (x + y)[i] == y[i - |x|]; }
    }
  }

  lemma Regroup(p: string, a: string, r: string, b: string, q: string)
    ensures p + (a + r + b) + q == (p + a) + r + (b + q)
  {
  }

  lemma StripIdempotent(s: string)
    ensures Strip(Strip(s)) == Strip(s)
  {
    assert [] + Strip(s) + [] == Strip(s);
    StripUnique([], Strip(s), []);
  }

  /** Two characters that are equal, or the capital and small form of the
      same ASCII letter (32 code points apart). */
  predicate SameLetterUpToCase(c: char, d: char) {
    c == d || (IsUpper(c) && d as int == c as int + 32) || (IsUpper(d) && c as int == d as int + 32)
  }

  /** Two strings that differ only in the case of ASCII letters. */
  predicate SameUpToCase(s: string, t: string) {
    |s| == |t| && forall i :: 0 <= i < |s| ==> SameLetterUpToCase(s[i], t[i])
  }

  /** Matching is case-insensitive: strings equal up to case normalise alike. */
  lemma NormaliseIgnoresCase(s: string, t: string)
    requires SameUpToCase(s, t)
    ensures Normalise(s) == Normalise(t)
  {
    forall i | 0 <= i < |s| ensures LowerChar(s[i]) == LowerChar(t[i]) {
      assert SameLetterUpToCase(s[i], t[i]);
    }
    assert Lower(s) == Lower(t);
  }

  /** Matching ignores surrounding whitespace. */
  lemma NormaliseIgnoresPadding(pre: string, s: string, post: string)
    requires AllSpace(pre) && AllSpace(post)
    ensures Normalise(pre + s + post) == Normalise(s)
  {
    assert Lower(pre + s + post) == Lower(pre) + Lower(s) + Lower(post);
    StripIgnoresPadding(Lower(pre), Lower(s), Lower(post));
  }

  /** Lowercasing a string without capitals changes nothing. */
  lemma LowerWithoutCapitals(s: string)
    requires forall i :: 0 <= i < |s| ==> !IsUpper(s[i])
    ensures Lower(s) == s
  {
  }

  /** Normalising twice is normalising once. */
  lemma NormaliseIdempotent(s: string)
    ensures Normalise(Normalise(s)) == Normalise(s)
  {
    LowerWithoutCapitals(Normalise(s));
    StripIdempotent(Lower(s));
  }

  /** `needle` occurs in `s` starting at position k. */
  ghost predicate OccursAt(needle: string, s: string, k: int) {
    0 <= k <= |s| - |needle| && s[k..k + |needle|] == needle
  }

  /** Python's `needle in s` on strings, as a search from the left. */
  function Contains(s: string, needle: string): (b: bool)
    ensures b ==> |needle| <= |s|
    ensures needle == [] ==> b
    decreases |s|
  {
    if |needle| > |s| then false
    else if s[..|needle|] == needle then true
    else Contains(s[1..], needle)
  }

  /** The search finds the needle exactly when it occurs somewhere in s. */
  lemma {:induction false} ContainsIffOccurs(s: string, needle: string)
    ensures Contains(s, needle) <==> exists k :: OccursAt(needle, s, k)
    decreases |s|
  {
    if |needle| > |s| {
    } else if s[..|needle|] == needle {
      assert OccursAt(needle, s, 0);
    } else {
      ContainsIffOccurs(s[1..], needle);
      forall k | OccursAt(needle, s[1..], k) ensures OccursAt(needle, s, k + 1) {
        assert s[1..][k..k + |needle|] == s[k + 1..k + 1 + |needle|];
      }
      forall k | OccursAt(needle, s, k) ensures k > 0 && OccursAt(needle, s[1..], k - 1) {
        if k > 0 {
          assert s[1..][k - 1..k - 1 + |needle|] == s[k..k + |needle|];
        }
      }
    }
  }

  /** An exact phrase contains the keywords it is made of. */
  lemma ContainsInfix(pre: string, needle: string, post: string)
    ensures Contains(pre + needle + post, needle)
  {
    var s := pre + needle + post;
    assert s[|pre|..|pre| + |needle|] == needle;
    assert OccursAt(needle, s, |pre|);
    ContainsIffOccurs(s, needle);
  }

  /** A string that contains a needle holds each of the needle's characters. */
  lemma ContainsHasChar(s: string, needle: string, j: nat) returns (i: nat)
    requires Contains(s, needle) && j < |needle|
    ensures i < |s| && s[i] == needle[j]
  {
    ContainsIffOccurs(s, needle);
    var k :| OccursAt(needle, s, k);
    assert s[k..k + |needle|][j] == s[k + j];
    i := k + j;
  }
}
