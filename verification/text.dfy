/** The string primitives the workspace relies on: ECMAScript whitespace (the
    `\s` class and `String.prototype.trim`), the first whitespace-delimited
    word of a string, and lower-casing. */
module Text {

  /** The characters ECMAScript calls WhiteSpace or LineTerminator: exactly
      those matched by `\s` and removed by `trim()`. */
  predicate IsWhitespace(c: char) {
    || c == '\t' || c == '\n' || c == '\U{000B}' || c == '\U{000C}' || c == '\r'
    || c == ' ' || c == '\U{00A0}' || c == '\U{1680}'
    || ('\U{2000}' <= c <= '\U{200A}')
    || c == '\U{2028}' || c == '\U{2029}' || c == '\U{202F}' || c == '\U{205F}'
    || c == '\U{3000}' || c == '\U{FEFF}'
  }

  /** The ECMAScript WhiteSpace code points outside the Unicode "Zs"
      category: tab, vertical tab, form feed and the byte order mark. */
  const FormatSpaces: set<char> := {'\t', '\U{000B}', '\U{000C}', '\U{FEFF}'}

  /** The Unicode "Zs" (space separator) category. */
  const SpaceSeparators: set<char> :=
    {' ', '\U{00A0}', '\U{1680}', '\U{2000}', '\U{2001}', '\U{2002}', '\U{2003}',
     '\U{2004}', '\U{2005}', '\U{2006}', '\U{2007}', '\U{2008}', '\U{2009}',
     '\U{200A}', '\U{202F}', '\U{205F}', '\U{3000}'}

  /** The ECMAScript LineTerminator code points. */
  const LineTerminators: set<char> := {'\n', '\r', '\U{2028}', '\U{2029}'}

  /** `IsWhitespace` is exactly ECMA-262's WhiteSpace together with its
      LineTerminator: the `\s` class of regular expressions, and the set
      `String.prototype.trim` removes. */
  lemma WhitespaceIsEcmaSet(c: char)
    ensures IsWhitespace(c) <==> c in FormatSpaces + SpaceSeparators + LineTerminators
  {
    if '\U{2000}' <= c <= '\U{200A}' {
      assert c as int in {0x2000, 0x2001, 0x2002, 0x2003, 0x2004, 0x2005,
                          0x2006, 0x2007, 0x2008, 0x2009, 0x200A};
    }
  }

  predicate AllWhitespace(s: string) {
    forall i :: 0 <= i < |s| ==> IsWhitespace(s[i])
  }

  /** Neither end of `s` is whitespace. */
  predicate IsTrimmed(s: string) {
    s == [] || (!IsWhitespace(s[0]) && !IsWhitespace(s[|s| - 1]))
  }

  /** The first index at or after `k` that does not hold whitespace, or
      `|s|` when there is none. */
  function SkipLeading(s: string, k: nat): (r: nat)
    requires k <= |s|
    ensures k <= r <= |s|
    ensures forall i :: k <= i < r ==> IsWhitespace(s[i])
    ensures r < |s| ==> !IsWhitespace(s[r])
    decreases |s| - k
  {
    if k < |s| && IsWhitespace(s[k]) then SkipLeading(s, k + 1) else k
  }

  /** The scan stops at `m` when only whitespace lies in `[k, m)` and `m`
      holds none. */
  lemma {:induction false} SkipLeadingAt(s: string, k: nat, m: nat)
    requires k <= m <= |s|
    requires forall i :: k <= i < m ==> IsWhitespace(s[i])
    requires m < |s| ==> !IsWhitespace(s[m])
    ensures SkipLeading(s, k) == m
    decreases m - k
  {
    if k < m {
      SkipLeadingAt(s, k + 1, m);
    }
  }

  /** Walking down from `k`, but not below `lo`: the index just after the
      last character that is not whitespace. */
  function SkipTrailing(s: string, lo: nat, k: nat): (r: nat)
    requires lo <= k <= |s|
    ensures lo <= r <= k
    ensures forall i :: r <= i < k ==> IsWhitespace(s[i])
    ensures r > lo ==> !IsWhitespace(s[r - 1])
    decreases k
  {
    if k > lo && IsWhitespace(s[k - 1]) then SkipTrailing(s, lo, k - 1) else k
  }

  /** The downward scan never passes a character that is not whitespace. */
  lemma {:induction false} SkipTrailingAbove(s: string, lo: nat, k: nat, m: nat)
    requires lo < m <= k <= |s|
    requires !IsWhitespace(s[m - 1])
    ensures SkipTrailing(s, lo, k) >= m
    decreases k
  {
    if k > m {
      SkipTrailingAbove(s, lo, k - 1, m);
    }
  }

  /** `String.prototype.trim`: the slice left once the whitespace at both
      ends is cut off. */
  function Trim(s: string): (r: string)
    ensures IsTrimmed(r)
  {
    var a := SkipLeading(s, 0);
    var b := SkipTrailing(s, a, |s|);
    var r := s[a..b];
    assert r != [] ==> r[0] == s[a] && r[|r| - 1] == s[b - 1];
    r
  }

  /** The trimmed text is a slice `s[a..b]` with only whitespace before `a`
      and from `b` on. */
  lemma TrimShape(s: string)
    ensures exists a, b :: 0 <= a <= b <= |s| && Trim(s) == s[a..b]
                           && AllWhitespace(s[..a]) && AllWhitespace(s[b..])
  {
    var a := SkipLeading(s, 0);
    var b := SkipTrailing(s, a, |s|);
    assert AllWhitespace(s[..a]) by {
      forall i | 0 <= i < a
        ensures IsWhitespace(s[..a][i])
      {
        assert s[..a][i] == s[i];
      }
    }
    assert AllWhitespace(s[b..]) by {
      forall i | 0 <= i < |s| - b
        ensures IsWhitespace(s[b..][i])
      {
        assert s[b..][i] == s[b + i];
      }
    }
  }

  /** Leading whitespace is skipped up to the first character that is not
      whitespace. */
  lemma LeadingOfPadded(lead: string, x: string)
    requires AllWhitespace(lead) && x != [] && !IsWhitespace(x[0])
    ensures SkipLeading(lead + x, 0) == |lead|
  {
    var s := lead + x;
    forall i | 0 <= i < |lead|
      ensures IsWhitespace(s[i])
    {
      assert s[i] == lead[i];
    }
    assert s[|lead|] == x[0];
    SkipLeadingAt(s, 0, |lead|);
  }

  /** Trimming whitespace, then a word that starts and ends with
      non-whitespace, then anything, keeps the word and a prefix of what
      follows it. */
  lemma TrimOfPadded(lead: string, w: string, rest: string)
    requires AllWhitespace(lead)
    requires w != [] && !IsWhitespace(w[0]) && !IsWhitespace(w[|w| - 1])
    ensures exists k :: 0 <= k <= |rest| && Trim(lead + w + rest) == w + rest[..k]
  {
    var s := lead + w + rest;
    assert s == lead + (w + rest);
    LeadingOfPadded(lead, w + rest);
    var a := |lead|;
    var m := |lead| + |w|;
    assert s[m - 1] == w[|w| - 1];
    SkipTrailingAbove(s, a, |s|, m);
    var b := SkipTrailing(s, a, |s|);
    var k := b - m;
    var x := w + rest;
    assert s[a..b] == x[..b - a];
    assert x[..|w| + k] == w + rest[..k];
  }

  /** A string trims to nothing exactly when it is whitespace only. */
  lemma TrimEmptyIff(s: string)
    ensures Trim(s) == [] <==> AllWhitespace(s)
  {
    var a := SkipLeading(s, 0);
    var b := SkipTrailing(s, a, |s|);
    if Trim(s) == [] {
      assert b == a;
      assert a == |s|;
    }
  }

  /** Trimming an already trimmed string changes nothing. */
  lemma TrimOfTrimmed(s: string)
    requires IsTrimmed(s)
    ensures Trim(s) == s
  {
    if s != [] {
      assert SkipLeading(s, 0) == 0;
      assert SkipTrailing(s, 0, |s|) == |s|;
      assert s[0..|s|] == s;
    }
  }

  /** The first index at or after `k` that holds whitespace, or `|s|`. */
  function WordEnd(s: string, k: nat): (r: nat)
    requires k <= |s|
    ensures k <= r <= |s|
    ensures forall i :: k <= i < r ==> !IsWhitespace(s[i])
    ensures r < |s| ==> IsWhitespace(s[r])
    decreases |s| - k
  {
    if k < |s| && !IsWhitespace(s[k]) then WordEnd(s, k + 1) else k
  }

  /** The scan stops at `m` when `[k, m)` holds no whitespace and `m`
      does. */
  lemma {:induction false} WordEndAt(s: string, k: nat, m: nat)
    requires k <= m <= |s|
    requires forall i :: k <= i < m ==> !IsWhitespace(s[i])
    requires m < |s| ==> IsWhitespace(s[m])
    ensures WordEnd(s, k) == m
    decreases m - k
  {
    if k < m {
      WordEndAt(s, k + 1, m);
    }
  }

  /** The first whitespace-delimited word: the longest prefix of `s` that
      contains no whitespace. On a trimmed string this is
      `s.split(/\s+/, 1)[0]`. */
  function FirstWord(s: string): (r: string)
    ensures r <= s
    ensures forall i :: 0 <= i < |r| ==> !IsWhitespace(r[i])
    ensures |r| < |s| ==> IsWhitespace(s[|r|])
  {
    s[..WordEnd(s, 0)]
  }

  /** A word followed by whitespace and anything else has that word first. */
  lemma FirstWordOfWords(w: string, rest: string)
    requires forall i :: 0 <= i < |w| ==> !IsWhitespace(w[i])
    requires rest == [] || IsWhitespace(rest[0])
    ensures FirstWord(w + rest) == w
  {
    var s := w + rest;
    assert forall i :: 0 <= i < |w| ==> s[i] == w[i];
    assert |w| < |s| ==> s[|w|] == rest[0];
    WordEndAt(s, 0, |w|);
    assert s[..|w|] == w;
  }

  predicate IsAsciiUpper(c: char) {
    'A' <= c <= 'Z'
  }

  /** No ASCII capital anywhere in `s`. */
  predicate HasNoUpper(s: string) {
    forall i :: 0 <= i < |s| ==> !IsAsciiUpper(s[i])
  }

  /** Lower-cases the ASCII letters; every other character is kept. */
  function LowerChar(c: char): (r: char)
    ensures !IsAsciiUpper(r)
    ensures !IsAsciiUpper(c) ==> r == c
    ensures IsAsciiUpper(c) ==> r as int == c as int + 32
  {
    if IsAsciiUpper(c) then (c as int + 32) as char else c
  }

  /** `String.prototype.toLowerCase`, restricted to the ASCII letters. */
  function ToLower(s: string): (r: string)
    ensures |r| == |s|
    ensures forall i :: 0 <= i < |s| ==> r[i] == LowerChar(s[i])
    ensures HasNoUpper(r)
  {
    seq(|s|, i requires 0 <= i < |s| => LowerChar(s[i]))
  }
}
