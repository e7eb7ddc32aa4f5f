/**
 * The two JavaScript string operations the highlighting code relies on:
 * `String.prototype.trim` and a global regular-expression replacement of
 * whole words, `s.replace(/\b(w1|w2|...)\b/g, "")`.
 */
module JsText {
  import opened Wrappers

  /** ECMAScript WhiteSpace and LineTerminator code points: what `trim` removes. */
  predicate IsSpace(c: char) {
    c == '\t' || c == '\n' || c == '\U{000B}' || c == '\U{000C}' || c == '\r' || c == ' '
    || c == '\U{00A0}' || c == '\U{1680}' || ('\U{2000}' <= c <= '\U{200A}')
    || c == '\U{2028}' || c == '\U{2029}' || c == '\U{202F}' || c == '\U{205F}'
    || c == '\U{3000}' || c == '\U{FEFF}'
  }

  /** The number of space characters `s` starts with. */
  function LeadingSpaces(s: string): (n: nat)
    ensures n <= |s|
    ensures forall i :: 0 <= i < n ==> IsSpace(s[i])
    ensures n < |s| ==> !IsSpace(s[n])
  {
    if |s| > 0 && IsSpace(s[0]) then 1 + LeadingSpaces(s[1..]) else 0
  }

  /** The length of `s` without the space characters it ends with. */
  function TrailingStart(s: string): (m: nat)
    ensures m <= |s|
    ensures forall i :: m <= i < |s| ==> IsSpace(s[i])
    ensures m > 0 ==> !IsSpace(s[m - 1])
  {
    if |s| > 0 && IsSpace(s[|s| - 1]) then TrailingStart(s[..|s| - 1]) else |s|
  }

  /** `s.trim()`: the slice of `s` left after removing spaces at both ends. */
  function Trim(s: string): (r: string)
    ensures var a := LeadingSpaces(s);
      a + |r| <= |s| && r == s[a..a + |r|]
      && forall i :: a + |r| <= i < |s| ==> IsSpace(s[i])
    ensures Trimmed(r)
  {
    var a := LeadingSpaces(s);
    if a == |s| then "" else s[a..TrailingStart(s)]
  }

  /** `s.endsWith(m)`. */
  predicate EndsWith(s: string, m: string) {
    |m| <= |s| && s[|s| - |m|..] == m
  }

  /** Trimming keeps a tail that neither starts nor ends with white space. */
  lemma TrimKeepsTail(p: string, m: string)
    requires |m| > 0 && Trimmed(m)
    ensures var r := Trim(p + m); |m| <= |r| && r[|r| - |m|..] == m
  {
    var s := p + m;
    assert s[|p|..] == m;
    var a := LeadingSpaces(s);
    var r := Trim(s);
    var e := |s| - |m|;
    assert s[e] == m[0] && s[|s| - 1] == m[|m| - 1];
    assert a <= e;
    assert a + |r| == |s|;
    assert r[|r| - |m|..] == s[e..];
  }

  lemma TrimOfTrimmed(s: string)
    requires Trimmed(s)
    ensures Trim(s) == s
  {
  }

  /** Trimming twice is trimming once. */
  lemma TrimIdempotent(s: string)
    ensures Trim(Trim(s)) == Trim(s)
  {
    TrimOfTrimmed(Trim(s));
  }

  /** `[A-Za-z0-9_]`, the characters `\w` matches in a regular expression without the `u` flag. */
  predicate IsWordChar(c: char) {
    'a' <= c <= 'z' || 'A' <= c <= 'Z' || '0' <= c <= '9' || c == '_'
  }

  lemma SpaceIsNotWordChar(c: char)
    ensures IsSpace(c) ==> !IsWordChar(c)
  {
  }

  /** `\b` holds at position `p` of `s`: exactly one of the characters around it is a word character. */
  predicate IsBoundary(s: string, p: int)
    requires 0 <= p <= |s|
  {
    (p > 0 && IsWordChar(s[p - 1])) != (p < |s| && IsWordChar(s[p]))
  }

  /** `w` occurs at `p` and is followed by `\b`. */
  predicate FitsAfter(s: string, p: int, w: string)
    requires 0 <= p <= |s|
  {
    p + |w| <= |s| && s[p..p + |w|] == w && IsBoundary(s, p + |w|)
  }

  /** `\bw\b` matches at position `p`. */
  predicate MatchesAt(s: string, p: int, w: string)
    requires 0 <= p <= |s|
  {
    IsBoundary(s, p) && FitsAfter(s, p, w)
  }

  /**
   * The alternation `(w1|w2|...)` between two `\b` tried at `p`: alternatives are
   * tried in order, and the first one that matches is the text matched.
   */
  function FirstMatch(s: string, p: int, words: seq<string>): (r: Option<string>)
    requires 0 <= p <= |s|
    ensures r.None? ==> forall w :: w in words ==> !MatchesAt(s, p, w)
    ensures r.Some? ==> r.value in words && MatchesAt(s, p, r.value)
  {
    if |words| == 0 then None
    else if MatchesAt(s, p, words[0]) then Some(words[0])
    else
      assert forall w :: w in words ==> w == words[0] || w in words[1..];
      FirstMatch(s, p, words[1..])
  }

  /** The alternative matched is the earliest in the list that matches. */
  lemma {:induction false} FirstMatchIsEarliest(s: string, p: int, words: seq<string>)
    requires 0 <= p <= |s|
    ensures FirstMatch(s, p, words).Some? ==>
      exists j :: (0 <= j < |words| && words[j] == FirstMatch(s, p, words).value
        && forall i :: 0 <= i < j ==> !MatchesAt(s, p, words[i]))
  {
    if |words| > 0 {
      var r := FirstMatch(s, p, words);
      if MatchesAt(s, p, words[0]) {
        assert words[0] == r.value;
      } else {
        var rest := words[1..];
        FirstMatchIsEarliest(s, p, rest);
        assert r == FirstMatch(s, p, rest);
        if r.Some? {
          var j :| 0 <= j < |rest| && rest[j] == r.value
            && forall i :: 0 <= i < j ==> !MatchesAt(s, p, rest[i]);
          forall i | 0 <= i < j + 1 ensures !MatchesAt(s, p, words[i]) {
            if i > 0 { assert words[i] == rest[i - 1]; }
          }
          assert words[j + 1] == r.value;
        }
      }
    }
  }

  lemma SliceOfSlice<T>(s: seq<T>, a: int, b: int, i: int, j: int)
    requires 0 <= a <= b <= |s| && 0 <= i <= j <= b - a
    ensures s[a..b][i..j] == s[a + i..a + j]
  {
    forall k | 0 <= k < j - i ensures s[a..b][i..j][k] == s[a + i..a + j][k] {
      assert s[a..b][i..j][k] == s[a..b][i + k] == s[a + i + k];
    }
  }

  /** Extending a slice by one element. */
  lemma SliceSnoc<T>(a: seq<T>, lo: int, hi: int)
    requires 0 <= lo < hi <= |a|
    ensures a[lo..hi] == a[lo..hi - 1] + [a[hi - 1]]
  {
  }

  predicate NonEmptyWords(words: seq<string>) {
    forall w :: w in words ==> |w| > 0
  }

  /** The output of the global replacement for the part of `s` the scan has not yet passed (from `p` on). */
  function RemoveFrom(s: string, words: seq<string>, p: int): (r: string)
    requires NonEmptyWords(words)
    requires 0 <= p <= |s|
    ensures |r| <= |s| - p
    decreases |s| - p
  {
    if p == |s| then ""
    else
      match FirstMatch(s, p, words)
      case Some(w) => RemoveFrom(s, words, p + |w|)
      case None => [s[p]] + RemoveFrom(s, words, p + 1)
  }

  /** `s.replace(/\b(w1|w2|...)\b/g, "")`. */
  function RemoveWords(s: string, words: seq<string>): (r: string)
    requires NonEmptyWords(words)
    ensures |r| <= |s|
  {
    RemoveFrom(s, words, 0)
  }

  /** No word of `words` occurs between two boundaries anywhere in `s`. */
  predicate Clean(s: string, words: seq<string>) {
    forall p, w :: 0 <= p <= |s| && w in words ==> !MatchesAt(s, p, w)
  }

  lemma {:induction false} RemoveFromClean(s: string, words: seq<string>, p: int)
    requires NonEmptyWords(words) && Clean(s, words) && 0 <= p <= |s|
    ensures RemoveFrom(s, words, p) == s[p..]
    decreases |s| - p
  {
    if p < |s| {
      assert FirstMatch(s, p, words).None?;
      RemoveFromClean(s, words, p + 1);
    }
  }

  /** Text holding none of the words is left as it is. */
  lemma RemoveWordsOfClean(s: string, words: seq<string>)
    requires NonEmptyWords(words) && Clean(s, words)
    ensures RemoveWords(s, words) == s
  {
    RemoveFromClean(s, words, 0);
  }

  /**
   * A word whose first and last characters are word characters and which never
   * has two non-word characters side by side (true of every class marker).
   */
  predicate WellFormedWord(w: string) {
    |w| > 0 && IsWordChar(w[0]) && IsWordChar(w[|w| - 1])
    && forall q :: 1 <= q < |w| ==> IsWordChar(w[q - 1]) || IsWordChar(w[q])
  }

  predicate WellFormedWords(words: seq<string>) {
    NonEmptyWords(words) && forall w :: w in words ==> WellFormedWord(w)
  }

  /** Right after a word character no word can start behind a `\b`. */
  lemma KeptAfterWordChar(s: string, words: seq<string>, j: int)
    requires WellFormedWords(words)
    requires 1 <= j < |s| && IsWordChar(s[j - 1])
    ensures FirstMatch(s, j, words).None?
  {
    forall w | w in words ensures !MatchesAt(s, j, w) {
      if j + |w| <= |s| && s[j..j + |w|] == w {
        assert s[j] == s[j..j + |w|][0];
      }
    }
  }

  /** Where the scan finds no match, it copies the character and moves on by one. */
  lemma KeptStep(s: string, words: seq<string>, j: int, next: int)
    requires NonEmptyWords(words) && 0 <= j < |s| && next == j + 1 && FirstMatch(s, j, words).None?
    ensures RemoveFrom(s, words, j) == [s[j]] + RemoveFrom(s, words, next)
  {
  }

  /** A word character at the head of the output is the input character at the scan position, which no match removed. */
  lemma {:induction false} WordHeadKept(s: string, words: seq<string>, j: int)
    requires WellFormedWords(words) && 0 <= j <= |s|
    ensures var t := RemoveFrom(s, words, j);
      |t| > 0 && IsWordChar(t[0]) ==> j < |s| && FirstMatch(s, j, words).None? && t[0] == s[j]
    decreases |s| - j
  {
    if j < |s| {
      match FirstMatch(s, j, words)
      case Some(w) =>
        WordSkipped(s, words, j, w, j + |w|);
        WordSkippedEnds(s, words, j, w, j + |w|);
        WordHeadKept(s, words, j + |w|);
      case None =>
    }
  }

  /** Where a word is removed, the scan resumes after a word character and before a non-word character. */
  lemma WordSkipped(s: string, words: seq<string>, j: int, w: string, e: int)
    requires NonEmptyWords(words) && 0 <= j < |s| && FirstMatch(s, j, words) == Some(w) && e == j + |w|
    ensures e <= |s| && RemoveFrom(s, words, j) == RemoveFrom(s, words, e)
  {
    RemoveStep(s, words, j);
  }

  /** A removed word ends with a word character and is followed by a non-word character or the end. */
  lemma WordSkippedEnds(s: string, words: seq<string>, j: int, w: string, e: int)
    requires WellFormedWords(words) && 0 <= j < |s| && FirstMatch(s, j, words) == Some(w) && e == j + |w|
    ensures 0 < e <= |s| && IsWordChar(s[e - 1]) && (e < |s| ==> !IsWordChar(s[e]))
  {
    assert s[e - 1] == s[j..e][|w| - 1] == w[|w| - 1];
  }

  /**
   * Where the output from scan position `j` starts with a character that cannot
   * begin a removal there (it or the input character before `j` is a word
   * character), that character is the input character at `j`.
   */
  lemma HeadFromInput(s: string, words: seq<string>, j: int, next: int)
    requires WellFormedWords(words) && 1 <= j <= |s| && next == j + 1
    ensures var u := RemoveFrom(s, words, j);
      |u| > 0 && (IsWordChar(s[j - 1]) || IsWordChar(u[0])) ==>
        j < |s| && u[0] == s[j] && u[1..] == RemoveFrom(s, words, next)
  {
    var u := RemoveFrom(s, words, j);
    if |u| > 0 && (IsWordChar(s[j - 1]) || IsWordChar(u[0])) {
      WordHeadKept(s, words, j);
      if IsWordChar(s[j - 1]) {
        KeptAfterWordChar(s, words, j);
      }
      KeptStep(s, words, j, next);
    }
  }

  /** One more character of a word seen in the output is the next input character. */
  lemma PrefixStep(s: string, words: seq<string>, i: int, m: string, q0: int, q: int, e0: int, e: int, t: string)
    requires WellFormedWords(words) && WellFormedWord(m)
    requires 0 <= i && 1 <= q0 && q == q0 + 1 && q <= |m| && e0 == i + q0 && e == e0 + 1
    requires |t| >= |m| && t[..|m|] == m
    requires e0 <= |s| && s[i..e0] == m[..q0]
    requires t[q0..] == RemoveFrom(s, words, e0)
    ensures e <= |s| && s[i..e] == m[..q]
    ensures t[q..] == RemoveFrom(s, words, e)
  {
    var u := t[q0..];
    assert |u| > 0 && u[0] == m[q0] by {
      assert t[q0] == t[..|m|][q0];
    }
    assert s[e0 - 1] == m[q0 - 1] by {
      assert s[e0 - 1] == s[i..e0][q0 - 1];
    }
    assert IsWordChar(s[e0 - 1]) || IsWordChar(u[0]);
    HeadFromInput(s, words, e0, e);
    SnocSlices(s, i, e0, e, m, q0, q);
    assert t[q..] == u[1..];
  }

  /** Extending an agreeing prefix by one agreeing character. */
  lemma SnocSlices(s: string, i: int, j: int, e: int, m: string, q0: int, q: int)
    requires 0 <= i && 0 <= q0 && q == q0 + 1 && q <= |m| && j == i + q0 && e == j + 1 && e <= |s|
    requires s[i..j] == m[..q0] && s[j] == m[q0]
    ensures s[i..e] == m[..q]
  {
    SliceSnoc(s, i, e);
    SliceSnoc(m, 0, q);
    assert m[..q] == m[0..q];
  }

  /** The first character of a word seen in the output is the input character at the scan position. */
  lemma PrefixBase(s: string, words: seq<string>, i: int, e: int, m: string, t: string)
    requires WellFormedWords(words) && WellFormedWord(m)
    requires 0 <= i <= |s| && e == i + 1 && t == RemoveFrom(s, words, i)
    requires |t| >= |m| && t[..|m|] == m
    ensures e <= |s| && s[i..e] == m[..1]
    ensures t[1..] == RemoveFrom(s, words, e)
    ensures FirstMatch(s, i, words).None?
  {
    assert t[0] == m[0];
    WordHeadKept(s, words, i);
    KeptStep(s, words, i, e);
  }

  /** A word that the output shows from position `i` on was in the input at the same scan position, unremoved. */
  lemma {:induction false} OutputPrefixFromInput(s: string, words: seq<string>, i: int, m: string, q: int, e: int, t: string)
    requires WellFormedWords(words) && WellFormedWord(m)
    requires 0 <= i <= |s| && 1 <= q <= |m| && e == i + q && t == RemoveFrom(s, words, i)
    requires |t| >= |m| && t[..|m|] == m
    ensures e <= |s| && s[i..e] == m[..q]
    ensures t[q..] == RemoveFrom(s, words, e)
    decreases q
  {
    if q == 1 {
      PrefixBase(s, words, i, e, m, t);
    } else {
      var q0, e0 := q - 1, e - 1;
      OutputPrefixFromInput(s, words, i, m, q0, e0, t);
      PrefixStep(s, words, i, m, q0, q, e0, e, t);
    }
  }

  /** After a copied word character, a non-word character (or nothing) in the output means a boundary in the input. */
  lemma BoundaryAfterWordChar(s: string, words: seq<string>, e: int)
    requires WellFormedWords(words) && 1 <= e <= |s| && IsWordChar(s[e - 1])
    ensures var u := RemoveFrom(s, words, e);
      (|u| == 0 || !IsWordChar(u[0])) ==> IsBoundary(s, e)
  {
    if e < |s| {
      KeptAfterWordChar(s, words, e);
      KeptStep(s, words, e, e + 1);
    }
  }

  /** A word followed by a boundary in the output was followed by a boundary in the input too, and was not removed. */
  lemma FitsAfterStart(t: string, m: string)
    requires WellFormedWord(m) && FitsAfter(t, 0, m)
    ensures |t| >= |m| && t[..|m|] == m
    ensures |t| == |m| || !IsWordChar(t[|m|])
  {
    assert t[..|m|] == t[0..|m|];
    assert t[|m| - 1] == t[0..|m|][|m| - 1];
  }

  lemma WordEndsWithWordChar(s: string, i: int, m: string)
    requires WellFormedWord(m) && 0 <= i && i + |m| <= |s| && s[i..i + |m|] == m[..|m|]
    ensures IsWordChar(s[i + |m| - 1]) && s[i] == m[0]
  {
    assert s[i + |m| - 1] == s[i..i + |m|][|m| - 1];
    assert s[i] == s[i..i + |m|][0];
  }

  lemma OutputMarkerInInput(s: string, words: seq<string>, i: int, m: string, t: string)
    requires WellFormedWords(words) && m in words && 0 <= i <= |s|
    requires t == RemoveFrom(s, words, i) && FitsAfter(t, 0, m)
    ensures FitsAfter(s, i, m) && FirstMatch(s, i, words).None?
  {
    var e := i + |m|;
    MarkerCopied(s, words, i, e, m, t);
    MarkerEndIsBoundary(s, words, i, e, m, t);
    FitsAfterIntro(s, i, e, m);
  }

  /** A word at the head of the output was copied from the input at the scan position, character by character. */
  lemma MarkerCopied(s: string, words: seq<string>, i: int, e: int, m: string, t: string)
    requires WellFormedWords(words) && m in words && 0 <= i <= |s| && e == i + |m|
    requires t == RemoveFrom(s, words, i) && FitsAfter(t, 0, m)
    ensures WellFormedWord(m) && e <= |s| && s[i..e] == m[..|m|] && s[i..e] == m
    ensures |t| >= |m| && t[|m|..] == RemoveFrom(s, words, e) && (|t| == |m| || !IsWordChar(t[|m|]))
    ensures FirstMatch(s, i, words).None?
  {
    assert WellFormedWord(m);
    FitsAfterStart(t, m);
    PrefixBase(s, words, i, i + 1, m, t);
    OutputPrefixFromInput(s, words, i, m, |m|, e, t);
    assert m[..|m|] == m;
  }

  /**
   * A word copied whole from `s` at `i` to the head of the output `t`, and
   * followed there by a non-word character or nothing, ends at a boundary of `s`.
   */
  lemma MarkerEndIsBoundary(s: string, words: seq<string>, i: int, e: int, m: string, t: string)
    requires WellFormedWords(words) && WellFormedWord(m)
    requires 0 <= i && e == i + |m| && e <= |s| && s[i..e] == m[..|m|]
    requires |t| >= |m| && t[|m|..] == RemoveFrom(s, words, e) && (|t| == |m| || !IsWordChar(t[|m|]))
    ensures IsBoundary(s, e)
  {
    assert |t| > |m| ==> t[|m|..][0] == t[|m|];
    WordEndsWithWordChar(s, i, m);
    BoundaryAfterWordChar(s, words, e);
  }

  lemma FitsAfterIntro(s: string, p: int, e: int, w: string)
    requires 0 <= p && e == p + |w| && e <= |s| && s[p..e] == w && IsBoundary(s, e)
    ensures FitsAfter(s, p, w)
  {
  }

  /**
   * If the output from scan position `i` starts with a word followed by `\b`,
   * the input character before `i` is a word character (which is why the
   * scan did not remove it).
   */
  lemma OutputMarkerWasBlocked(s: string, words: seq<string>, i: int, m: string)
    requires WellFormedWords(words) && m in words && 0 <= i <= |s|
    ensures FitsAfter(RemoveFrom(s, words, i), 0, m) ==> i > 0 && IsWordChar(s[i - 1])
  {
    var t := RemoveFrom(s, words, i);
    if FitsAfter(t, 0, m) {
      OutputMarkerInInput(s, words, i, m, t);
      assert !MatchesAt(s, i, m);
      assert s[i] == s[i..i + |m|][0];
    }
  }

  lemma ConsShift(c: char, u: string, p: int, w: string)
    requires 0 <= p <= |u| && |w| > 0
    ensures FitsAfter([c] + u, p + 1, w) <==> FitsAfter(u, p, w)
    ensures p >= 1 ==> (IsBoundary([c] + u, p + 1) <==> IsBoundary(u, p))
  {
    var t := [c] + u;
    if p + |w| <= |u| {
      assert t[p + 1..p + 1 + |w|] == u[p..p + |w|];
    }
  }

  /** No word of `words` occurs between two boundaries, except possibly at the very start. */
  predicate InnerClean(t: string, words: seq<string>) {
    forall p, w :: 1 <= p <= |t| && w in words ==> !MatchesAt(t, p, w)
  }

  /** Putting a character in front keeps a string clean inside when the character would block a word at the old start. */
  lemma ConsInnerClean(c: char, u: string, words: seq<string>)
    requires WellFormedWords(words) && InnerClean(u, words)
    requires forall w :: w in words && FitsAfter(u, 0, w) ==> IsWordChar(c)
    ensures InnerClean([c] + u, words)
  {
    var t := [c] + u;
    forall p, w | 1 <= p <= |t| && w in words ensures !MatchesAt(t, p, w) {
      ConsShift(c, u, p - 1, w);
      if p == 1 {
        if FitsAfter(u, 0, w) {
          assert u[0] == u[0..|w|][0] == w[0];
          assert t[0] == c && t[1] == u[0];
          assert !IsBoundary(t, 1);
        }
      } else {
        assert !MatchesAt(u, p - 1, w);
      }
    }
  }

  /** The output of the scan from `i` holds no removable word except possibly at its very start. */
  lemma {:induction false} NoInnerMatchLeft(s: string, words: seq<string>, i: int)
    requires WellFormedWords(words) && 0 <= i <= |s|
    ensures InnerClean(RemoveFrom(s, words, i), words)
    decreases |s| - i
  {
    if i < |s| {
      match FirstMatch(s, i, words)
      case Some(w) =>
        NoInnerMatchLeft(s, words, i + |w|);
        SkippedInnerClean(s, words, i, w, i + |w|);
      case None =>
        NoInnerMatchLeft(s, words, i + 1);
        KeptInnerClean(s, words, i);
    }
  }

  /** Where the scan removes a word, the output is the output from behind it. */
  lemma SkippedInnerClean(s: string, words: seq<string>, i: int, w: string, e: int)
    requires NonEmptyWords(words) && 0 <= i < |s| && FirstMatch(s, i, words) == Some(w) && e == i + |w|
    requires e <= |s| && InnerClean(RemoveFrom(s, words, e), words)
    ensures InnerClean(RemoveFrom(s, words, i), words)
  {
    WordSkipped(s, words, i, w, e);
  }

  /** Where the scan copies a character, the output stays clean inside. */
  lemma KeptInnerClean(s: string, words: seq<string>, i: int)
    requires WellFormedWords(words) && 0 <= i < |s| && FirstMatch(s, i, words).None?
    requires InnerClean(RemoveFrom(s, words, i + 1), words)
    ensures InnerClean(RemoveFrom(s, words, i), words)
  {
    var u := RemoveFrom(s, words, i + 1);
    KeptStep(s, words, i, i + 1);
    forall w | w in words ensures FitsAfter(u, 0, w) ==> IsWordChar(s[i]) {
      OutputMarkerWasBlocked(s, words, i + 1, w);
    }
    ConsInnerClean(s[i], u, words);
  }

  /** After the global replacement no word is left between two boundaries. */
  lemma RemoveWordsIsClean(s: string, words: seq<string>)
    requires WellFormedWords(words)
    ensures Clean(RemoveWords(s, words), words)
  {
    var t := RemoveWords(s, words);
    assert t == RemoveFrom(s, words, 0);
    NoInnerMatchLeft(s, words, 0);
    assert InnerClean(t, words);
    forall p, w | 0 <= p <= |t| && w in words ensures !MatchesAt(t, p, w) {
      if p == 0 {
        OutputMarkerWasBlocked(s, words, 0, w);
      }
    }
  }

  lemma SliceBoundary(s: string, a: int, b: int, p: int)
    requires 0 <= a <= b <= |s| && 0 <= p <= b - a
    requires a > 0 ==> !IsWordChar(s[a - 1])
    requires b < |s| ==> !IsWordChar(s[b])
    ensures IsBoundary(s[a..b], p) ==> IsBoundary(s, a + p)
  {
    var r := s[a..b];
    if p > 0 { assert r[p - 1] == s[a + p - 1]; }
    if p < |r| { assert r[p] == s[a + p]; }
  }

  lemma SliceMatch(s: string, a: int, b: int, p: int, w: string)
    requires 0 <= a <= b <= |s| && 0 <= p <= b - a
    requires a > 0 ==> !IsWordChar(s[a - 1])
    requires b < |s| ==> !IsWordChar(s[b])
    ensures MatchesAt(s[a..b], p, w) ==> MatchesAt(s, a + p, w)
  {
    var r := s[a..b];
    SliceBoundary(s, a, b, p);
    if p + |w| <= |r| {
      SliceOfSlice(s, a, b, p, p + |w|);
      SliceBoundary(s, a, b, p + |w|);
    }
  }

  /** Cutting spaces off both ends does not create a match. */
  lemma TrimKeepsClean(s: string, words: seq<string>)
    requires Clean(s, words)
    ensures Clean(Trim(s), words)
  {
    var r := Trim(s);
    var a := LeadingSpaces(s);
    var b := a + |r|;
    assert r == s[a..b];
    assert a > 0 ==> !IsWordChar(s[a - 1]) by {
      if a > 0 { SpaceIsNotWordChar(s[a - 1]); }
    }
    assert b < |s| ==> !IsWordChar(s[b]) by {
      if b < |s| { SpaceIsNotWordChar(s[b]); }
    }
    forall p, w | 0 <= p <= |r| && w in words ensures !MatchesAt(r, p, w) {
      SliceMatch(s, a, b, p, w);
    }
  }

  /** `s.replace(/\b(w1|w2|...)\b/g, "").trim()`: how a class string loses its markers. */
  function StripWords(s: string, words: seq<string>): (r: string)
    requires NonEmptyWords(words)
    ensures |r| <= |s|
    ensures Trimmed(r)
  {
    Trim(RemoveWords(s, words))
  }

  /** A slice holds no character more often than the whole sequence. */
  lemma SliceInside(t: string, i: int, j: int)
    requires 0 <= i <= j <= |t|
    ensures multiset(t[i..j]) <= multiset(t)
  {
    assert t == t[..i] + t[i..j] + t[j..];
  }

  /** Joining two parts each drawn from its own source draws from the joined sources. */
  lemma JoinInside(c: string, d: string, a: string, b: string)
    requires multiset(c) <= multiset(a) && multiset(d) <= multiset(b)
    ensures multiset(c + d) <= multiset(a + b)
  {
  }

  /** What one step of the scan copies comes from the text it steps over. */
  lemma CopiedInside(s: string, words: seq<string>, p: int)
    requires NonEmptyWords(words) && 0 <= p < |s|
    ensures multiset(Copied(s, words, p)) <= multiset(s[p..Advance(s, words, p)])
  {
    if FirstMatch(s, p, words).None? {
      assert s[p..p + 1] == [s[p]];
    }
  }

  /** The replacement only deletes: every character it outputs comes from the rest of the input. */
  lemma {:induction false} RemoveFromDeletes(s: string, words: seq<string>, p: int)
    requires NonEmptyWords(words) && 0 <= p <= |s|
    ensures multiset(RemoveFrom(s, words, p)) <= multiset(s[p..])
    decreases |s| - p
  {
    if p < |s| {
      var next := Advance(s, words, p);
      RemoveStep(s, words, p);
      RemoveFromDeletes(s, words, next);
      CopiedInside(s, words, p);
      assert s[p..] == s[p..next] + s[next..];
      JoinInside(Copied(s, words, p), RemoveFrom(s, words, next), s[p..next], s[next..]);
    }
  }

  /** Removing the markers and trimming only deletes characters of the class. */
  lemma StripWordsDeletes(s: string, words: seq<string>)
    requires NonEmptyWords(words)
    ensures multiset(StripWords(s, words)) <= multiset(s)
  {
    var t := RemoveWords(s, words);
    RemoveFromDeletes(s, words, 0);
    assert s[0..] == s;
    TrimInside(t);
  }

  /** Trimming only deletes characters. */
  lemma TrimInside(t: string)
    ensures multiset(Trim(t)) <= multiset(t)
  {
    var r := Trim(t);
    var a := LeadingSpaces(t);
    SliceInside(t, a, a + |r|);
  }

  /** Stripping the markers a second time changes nothing. */
  lemma StripWordsIdempotent(s: string, words: seq<string>)
    requires WellFormedWords(words)
    ensures StripWords(StripWords(s, words), words) == StripWords(s, words)
  {
    var once := StripWords(s, words);
    RemoveWordsIsClean(s, words);
    TrimKeepsClean(RemoveWords(s, words), words);
    RemoveWordsOfClean(once, words);
    TrimIdempotent(RemoveWords(s, words));
  }

  /** Text holding none of the words between boundaries is only trimmed. */
  lemma StripWordsOfClean(s: string, words: seq<string>)
    requires NonEmptyWords(words) && Clean(s, words)
    ensures StripWords(s, words) == Trim(s)
  {
    RemoveWordsOfClean(s, words);
  }

  /** Stripping leaves no word between boundaries and no white space at either end. */
  lemma StripWordsIsClean(s: string, words: seq<string>)
    requires WellFormedWords(words)
    ensures var r := StripWords(s, words);
      Clean(r, words) && Trimmed(r)
  {
    RemoveWordsIsClean(s, words);
    TrimKeepsClean(RemoveWords(s, words), words);
  }

  /** No white space at either end: what `trim()` leaves. */
  predicate Trimmed(s: string) {
    |s| > 0 ==> !IsSpace(s[0]) && !IsSpace(s[|s| - 1])
  }

  predicate AllSpaces(s: string) {
    forall i :: 0 <= i < |s| ==> IsSpace(s[i])
  }

  /** White space before a non-space character is exactly the leading white space. */
  lemma LeadingOfPadded(before: string, rest: string)
    requires AllSpaces(before) && |rest| > 0 && !IsSpace(rest[0])
    ensures LeadingSpaces(before + rest) == |before|
  {
    var s := before + rest;
    assert s[|before|] == rest[0];
    assert forall i :: 0 <= i < |before| ==> s[i] == before[i];
  }

  /** Trimming white space around trimmed text gives that text. */
  lemma TrimPadded(before: string, x: string, after: string)
    requires AllSpaces(before) && Trimmed(x) && AllSpaces(after)
    ensures Trim(before + x + after) == x
  {
    var t := x + after;
    var s := before + t;
    assert before + x + after == s;
    if |x| > 0 {
      LeadingOfPadded(before, t);
      assert s[|before|..] == t;
      TrimOfSuffix(s, |before|, t);
      PrefixTrimmed(t, x, after, Trim(s));
    }
  }

  /** Once the leading white space is known, the trimmed text is a prefix of the rest followed by white space only. */
  lemma TrimOfSuffix(s: string, a: int, t: string)
    requires 0 <= a <= |s| && LeadingSpaces(s) == a && s[a..] == t
    ensures var r := Trim(s);
      |r| <= |t| && r == t[..|r|] && Trimmed(r) && forall j :: |r| <= j < |t| ==> IsSpace(t[j])
  {
    var r := Trim(s);
    assert r == s[a..a + |r|];
    assert forall j :: |r| <= j < |t| ==> t[j] == s[a + j];
  }

  /** The only trimmed prefix of trimmed text followed by white space that leaves only white space is that text. */
  lemma PrefixTrimmed(t: string, x: string, after: string, r: string)
    requires t == x + after && AllSpaces(after) && Trimmed(x) && |x| > 0
    requires |r| <= |t| && r == t[..|r|] && Trimmed(r) && forall j :: |r| <= j < |t| ==> IsSpace(t[j])
    ensures r == x
  {
    assert !IsSpace(t[|x| - 1]);
    assert forall j :: |x| <= j < |t| ==> t[j] == after[j - |x|];
    assert |r| > 0 ==> r[|r| - 1] == t[|r| - 1];
    assert t[..|x|] == x;
  }

  /** Trimming trailing white space after trimmed text. */
  lemma TrimTrailing(x: string, after: string)
    requires Trimmed(x) && AllSpaces(after)
    ensures Trim(x + after) == x
  {
    TrimPadded("", x, after);
    assert "" + x == x;
  }

  /** Trimming leading white space before trimmed text. */
  lemma TrimLeading(before: string, x: string)
    requires AllSpaces(before) && Trimmed(x)
    ensures Trim(before + x) == x
  {
    TrimPadded(before, x, "");
    assert before + x + "" == before + x;
  }

  /** The words start with pairwise different characters, so at most one of them matches anywhere. */
  predicate DistinctHeads(words: seq<string>)
    requires NonEmptyWords(words)
  {
    forall i, j :: 0 <= i < j < |words| ==> words[i][0] != words[j][0]
  }

  /** No word holds a space. */
  predicate SpaceFree(words: seq<string>) {
    forall w :: w in words ==> ' ' !in w
  }

  /** Words fit for splitting text at spaces: well formed, distinct heads, no spaces. */
  predicate Separable(words: seq<string>) {
    WellFormedWords(words) && DistinctHeads(words) && SpaceFree(words)
  }

  /** Where a word matches and the words have distinct heads, the alternation matches that word. */
  lemma FirstMatchUnique(s: string, p: int, words: seq<string>, w: string)
    requires NonEmptyWords(words) && DistinctHeads(words) && w in words
    requires 0 <= p <= |s| && MatchesAt(s, p, w)
    ensures FirstMatch(s, p, words) == Some(w)
  {
    var r := FirstMatch(s, p, words);
    var v := r.value;
    assert v[0] == s[p] == w[0] by {
      assert s[p..p + |v|][0] == v[0];
      assert s[p..p + |w|][0] == w[0];
    }
    var i :| 0 <= i < |words| && words[i] == v;
    var j :| 0 <= j < |words| && words[j] == w;
    assert i == j;
  }

  /** No word starts at a character that is not a word character. */
  lemma NoMatchAtNonWordChar(s: string, p: int, words: seq<string>)
    requires WellFormedWords(words) && 0 <= p < |s| && !IsWordChar(s[p])
    ensures FirstMatch(s, p, words).None?
  {
    forall w | w in words ensures !MatchesAt(s, p, w) {
      assert p + |w| <= |s| ==> s[p] == s[p..p + |w|][0];
    }
  }

  /*
   * The shift lemmas below compare a position `p` of `s` with the position
   * `d == p - q` of the suffix `t == s[q..]`; both positions are parameters,
   * so that their contracts relate the two without arithmetic on either.
   */

  /** Behind a non-word character at `q - 1`, boundaries in `s` are those of `s[q..]`. */
  lemma BoundaryShift(s: string, t: string, q: int, x: int, y: int)
    requires 0 < q <= x <= |s| && t == s[q..] && y == x - q && !IsWordChar(s[q - 1])
    ensures IsBoundary(s, x) == IsBoundary(t, y)
  {
    if x < |s| {
      assert t[y] == s[x];
    }
    if x > q {
      assert t[y - 1] == s[x - 1];
    }
  }

  lemma MatchShift(s: string, t: string, q: int, p: int, d: int, w: string)
    requires 0 < q <= p <= |s| && t == s[q..] && d == p - q && !IsWordChar(s[q - 1])
    ensures MatchesAt(s, p, w) == MatchesAt(t, d, w)
  {
    BoundaryShift(s, t, q, p, d);
    if p + |w| <= |s| {
      BoundaryShift(s, t, q, p + |w|, d + |w|);
      assert t[d..d + |w|] == s[p..p + |w|];
    }
  }

  lemma {:induction false} FirstMatchShift(s: string, t: string, q: int, p: int, d: int, words: seq<string>)
    requires 0 < q <= p <= |s| && t == s[q..] && d == p - q && !IsWordChar(s[q - 1])
    ensures FirstMatch(s, p, words) == FirstMatch(t, d, words)
  {
    if |words| > 0 {
      MatchShift(s, t, q, p, d, words[0]);
      FirstMatchShift(s, t, q, p, d, words[1..]);
    }
  }

  /** Where the scan goes next from `p`. */
  function Advance(s: string, words: seq<string>, p: int): (n: int)
    requires NonEmptyWords(words) && 0 <= p < |s|
    ensures p < n <= |s|
  {
    match FirstMatch(s, p, words)
    case Some(w) => p + |w|
    case None => p + 1
  }

  /** What the scan copies to the output at `p`: nothing where a word is removed. */
  function Copied(s: string, words: seq<string>, p: int): string
    requires NonEmptyWords(words) && 0 <= p < |s|
  {
    match FirstMatch(s, p, words)
    case Some(_) => ""
    case None => [s[p]]
  }

  /** One step of the scan. */
  lemma RemoveStep(s: string, words: seq<string>, p: int)
    requires NonEmptyWords(words) && 0 <= p < |s|
    ensures RemoveFrom(s, words, p) == Copied(s, words, p) + RemoveFrom(s, words, Advance(s, words, p))
  {
  }

  /** Behind a non-word character one step of the scan is the same on the suffix. */
  lemma StepShift(s: string, t: string, words: seq<string>, q: int, p: int, d: int, next: int, nextD: int)
    requires NonEmptyWords(words) && 0 < q <= p < |s| && t == s[q..] && d == p - q && !IsWordChar(s[q - 1])
    requires next == Advance(s, words, p) && nextD == next - q
    ensures Advance(t, words, d) == nextD
    ensures Copied(t, words, d) == Copied(s, words, p)
  {
    FirstMatchShift(s, t, q, p, d, words);
    assert t[d] == s[p];
  }

  /** Behind a non-word character the removal only looks ahead: from there on it works on the suffix alone. */
  lemma {:induction false} RemoveShift(s: string, t: string, words: seq<string>, q: int, p: int, d: int)
    requires NonEmptyWords(words) && 0 < q <= p <= |s| && t == s[q..] && d == p - q && !IsWordChar(s[q - 1])
    ensures RemoveFrom(s, words, p) == RemoveFrom(t, words, d)
    decreases |s| - p
  {
    if p < |s| {
      var next := Advance(s, words, p);
      var nextD := next - q;
      RemoveShift(s, t, words, q, next, nextD);
      RemoveStep(s, words, p);
      ShiftedStep(s, t, words, q, p, d, next, nextD);
    }
  }

  /** One step of the scan on the suffix, told in terms of `s`. */
  lemma ShiftedStep(s: string, t: string, words: seq<string>, q: int, p: int, d: int, next: int, nextD: int)
    requires NonEmptyWords(words) && 0 < q <= p < |s| && t == s[q..] && d == p - q && !IsWordChar(s[q - 1])
    requires next == Advance(s, words, p) && nextD == next - q
    ensures RemoveFrom(t, words, d) == Copied(s, words, p) + RemoveFrom(t, words, nextD)
  {
    RemoveStep(t, words, d);
    StepShift(s, t, words, q, p, d, next, nextD);
  }

  /** A word without the separator's character cannot reach across it. */
  lemma NoFitAcross(c: string, r: string, p: int, w: string)
    requires |r| > 0 && r[0] !in w && 0 <= p <= |c|
    ensures FitsAfter(c + r, p, w) ==> p + |w| <= |c|
  {
    var s := c + r;
    var k := |c| - p;
    assert p + |w| > |c| && p + |w| <= |s| ==>
      s[p..p + |w|][k] == r[0] && (|w| > k ==> w[k] in w);
  }

  /** A word matched in `c + r` before `r`, where `r` starts with a non-word character the word lacks, matches in `c`. */
  lemma PrefixMatch(c: string, r: string, p: int, w: string)
    requires |r| > 0 && !IsWordChar(r[0]) && r[0] !in w && 0 <= p < |c|
    ensures MatchesAt(c + r, p, w) ==> MatchesAt(c, p, w)
  {
    var s := c + r;
    NoFitAcross(c, r, p, w);
    if MatchesAt(s, p, w) {
      assert s[p..p + |w|] == c[p..p + |w|];
      assert s[p] == c[p];
      if p > 0 {
        assert s[p - 1] == c[p - 1];
      }
      var e := p + |w|;
      if e < |c| {
        assert s[e] == c[e];
      }
      if e > 0 {
        assert s[e - 1] == c[e - 1];
      }
    }
  }

  /** Where no word matches, the scan copies a whole stretch of the input. */
  lemma {:induction false} KeptRun(s: string, words: seq<string>, p: int, n: int)
    requires NonEmptyWords(words) && 0 <= p <= n <= |s|
    requires forall i :: p <= i < n ==> FirstMatch(s, i, words).None?
    ensures RemoveFrom(s, words, p) == s[p..n] + RemoveFrom(s, words, n)
    decreases n - p
  {
    if p < n {
      var rest := RemoveFrom(s, words, n);
      KeptStep(s, words, p, p + 1);
      KeptRun(s, words, p + 1, n);
      assert s[p..n] == [s[p]] + s[p + 1..n];
      ConcatAssoc([s[p]], s[p + 1..n], rest);
    }
  }

  /** In text free of the words, followed by a separator, no word matches. */
  lemma CleanBeforeSeparator(c: string, r: string, words: seq<string>, p: int)
    requires NonEmptyWords(words) && Clean(c, words) && 0 <= p < |c|
    requires |r| > 0 && !IsWordChar(r[0]) && forall w :: w in words ==> r[0] !in w
    ensures FirstMatch(c + r, p, words).None?
  {
    forall w | w in words ensures !MatchesAt(c + r, p, w) {
      PrefixMatch(c, r, p, w);
    }
  }

  /** Text free of the words, then a space: both pass through, and the removal goes on after them. */
  lemma PlainThenSpace(c: string, r: string, words: seq<string>)
    requires Separable(words) && Clean(c, words)
    ensures RemoveWords(c + " " + r, words) == c + " " + RemoveWords(r, words)
  {
    var s := c + " " + r;
    var sr := " " + r;
    var e := |c|;
    assert s == c + sr && s[e] == ' ' && s[e + 1..] == r;
    CleanPrefixKept(s, c, sr, words, e);
    SpaceThenRest(s, r, words, e, e + 1);
    ConcatAssoc(c, " ", RemoveWords(r, words));
  }

  /** Text free of the words, followed by a space, is copied by the scan unchanged. */
  lemma CleanPrefixKept(s: string, c: string, sr: string, words: seq<string>, e: int)
    requires Separable(words) && Clean(c, words) && |sr| > 0 && sr[0] == ' ' && s == c + sr && e == |c|
    ensures RemoveFrom(s, words, 0) == c + RemoveFrom(s, words, e)
  {
    SpaceIsNotWordChar(sr[0]);
    assert forall w :: w in words ==> sr[0] !in w;
    forall i | 0 <= i < |c| ensures FirstMatch(s, i, words).None? {
      CleanBeforeSeparator(c, sr, words, i);
    }
    KeptRun(s, words, 0, |c|);
    assert s[0..|c|] == c;
  }

  /** A space at `e` stays, and what follows it is scanned as if it stood alone. */
  lemma SpaceThenRest(s: string, r: string, words: seq<string>, e: int, next: int)
    requires WellFormedWords(words) && 0 <= e && next == e + 1 && next <= |s|
    requires s[e] == ' ' && s[next..] == r
    ensures RemoveFrom(s, words, e) == " " + RemoveWords(r, words)
  {
    SpaceIsNotWordChar(s[e]);
    NoMatchAtNonWordChar(s, e, words);
    KeptStep(s, words, e, next);
    RemoveShift(s, r, words, next, next, 0);
  }

  /** A word, then a space: the word goes, the space stays, and the removal goes on after them. */
  lemma WordThenSpace(w: string, r: string, words: seq<string>)
    requires Separable(words) && w in words
    ensures RemoveWords(w + " " + r, words) == " " + RemoveWords(r, words)
  {
    var s := w + " " + r;
    LeadingWordSkipped(s, w, words, |w|);
    assert s[|w|] == ' ' && s[|w| + 1..] == r;
    SpaceThenRest(s, r, words, |w|, |w| + 1);
  }

  /** A word at the very start, followed by a space, is skipped by the scan. */
  lemma LeadingWordSkipped(s: string, w: string, words: seq<string>, e: int)
    requires Separable(words) && w in words && e == |w| && e < |s| && s[..e] == w && s[e] == ' '
    ensures RemoveFrom(s, words, 0) == RemoveFrom(s, words, e)
  {
    SpaceIsNotWordChar(s[e]);
    assert s[0] == w[0] && s[e - 1] == w[e - 1];
    assert MatchesAt(s, 0, w);
    FirstMatchUnique(s, 0, words, w);
  }

  /** A word alone is removed entirely. */
  lemma WordAlone(w: string, words: seq<string>)
    requires Separable(words) && w in words
    ensures RemoveWords(w, words) == ""
  {
    assert w[0..|w|] == w;
    assert MatchesAt(w, 0, w);
    FirstMatchUnique(w, 0, words, w);
    assert RemoveFrom(w, words, |w|) == "";
  }
}
