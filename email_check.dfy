/** The address check that gates the start of a quiz: the regular expression
    `^[^\s@]+@[^\s@]+\.[^\s@]+$`, given once as the concatenation the pattern
    describes and once as the four conditions a program would test. */
module EmailCheck {

  /** The characters matched by JavaScript's `\s` class. */
  predicate IsWhitespace(c: char) {
    || c == ' ' || c == '\t' || c == '\n' || c == '\r'
    || c == '\U{000B}' || c == '\U{000C}' || c == '\U{00A0}' || c == '\U{1680}'
    || ('\U{2000}' <= c <= '\U{200A}')
    || c == '\U{2028}' || c == '\U{2029}' || c == '\U{202F}' || c == '\U{205F}'
    || c == '\U{3000}' || c == '\U{FEFF}'
  }

  /** `[^\s@]+`: a non-empty run of characters that are neither whitespace nor '@'. */
  predicate IsSegment(t: string) {
    |t| > 0 && forall k | 0 <= k < |t| :: t[k] != '@' && !IsWhitespace(t[k])
  }

  /** The whole string is local-part '@' domain '.' suffix, each part a segment.
      The domain may itself contain dots: any dot may serve as the separator. */
  ghost predicate MatchesEmailPattern(s: string) {
    exists i, j | 0 < i < j < |s| ::
      s[i] == '@' && s[j] == '.' && IsSegment(s[..i]) && IsSegment(s[i + 1..j]) && IsSegment(s[j + 1..])
  }

  function Count(s: string, c: char): nat {
    if s == [] then 0 else (if s[0] == c then 1 else 0) + Count(s[1..], c)
  }

  /** Index of the first `c` in `s`, or `|s|` when there is none. */
  function IndexOf(s: string, c: char): (i: nat)
    ensures i <= |s|
    ensures i < |s| ==> s[i] == c
    ensures forall k | 0 <= k < i :: s[k] != c
  {
    if s == [] then 0 else if s[0] == c then 0 else 1 + IndexOf(s[1..], c)
  }

  /** The string has a '.' that is neither its first nor its last character. */
  predicate HasInnerDot(t: string) {
    exists j | 0 < j < |t| - 1 :: t[j] == '.'
  }

  /** The test applied by `startQuiz`: no whitespace, exactly one '@', something
      before it, and after it a dot with something on both sides. */
  predicate IsValidEmail(s: string) {
    && (forall k | 0 <= k < |s| :: !IsWhitespace(s[k]))
    && Count(s, '@') == 1
    && var i := IndexOf(s, '@');
       0 < i < |s| && HasInnerDot(s[i + 1..])
  }

  lemma {:induction false} CountAbsent(s: string, c: char)
    requires forall k | 0 <= k < |s| :: s[k] != c
    ensures Count(s, c) == 0
  {
    if s != [] {
      CountAbsent(s[1..], c);
    }
  }

  lemma {:induction false} CountPresent(s: string, c: char)
    requires Count(s, c) == 0
    ensures forall k | 0 <= k < |s| :: s[k] != c
  {
    if s != [] {
      CountPresent(s[1..], c);
      assert forall k | 1 <= k < |s| :: s[k] == s[1..][k - 1];
    }
  }

  /** Counting splits at the first occurrence: one for it, plus those after it. */
  lemma {:induction false} CountFromFirst(s: string, c: char)
    requires IndexOf(s, c) < |s|
    ensures Count(s, c) == 1 + Count(s[IndexOf(s, c) + 1..], c)
  {
    if s[0] != c {
      CountFromFirst(s[1..], c);
      assert s[1..][IndexOf(s[1..], c) + 1..] == s[IndexOf(s, c) + 1..];
    }
  }

  /** Exactly one '@', no whitespace anywhere, and the parts around the '@'
      and the chosen dot are all segments: the two formulations agree. */
  lemma ValidEmailMatchesPattern(s: string)
    ensures IsValidEmail(s) <==> MatchesEmailPattern(s)
  {
    if IsValidEmail(s) {
      ValidImpliesPattern(s);
    }
    if MatchesEmailPattern(s) {
      PatternImpliesValid(s);
    }
  }

  lemma ValidImpliesPattern(s: string)
    requires IsValidEmail(s)
    ensures MatchesEmailPattern(s)
  {
    var i := IndexOf(s, '@');
    var tail := s[i + 1..];
    var j' :| 0 < j' < |tail| - 1 && tail[j'] == '.';
    var j := i + 1 + j';
    CountFromFirst(s, '@');
    CountPresent(tail, '@');
    assert forall k | i < k < |s| :: s[k] == tail[k - i - 1];
    assert s[j] == '.';
    assert IsSegment(s[..i]);
    assert IsSegment(s[i + 1..j]);
    assert IsSegment(s[j + 1..]);
  }

  /** Within a match, the '@' at the split is the only one and no character is whitespace. */
  lemma PatternCharacters(s: string, i: nat, j: nat)
    requires 0 < i < j < |s| && s[i] == '@' && s[j] == '.'
    requires IsSegment(s[..i]) && IsSegment(s[i + 1..j]) && IsSegment(s[j + 1..])
    ensures forall k | 0 <= k < |s| :: !IsWhitespace(s[k])
    ensures forall k | 0 <= k < |s| && k != i :: s[k] != '@'
  {
    var a, b, c := s[..i], s[i + 1..j], s[j + 1..];
    forall k | 0 <= k < |s|
      ensures !IsWhitespace(s[k]) && (k != i ==> s[k] != '@')
    {
      if k < i {
        assert s[k] == a[k];
      } else if i < k < j {
        assert s[k] == b[k - i - 1];
      } else if j < k {
        assert s[k] == c[k - j - 1];
      }
    }
  }

  lemma CountAbsentFrom(s: string, lo: nat, c: char)
    requires lo <= |s| && forall k | lo <= k < |s| :: s[k] != c
    ensures Count(s[lo..], c) == 0
  {
    var t := s[lo..];
    forall k | 0 <= k < |t|
      ensures t[k] != c
    {
      assert t[k] == s[lo + k];
    }
    CountAbsent(t, c);
  }

  /** The program's test holds of any string with no whitespace, a single
      '@' at `i`, and a '.' at `j` with something after the '@' before it and
      something after it. */
  lemma ValidFromParts(s: string, i: nat, j: nat)
    requires 0 < i && i + 1 < j < |s| - 1 && s[i] == '@' && s[j] == '.'
    requires forall k | 0 <= k < |s| :: !IsWhitespace(s[k])
    requires forall k | 0 <= k < |s| && k != i :: s[k] != '@'
    ensures IsValidEmail(s)
  {
    assert IndexOf(s, '@') == i;
    CountFromFirst(s, '@');
    CountAbsentFrom(s, i + 1, '@');
    var tail := s[i + 1..];
    assert tail[j - i - 1] == '.';
    assert HasInnerDot(tail);
  }

  lemma PatternImpliesValid(s: string)
    requires MatchesEmailPattern(s)
    ensures IsValidEmail(s)
  {
    var i, j :| 0 < i < j < |s| && s[i] == '@' && s[j] == '.'
      && IsSegment(s[..i]) && IsSegment(s[i + 1..j]) && IsSegment(s[j + 1..]);
    PatternCharacters(s, i, j);
    assert |s[i + 1..j]| > 0 && |s[j + 1..]| > 0;
    ValidFromParts(s, i, j);
  }
}
