/** The part of `java.util.regex` the interpreters rely on: the character
    classes of their fixed head expressions, the longest run a star matches,
    and an abstract engine for the expressions the definitions carry. */
module Regex {
  import opened Outcomes
  import opened JavaText

  /** `\s` of `java.util.regex`. */
  predicate IsRegexSpace(c: char) {
    c == ' ' || c == '\t' || c == '\n' || c == '\U{000B}' || c == '\U{000C}' || c == '\r'
  }

  /** The characters `.` does not match without `DOTALL`. */
  predicate IsLineTerminator(c: char) {
    c == '\n' || c == '\r' || c == '\U{0085}' || c == '\U{2028}' || c == '\U{2029}'
  }

  /** `[a-zA-Z0-9_]`. */
  predicate IsWordChar(c: char) {
    ('a' <= c <= 'z') || ('A' <= c <= 'Z') || ('0' <= c <= '9') || c == '_'
  }

  /** `[a-zA-Z0-9\s]`. */
  predicate IsNameChar(c: char) {
    ('a' <= c <= 'z') || ('A' <= c <= 'Z') || ('0' <= c <= '9') || IsRegexSpace(c)
  }

  /** The character classes the two head expressions repeat: `\s`,
      `[a-zA-Z0-9_]` and `[a-zA-Z0-9\s]`. */
  datatype CharClass = Blanks | WordChars | NameChars

  predicate InClass(cls: CharClass, c: char) {
    match cls
    case Blanks => IsRegexSpace(c)
    case WordChars => IsWordChar(c)
    case NameChars => IsNameChar(c)
  }

  /** The end of the longest run of characters of class `cls` from `i`: what
      a possessive or greedy star matches. */
  function Span(s: string, i: nat, cls: CharClass): (j: nat)
    requires i <= |s|
    ensures i <= j <= |s|
    decreases |s| - i
  {
    if i == |s| || !InClass(cls, s[i]) then i else Span(s, i + 1, cls)
  }

  /** The run `Span` measures is of class `cls` throughout, and the character
      after it, if any, is not. */
  lemma {:induction false} SpanRun(s: string, i: nat, cls: CharClass)
    requires i <= |s|
    ensures forall k :: i <= k < Span(s, i, cls) ==> InClass(cls, s[k])
    ensures Span(s, i, cls) == |s| || !InClass(cls, s[Span(s, i, cls)])
    decreases |s| - i
  {
    if i < |s| && InClass(cls, s[i]) {
      SpanRun(s, i + 1, cls);
    }
  }

  /** A run of `n` characters of class `cls` from `i`, not followed by
      another, is exactly what `Span` measures. */
  lemma {:induction false} SpanIs(s: string, i: nat, n: nat, cls: CharClass)
    requires i + n <= |s|
    requires forall k :: i <= k < i + n ==> InClass(cls, s[k])
    requires i + n == |s| || !InClass(cls, s[i + n])
    ensures Span(s, i, cls) == i + n
    decreases n
  {
    if n > 0 {
      SpanIs(s, i + 1, n - 1, cls);
    }
  }

  /** Where the parts of a line `lead + [p] + gap + name + rest` sit. */
  lemma LineShape(s: string, lead: string, p: char, gap: string, name: string, rest: string)
    requires s == lead + [p] + gap + name + rest
    ensures |s| == |lead| + 1 + |gap| + |name| + |rest|
    ensures forall t :: 0 <= t < |lead| ==> s[t] == lead[t]
    ensures s[|lead|] == p
    ensures forall t :: |lead| < t < |lead| + 1 + |gap| ==> s[t] == gap[t - |lead| - 1]
    ensures forall t :: |lead| + 1 + |gap| <= t < |lead| + 1 + |gap| + |name| ==> s[t] == name[t - |lead| - 1 - |gap|]
    ensures forall t :: |lead| + 1 + |gap| + |name| <= t < |s| ==> s[t] == rest[t - |lead| - 1 - |gap| - |name|]
    ensures s[..|lead| + 1 + |gap| + |name|] == lead + [p] + gap + name
    ensures s[|lead|..|lead| + 1 + |gap| + |name|] == [p] + gap + name
    ensures s[|lead|..|lead| + 1] == [p]
    ensures s[|lead| + 1 + |gap|..|lead| + 1 + |gap| + |name|] == name
  {
  }

  // ---------------------------------------------------------------------------
  // Expressions supplied by the definitions.

  /** One `find`: `groups[0]` is group 1, and so on; `None` is a group that did
      not take part in the match. */
  datatype Match = Match(whole: string, groups: seq<Option<string>>)

  datatype MatchResult = NoMatch | Found(m: Match) | BadPattern

  /** `Pattern.compile(expression).matcher(subject).find()`. */
  type Engine = (string, string) -> MatchResult

  /** An engine whose matches lie inside the subject and whose group 1 lies
      inside the match, as `java.util.regex` guarantees for expressions
      without look-around. */
  ghost predicate WellBehaved(e: Engine) {
    forall x, s :: e(x, s).Found? ==>
      (exists i :: OccursAt(e(x, s).m.whole, s, i))
      && (|e(x, s).m.groups| > 0 && e(x, s).m.groups[0].Some? ==>
            exists i :: OccursAt(e(x, s).m.groups[0].value, e(x, s).m.whole, i))
  }
}
