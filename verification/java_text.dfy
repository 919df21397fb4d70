/** The handful of `java.lang.String` operations the command engine relies on,
    written out over `seq<char>`.  Case folding is ASCII only. */
module JavaText {
  import opened Outcomes

  /** `String.trim` removes every character whose code is at most U+0020. */
  predicate IsTrimmable(c: char) {
    c <= ' '
  }

  /** `s[i..j]` is what remains of `s` once the trimmable characters before `i`
      and from `j` on are stripped, and it neither starts nor ends with one. */
  ghost predicate TrimsTo(s: string, i: int, j: int) {
    0 <= i <= j <= |s|
    && (forall k :: 0 <= k < i ==> IsTrimmable(s[k]))
    && (forall k :: j <= k < |s| ==> IsTrimmable(s[k]))
    && (i < j ==> !IsTrimmable(s[i]) && !IsTrimmable(s[j - 1]))
  }

  /** Number of trimmable characters at the front of `s`. */
  function LeadingTrimmable(s: string): (n: nat)
    ensures n <= |s|
    ensures forall k :: 0 <= k < n ==> IsTrimmable(s[k])
    ensures n < |s| ==> !IsTrimmable(s[n])
  {
    if |s| == 0 || !IsTrimmable(s[0]) then 0 else 1 + LeadingTrimmable(s[1..])
  }

  /** Number of trimmable characters at the back of `s`. */
  function TrailingTrimmable(s: string): (n: nat)
    ensures n <= |s|
    ensures forall k :: |s| - n <= k < |s| ==> IsTrimmable(s[k])
    ensures n < |s| ==> !IsTrimmable(s[|s| - n - 1])
  {
    if |s| == 0 || !IsTrimmable(s[|s| - 1]) then 0 else 1 + TrailingTrimmable(s[..|s| - 1])
  }

  /** `String.trim`. */
  function Trim(s: string): (r: string)
    ensures |r| <= |s|
    ensures exists i, j :: TrimsTo(s, i, j) && r == s[i..j]
  {
    var i := LeadingTrimmable(s);
    if i == |s| then
      assert TrimsTo(s, |s|, |s|);
      ""
    else
      var j := |s| - TrailingTrimmable(s);
      assert TrimsTo(s, i, j);
      s[i..j]
  }

  /** A trimmed string neither starts nor ends with a trimmable character. */
  predicate IsTrimmed(s: string) {
    |s| == 0 || (!IsTrimmable(s[0]) && !IsTrimmable(s[|s| - 1]))
  }

  /** `Trim` yields a trimmed string, and trimming it again changes nothing. */
  lemma TrimIdempotent(s: string)
    ensures IsTrimmed(Trim(s))
    ensures Trim(Trim(s)) == Trim(s)
  {
    var r := Trim(s);
    var i, j :| TrimsTo(s, i, j) && r == s[i..j];
    assert IsTrimmed(r);
    if |r| > 0 {
      assert LeadingTrimmable(r) == 0;
      assert TrailingTrimmable(r) == 0;
    }
  }

  /** A string made only of trimmable characters trims to the empty string, and
      only such strings do. */
  lemma TrimEmptyIff(s: string)
    ensures |Trim(s)| == 0 <==> forall k :: 0 <= k < |s| ==> IsTrimmable(s[k])
  {
    var r := Trim(s);
    var i, j :| TrimsTo(s, i, j) && r == s[i..j];
    if |r| == 0 {
      forall k | 0 <= k < |s| ensures IsTrimmable(s[k]) {
        if k >= i {
          assert j <= k;
        }
      }
    }
  }

  /** Trimming characters around a trimmed, non-empty core leaves the core. */
  lemma TrimAround(lead: string, core: string, trail: string)
    requires forall k :: 0 <= k < |lead| ==> IsTrimmable(lead[k])
    requires forall k :: 0 <= k < |trail| ==> IsTrimmable(trail[k])
    requires |core| > 0 && IsTrimmed(core)
    ensures Trim(lead + core + trail) == core
  {
    var s := lead + core + trail;
    var r := Trim(s);
    var i, j :| TrimsTo(s, i, j) && r == s[i..j];
    var a, b := |lead|, |lead| + |core|;
    assert s[a] == core[0] && s[b - 1] == core[|core| - 1];
    assert i < j;
    assert i == a;
    assert j == b;
    assert s[a..b] == core;
  }

  /** A null-or-blank test written `value == null || value.trim().length() == 0`. */
  predicate IsBlank(value: Option<string>) {
    value.None? || |Trim(value.value)| == 0
  }

  /** `t` occurs in `s` starting at index `i`. */
  predicate OccursAt(t: string, s: string, i: int) {
    0 <= i && i + |t| <= |s| && s[i..i + |t|] == t
  }

  /** `s.replace(t, "")`: every non-overlapping occurrence of `t`, scanning from
      the left, is deleted; an empty `t` leaves `s` unchanged. */
  function RemoveAll(s: string, t: string): (r: string)
    ensures |r| <= |s|
    ensures |t| == 0 ==> r == s
    decreases |s|
  {
    if |t| == 0 || |s| < |t| then s
    else if s[..|t|] == t then RemoveAll(s[|t|..], t)
    else [s[0]] + RemoveAll(s[1..], t)
  }

  /** Removing an occurring, non-empty `t` shortens `s` by at least `|t|`. */
  lemma {:induction false} RemoveAllShrinks(s: string, t: string, i: int)
    requires |t| > 0 && OccursAt(t, s, i)
    ensures |RemoveAll(s, t)| <= |s| - |t|
    decreases |s|
  {
    if s[..|t|] == t {
    } else {
      assert i > 0;
      assert OccursAt(t, s[1..], i - 1) by {
        assert s[1..][i - 1..i - 1 + |t|] == s[i..i + |t|];
      }
      RemoveAllShrinks(s[1..], t, i - 1);
    }
  }

  /** If `t` does not occur in `s`, removing it changes nothing. */
  lemma {:induction false} RemoveAllAbsent(s: string, t: string)
    requires forall i :: 0 <= i <= |s| ==> !OccursAt(t, s, i)
    ensures RemoveAll(s, t) == s
    decreases |s|
  {
    if |t| == 0 || |s| < |t| {
    } else {
      assert !OccursAt(t, s, 0);
      assert s[..|t|] != t;
      forall i | 0 <= i <= |s[1..]| ensures !OccursAt(t, s[1..], i) {
        assert !OccursAt(t, s, i + 1);
        if i + |t| <= |s[1..]| {
          assert s[1..][i..i + |t|] == s[i + 1..i + 1 + |t|];
        }
      }
      RemoveAllAbsent(s[1..], t);
    }
  }

  /** Removing a non-empty string from itself leaves nothing. */
  lemma RemoveAllSelf(s: string)
    requires |s| > 0
    ensures RemoveAll(s, s) == ""
  {
    assert s[..|s|] == s;
    assert s[|s|..] == "";
  }

  /** Every character of `s` except `c`, in order. */
  function Without(s: string, c: char): (r: string)
    ensures c !in r
    ensures |r| <= |s|
  {
    if |s| == 0 then ""
    else if s[0] == c then Without(s[1..], c)
    else [s[0]] + Without(s[1..], c)
  }

  /** Removing a one-character string is dropping that character everywhere. */
  lemma {:induction false} RemoveCharIsWithout(s: string, c: char)
    ensures RemoveAll(s, [c]) == Without(s, c)
    decreases |s|
  {
    if |s| == 0 {
    } else {
      RemoveCharIsWithout(s[1..], c);
    }
  }

  /** ASCII upper-case letters fold to lower case; everything else is kept. */
  function FoldCase(c: char): char {
    if 'A' <= c <= 'Z' then (c as int + 32) as char else c
  }

  /** `String.equalsIgnoreCase`, with ASCII folding. */
  predicate EqualsIgnoreCase(a: string, b: string) {
    |a| == |b| && (|a| == 0 || (FoldCase(a[0]) == FoldCase(b[0]) && EqualsIgnoreCase(a[1..], b[1..])))
  }

  /** Position-wise statement of `EqualsIgnoreCase`. */
  lemma {:induction false} EqualsIgnoreCaseAt(a: string, b: string)
    ensures EqualsIgnoreCase(a, b) <==> |a| == |b| && forall k :: 0 <= k < |a| ==> FoldCase(a[k]) == FoldCase(b[k])
  {
    if |a| == |b| && |a| > 0 {
      EqualsIgnoreCaseAt(a[1..], b[1..]);
      if forall k :: 0 <= k < |a| ==> FoldCase(a[k]) == FoldCase(b[k]) {
        assert forall k :: 0 <= k < |a| - 1 ==> FoldCase(a[1..][k]) == FoldCase(b[1..][k]) by {
          forall k | 0 <= k < |a| - 1 ensures FoldCase(a[1..][k]) == FoldCase(b[1..][k]) {
            assert FoldCase(a[k + 1]) == FoldCase(b[k + 1]);
          }
        }
      }
      if EqualsIgnoreCase(a, b) {
        forall k | 0 <= k < |a| ensures FoldCase(a[k]) == FoldCase(b[k]) {
          if k > 0 {
            assert a[1..][k - 1] == a[k] && b[1..][k - 1] == b[k];
          }
        }
      }
    }
  }

  /** `EqualsIgnoreCase` is an equivalence relation. */
  lemma EqualsIgnoreCaseEquivalence(a: string, b: string, c: string)
    ensures EqualsIgnoreCase(a, a)
    ensures EqualsIgnoreCase(a, b) ==> EqualsIgnoreCase(b, a)
    ensures EqualsIgnoreCase(a, b) && EqualsIgnoreCase(b, c) ==> EqualsIgnoreCase(a, c)
  {
    EqualsIgnoreCaseAt(a, a);
    EqualsIgnoreCaseAt(a, b);
    EqualsIgnoreCaseAt(b, a);
    EqualsIgnoreCaseAt(b, c);
    EqualsIgnoreCaseAt(a, c);
  }

  /** `String.format("%1$-N s")`: `s` left-justified in a field of `width`
      characters, padded on the right with spaces. */
  function PadRight(s: string, width: nat): (r: string)
    ensures |r| == if |s| < width then width else |s|
    ensures r[..|s|] == s
    ensures forall k :: |s| <= k < |r| ==> r[k] == ' '
  {
    if |s| < width then s + seq(width - |s|, _ => ' ') else s
  }

  /** `String.format("%N s")`: `s` right-justified in a field of `width`
      characters, padded on the left with spaces. */
  function PadLeft(s: string, width: nat): (r: string)
    ensures |r| == if |s| < width then width else |s|
    ensures r[|r| - |s|..] == s
    ensures forall k :: 0 <= k < |r| - |s| ==> r[k] == ' '
  {
    if |s| < width then seq(width - |s|, _ => ' ') + s else s
  }

  /** `String.lastIndexOf(c)`, with -1 written as `None`. */
  function LastIndexOf(s: string, c: char): (r: Option<nat>)
    ensures r.Some? ==> r.value < |s| && s[r.value] == c && c !in s[r.value + 1..]
    ensures r.None? <==> c !in s
  {
    if |s| == 0 then None
    else if s[|s| - 1] == c then Some(|s| - 1)
    else
      var r := LastIndexOf(s[..|s| - 1], c);
      assert s == s[..|s| - 1] + [s[|s| - 1]];
      r
  }

  /** Java's rendering of a possibly-null string in a concatenation. */
  function Show(s: Option<string>): string {
    match s
    case Some(v) => v
    case None => "null"
  }
}
