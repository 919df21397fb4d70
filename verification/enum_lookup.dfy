/** The one shape shared by every `fromString` / `from` / `fromPrefix` of the
    repository's enums: reject a null or blank argument, then scan the constants
    in declaration order and return the first whose key equals the argument
    ignoring case; when none does, raise `InvalidArgumentException`. */
module EnumLookup {
  import opened Outcomes
  import opened JavaText

  /** The two ways the lookup raises `InvalidArgumentException`. */
  datatype LookupError = BlankArgument | NoSuchConstant

  /** `values[i]` is the first constant, in declaration order, whose key equals
      `text` ignoring case. */
  ghost predicate FirstMatchAt<T>(values: seq<T>, key: T -> string, text: string, i: int) {
    0 <= i < |values|
    && EqualsIgnoreCase(key(values[i]), text)
    && forall k :: 0 <= k < i ==> !EqualsIgnoreCase(key(values[k]), text)
  }

  /** Index of the first constant whose key equals `text` ignoring case. */
  function FirstMatch<T>(values: seq<T>, key: T -> string, text: string): (r: Option<nat>)
    ensures r.Some? ==> FirstMatchAt(values, key, text, r.value)
    ensures r.None? <==> forall k :: 0 <= k < |values| ==> !EqualsIgnoreCase(key(values[k]), text)
  {
    if |values| == 0 then None
    else if EqualsIgnoreCase(key(values[0]), text) then Some(0)
    else
      match FirstMatch(values[1..], key, text)
      case None => None
      case Some(i) => Some(i + 1)
  }

  /** The generic lookup. */
  function Lookup<T>(values: seq<T>, key: T -> string, arg: Option<string>): (r: Result<T, LookupError>)
    ensures r == Failure(BlankArgument) <==> IsBlank(arg)
    ensures r == Failure(NoSuchConstant) <==>
      !IsBlank(arg) && forall k :: 0 <= k < |values| ==> !EqualsIgnoreCase(key(values[k]), arg.value)
    ensures r.Success? ==> !IsBlank(arg) && exists i :: FirstMatchAt(values, key, arg.value, i) && values[i] == r.value
  {
    if IsBlank(arg) then Failure(BlankArgument)
    else
      match FirstMatch(values, key, arg.value)
      case None => Failure(NoSuchConstant)
      case Some(i) => Success(values[i])
  }

  /** No two constants have keys that are equal ignoring case. */
  ghost predicate KeysDistinct<T>(values: seq<T>, key: T -> string) {
    forall i, j :: 0 <= i < j < |values| ==> !EqualsIgnoreCase(key(values[i]), key(values[j]))
  }

  /** A spelling that differs only in case from a non-blank string is not blank. */
  lemma CaseVariantNotBlank(a: string, b: string)
    requires EqualsIgnoreCase(b, a)
    requires !IsBlank(Some(a))
    ensures !IsBlank(Some(b))
  {
    TrimEmptyIff(a);
    TrimEmptyIff(b);
    EqualsIgnoreCaseAt(b, a);
    var k :| 0 <= k < |a| && !IsTrimmable(a[k]);
    assert FoldCase(b[k]) == FoldCase(a[k]);
  }

  /** With distinct keys, any spelling of a constant's key that differs only in
      case, and is not blank, finds that constant. */
  lemma LookupKey<T>(values: seq<T>, key: T -> string, c: T, text: string)
    requires KeysDistinct(values, key)
    requires c in values
    requires EqualsIgnoreCase(text, key(c))
    requires !IsBlank(Some(key(c)))
    ensures Lookup(values, key, Some(text)) == Success(c)
  {
    CaseVariantNotBlank(key(c), text);
    var j :| 0 <= j < |values| && values[j] == c;
    EqualsIgnoreCaseEquivalence(text, key(c), key(c));
    var r := Lookup(values, key, Some(text));
    assert EqualsIgnoreCase(key(values[j]), text);
    var i :| FirstMatchAt(values, key, text, i) && values[i] == r.value;
    EqualsIgnoreCaseEquivalence(key(values[i]), text, key(c));
  }

  /** Index of the first constant whose key equals `text` exactly. */
  function FirstExact<T>(values: seq<T>, key: T -> string, text: string): (r: Option<nat>)
    ensures r.Some? ==> r.value < |values| && key(values[r.value]) == text
    ensures r.Some? ==> forall k :: 0 <= k < r.value ==> key(values[k]) != text
    ensures r.None? <==> forall k :: 0 <= k < |values| ==> key(values[k]) != text
  {
    if |values| == 0 then None
    else if key(values[0]) == text then Some(0)
    else
      match FirstExact(values[1..], key, text)
      case None => None
      case Some(i) => Some(i + 1)
  }

  /** The case-sensitive variant of `Lookup` (`equals` instead of
      `equalsIgnoreCase`). */
  function LookupExact<T>(values: seq<T>, key: T -> string, arg: Option<string>): (r: Result<T, LookupError>)
    ensures r == Failure(BlankArgument) <==> IsBlank(arg)
    ensures r == Failure(NoSuchConstant) <==>
      !IsBlank(arg) && forall k :: 0 <= k < |values| ==> key(values[k]) != arg.value
    ensures r.Success? ==> r.value in values && key(r.value) == arg.value
  {
    if IsBlank(arg) then Failure(BlankArgument)
    else
      match FirstExact(values, key, arg.value)
      case None => Failure(NoSuchConstant)
      case Some(i) => Success(values[i])
  }

  /** No two constants have the same key. */
  ghost predicate KeysUnique<T>(values: seq<T>, key: T -> string) {
    forall i, j :: 0 <= i < j < |values| ==> key(values[i]) != key(values[j])
  }

  /** With unique keys, the exact lookup of a constant's own key finds it. */
  lemma LookupExactKey<T>(values: seq<T>, key: T -> string, c: T)
    requires KeysUnique(values, key)
    requires c in values
    requires !IsBlank(Some(key(c)))
    ensures LookupExact(values, key, Some(key(c))) == Success(c)
  {
    var j :| 0 <= j < |values| && values[j] == c;
    var r := LookupExact(values, key, Some(key(c)));
    assert key(values[j]) == key(c);
    assert r.Success?;
    var i :| 0 <= i < |values| && values[i] == r.value;
    assert key(values[i]) == key(values[j]);
    assert i == j;
  }

  /** The shape of every constant name and prefix in the repository: non-empty,
      no character at or below U+0020, and no lower-case ASCII letter. */
  predicate IsConstantKey(s: string) {
    |s| > 0 && forall k :: 0 <= k < |s| ==> ' ' < s[k] && !('a' <= s[k] <= 'z')
  }

  /** Constant keys are never blank, and two of them are equal ignoring case
      only when they are equal. */
  lemma ConstantKeyFacts(a: string, b: string)
    requires IsConstantKey(a) && IsConstantKey(b)
    ensures !IsBlank(Some(a))
    ensures EqualsIgnoreCase(a, b) ==> a == b
  {
    TrimEmptyIff(a);
    assert !IsTrimmable(a[0]);
    EqualsIgnoreCaseAt(a, b);
    if EqualsIgnoreCase(a, b) {
      forall k | 0 <= k < |a| ensures a[k] == b[k] {
        FoldUpper(a[k], b[k]);
      }
    }
  }

  /** Folding is one-to-one on characters that are not lower-case letters. */
  lemma FoldUpper(x: char, y: char)
    requires !('a' <= x <= 'z') && !('a' <= y <= 'z')
    ensures FoldCase(x) == FoldCase(y) ==> x == y
  {
  }

  /** An enum's constants, in declaration order, listed completely and with
      unique keys of the constant shape. */
  ghost predicate WellFormedTable<T(!new)>(values: seq<T>, key: T -> string) {
    (forall c: T :: c in values)
    && (forall k :: 0 <= k < |values| ==> IsConstantKey(key(values[k])))
    && KeysUnique(values, key)
  }

  /** On a well-formed table, any letter-case spelling of a constant's key finds
      exactly that constant. */
  lemma LookupTableKey<T(!new)>(values: seq<T>, key: T -> string, c: T, text: string)
    requires WellFormedTable(values, key)
    requires EqualsIgnoreCase(text, key(c))
    ensures Lookup(values, key, Some(text)) == Success(c)
  {
    assert c in values;
    forall i, j | 0 <= i < j < |values|
      ensures !EqualsIgnoreCase(key(values[i]), key(values[j]))
    {
      ConstantKeyFacts(key(values[i]), key(values[j]));
    }
    var j :| 0 <= j < |values| && values[j] == c;
    ConstantKeyFacts(key(c), key(c));
    LookupKey(values, key, c, text);
  }

  /** On a well-formed table, the lookup raises exactly on a blank argument or
      on one that spells no constant's key in any letter case. */
  lemma LookupTableFails<T(!new)>(values: seq<T>, key: T -> string, arg: Option<string>)
    requires WellFormedTable(values, key)
    ensures Lookup(values, key, arg).Failure? <==>
      IsBlank(arg) || forall c: T :: !EqualsIgnoreCase(arg.value, key(c))
  {
    if !IsBlank(arg) {
      if exists c: T :: EqualsIgnoreCase(arg.value, key(c)) {
        var c: T :| EqualsIgnoreCase(arg.value, key(c));
        LookupTableKey(values, key, c, arg.value);
      } else {
        forall k | 0 <= k < |values| ensures !EqualsIgnoreCase(key(values[k]), arg.value) {
          EqualsIgnoreCaseEquivalence(key(values[k]), arg.value, arg.value);
        }
      }
    }
  }

  /** On a well-formed table, the exact lookup of a constant's key finds it. */
  lemma LookupTableExactKey<T(!new)>(values: seq<T>, key: T -> string, c: T)
    requires WellFormedTable(values, key)
    ensures LookupExact(values, key, Some(key(c))) == Success(c)
  {
    assert c in values;
    var j :| 0 <= j < |values| && values[j] == c;
    ConstantKeyFacts(key(c), key(c));
    LookupExactKey(values, key, c);
  }

  /** The lookup returns the constant at the first matching position. */
  lemma LookupFirstAt<T>(values: seq<T>, key: T -> string, text: string, i: nat)
    requires !IsBlank(Some(text))
    requires FirstMatchAt(values, key, text, i)
    ensures Lookup(values, key, Some(text)) == Success(values[i])
  {
    var r := Lookup(values, key, Some(text));
    assert r.Success?;
    var j :| FirstMatchAt(values, key, text, j) && values[j] == r.value;
    assert 0 <= j < |values|;
    assert EqualsIgnoreCase(key(values[j]), text);
    assert j == i;
  }
}
