/** Java's fixed-width integers and the decimal parsing of `Integer.valueOf`
    and `Long.valueOf`, over ASCII digits. */
module JavaNumbers {
  import opened Outcomes
  import opened JavaText

  const MinInt: int := -0x8000_0000
  const MaxInt: int := 0x7FFF_FFFF
  const MinLong: int := -0x8000_0000_0000_0000
  const MaxLong: int := 0x7FFF_FFFF_FFFF_FFFF

  /** A Java `int`. */
  type Int32 = x: int | MinInt <= x <= MaxInt
  /** A Java `long`. */
  type Int64 = x: int | MinLong <= x <= MaxLong

  /** The exception `valueOf` raises. */
  datatype NumberFormatError = NumberFormatException

  predicate IsDigit(c: char) {
    '0' <= c <= '9'
  }

  predicate AllDigits(s: string) {
    forall k :: 0 <= k < |s| ==> IsDigit(s[k])
  }

  /** The value of a run of decimal digits, most significant first. */
  function DigitsValue(s: string): nat
    requires AllDigits(s)
  {
    if |s| == 0 then 0
    else DigitsValue(s[..|s| - 1]) * 10 + (s[|s| - 1] as int - '0' as int)
  }

  /** An optional `+` or `-` followed by at least one digit: the only text
      `Integer.valueOf` and `Long.valueOf` accept. */
  predicate IsNumeral(s: string) {
    if |s| > 0 && (s[0] == '-' || s[0] == '+') then |s| > 1 && AllDigits(s[1..])
    else |s| > 0 && AllDigits(s)
  }

  /** The mathematical value a numeral denotes. */
  function NumeralValue(s: string): int
    requires IsNumeral(s)
  {
    if s[0] == '-' then 0 - DigitsValue(s[1..])
    else if s[0] == '+' then DigitsValue(s[1..])
    else DigitsValue(s)
  }

  /** Decimal parsing into the range `lo..hi`: null, text that is not a numeral
      and values out of range all raise `NumberFormatException`. */
  function ParseDecimal(s: Option<string>, lo: int, hi: int): (r: Result<int, NumberFormatError>)
    ensures r.Success? <==> s.Some? && IsNumeral(s.value) && lo <= NumeralValue(s.value) <= hi
    ensures r.Success? ==> r.value == NumeralValue(s.value) && lo <= r.value <= hi
  {
    if s.None? || !IsNumeral(s.value) then Failure(NumberFormatException)
    else
      var v := NumeralValue(s.value);
      if lo <= v <= hi then Success(v) else Failure(NumberFormatException)
  }

  /** `Integer.valueOf(String)`. */
  function IntegerValueOf(s: Option<string>): (r: Result<Int32, NumberFormatError>)
    ensures r.Success? <==> s.Some? && IsNumeral(s.value) && MinInt <= NumeralValue(s.value) <= MaxInt
    ensures r.Success? ==> r.value == NumeralValue(s.value)
  {
    match ParseDecimal(s, MinInt, MaxInt)
    case Success(v) => Success(v)
    case Failure(e) => Failure(e)
  }

  /** `Long.valueOf(String)`. */
  function LongValueOf(s: Option<string>): (r: Result<Int64, NumberFormatError>)
    ensures r.Success? <==> s.Some? && IsNumeral(s.value) && MinLong <= NumeralValue(s.value) <= MaxLong
    ensures r.Success? ==> r.value == NumeralValue(s.value)
  {
    match ParseDecimal(s, MinLong, MaxLong)
    case Success(v) => Success(v)
    case Failure(e) => Failure(e)
  }

  function DigitChar(d: nat): (c: char)
    requires d < 10
    ensures IsDigit(c) && c as int - '0' as int == d
  {
    ('0' as int + d) as char
  }

  /** The decimal digits of `n`, without leading zeros. */
  function NatToDigits(n: nat): (s: string)
    ensures |s| > 0 && AllDigits(s)
  {
    if n < 10 then [DigitChar(n)] else NatToDigits(n / 10) + [DigitChar(n % 10)]
  }

  /** `Integer.toString` / `Long.toString`. */
  function Render(v: int): (s: string)
    ensures IsNumeral(s)
  {
    if v < 0 then "-" + NatToDigits(-v) else NatToDigits(v)
  }

  /** Reading back the digits of `n` gives `n`. */
  lemma {:induction false} DigitsRoundTrip(n: nat)
    ensures DigitsValue(NatToDigits(n)) == n
  {
    if n >= 10 {
      var s := NatToDigits(n);
      assert s[..|s| - 1] == NatToDigits(n / 10);
      DigitsRoundTrip(n / 10);
    }
  }

  /** Parsing the rendering of a value gives the value back. */
  lemma RenderRoundTrip(v: int)
    ensures NumeralValue(Render(v)) == v
  {
    if v < 0 {
      DigitsRoundTrip(-v);
      assert Render(v)[1..] == NatToDigits(-v);
    } else {
      DigitsRoundTrip(v);
    }
  }

  /** Every `int` survives `Integer.valueOf(Integer.toString(v))`, and every
      `long` survives the `Long` round trip. */
  lemma ValueOfRoundTrip(i: Int32, l: Int64)
    ensures IntegerValueOf(Some(Render(i))) == Success(i)
    ensures LongValueOf(Some(Render(l))) == Success(l)
  {
    RenderRoundTrip(i);
    RenderRoundTrip(l);
  }

  /** One past the largest `int` is refused, the smallest is accepted, and a
      lone sign or surrounding blanks are not numerals. */
  lemma ValueOfEdges()
    ensures IntegerValueOf(Some(Render(MaxInt + 1))).Failure?
    ensures LongValueOf(Some(Render(MaxInt + 1))) == Success(MaxInt + 1)
    ensures IntegerValueOf(Some("-")).Failure?
    ensures IntegerValueOf(Some(" 1")).Failure?
    ensures IntegerValueOf(None).Failure?
  {
    RenderRoundTrip(MaxInt + 1);
    assert !IsDigit(' ');
  }

  /** `Boolean.valueOf(String)`: true exactly for "true" in any letter case;
      null and everything else give false, and nothing raises. */
  function BooleanValueOf(s: Option<string>): (b: bool)
    ensures b ==> s.Some? && |s.value| == 4
  {
    s.Some? && EqualsIgnoreCase(s.value, "true")
  }

  /** Every letter-case spelling of "true" is true; anything whose folded
      characters are not exactly "true" is false. */
  lemma BooleanValueOfIff(s: string)
    ensures BooleanValueOf(Some(s)) <==> |s| == 4 && forall k :: 0 <= k < 4 ==> FoldCase(s[k]) == "true"[k]
  {
    EqualsIgnoreCaseAt(s, "true");
  }

  /** A few spellings, as `Boolean.valueOf` reads them. */
  lemma BooleanValueOfExamples()
    ensures BooleanValueOf(Some("TRUE")) && BooleanValueOf(Some("True"))
    ensures !BooleanValueOf(Some("yes")) && !BooleanValueOf(Some("1")) && !BooleanValueOf(None)
    ensures !BooleanValueOf(Some(" true"))
  {
    BooleanValueOfIff("TRUE");
    BooleanValueOfIff("True");
    BooleanValueOfIff(" true");
  }
}
