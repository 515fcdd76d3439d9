/** What the engine reads out of an Estonian personal code: the credit
    segment (last four characters) and the birth date (first seven). */
module PersonalCode {
  import opened Results
  import opened Calendar
  import opened Numerals
  import opened DecisionEngineConstants
  import opened LoanFailures

  datatype Gender = Male | Female

  /** The external personal-code library: its checksum/format validator and
      its gender lookup, which may fail with an exception message. */
  datatype CodeLibrary = CodeLibrary(isValid: string -> bool, genderOf: string -> Result<Gender, string>)

  /** The last four characters, parsed with `Integer.parseInt`. */
  function SegmentKey(code: string): (r: Result<int, Failure>)
    ensures |code| < 4 ==> r == Failure(Unchecked(IndexOutOfBounds))
    ensures r.Failure? ==> r.error.Unchecked?
    ensures r.Success? ==> -1000 < r.value < 10000
    ensures |code| >= 4 && IsDigits(code[|code| - 4..]) ==>
              r == Success(DigitsValue(code[|code| - 4..]))
  {
    if |code| < 4 then Failure(Unchecked(IndexOutOfBounds))
    else
      var tail := code[|code| - 4..];
      assert Pow10(3) == 1000 && Pow10(4) == 10000;
      ParseIntOfDigits(tail);
      match ParseInt(tail)
      case None => Failure(Unchecked(NumberFormat))
      case Some(v) => Success(v)
  }

  /** A code ending in a zero-padded four-digit numeral has that number as
      its segment value. */
  lemma SegmentKeyOfSuffix(prefix: string, segment: nat)
    requires segment < 10000
    ensures SegmentKey(prefix + FixedDigits(segment, 4)) == Success(segment)
  {
    var code := prefix + FixedDigits(segment, 4);
    assert code[|code| - 4..] == FixedDigits(segment, 4);
    DigitsValueOfFixedDigits(segment, 4);
  }

  /** The modifier for a segment value (`getCreditModifier`'s thresholds). */
  function ModifierForSegment(segment: int): (m: int)
    ensures forall tier: CreditSegment :: tier.Contains(segment) ==> m == tier.Modifier()
  {
    if segment < 2500 then 0
    else if segment < 5000 then Segment1CreditModifier
    else if segment < 7500 then Segment2CreditModifier
    else Segment3CreditModifier
  }

  /** `getCreditModifier`: the modifier of the code's segment value. */
  function CreditModifier(code: string): (r: Result<int, Failure>)
    ensures r.Success? ==> r.value in {0, Segment1CreditModifier, Segment2CreditModifier, Segment3CreditModifier}
    ensures r.Failure? <==> SegmentKey(code).Failure?
    ensures SegmentKey(code).Failure? ==> r == Failure(SegmentKey(code).error)
    ensures forall tier: CreditSegment ::
              SegmentKey(code).Success? && tier.Contains(SegmentKey(code).value) ==> r == Success(tier.Modifier())
  {
    match SegmentKey(code)
    case Failure(e) => Failure(e)
    case Success(segment) => Success(ModifierForSegment(segment))
  }

  /** The credit tiers, as ranges of the segment value. */
  datatype CreditSegment = Ineligible | Segment1 | Segment2 | Segment3 {
    predicate Contains(segment: int) {
      match this
      case Ineligible => segment < 2500
      case Segment1 => 2500 <= segment < 5000
      case Segment2 => 5000 <= segment < 7500
      case Segment3 => 7500 <= segment
    }

    function Modifier(): int {
      match this
      case Ineligible => 0
      case Segment1 => Segment1CreditModifier
      case Segment2 => Segment2CreditModifier
      case Segment3 => Segment3CreditModifier
    }
  }

  /** Every segment value lies in exactly one tier, and the modifier is that
      tier's modifier. */
  lemma ModifierFollowsTier(segment: int, tier: CreditSegment)
    ensures tier.Contains(segment) <==> ModifierForSegment(segment) == tier.Modifier()
  {
  }

  /** A higher segment value never lowers the modifier. */
  lemma ModifierMonotone(s: int, t: int)
    requires s <= t
    ensures ModifierForSegment(s) <= ModifierForSegment(t)
  {
  }

  /** The century `parseBirthDate` assigns to the first character: 1900 for
      '3' and '4', 2000 for every other character. */
  function Century(indicator: char): (c: int)
    ensures c == 1900 <==> indicator == '3' || indicator == '4'
    ensures c == 1900 || c == 2000
  {
    if indicator == '3' || indicator == '4' then 1900 else 2000
  }

  /** `LocalDate.parse` of "year-MM-dd" with the pattern "yyyy-MM-dd" (smart
      resolver): month and day must be two digits each, the month 1..12 and
      the day 1..31; a day past the end of the month is moved back to the
      month's last day. */
  function ResolveDate(year: int, monthField: string, dayField: string): (r: Result<Date, Failure>)
    requires |monthField| == 2 && |dayField| == 2
    ensures r.Failure? ==> r.error == Unchecked(DateTimeParse)
    ensures r.Success? <==>
              IsDigits(monthField) && IsDigits(dayField)
              && 1 <= DigitsValue(monthField) <= 12 && 1 <= DigitsValue(dayField) <= 31
    ensures r.Success? ==>
              r.value.year == year && r.value.month == DigitsValue(monthField)
              && r.value.day <= DigitsValue(dayField)
              && (r.value.day == DigitsValue(dayField) || r.value.day == LengthOfMonth(year, r.value.month))
  {
    if !IsDigits(monthField) || !IsDigits(dayField) then Failure(Unchecked(DateTimeParse))
    else
      var month := DigitsValue(monthField);
      var day := DigitsValue(dayField);
      if !(1 <= month <= 12 && 1 <= day <= 31) then Failure(Unchecked(DateTimeParse))
      else Success(YMD(year, month, Min(day, LengthOfMonth(year, month))))
  }

  /** `parseBirthDate`: century from the first character, year within the
      century from characters 1-2, month from 3-4, day from 5-6. */
  function ParseBirthDate(code: string): (r: Result<Date, Failure>)
    ensures |code| < 7 ==> r == Failure(Unchecked(IndexOutOfBounds))
    ensures r.Failure? ==> r.error.Unchecked?
    ensures r.Success? ==> Century(code[0]) - 10 < r.value.year < Century(code[0]) + 100
    ensures r.Success? && IsDigits(code[1..3]) ==>
              r.value.year == Century(code[0]) + DigitsValue(code[1..3])
  {
    if |code| < 7 then Failure(Unchecked(IndexOutOfBounds))
    else
      var yearField, monthField, dayField := code[1..3], code[3..5], code[5..7];
      ParseIntOfDigits(yearField);
      match ParseInt(yearField)
      case None => Failure(Unchecked(NumberFormat))
      case Some(y) => ResolveDate(Century(code[0]) + y, monthField, dayField)
  }

  /** The birth-date part of a code: indicator, two-digit year within the
      century, month and day. */
  function BirthDatePrefix(indicator: char, d: Date): (s: string)
    requires Century(indicator) <= d.year < Century(indicator) + 100
    ensures |s| == 7
  {
    [indicator] + FixedDigits(d.year - Century(indicator), 2)
      + FixedDigits(d.month, 2) + FixedDigits(d.day, 2)
  }

  /** Decoding a code that starts with a date's prefix gives the date back. */
  lemma BirthDateRoundTrip(indicator: char, d: Date, rest: string)
    requires Century(indicator) <= d.year < Century(indicator) + 100
    ensures ParseBirthDate(BirthDatePrefix(indicator, d) + rest) == Success(d)
  {
    var code := BirthDatePrefix(indicator, d) + rest;
    var yy := d.year - Century(indicator);
    assert code[1..3] == FixedDigits(yy, 2);
    assert code[3..5] == FixedDigits(d.month, 2);
    assert code[5..7] == FixedDigits(d.day, 2);
    ParseIntOfFixedDigits(yy, 2);
    DigitsValueOfFixedDigits(d.month, 2);
    DigitsValueOfFixedDigits(d.day, 2);
  }

  /** The eleven-character code with a birth-date prefix and a segment value
      in its last four characters (the checksum is the library's concern). */
  function ComposeCode(indicator: char, birth: Date, middle: string, segment: nat): (code: string)
    requires Century(indicator) <= birth.year < Century(indicator) + 100
    requires segment < 10000
    ensures |code| == 11 + |middle|
  {
    BirthDatePrefix(indicator, birth) + middle + FixedDigits(segment, 4)
  }

  /** Both decoders recover what a composed code was built from. */
  lemma DecodeComposedCode(indicator: char, birth: Date, middle: string, segment: nat)
    requires Century(indicator) <= birth.year < Century(indicator) + 100
    requires segment < 10000
    ensures ParseBirthDate(ComposeCode(indicator, birth, middle, segment)) == Success(birth)
    ensures SegmentKey(ComposeCode(indicator, birth, middle, segment)) == Success(segment)
  {
    var prefix := BirthDatePrefix(indicator, birth);
    assert ComposeCode(indicator, birth, middle, segment) == prefix + (middle + FixedDigits(segment, 4));
    BirthDateRoundTrip(indicator, birth, middle + FixedDigits(segment, 4));
    SegmentKeyOfSuffix(prefix + middle, segment);
  }
}
