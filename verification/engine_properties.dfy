/** Properties of the loan decision pipeline: which failure wins, when a
    loan is approved and for how much, and how the age rules behave. */
module EngineProperties {
  import opened Results
  import opened Calendar
  import opened Numerals
  import opened DecisionEngineConstants
  import opened LoanFailures
  import opened PersonalCode
  import opened DecisionEngine

  /** A code the validator rejects fails as such, whatever else is wrong. */
  lemma InvalidCodeFailsFirst(lib: CodeLibrary, code: string, amount: int, period: int, today: Date)
    requires !lib.isValid(code)
    ensures CalculateApprovedLoan(lib, code, amount, period, today) == Failure(InvalidPersonalCode)
  {
  }

  /** With a valid code, an amount outside [2000, 10000] is reported, even
      when the period is out of range as well. */
  lemma InvalidAmountBeforePeriod(lib: CodeLibrary, code: string, amount: int, period: int, today: Date)
    requires lib.isValid(code)
    requires amount < 2000 || amount > 10000
    ensures CalculateApprovedLoan(lib, code, amount, period, today) == Failure(InvalidLoanAmount)
  {
  }

  /** With a valid code and amount, a period outside [12, 60] is reported. */
  lemma InvalidPeriodAfterAmount(lib: CodeLibrary, code: string, amount: int, period: int, today: Date)
    requires lib.isValid(code) && 2000 <= amount <= 10000
    requires period < 12 || period > 60
    ensures CalculateApprovedLoan(lib, code, amount, period, today) == Failure(InvalidLoanPeriod)
  {
  }

  /** The bounds are inclusive: the validation step passes exactly on
      [2000, 10000] x [12, 60] for a valid code. */
  lemma ValidationBoundsInclusive(lib: CodeLibrary, code: string, amount: int, period: int)
    requires lib.isValid(code)
    ensures VerifyInputs(lib, code, amount, period).Pass? <==> 2000 <= amount <= 10000 && 12 <= period <= 60
  {
  }

  /** A validation failure is returned exactly when some input check fails. */
  lemma InputFailureIff(lib: CodeLibrary, code: string, amount: int, period: int, today: Date)
    ensures var r := CalculateApprovedLoan(lib, code, amount, period, today);
            (r.Failure? && r.error.IsInputError())
            <==> !(lib.isValid(code) && AmountInRange(amount) && PeriodInRange(period))
  {
  }

  /** The conditions for approval, and the approved loan: the segment's
      modifier times the requested period, for the requested period. */
  lemma ApprovalCharacterised(lib: CodeLibrary, code: string, amount: int, period: int, today: Date)
    ensures var r := CalculateApprovedLoan(lib, code, amount, period, today);
            r.Success? <==>
              lib.isValid(code) && AmountInRange(amount) && PeriodInRange(period)
              && SegmentKey(code).Success?
              && ModifierForSegment(SegmentKey(code).value) != 0
              && VerifyAgeRestriction(lib, code, period, today).Pass?
    ensures var r := CalculateApprovedLoan(lib, code, amount, period, today);
            r.Success? ==> r.value == Decision(ModifierForSegment(SegmentKey(code).value) * period, period)
  {
  }

  /** Once the inputs are valid and the code decodes, the pipeline rejects an
      applicant as underage exactly when they are under 18 whole years, and
      as overage exactly when they are adult but their expected lifetime
      does not end strictly after the loan. */
  lemma AgeFailuresInPipeline(lib: CodeLibrary, code: string, amount: int, period: int, today: Date)
    requires lib.isValid(code) && AmountInRange(amount) && PeriodInRange(period)
    requires SegmentKey(code).Success?
    requires ParseBirthDate(code).Success? && lib.genderOf(code).Success?
    ensures var r := CalculateApprovedLoan(lib, code, amount, period, today);
            var birth := ParseBirthDate(code).value;
            (r == Failure(Underage) <==> WholeYearsBetween(birth, today) < 18)
            && (r == Failure(Overage) <==>
                  WholeYearsBetween(birth, today) >= 18
                  && !OutlivesLoan(birth, lib.genderOf(code).value, today, period))
  {
  }

  /** After validation, an unreadable segment value fails with its own
      runtime fault before any age step runs; with a readable one, a failing
      age step (decoding fault, gender lookup, under- or overage) is the
      result. */
  lemma LaterFailuresPropagate(lib: CodeLibrary, code: string, amount: int, period: int, today: Date)
    requires VerifyInputs(lib, code, amount, period).Pass?
    ensures var r := CalculateApprovedLoan(lib, code, amount, period, today);
            SegmentKey(code).Failure? ==> r == Failure(SegmentKey(code).error)
    ensures var r := CalculateApprovedLoan(lib, code, amount, period, today);
            var age := VerifyAgeRestriction(lib, code, period, today);
            SegmentKey(code).Success? && age.Fail? ==> r == Failure(age.error)
  {
  }

  /** Beyond passing validation, the requested amount has no effect. */
  lemma RequestedAmountIrrelevant(lib: CodeLibrary, code: string, a1: int, a2: int, period: int, today: Date)
    requires AmountInRange(a1) && AmountInRange(a2)
    ensures CalculateApprovedLoan(lib, code, a1, period, today) == CalculateApprovedLoan(lib, code, a2, period, today)
  {
  }

  /** For a segment value below 2500 the age checks still come first: the
      result is `NoValidLoan` exactly when they pass, and their own failure
      otherwise. */
  lemma AgeChecksBeforeNoValidLoan(lib: CodeLibrary, code: string, amount: int, period: int, today: Date)
    requires lib.isValid(code) && AmountInRange(amount) && PeriodInRange(period)
    requires SegmentKey(code).Success? && SegmentKey(code).value < 2500
    ensures var r := CalculateApprovedLoan(lib, code, amount, period, today);
            var age := VerifyAgeRestriction(lib, code, period, today);
            (r == Failure(NoValidLoan) <==> age.Pass?)
            && (age.Fail? ==> r == Failure(age.error))
  {
  }

  /** An approved amount lies in [1200, 60000], so the 32-bit product in
      `highestValidLoanAmount` never wraps around. */
  lemma ApprovedAmountBounds(lib: CodeLibrary, code: string, amount: int, period: int, today: Date)
    ensures var r := CalculateApprovedLoan(lib, code, amount, period, today);
            r.Success? ==> 1200 <= r.value.loanAmount <= 60000 && r.value.loanAmount <= IntMax
  {
  }

  /** Whoever passes the lifetime test with men's 75 years 7 months passes
      it with women's 85 years 4 months. */
  lemma MaleLifetimeImpliesFemale(birth: Date, today: Date, period: int)
    requires OutlivesLoan(birth, Male, today, period)
    ensures OutlivesLoan(birth, Female, today, period)
  {
    PlusMonthsStrictlyIncreasing(birth, ExpectedLifetimeMen.TotalMonths(), ExpectedLifetimeWomen.TotalMonths());
    var loanEnd := PlusMonths(today, period);
    var maleEnd := PlusPeriod(birth, ExpectedLifetimeMen);
    var femaleEnd := PlusPeriod(birth, ExpectedLifetimeWomen);
    IsBeforeByMonths(loanEnd, maleEnd);
    IsBeforeByMonths(maleEnd, femaleEnd);
    IsBeforeByMonths(loanEnd, femaleEnd);
  }

  /** A shorter loan is never harder to fit into the expected lifetime. */
  lemma ShorterLoanStillOutlived(birth: Date, gender: Gender, today: Date, shorter: int, longer: int)
    requires shorter <= longer
    requires OutlivesLoan(birth, gender, today, longer)
    ensures OutlivesLoan(birth, gender, today, shorter)
  {
    var end := PlusPeriod(birth, ExpectedLifetime(gender));
    var shortEnd, longEnd := PlusMonths(today, shorter), PlusMonths(today, longer);
    if shorter < longer {
      PlusMonthsStrictlyIncreasing(today, shorter, longer);
      IsBeforeByMonths(shortEnd, longEnd);
      IsBeforeByMonths(longEnd, end);
      IsBeforeByMonths(shortEnd, end);
    }
  }

  /** The under-age test fails exactly until the calendar reaches the
      eighteenth anniversary of the birth month and day. */
  lemma UnderageUntilEighteenthBirthday(birth: Date, gender: Gender, today: Date, period: int)
    ensures AgeVerdict(birth, gender, today, period) == Fail(Underage)
            <==> IsBefore(today, YMD(birth.year + 18, birth.month, birth.day))
  {
    AgeReachedOnAnniversary(birth, today, 18);
  }

  /** The literal 18 the age test uses is the declared legal age. */
  lemma UnderageThresholdIsLegalAge(birth: Date, gender: Gender, today: Date, period: int)
    ensures AgeVerdict(birth, gender, today, period) == Fail(Underage)
            <==> WholeYearsBetween(birth, today) < LegalAge.years
  {
  }

  /** A segment value below 2500 never yields a loan. */
  lemma LowSegmentNeverApproved(lib: CodeLibrary, code: string, amount: int, period: int, today: Date)
    requires SegmentKey(code).Success? && SegmentKey(code).value < 2500
    ensures CalculateApprovedLoan(lib, code, amount, period, today).Failure?
  {
  }

  /** The decision for a well-formed code whose validity and gender the
      library confirms, with amount and period in range: decided by the
      age, then the lifetime test, then the segment's modifier. */
  lemma DecisionForComposedCode(lib: CodeLibrary, indicator: char, birth: Date, segment: nat,
                                gender: Gender, amount: int, period: int, today: Date)
    requires Century(indicator) <= birth.year < Century(indicator) + 100 && segment < 10000
    requires lib.isValid(ComposeCode(indicator, birth, "", segment))
    requires lib.genderOf(ComposeCode(indicator, birth, "", segment)) == Success(gender)
    requires AmountInRange(amount) && PeriodInRange(period)
    ensures var r := CalculateApprovedLoan(lib, ComposeCode(indicator, birth, "", segment), amount, period, today);
            && (WholeYearsBetween(birth, today) < 18 ==> r == Failure(Underage))
            && (WholeYearsBetween(birth, today) >= 18 && !OutlivesLoan(birth, gender, today, period) ==>
                  r == Failure(Overage))
            && (WholeYearsBetween(birth, today) >= 18 && OutlivesLoan(birth, gender, today, period) ==>
                  r == if ModifierForSegment(segment) == 0 then Failure(NoValidLoan)
                       else Success(Decision(ModifierForSegment(segment) * period, period)))
  {
    DecodeComposedCode(indicator, birth, "", segment);
  }

  // Calendar facts about the dates the scenarios below use.

  lemma Born1990AdultIn2026()
    ensures WholeYearsBetween(YMD(1990, 1, 1), YMD(2026, 10, 10)) == 36
  {
    assert PeriodMonthsBetween(YMD(1990, 1, 1), YMD(2026, 10, 10)) == 441;
  }

  lemma Born1990OutlivesLoansFrom2026()
    ensures OutlivesLoan(YMD(1990, 1, 1), Male, YMD(2026, 10, 10), 12)
    ensures OutlivesLoan(YMD(1990, 1, 1), Male, YMD(2026, 10, 10), 36)
  {
    assert PlusPeriod(YMD(1990, 1, 1), ExpectedLifetimeMen) == YMD(2065, 8, 1);
    assert PlusMonths(YMD(2026, 10, 10), 12) == YMD(2027, 10, 10);
    assert PlusMonths(YMD(2026, 10, 10), 36) == YMD(2029, 10, 10);
  }

  lemma Born2009SixteenIn2026()
    ensures WholeYearsBetween(YMD(2009, 5, 5), YMD(2026, 1, 1)) == 16
  {
    assert PeriodMonthsBetween(YMD(2009, 5, 5), YMD(2026, 1, 1)) == 199;
  }

  lemma Born1941AdultIn2026()
    ensures WholeYearsBetween(YMD(1941, 1, 1), YMD(2026, 1, 1)) == 85
  {
    assert PeriodMonthsBetween(YMD(1941, 1, 1), YMD(2026, 1, 1)) == 1020;
  }

  lemma Born1941WomanDoesNotOutliveLoan()
    ensures !OutlivesLoan(YMD(1941, 1, 1), Female, YMD(2026, 1, 1), 12)
  {
    assert PlusPeriod(YMD(1941, 1, 1), ExpectedLifetimeWomen) == YMD(2026, 5, 1);
    assert PlusMonths(YMD(2026, 1, 1), 12) == YMD(2027, 1, 1);
  }

  /** Amount 10 and period 10 on a valid code: the amount is reported. */
  lemma ScenarioBothInputsOutOfRange(lib: CodeLibrary, today: Date)
    requires lib.isValid("38001019996")
    ensures CalculateApprovedLoan(lib, "38001019996", 10, 10, today) == Failure(InvalidLoanAmount)
  {
  }

  /** A man born 1 January 1990 in segment 5007 (code 39001015007) asking
      for 12 months on 10 October 2026 is approved 300 x 12 = 3600 euros
      for 12 months. */
  lemma ScenarioSegmentTwoApproved(lib: CodeLibrary)
    requires var code := ComposeCode('3', YMD(1990, 1, 1), "", 5007);
             lib.isValid(code) && lib.genderOf(code) == Success(Male)
    ensures CalculateApprovedLoan(lib, ComposeCode('3', YMD(1990, 1, 1), "", 5007), 4000, 12, YMD(2026, 10, 10))
            == Success(Decision(3600, 12))
  {
    Born1990AdultIn2026();
    Born1990OutlivesLoansFrom2026();
    DecisionForComposedCode(lib, '3', YMD(1990, 1, 1), 5007, Male, 4000, 12, YMD(2026, 10, 10));
  }




  /** Someone born 5 May 2009 (code 50905057506) is 16 on 1 January 2026
      and too young. */
  lemma ScenarioUnderage(lib: CodeLibrary, gender: Gender)
    requires var code := ComposeCode('5', YMD(2009, 5, 5), "", 7506);
             lib.isValid(code) && lib.genderOf(code) == Success(gender)
    ensures CalculateApprovedLoan(lib, ComposeCode('5', YMD(2009, 5, 5), "", 7506), 5000, 24, YMD(2026, 1, 1))
            == Failure(Underage)
  {
    Born2009SixteenIn2026();
    DecisionForComposedCode(lib, '5', YMD(2009, 5, 5), 7506, gender, 5000, 24, YMD(2026, 1, 1));
  }




  /** A woman born 1 January 1941 (code 44101011231) reaches 85 years 4
      months on 1 May 2026, before a 12-month loan from 1 January 2026 ends:
      too old, and this wins over her segment value 1231 being too low. */
  lemma ScenarioOverage(lib: CodeLibrary)
    requires var code := ComposeCode('4', YMD(1941, 1, 1), "", 1231);
             lib.isValid(code) && lib.genderOf(code) == Success(Female)
    ensures CalculateApprovedLoan(lib, ComposeCode('4', YMD(1941, 1, 1), "", 1231), 5000, 12, YMD(2026, 1, 1))
            == Failure(Overage)
  {
    Born1941AdultIn2026();
    Born1941WomanDoesNotOutliveLoan();
    DecisionForComposedCode(lib, '4', YMD(1941, 1, 1), 1231, Female, 5000, 12, YMD(2026, 1, 1));
  }




  /** Segment value 1008 (code 39001011008) with otherwise acceptable
      inputs: no valid loan. */
  lemma ScenarioLowSegment(lib: CodeLibrary)
    requires var code := ComposeCode('3', YMD(1990, 1, 1), "", 1008);
             lib.isValid(code) && lib.genderOf(code) == Success(Male)
    ensures CalculateApprovedLoan(lib, ComposeCode('3', YMD(1990, 1, 1), "", 1008), 4000, 36, YMD(2026, 10, 10))
            == Failure(NoValidLoan)
  {
    Born1990AdultIn2026();
    Born1990OutlivesLoansFrom2026();
    DecisionForComposedCode(lib, '3', YMD(1990, 1, 1), 1008, Male, 4000, 36, YMD(2026, 10, 10));
  }




  /** The first character '1' is read as the 2000s, not the 1800s: the code
      prefix 1850101 decodes to 1 January 2085. */
  lemma IndicatorOneReadAsTwoThousands(rest: string)
    ensures ParseBirthDate("1850101" + rest) == Success(YMD(2085, 1, 1))
  {
    assert BirthDatePrefix('1', YMD(2085, 1, 1)) == "1850101";
    BirthDateRoundTrip('1', YMD(2085, 1, 1), rest);
  }

  /** A day past the end of the month is moved back, not rejected: the
      prefix 3900230 decodes to 28 February 1990. */
  lemma ImpossibleDayMovedBack()
    ensures ParseBirthDate("39002301234") == Success(YMD(1990, 2, 28))
  {
    var code := "39002301234";
    assert code[1..3] == "90" && code[3..5] == "02" && code[5..7] == "30";
    ParseIntOfDigits("90");
  }
}
