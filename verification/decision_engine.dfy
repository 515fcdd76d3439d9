/** The loan decision pipeline: validate the inputs, derive the credit
    modifier, check the applicant's age, then size the loan. */
module DecisionEngine {
  import opened Results
  import opened Calendar
  import opened DecisionEngineConstants
  import opened LoanFailures
  import opened PersonalCode

  /** An approved loan: its amount in euros and its period in months. */
  datatype Decision = Decision(loanAmount: int, loanPeriod: int)

  predicate AmountInRange(amount: int) {
    MinimumLoanAmount <= amount <= MaximumLoanAmount
  }

  predicate PeriodInRange(period: int) {
    MinimumLoanPeriod <= period <= MaximumLoanPeriod
  }

  /** `verifyInputs`: the code, then the amount, then the period; the first
      check that fails decides the failure. */
  function VerifyInputs(lib: CodeLibrary, code: string, amount: int, period: int): (r: Outcome<Failure>)
    ensures r.Pass? <==> lib.isValid(code) && AmountInRange(amount) && PeriodInRange(period)
    ensures r.Fail? ==> r.error.IsInputError()
    ensures !lib.isValid(code) ==> r == Fail(InvalidPersonalCode)
    ensures lib.isValid(code) && !AmountInRange(amount) ==> r == Fail(InvalidLoanAmount)
    ensures lib.isValid(code) && AmountInRange(amount) && !PeriodInRange(period) ==> r == Fail(InvalidLoanPeriod)
  {
    if !lib.isValid(code) then Fail(InvalidPersonalCode)
    else if amount < MinimumLoanAmount || amount > MaximumLoanAmount then Fail(InvalidLoanAmount)
    else if period < MinimumLoanPeriod || period > MaximumLoanPeriod then Fail(InvalidLoanPeriod)
    else Pass
  }

  /** Expected lifetime by gender: 907 months for men, 1024 for women. */
  function ExpectedLifetime(gender: Gender): (p: Period)
    ensures gender == Male ==> p.TotalMonths() == 907
    ensures gender == Female ==> p.TotalMonths() == 1024
  {
    if gender == Male then ExpectedLifetimeMen else ExpectedLifetimeWomen
  }

  /** The applicant's expected lifetime ends strictly after the loan does. */
  predicate OutlivesLoan(birth: Date, gender: Gender, today: Date, period: int)
    ensures OutlivesLoan(birth, gender, today, period) ==>
              ProlepticMonth(birth) + ExpectedLifetime(gender).TotalMonths() >= ProlepticMonth(today) + period
    ensures ProlepticMonth(birth) + ExpectedLifetime(gender).TotalMonths() > ProlepticMonth(today) + period ==>
              OutlivesLoan(birth, gender, today, period)
  {
    IsBeforeByMonths(PlusMonths(today, period), PlusPeriod(birth, ExpectedLifetime(gender)));
    IsAfter(PlusPeriod(birth, ExpectedLifetime(gender)), PlusMonths(today, period))
  }

  /** The age test on a decoded birth date and gender: under 18 whole years
      is too young, and an expected lifetime ending no later than the loan
      is too old. */
  function AgeVerdict(birth: Date, gender: Gender, today: Date, period: int): (r: Outcome<Failure>)
    ensures r.Pass? <==> WholeYearsBetween(birth, today) >= 18 && OutlivesLoan(birth, gender, today, period)
    ensures WholeYearsBetween(birth, today) < 18 ==> r == Fail(Underage)
    ensures r.Fail? ==> r.error == Underage || r.error == Overage
  {
    if WholeYearsBetween(birth, today) < 18 then Fail(Underage)
    else if !IsAfter(PlusPeriod(birth, ExpectedLifetime(gender)), PlusMonths(today, period)) then Fail(Overage)
    else Pass
  }

  /** `verifyAgeRestriction`, with the clock reading `today` passed in. */
  function VerifyAgeRestriction(lib: CodeLibrary, code: string, period: int, today: Date): (r: Outcome<Failure>)
    ensures r.Fail? ==> r.error.IsAgeError() || r.error.Unchecked?
    ensures ParseBirthDate(code).Failure? ==> r == Fail(ParseBirthDate(code).error)
    ensures ParseBirthDate(code).Success? && lib.genderOf(code).Failure? ==>
              r == Fail(PersonalCodeError(lib.genderOf(code).error))
    ensures r.Pass? <==>
              ParseBirthDate(code).Success? && lib.genderOf(code).Success?
              && AgeVerdict(ParseBirthDate(code).value, lib.genderOf(code).value, today, period).Pass?
  {
    match ParseBirthDate(code)
    case Failure(e) => Fail(e)
    case Success(birth) =>
      match lib.genderOf(code)
      case Failure(message) => Fail(PersonalCodeError(message))
      case Success(gender) => AgeVerdict(birth, gender, today, period)
  }

  /** `highestValidLoanAmount`: the modifier times the period. */
  function HighestValidLoanAmount(modifier: int, period: int): (amount: int)
    requires modifier in {Segment1CreditModifier, Segment2CreditModifier, Segment3CreditModifier}
    requires PeriodInRange(period)
    ensures MinimumLoanPeriod * Segment1CreditModifier <= amount <= MaximumLoanPeriod * Segment3CreditModifier
    ensures amount >= modifier * MinimumLoanPeriod && amount >= Segment1CreditModifier * period
  {
    modifier * period
  }

  /** `calculateApprovedLoan`: the whole pipeline for one request. */
  function CalculateApprovedLoan(lib: CodeLibrary, code: string, amount: int, period: int, today: Date): (r: Result<Decision, Failure>)
    ensures r.Success? ==> lib.isValid(code) && AmountInRange(amount) && PeriodInRange(period)
    ensures r.Success? ==> r.value.loanPeriod == period
    ensures r.Success? ==> r.value.loanAmount in {Segment1CreditModifier * period, Segment2CreditModifier * period, Segment3CreditModifier * period}
  {
    match VerifyInputs(lib, code, amount, period)
    case Fail(e) => Failure(e)
    case Pass =>
      match CreditModifier(code)
      case Failure(e) => Failure(e)
      case Success(modifier) =>
        match VerifyAgeRestriction(lib, code, period, today)
        case Fail(e) => Failure(e)
        case Pass =>
          if modifier == 0 then Failure(NoValidLoan)
          else Success(Decision(HighestValidLoanAmount(modifier, period), period))
  }
}
