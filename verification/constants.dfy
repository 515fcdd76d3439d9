/** The fixed parameters of the decision engine. */
module DecisionEngineConstants {
  import opened Calendar

  const MinimumLoanAmount: int := 2000
  const MaximumLoanAmount: int := 10000
  const MaximumLoanPeriod: int := 60
  const MinimumLoanPeriod: int := 12
  const Segment1CreditModifier: int := 100
  const Segment2CreditModifier: int := 300
  const Segment3CreditModifier: int := 1000

  /** Expected lifetime: 75 years 7 months for men, 85 years 4 months for women. */
  const ExpectedLifetimeMen: Period := Period(75, 7)
  const ExpectedLifetimeWomen: Period := Period(85, 4)
  /** Declared legal age; the engine compares against a literal 18 instead. */
  const LegalAge: Period := Period(18, 0)

  const UnderagedClientMessage: string := "The client is too young."
  const OveragedClientMessage: string := "The client is older than the age limit for this loan."

  /** The bounds form non-empty ranges, the modifiers strictly increase, and
      men's expected lifetime is the shorter one. */
  lemma ConstantsAreConsistent()
    ensures MinimumLoanAmount <= MaximumLoanAmount
    ensures MinimumLoanPeriod <= MaximumLoanPeriod
    ensures 0 < Segment1CreditModifier < Segment2CreditModifier < Segment3CreditModifier
    ensures ExpectedLifetimeMen.TotalMonths() == 907
    ensures ExpectedLifetimeWomen.TotalMonths() == 1024
    ensures ExpectedLifetimeMen.TotalMonths() < ExpectedLifetimeWomen.TotalMonths()
    ensures LegalAge.TotalMonths() == 18 * 12
  {
  }
}
