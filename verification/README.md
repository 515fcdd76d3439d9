# Loan decision engine — Dafny model

This project models the decision core of a small loan backend. The core is
`DecisionEngine.calculateApprovedLoan` together with the constants it reads.
It takes an Estonian personal code, a requested amount in euros and a requested
period in months. It returns an approved amount and period, or exactly one
failure. The steps run in a fixed order:

1. **Input validation.** The code goes to the external validator, then the
   amount is checked against [2000, 10000], then the period against [12, 60].
2. **Credit modifier.** The last four characters give the segment value. Below
   2500 the modifier is 0, below 5000 it is 100, below 7500 it is 300, and
   otherwise it is 1000.
3. **Age restriction.** The birth date is decoded from the first seven
   characters and the gender comes from the external parser. The applicant is
   rejected if their whole-year age (`Period.between`) is under 18. They are
   also rejected if birth date plus expected lifetime (75y7m for men, 85y4m for
   women) is not strictly after today plus the loan period.
4. **Sizing.** A zero modifier fails with "no valid loan". Otherwise the
   approved amount is modifier × period, for the requested period.

Modules:

- `Results`: option and result types.
- `Calendar`: dates and java.time's `plusMonths`, `plus(Period)`, `isAfter` and
  `Period.between(...).getYears()`.
- `Numerals`: `Integer.parseInt`.
- `DecisionEngineConstants`: the configuration constants.
- `LoanFailures`: one failure constructor per exception.
- `PersonalCode`: segment value, credit modifier and birth-date decoding.
- `DecisionEngine`: the pipeline.
- `EngineProperties`: lemmas about the pipeline.

Parameters stand in for the parts of the core that cannot be modelled:

- The personal-code library is the `CodeLibrary` parameter. It holds an
  arbitrary validity predicate and an arbitrary gender lookup that may fail
  with a message.
- The clock read `LocalDate.now()` is the `today` parameter.

How the engine decodes a personal code:

- **Century indicator.** In the Estonian personal code (isikukood) format,
  indicators `1`/`2` mean the 1800s, `3`/`4` the 1900s and `5`/`6` the
  2000s. This code gives 1900 for `3`/`4` and 2000 for every other first
  character, so it reads `1`/`2` as the 2000s
  (`EngineProperties.IndicatorOneReadAsTwoThousands`).
- **Impossible day.** `LocalDate.parse` with `ofPattern("yyyy-MM-dd")` uses the
  smart resolver. It accepts any day 1–31 and moves a day past the month's end
  back to the last day, so 30 February becomes 28 or 29 February
  (`EngineProperties.ImpossibleDayMovedBack`). Only a month outside 1–12, a
  day outside 1–31 or a non-digit field fails.
- **Decoding failures.** A code that the validator accepts but that is too
  short, or not numeric where it is parsed, raises an unchecked Java
  exception that escapes the engine. The model reports these as
  `Unchecked(IndexOutOfBounds | NumberFormat | DateTimeParse)`. A failed
  gender lookup is wrapped as `PersonalCodeError`.

## Model

| member | source | states |
|---|---|---|
| Calendar.LengthOfMonth | src/main/java/ee/taltech/inbankbackend/service/DecisionEngine.java:94 | a month has 28–31 days, and 29 exactly for February of a leap year |
| Calendar.IsBeforeByMonths | src/main/java/ee/taltech/inbankbackend/service/DecisionEngine.java:95 | `isAfter` orders dates by month count since year 0, then by day |
| Calendar.PlusMonths | src/main/java/ee/taltech/inbankbackend/service/DecisionEngine.java:94 | `plusMonths(n)` lands exactly n months later and keeps the day, unless the day exceeds the new month's length, in which case it is that month's last day |
| Calendar.PlusMonthsStrictlyIncreasing | src/main/java/ee/taltech/inbankbackend/service/DecisionEngine.java:94-95 | adding more months gives a strictly later date |
| Calendar.PlusMonthsMonotone | src/main/java/ee/taltech/inbankbackend/service/DecisionEngine.java:94 | adding the same months to two dates keeps their order |
| Calendar.PlusMonthsRoundTrip | src/main/java/ee/taltech/inbankbackend/service/DecisionEngine.java:94 | if the day of month is kept, subtracting the same months gives back the original date |
| Calendar.PlusPeriod | src/main/java/ee/taltech/inbankbackend/service/DecisionEngine.java:95 | `plus(Period)` moves the date by the period's total months and keeps the day, moved back to the month's last day when needed |
| Calendar.IsAfter | src/main/java/ee/taltech/inbankbackend/service/DecisionEngine.java:95 | `isAfter` is a strict total order: of two distinct dates exactly one is after the other |
| Calendar.PeriodMonthsBetween | src/main/java/ee/taltech/inbankbackend/service/DecisionEngine.java:86 | the month count of `Period.between` is the calendar-month difference, adjusted by at most one; it is non-negative from the start date on and non-positive before it |
| Calendar.WholeYearsBetween | src/main/java/ee/taltech/inbankbackend/service/DecisionEngine.java:86-90 | `getYears()` is non-negative from the start date on and non-positive before it |
| Calendar.WholeYearsIsBirthdayAge | src/main/java/ee/taltech/inbankbackend/service/DecisionEngine.java:86-90 | from the birth date on, `Period.between(...).getYears()` equals the year difference minus one if this year's birthday has not come |
| Calendar.AgeReachedOnAnniversary | src/main/java/ee/taltech/inbankbackend/service/DecisionEngine.java:86-90 | the age is at least n exactly when today is not before the n-th anniversary's month and day |
| Calendar.LeapDayBirthAge | src/main/java/ee/taltech/inbankbackend/service/DecisionEngine.java:86-90 | someone born 29 Feb 2004 is 17 on 28 Feb 2022, although birth date plus 216 months is that day |
| Numerals.DigitsValue | src/main/java/ee/taltech/inbankbackend/service/DecisionEngine.java:45 | an n-digit numeral's value is below 10^n |
| Numerals.ParseInt | src/main/java/ee/taltech/inbankbackend/service/DecisionEngine.java:45 | `Integer.parseInt` yields a 32-bit value whose magnitude is below 10^(digits) |
| Numerals.ParseIntOfDigits | src/main/java/ee/taltech/inbankbackend/service/DecisionEngine.java:45 | a plain digit string parses to the number it spells |
| Numerals.ParseIntRejectsNonDigit | src/main/java/ee/taltech/inbankbackend/service/DecisionEngine.java:45 | a non-digit anywhere but a leading sign makes parsing fail |
| Numerals.DigitsValueOfFixedDigits | src/main/java/ee/taltech/inbankbackend/service/DecisionEngine.java:77 | reading a zero-padded two-digit month or day field gives back its number |
| Numerals.ParseIntOfFixedDigits | src/main/java/ee/taltech/inbankbackend/service/DecisionEngine.java:75 | `Integer.parseInt` inverts zero-padding |
| LoanFailures.Failure.Message | src/main/java/ee/taltech/inbankbackend/service/DecisionEngine.java:33-99 | every failure the engine raises itself carries a non-empty message; unchecked exceptions carry none here; a failed gender lookup's message starts with "Error parsing personal code: " |
| DecisionEngineConstants.ConstantsAreConsistent | src/main/java/ee/taltech/inbankbackend/config/DecisionEngineConstants.java:8-21 | 2000 ≤ 10000, 12 ≤ 60, 0 < 100 < 300 < 1000, lifetimes of 907 and 1024 months with men's shorter, legal age 216 months |
| PersonalCode.SegmentKey | src/main/java/ee/taltech/inbankbackend/service/DecisionEngine.java:45 | the segment value is the number in the last four characters, in (−1000, 10000); a code under four characters fails with an index error |
| PersonalCode.SegmentKeyOfSuffix | src/main/java/ee/taltech/inbankbackend/service/DecisionEngine.java:45 | a code ending in a four-digit numeral has that number as segment value |
| PersonalCode.ModifierForSegment | src/main/java/ee/taltech/inbankbackend/service/DecisionEngine.java:46-49 | a segment value in a tier's range gets that tier's modifier |
| PersonalCode.CreditModifier | src/main/java/ee/taltech/inbankbackend/service/DecisionEngine.java:44-50 | a code whose segment value lies in a tier's range gets that tier's modifier (0, 100, 300 or 1000); it fails exactly when the segment value cannot be read, with that read's own runtime fault |
| PersonalCode.ModifierFollowsTier | src/main/java/ee/taltech/inbankbackend/service/DecisionEngine.java:46-49 | a segment value gets a tier's modifier exactly when it lies in that tier's range: [..2500) gives 0, [2500, 5000) gives 100, [5000, 7500) gives 300, [7500..) gives 1000 |
| PersonalCode.ModifierMonotone | src/main/java/ee/taltech/inbankbackend/service/DecisionEngine.java:46-49 | the modifier is non-decreasing in the segment value |
| PersonalCode.Century | src/main/java/ee/taltech/inbankbackend/service/DecisionEngine.java:72-74 | the century is 1900 exactly for indicator '3' or '4', and 2000 otherwise |
| PersonalCode.ResolveDate | src/main/java/ee/taltech/inbankbackend/service/DecisionEngine.java:77 | parsing succeeds exactly for two-digit month 1–12 and day 1–31; the month is kept and the day is kept or moved back to the month's last day |
| PersonalCode.ParseBirthDate | src/main/java/ee/taltech/inbankbackend/service/DecisionEngine.java:67-78 | codes under seven characters fail with an index error; a decoded year lies between the century − 9 and the century + 99 (a signed year field such as `-9` is accepted), and with a digit year field it is century plus that field |
| PersonalCode.BirthDateRoundTrip | src/main/java/ee/taltech/inbankbackend/service/DecisionEngine.java:67-78 | decoding indicator + yy + mm + dd gives back any date in the indicator's century |
| PersonalCode.DecodeComposedCode | src/main/java/ee/taltech/inbankbackend/service/DecisionEngine.java:44-78 | the birth-date and segment decoders both recover what a code was built from |
| DecisionEngine.VerifyInputs | src/main/java/ee/taltech/inbankbackend/service/DecisionEngine.java:52-65 | passes exactly for a valid code, amount in [2000, 10000] and period in [12, 60]; otherwise the first failing check (code, amount, period) is the failure |
| DecisionEngine.ExpectedLifetime | src/main/java/ee/taltech/inbankbackend/service/DecisionEngine.java:87-88 | men get 907 months (75y7m), women 1024 months (85y4m) |
| DecisionEngine.OutlivesLoan | src/main/java/ee/taltech/inbankbackend/service/DecisionEngine.java:94-95 | the lifetime test passes when the lifetime's end month is after the loan's end month, and fails when it is before |
| DecisionEngine.AgeVerdict | src/main/java/ee/taltech/inbankbackend/service/DecisionEngine.java:86-97 | passes exactly when the age is at least 18 and expected lifetime ends strictly after the loan; under 18 is always the underage failure |
| DecisionEngine.VerifyAgeRestriction | src/main/java/ee/taltech/inbankbackend/service/DecisionEngine.java:80-101 | passes exactly when the birth date decodes, the gender lookup succeeds and the age verdict passes; a decoding fault is returned as is, and a failed gender lookup as PersonalCodeError with the library's message |
| DecisionEngine.HighestValidLoanAmount | src/main/java/ee/taltech/inbankbackend/service/DecisionEngine.java:40-42 | the approved amount lies in [1200, 60000] and is at least 12 × the modifier and 100 × the period |
| DecisionEngine.CalculateApprovedLoan | src/main/java/ee/taltech/inbankbackend/service/DecisionEngine.java:25-38 | an approval implies valid inputs, the requested period, and an amount of 100, 300 or 1000 times the period |
| EngineProperties.InvalidCodeFailsFirst | src/main/java/ee/taltech/inbankbackend/service/DecisionEngine.java:52-56 | a rejected code gives InvalidPersonalCode for every amount, period and date |
| EngineProperties.InvalidAmountBeforePeriod | src/main/java/ee/taltech/inbankbackend/service/DecisionEngine.java:57-60 | with a valid code, an amount below 2000 or above 10000 gives InvalidLoanAmount, whatever the period |
| EngineProperties.InvalidPeriodAfterAmount | src/main/java/ee/taltech/inbankbackend/service/DecisionEngine.java:61-64 | with a valid code and amount, a period below 12 or above 60 gives InvalidLoanPeriod |
| EngineProperties.ValidationBoundsInclusive | src/main/java/ee/taltech/inbankbackend/service/DecisionEngine.java:57-64 | for a valid code, validation passes exactly on [2000, 10000] × [12, 60] |
| EngineProperties.InputFailureIff | src/main/java/ee/taltech/inbankbackend/service/DecisionEngine.java:28 | the result is a validation failure exactly when some input check fails |
| EngineProperties.ApprovalCharacterised | src/main/java/ee/taltech/inbankbackend/service/DecisionEngine.java:25-41 | approval holds exactly when validation passes, the segment value is readable with a non-zero modifier, and the age checks pass; the decision is modifier × period for the requested period |
| EngineProperties.AgeFailuresInPipeline | src/main/java/ee/taltech/inbankbackend/service/DecisionEngine.java:28-34 | with valid inputs and a decoded code, the result is Underage exactly when the age is under 18, and Overage exactly when the applicant is adult but the lifetime test fails |
| EngineProperties.DecisionForComposedCode | src/main/java/ee/taltech/inbankbackend/service/DecisionEngine.java:25-41 | for a code built from a birth date and segment value that the library accepts, with valid amount and period: Underage below 18 years, Overage for an adult who does not outlive the loan, otherwise NoValidLoan for a zero modifier and modifier × period for the requested period |
| EngineProperties.LaterFailuresPropagate | src/main/java/ee/taltech/inbankbackend/service/DecisionEngine.java:28-30 | after validation, an unreadable segment value's fault is the result, ahead of any age step; with a readable segment, a failing age step (decoding fault, gender-lookup failure, under- or overage) is the result |
| EngineProperties.RequestedAmountIrrelevant | src/main/java/ee/taltech/inbankbackend/service/DecisionEngine.java:28-37 | any two in-range amounts give the same result |
| EngineProperties.AgeChecksBeforeNoValidLoan | src/main/java/ee/taltech/inbankbackend/service/DecisionEngine.java:29-34 | with a segment value below 2500, NoValidLoan comes exactly when the age checks pass; otherwise their failure is returned |
| EngineProperties.ApprovedAmountBounds | src/main/java/ee/taltech/inbankbackend/service/DecisionEngine.java:36-41 | approved amounts lie in [1200, 60000], so the `int` product does not wrap |
| EngineProperties.MaleLifetimeImpliesFemale | src/main/java/ee/taltech/inbankbackend/config/DecisionEngineConstants.java:16-19 | for the same birth date, today and period, passing the lifetime test with men's lifetime implies passing it with women's |
| EngineProperties.ShorterLoanStillOutlived | src/main/java/ee/taltech/inbankbackend/service/DecisionEngine.java:94-97 | if the lifetime test passes for a period, it passes for every shorter one |
| EngineProperties.UnderageUntilEighteenthBirthday | src/main/java/ee/taltech/inbankbackend/service/DecisionEngine.java:90-92 | the underage failure comes exactly while today is before the 18th anniversary's month and day |
| EngineProperties.UnderageThresholdIsLegalAge | src/main/java/ee/taltech/inbankbackend/config/DecisionEngineConstants.java:20-21 | the underage failure comes exactly when the whole-year age is below the declared legal age of 18 years |
| EngineProperties.LowSegmentNeverApproved | src/main/java/ee/taltech/inbankbackend/service/DecisionEngine.java:32-34 | a segment value below 2500 never yields a loan |
| EngineProperties.ScenarioBothInputsOutOfRange | src/main/java/ee/taltech/inbankbackend/service/DecisionEngine.java:57-64 | amount 10 with period 10 reports the amount |
| EngineProperties.ScenarioSegmentTwoApproved | src/main/java/ee/taltech/inbankbackend/service/DecisionEngine.java:25-41 | an adult man in segment 5007 asking for 12 months gets 3600 euros for 12 months |
| EngineProperties.ScenarioUnderage | src/main/java/ee/taltech/inbankbackend/service/DecisionEngine.java:86-92 | an applicant aged 16 is rejected as underage |
| EngineProperties.ScenarioOverage | src/main/java/ee/taltech/inbankbackend/service/DecisionEngine.java:94-97 | a woman whose 85y4m ends before the loan does is rejected as overage, ahead of her low segment |
| EngineProperties.ScenarioLowSegment | src/main/java/ee/taltech/inbankbackend/service/DecisionEngine.java:32-34 | segment value 1008 with acceptable inputs gives NoValidLoan |
| EngineProperties.IndicatorOneReadAsTwoThousands | src/main/java/ee/taltech/inbankbackend/service/DecisionEngine.java:74 | a code starting 1850101 decodes to 1 January 2085 |
| EngineProperties.ImpossibleDayMovedBack | src/main/java/ee/taltech/inbankbackend/service/DecisionEngine.java:77 | a code starting 3900230 decodes to 28 February 1990 |

## Left out

- The personal-code library (`EstonianPersonalCodeValidator.isValid`, `EstonianPersonalCodeParser.getGender`): its checksum and gender rules are a foreign implementation. The model takes both as arbitrary functions in `CodeLibrary`.
- `LocalDate.now()`: a clock read, passed in as `today`. It is read once per decision.
- The unused `creditModifier` argument of `verifyAgeRestriction` is dropped.
- `LEGAL_AGE` is declared but the code compares against a literal 18. The model uses 18 too, and `EngineProperties.UnderageThresholdIsLegalAge` shows the two agree.
- `Integer.parseInt` also accepts non-ASCII Unicode decimal digits. The model accepts ASCII digits only.
- java.time's year range (±999,999,999) and the `DateTimeException` past it are not modelled. Years here are unbounded.
- The printing and re-parsing of the year in `parseBirthDate` is modelled as passing the year through unchanged. The decoded year always has four digits (1891–2099), so the `yyyy` field reads it back exactly.
- A `null` boxed `Long` amount (a `NullPointerException`) is not modelled. The amount is an unbounded integer.
- The months and days parts of `Period.between` are not modelled: only `getYears()` is read.
- The days part of `Period` is not modelled: all three constants have zero days.
- The `Decision` error-message field is always `null` on success and is not modelled. Unchecked exceptions carry library-defined messages, which are modelled as empty.
- Java's `length()` and `substring` count UTF-16 units, while the model indexes a string by character. The two differ only for codes containing characters outside the Basic Multilingual Plane, which the real validator rejects.
- Spring wiring, the HTTP controller and its status mapping are not part of this model.
- Determinism for identical inputs holds because `CalculateApprovedLoan` is a function, so no separate lemma states it.
- DecisionEngine.HighestValidLoanAmount: its own contract gives only bounds. A clause stating the exact product would just restate the body, and `EngineProperties.ApprovalCharacterised` already states the exact amount.
