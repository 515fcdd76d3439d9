/** The ways a loan decision can fail, one constructor per exception the
    engine throws or lets escape. */
module LoanFailures {
  import opened DecisionEngineConstants

  /** Unchecked Java exceptions raised while taking the code apart. */
  datatype RuntimeFault =
    | IndexOutOfBounds   // String.substring past the end of the code
    | NumberFormat       // Integer.parseInt on a non-numeral
    | DateTimeParse      // LocalDate.parse on an impossible month or day

  datatype Failure =
    | InvalidPersonalCode
    | InvalidLoanAmount
    | InvalidLoanPeriod
    | Underage
    | Overage
    | PersonalCodeError(detail: string)   // the personal-code library's own exception
    | NoValidLoan
    | Unchecked(fault: RuntimeFault)
  {
    /** Failures raised by the input validation step. */
    predicate IsInputError() {
      InvalidPersonalCode? || InvalidLoanAmount? || InvalidLoanPeriod?
    }

    /** Failures raised by the age restriction step. */
    predicate IsAgeError() {
      Underage? || Overage? || PersonalCodeError?
    }

    /** The exception message the engine attaches; unchecked exceptions carry
        a library-defined message, left empty here. */
    function Message(): (m: string)
      ensures Unchecked? <==> m == ""
      ensures PersonalCodeError? ==> "Error parsing personal code: " <= m
    {
      match this
      case InvalidPersonalCode => "Invalid personal ID code."
      case InvalidLoanAmount => "Loan amount must be between 2000 and 10000 euros."
      case InvalidLoanPeriod => "Loan period must be between 12 and 60 months."
      case Underage => UnderagedClientMessage
      case Overage => OveragedClientMessage
      case PersonalCodeError(detail) => "Error parsing personal code: " + detail
      case NoValidLoan => "No valid loan found due to low credit score segment."
      case Unchecked(_) => ""
    }
  }
}
