/**
  The static eligibility rule that classifies a loan application from its
  income, credit score and requested loan amount.  Python integers are
  unbounded, so `int` is exact here, including the product `5 * income`.
 */
module Eligibility {
  import opened Strings

  const IncomeThreshold := 35000
  const CreditScoreThreshold := 650
  const LoanToIncomeMultiple := 5

  const MeetsAllConditions := "Meets all conditions"
  const IncomeTooLow := "Income too low (< 35000)"
  const CreditScoreTooLow := "Credit score too low (< 650)"
  const LoanExceedsLimit := "Loan amount exceeds 5x income"
  const Separator := "; "

  /** The failure messages in the fixed order in which the rule lists them. */
  const FailureOrder := [IncomeTooLow, CreditScoreTooLow, LoanExceedsLimit]

  /** The `status` column; it holds the constructor's name as text. */
  datatype Status = Approved | Rejected

  /** The `(status, reason)` pair the rule returns. */
  datatype Decision = Decision(status: Status, reason: string)

  /** The position of a failure message in `FailureOrder`, and 3 for any other text. */
  function Rank(message: string): (k: nat)
    ensures k < 3 ==> FailureOrder[k] == message
    ensures k == 3 <==> message !in FailureOrder
  {
    if message == IncomeTooLow then 0
    else if message == CreditScoreTooLow then 1
    else if message == LoanExceedsLimit then 2
    else 3
  }

  /**
    The messages of the failed conditions: empty exactly when all three
    conditions hold; each message present exactly when its condition fails
    (the negation of the approval test); every entry one of the three
    messages, in strictly increasing position, so in the fixed order and
    without repeats; and none containing `;`.
   */
  function FailureMessages(income: int, creditScore: int, loanAmount: int): (ms: seq<string>)
    ensures |ms| == 0 <==> income >= 35000 && creditScore >= 650 && loanAmount <= 5 * income
    ensures forall i :: 0 <= i < |ms| ==> Rank(ms[i]) < 3 && ';' !in ms[i]
    ensures forall i, j :: 0 <= i < j < |ms| ==> Rank(ms[i]) < Rank(ms[j])
    ensures IncomeTooLow in ms <==> income < 35000
    ensures CreditScoreTooLow in ms <==> creditScore < 650
    ensures LoanExceedsLimit in ms <==> loanAmount > 5 * income
  {
    NoSemicolonInMessages();
    (if income < IncomeThreshold then [IncomeTooLow] else [])
    + (if creditScore < CreditScoreThreshold then [CreditScoreTooLow] else [])
    + (if loanAmount > LoanToIncomeMultiple * income then [LoanExceedsLimit] else [])
  }

  /**
    The rule as a value: approval when all three conditions hold, otherwise
    rejection with the joined messages of the failed ones.  A rejection's
    reason splits back at `"; "` into exactly the failure messages.
   */
  function Evaluate(income: int, creditScore: int, loanAmount: int): (d: Decision)
    ensures d.status == Rejected ==> Split(d.reason) == FailureMessages(income, creditScore, loanAmount)
  {
    if income >= IncomeThreshold && creditScore >= CreditScoreThreshold
       && loanAmount <= LoanToIncomeMultiple * income
    then Decision(Approved, MeetsAllConditions)
    else
      var ms := FailureMessages(income, creditScore, loanAmount);
      SplitJoin(ms);
      Decision(Rejected, Join(ms, Separator))
  }

  /**
    The rule as the program runs it: the approval test first; otherwise a
    list of reasons that grows by one message per failed condition, joined
    at the end.
   */
  method EvaluateApplication(income: int, creditScore: int, loanAmount: int)
    returns (d: Decision)
    ensures d == Evaluate(income, creditScore, loanAmount)
  {
    if income >= IncomeThreshold && creditScore >= CreditScoreThreshold
       && loanAmount <= LoanToIncomeMultiple * income {
      return Decision(Approved, MeetsAllConditions);
    }
    var reasons: seq<string> := [];
    if income < IncomeThreshold {
      reasons := reasons + [IncomeTooLow];
    }
    if creditScore < CreditScoreThreshold {
      reasons := reasons + [CreditScoreTooLow];
    }
    if loanAmount > LoanToIncomeMultiple * income {
      reasons := reasons + [LoanExceedsLimit];
    }
    assert reasons == FailureMessages(income, creditScore, loanAmount);
    d := Decision(Rejected, Join(reasons, Separator));
  }

  /** Approval happens exactly when all three conditions hold, and then the
      reason is the fixed text. */
  lemma ApprovedExactly(income: int, creditScore: int, loanAmount: int)
    ensures Evaluate(income, creditScore, loanAmount).status == Approved
            <==> income >= 35000 && creditScore >= 650 && loanAmount <= 5 * income
    ensures income >= 35000 && creditScore >= 650 && loanAmount <= 5 * income
            ==> Evaluate(income, creditScore, loanAmount) == Decision(Approved, "Meets all conditions")
  {
  }

  /** None of the rule's texts contains `;`, so a joined reason splits back cleanly. */
  lemma NoSemicolonInMessages()
    ensures ';' !in MeetsAllConditions
    ensures ';' !in IncomeTooLow && ';' !in CreditScoreTooLow && ';' !in LoanExceedsLimit
  {
  }

  /**
    On rejection the reason reads back, split at `"; "`, as exactly the
    messages of the failed conditions: each message is present if and only if
    its condition fails, every part is one of the three messages, and they
    come in the fixed order income, credit score, loan amount, each at most once.
   */
  lemma RejectionReasons(income: int, creditScore: int, loanAmount: int)
    requires !(income >= 35000 && creditScore >= 650 && loanAmount <= 5 * income)
    ensures Evaluate(income, creditScore, loanAmount).status == Rejected
    ensures var reason := Evaluate(income, creditScore, loanAmount).reason;
      var parts := Split(reason);
      && Join(parts, "; ") == reason
      && (forall i :: 0 <= i < |parts| ==> Rank(parts[i]) < 3)
      && (forall i, j :: 0 <= i < j < |parts| ==> Rank(parts[i]) < Rank(parts[j]))
      && ("Income too low (< 35000)" in parts <==> income < 35000)
      && ("Credit score too low (< 650)" in parts <==> creditScore < 650)
      && ("Loan amount exceeds 5x income" in parts <==> loanAmount > 5 * income)
  {
  }

  /** A rejection always carries a non-empty reason: at least one message is appended. */
  lemma RejectionReasonNonEmpty(income: int, creditScore: int, loanAmount: int)
    requires !(income >= 35000 && creditScore >= 650 && loanAmount <= 5 * income)
    ensures Evaluate(income, creditScore, loanAmount).reason != ""
  {
  }

  /** The reason alone tells the decision apart: no rejection reason reads
      "Meets all conditions". */
  lemma ReasonDeterminesStatus(income: int, creditScore: int, loanAmount: int)
    ensures Evaluate(income, creditScore, loanAmount).status == Approved
            <==> Evaluate(income, creditScore, loanAmount).reason == "Meets all conditions"
  {
    if !(income >= 35000 && creditScore >= 650 && loanAmount <= 5 * income) {
      RejectionReasons(income, creditScore, loanAmount);
      NoSemicolonInMessages();
      SplitWhole(MeetsAllConditions);
    }
  }

  /** Exactly one failed condition gives exactly that condition's message as the reason. */
  lemma SingleFailure(income: int, creditScore: int, loanAmount: int)
    ensures income < 35000 && creditScore >= 650 && loanAmount <= 5 * income
            ==> Evaluate(income, creditScore, loanAmount) == Decision(Rejected, "Income too low (< 35000)")
    ensures income >= 35000 && creditScore < 650 && loanAmount <= 5 * income
            ==> Evaluate(income, creditScore, loanAmount) == Decision(Rejected, "Credit score too low (< 650)")
    ensures income >= 35000 && creditScore >= 650 && loanAmount > 5 * income
            ==> Evaluate(income, creditScore, loanAmount) == Decision(Rejected, "Loan amount exceeds 5x income")
  {
  }

  /** The rule applied to two example applicants: one failing every condition,
      whose reason lists all three messages in order, and one meeting all of them. */
  lemma Examples()
    ensures Evaluate(20000, 600, 150000)
            == Decision(Rejected, IncomeTooLow + "; " + CreditScoreTooLow + "; " + LoanExceedsLimit)
    ensures Evaluate(50000, 700, 200000) == Decision(Approved, "Meets all conditions")
  {
    assert FailureMessages(20000, 600, 150000) == FailureOrder;
    assert Join(FailureOrder[1..], Separator) == CreditScoreTooLow + Separator + LoanExceedsLimit;
  }
}
