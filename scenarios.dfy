/**
  Request sequences showing what callers of the store can rely on from its
  contracts alone: most start from a fresh table, and the last one works on
  any valid table.
 */
module Scenarios {
  import opened Eligibility
  import opened ApplicationStore

  /** Creating an application and reading it back by the id the insert
      returned gives the submitted fields with the rule's decision on them;
      out-of-range numbers store nothing. */
  method CreateThenGet(name: string, income: int, creditScore: int, loanAmount: int)
    returns (created: Result<int>, stored: Result<Option<Application>>)
    ensures FitsInt64(income) && FitsInt64(creditScore) && FitsInt64(loanAmount)
            ==> created == Ok(1) && stored == Ok(Some(Assess(name, income, creditScore, loanAmount)))
    ensures !(FitsInt64(income) && FitsInt64(creditScore) && FitsInt64(loanAmount))
            ==> created == Err(IntegerOverflow) && stored == Ok(None)
  {
    var table := new ApplicationTable();
    created := table.Add(name, income, creditScore, loanAmount);
    if created.Ok? {
      stored := table.Get(created.value);
    } else {
      // the first id a fresh table would have assigned is still unused
      stored := table.Get(1);
    }
  }

  /** An applicant failing all three conditions is stored as rejected with all
      three messages; an applicant meeting them all is stored as approved. */
  method CreateExamples() returns (alice: Result<Option<Application>>, bob: Result<Option<Application>>)
    ensures alice == Ok(Some(Application("Alice", 20000, 600, 150000, Rejected,
                                         IncomeTooLow + "; " + CreditScoreTooLow + "; " + LoanExceedsLimit)))
    ensures bob == Ok(Some(Application("Bob", 50000, 700, 200000, Approved, "Meets all conditions")))
  {
    Examples();
    var table := new ApplicationTable();
    var a := table.Add("Alice", 20000, 600, 150000);
    var b := table.Add("Bob", 50000, 700, 200000);
    alice := table.Get(a.value);
    bob := table.Get(b.value);
  }

  /** Editing a rejected application to qualifying numbers flips it to approved. */
  method EditFlipsDecision() returns (before: Result<Option<Application>>, after: Result<Option<Application>>)
    ensures before.Ok? && before.value.Some? && before.value.value.status == Rejected
    ensures after == Ok(Some(Application("Alice", 40000, 700, 100000, Approved, "Meets all conditions")))
  {
    var table := new ApplicationTable();
    var id := table.Add("Alice", 20000, 600, 150000);
    before := table.Get(id.value);
    var _ := table.Edit(id.value, "Alice", 40000, 700, 100000);
    after := table.Get(id.value);
  }

  /** Editing an id that was never assigned succeeds and changes nothing. */
  method EditMissingIsNoOp() returns (edited: Outcome, others: Result<Option<Application>>,
                                      missing: Result<Option<Application>>)
    ensures edited == Pass
    ensures others == Ok(Some(Assess("Bob", 50000, 700, 200000)))
    ensures missing == Ok(None)
  {
    var table := new ApplicationTable();
    var id := table.Add("Bob", 50000, 700, 200000);
    edited := table.Edit(id.value + 1, "Mallory", 1, 1, 1);
    others := table.Get(id.value);
    missing := table.Get(id.value + 1);
  }

  /** Editing with an income outside 64 bits fails and leaves the row as it was. */
  method EditOverflowWritesNothing() returns (edited: Outcome, kept: Result<Option<Application>>)
    ensures edited == Fail(IntegerOverflow)
    ensures kept == Ok(Some(Assess("Bob", 50000, 700, 200000)))
  {
    var table := new ApplicationTable();
    var id := table.Add("Bob", 50000, 700, 200000);
    edited := table.Edit(id.value, "Bob", Int64Max + 1, 700, 0);
    kept := table.Get(id.value);
  }

  /** Deleting a row twice leaves it absent, does not fail the second time,
      leaves the other row alone, and the deleted id is not reused. */
  method DeleteTwice(first: Application, other: Application)
    returns (second: Outcome, gone: Result<Option<Application>>,
             kept: Result<Option<Application>>, later: Result<int>, deleted: int)
    requires FitsInt64(first.income) && FitsInt64(first.creditScore) && FitsInt64(first.loanAmount)
    requires FitsInt64(other.income) && FitsInt64(other.creditScore) && FitsInt64(other.loanAmount)
    ensures second == Pass
    ensures gone == Ok(None)
    ensures kept == Ok(Some(Assess(other.name, other.income, other.creditScore, other.loanAmount)))
    ensures later.Ok? && later.value > deleted
  {
    var table := new ApplicationTable();
    var a := table.Add(first.name, first.income, first.creditScore, first.loanAmount);
    deleted := a.value;
    var b := table.Add(other.name, other.income, other.creditScore, other.loanAmount);
    var _ := table.Delete(deleted);
    second := table.Delete(deleted);
    gone := table.Get(deleted);
    kept := table.Get(b.value);
    later := table.Add(first.name, first.income, first.creditScore, first.loanAmount);
  }

  /** On any valid table, a second delete of the same id does not fail and
      leaves the state the first one left. */
  method DeleteIsIdempotent(table: ApplicationTable, id: int) returns (second: Outcome)
    requires table.Valid()
    requires FitsInt64(id)
    modifies table
    ensures table.Valid()
    ensures second == Pass
    ensures table.rows == old(table.rows) - {id}
    ensures table.nextId == old(table.nextId) && table.issued == old(table.issued)
  {
    var _ := table.Delete(id);
    ghost var once := table.rows;
    second := table.Delete(id);
    assert table.rows == once;
  }
}
