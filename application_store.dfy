/**
  The `application` table as an abstract record store: rows keyed by an
  `AUTOINCREMENT` id, written only through the eligibility rule, so that
  every stored decision agrees with the stored numbers.

  SQLite stores integers in signed 64 bits.  Binding a Python integer outside
  that range to a statement raises `OverflowError` before the statement runs,
  and an `AUTOINCREMENT` table whose largest id is the largest 64-bit integer
  refuses further inserts (`SQLITE_FULL`).  Both are modelled as failures that
  leave the table as it was.
 */
module ApplicationStore {
  import opened Strings
  import opened Eligibility

  datatype Option<T> = None | Some(value: T)

  /** Why a statement failed without writing anything. */
  datatype StoreError =
    | IntegerOverflow  // a bound integer does not fit in a signed 64-bit SQLite INTEGER
    | TableFull        // AUTOINCREMENT has used the largest 64-bit id

  datatype Result<T> = Ok(value: T) | Err(error: StoreError)

  datatype Outcome = Pass | Fail(error: StoreError)

  const Int64Min := -0x8000_0000_0000_0000
  const Int64Max := 0x7fff_ffff_ffff_ffff

  /** The integers a statement parameter can carry. */
  predicate FitsInt64(x: int) {
    Int64Min <= x <= Int64Max
  }

  /** One row of the table, apart from its id. */
  datatype Application = Application(
    name: string,
    income: int,
    creditScore: int,
    loanAmount: int,
    status: Status,
    reason: string)

  /** The row a write stores: the submitted fields, approved exactly when the
      three conditions hold, and otherwise rejected with a reason that reads
      back as the failed conditions' messages. */
  function Assess(name: string, income: int, creditScore: int, loanAmount: int): (a: Application)
    ensures a.name == name && a.income == income && a.creditScore == creditScore && a.loanAmount == loanAmount
    ensures a.status == Approved <==> income >= 35000 && creditScore >= 650 && loanAmount <= 5 * income
    ensures a.status == Approved ==> a.reason == "Meets all conditions"
    ensures a.status == Rejected ==> Split(a.reason) == FailureMessages(income, creditScore, loanAmount)
    ensures Decision(a.status, a.reason) == Evaluate(income, creditScore, loanAmount)
  {
    var d := Evaluate(income, creditScore, loanAmount);
    Application(name, income, creditScore, loanAmount, d.status, d.reason)
  }

  /** A row's status and reason are what the rule gives for its own numbers. */
  predicate Consistent(a: Application) {
    Decision(a.status, a.reason) == Evaluate(a.income, a.creditScore, a.loanAmount)
  }

  class ApplicationTable {
    /** The rows, by id. */
    var rows: map<int, Application>
    /** The id the next insert receives (SQLite's `sqlite_sequence` entry plus one). */
    var nextId: int
    /** Every id ever assigned, including those of deleted rows. */
    ghost var issued: set<int>

    ghost predicate Valid()
      reads this
    {
      && 1 <= nextId <= Int64Max + 1
      && (forall id :: id in issued ==> 1 <= id < nextId)
      && rows.Keys <= issued
      && (forall id :: id in rows ==> Consistent(rows[id]))
    }

    /** The empty table that creating the schema gives. */
    constructor ()
      ensures Valid()
      ensures rows == map[] && issued == {} && nextId == 1
    {
      rows := map[];
      nextId := 1;
      issued := {};
    }

    /**
      Inserts a new row with the decision computed from the submitted
      numbers, under an id above every id assigned before, even those of
      deleted rows; every other row is unchanged.  An integer outside 64 bits,
      or an exhausted id sequence, fails and writes nothing.
     */
    method Add(name: string, income: int, creditScore: int, loanAmount: int) returns (r: Result<int>)
      requires Valid()
      modifies this
      ensures Valid()
      ensures r.Ok? <==> FitsInt64(income) && FitsInt64(creditScore) && FitsInt64(loanAmount)
                         && old(nextId) <= Int64Max
      ensures r == Err(IntegerOverflow)
              <==> !(FitsInt64(income) && FitsInt64(creditScore) && FitsInt64(loanAmount))
      ensures r == Err(TableFull)
              <==> FitsInt64(income) && FitsInt64(creditScore) && FitsInt64(loanAmount)
                   && old(nextId) > Int64Max
      ensures r.Err? ==> rows == old(rows) && issued == old(issued) && nextId == old(nextId)
      ensures r.Ok? ==> && r.value == old(nextId) && nextId == old(nextId) + 1
                        && (forall j :: j in old(issued) ==> j < r.value)
                        && r.value !in old(rows)
                        && issued == old(issued) + {r.value}
                        && rows == old(rows)[r.value := Assess(name, income, creditScore, loanAmount)]
    {
      var d := EvaluateApplication(income, creditScore, loanAmount);
      if !(FitsInt64(income) && FitsInt64(creditScore) && FitsInt64(loanAmount)) {
        return Err(IntegerOverflow);
      }
      if nextId > Int64Max {
        return Err(TableFull);
      }
      var id := nextId;
      rows := rows[id := Application(name, income, creditScore, loanAmount, d.status, d.reason)];
      nextId := nextId + 1;
      issued := issued + {id};
      r := Ok(id);
    }

    /**
      Overwrites the six columns of the row with this id, recomputing the
      decision; when no row has this id the table is left as it was.  Other
      rows are untouched either way, and no missing id is reported.  An id or
      number outside 64 bits fails and writes nothing.
     */
    method Edit(id: int, name: string, income: int, creditScore: int, loanAmount: int)
      returns (outcome: Outcome)
      requires Valid()
      modifies this
      ensures Valid()
      ensures issued == old(issued) && nextId == old(nextId)
      ensures outcome == Pass
              <==> FitsInt64(income) && FitsInt64(creditScore) && FitsInt64(loanAmount) && FitsInt64(id)
      ensures outcome != Pass ==> outcome == Fail(IntegerOverflow) && rows == old(rows)
      ensures outcome == Pass ==>
                rows == if id in old(rows) then old(rows)[id := Assess(name, income, creditScore, loanAmount)]
                        else old(rows)
    {
      var d := EvaluateApplication(income, creditScore, loanAmount);
      if !(FitsInt64(income) && FitsInt64(creditScore) && FitsInt64(loanAmount) && FitsInt64(id)) {
        return Fail(IntegerOverflow);
      }
      if id in rows {
        rows := rows[id := Application(name, income, creditScore, loanAmount, d.status, d.reason)];
      }
      outcome := Pass;
    }

    /**
      Removes the row with this id if there is one; a missing id is not an
      error.  An id outside 64 bits fails and writes nothing.
     */
    method Delete(id: int) returns (outcome: Outcome)
      requires Valid()
      modifies this
      ensures Valid()
      ensures issued == old(issued) && nextId == old(nextId)
      ensures outcome == Pass <==> FitsInt64(id)
      ensures outcome != Pass ==> outcome == Fail(IntegerOverflow) && rows == old(rows)
      ensures outcome == Pass ==> rows == old(rows) - {id}
    {
      if !FitsInt64(id) {
        return Fail(IntegerOverflow);
      }
      rows := rows - {id};
      outcome := Pass;
    }

    /**
      The row with this id, or `None` when there is none; a row found is
      consistent.  An id outside 64 bits fails.
     */
    method Get(id: int) returns (found: Result<Option<Application>>)
      requires Valid()
      ensures found.Err? <==> !FitsInt64(id)
      ensures found.Err? ==> found.error == IntegerOverflow
      ensures found.Ok? ==> (found.value.Some? <==> id in rows)
      ensures found.Ok? && found.value.Some? ==> found.value.value == rows[id] && Consistent(found.value.value)
    {
      if !FitsInt64(id) {
        return Err(IntegerOverflow);
      }
      if id in rows {
        found := Ok(Some(rows[id]));
      } else {
        found := Ok(None);
      }
    }

    /** All rows as (id, row) pairs, in no particular order; every listed row is consistent. */
    method List() returns (all: set<(int, Application)>)
      requires Valid()
      ensures forall id, a :: (id, a) in all <==> id in rows && rows[id] == a
      ensures forall p :: p in all ==> Consistent(p.1)
    {
      all := set id | id in rows :: (id, rows[id]);
    }
  }
}
