# Loan application tracker: eligibility rule and application table

This project models the core of a small loan-application tracker written in
Python with Flask and SQLite. The model has two parts.

- **The eligibility rule** (`evaluate_application`). It approves an
  application when income is at least 35000, the credit score is at least 650
  and the loan amount is at most five times the income. Otherwise it rejects
  the application. The reason then joins, with `"; "`, the failure messages of
  exactly the failed conditions, in the order income, credit score, loan
  amount. The model has two forms of the rule. `Eligibility.Evaluate` is the
  rule as a value. `Eligibility.EvaluateApplication` follows the program step
  by step: a list of reasons that grows by one message per failed condition.
  The method is proved equal to the function.
- **The `application` table.** `ApplicationStore.ApplicationTable` holds the
  rows as a map from id to row, plus the next `AUTOINCREMENT` id. A ghost set
  records every id ever assigned. `Add`, `Edit` and `Delete` model the
  INSERT, UPDATE and DELETE that the add, edit and delete handlers run. Each
  write goes through the rule first. The table's invariant says that every
  stored status and reason equal the rule applied to that row's own numbers.

What a reason says is stated on its parts. `Strings.Join` is Python's
`str.join`; `Strings.JoinAppend` shows that it splits over concatenation. `Strings.Split` is Python's `str.split("; ")`. `Strings.SplitJoin`
proves that splitting a joined list gives the list back when no part contains
`;`. So on rejection, `Split(reason)` is exactly the list of failed-condition
messages, in order.

Updating or deleting a missing id is a silent no-op; nothing reports
NotFound. Reading a missing id gives `None`.

SQLite stores integers in signed 64 bits. When a number or an id passed to
a statement does not fit, Python's `sqlite3` raises `OverflowError` before
the statement runs, so nothing is written. Once an `AUTOINCREMENT` table has
used the largest 64-bit id, further inserts fail with `SQLITE_FULL`. The model
returns these failures as `IntegerOverflow` and `TableFull` and leaves the
table unchanged.

Modules: `Strings` (strings.dfy), `Eligibility` (eligibility.dfy),
`ApplicationStore` (application_store.dfy), and `Scenarios` (scenarios.dfy).
`Scenarios` holds request sequences proved from the store's contracts alone.
All but `DeleteIsIdempotent` start from a fresh table; that one works on any
valid table.

## Model

| member | source | states |
|---|---|---|
| `Strings.JoinAppend` | app.py:35 | joining two non-empty lists one after the other equals joining each and putting the separator between them, as `str.join` does |
| `Strings.SplitJoin` | app.py:35 | splitting the `"; "`-join of a non-empty list of `;`-free messages at `"; "` gives back exactly that list, so a joined reason can be read back into its messages |
| `Eligibility.EvaluateApplication` | app.py:23-35 | the step-by-step evaluation (approval test, then one append per failed condition, then the join) returns exactly the rule's decision |
| `Eligibility.FailureMessages` | app.py:28-34 | the accumulated list is empty exactly when all three conditions hold; each message is present exactly when its condition fails; every entry is one of the three messages, in strictly increasing position (fixed order, no repeats); no entry contains `;` |
| `Eligibility.Evaluate` | app.py:23-35 | on rejection, the reason splits back at `"; "` into exactly the list of failed-condition messages; its other properties are the lemmas below |
| `Eligibility.ApprovedExactly` | app.py:25-26 | status is Approved if and only if income >= 35000, credit score >= 650 and loan amount <= 5 x income; in that case the decision is exactly (Approved, "Meets all conditions") |
| `Eligibility.NoSemicolonInMessages` | app.py:26-34 | none of the four reason texts contains `;`, so the separator never appears inside a message |
| `Eligibility.RejectionReasons` | app.py:27-35 | when any condition fails, status is Rejected; the reason is the `"; "`-join of its parts; every part is one of the three failure messages; the parts are in the fixed order with no duplicates; each message is present if and only if its condition fails |
| `Eligibility.RejectionReasonNonEmpty` | app.py:25-35 | a rejection's reason is never empty, because the negated conjunction guarantees at least one append |
| `Eligibility.ReasonDeterminesStatus` | app.py:25-35 | status is Approved if and only if the reason is "Meets all conditions"; no rejection reason equals the approval text |
| `Eligibility.SingleFailure` | app.py:29-35 | when exactly one condition fails, the decision is Rejected and the reason is exactly that condition's message |
| `Eligibility.Examples` | app.py:25-35 | (20000, 600, 150000) is rejected with all three messages in order; (50000, 700, 200000) is approved with "Meets all conditions" |
| `ApplicationStore.Assess` | app.py:51-56 | the row a write builds (also at lines 79-84) holds the submitted name and numbers; its status is Approved exactly when income >= 35000, credit score >= 650 and loan amount <= 5 x income, with reason "Meets all conditions"; otherwise its reason splits back at `"; "` into exactly the failed conditions' messages |
| `ApplicationStore.ApplicationTable.constructor` | app.py:10-19 | creating the table gives an empty table that satisfies the invariant, with no ids assigned |
| `ApplicationStore.ApplicationTable.Add` | app.py:51-57 | a number outside 64 bits fails with IntegerOverflow, and an exhausted id sequence fails with TableFull, both writing nothing; otherwise the new row gets the next AUTOINCREMENT id (line 12), above every id assigned before, even after deletes; the row holds the submitted fields and the rule's status and reason for them; all other rows are unchanged; the invariant is kept |
| `ApplicationStore.ApplicationTable.Edit` | app.py:79-85 | an id or number outside 64 bits fails with IntegerOverflow and writes nothing; otherwise, on an existing id, all six columns are overwritten with the new fields and a freshly computed decision, and on a missing id nothing changes; other rows are untouched either way; the invariant is kept |
| `ApplicationStore.ApplicationTable.Delete` | app.py:93-95 | an id outside 64 bits fails with IntegerOverflow and writes nothing; otherwise the row with that id is removed if present, and a missing id is not an error; all other rows are unchanged; the invariant is kept |
| `ApplicationStore.ApplicationTable.Get` | app.py:88-89 | an id outside 64 bits fails with IntegerOverflow; otherwise gives the row with that id if there is one and `None` otherwise; a row found has status and reason equal to the rule on its numbers |
| `ApplicationStore.ApplicationTable.List` | app.py:64-66 | gives exactly the (id, row) pairs of the table, in no order; every listed row's decision agrees with the rule on its numbers |
| `Scenarios.CreateThenGet` | app.py:51-57 | on a fresh table, the insert returns id 1, and the application read back by the returned id holds the submitted fields and the rule's decision on them; with a number outside 64 bits nothing is stored |
| `Scenarios.CreateExamples` | app.py:51-57 | storing ("Alice", 20000, 600, 150000) gives a rejected row listing all three messages in order; storing ("Bob", 50000, 700, 200000) gives an approved row |
| `Scenarios.EditFlipsDecision` | app.py:79-85 | editing a rejected row to (40000, 700, 100000) stores Approved with "Meets all conditions" |
| `Scenarios.EditMissingIsNoOp` | app.py:82-85 | an UPDATE whose id matches no row succeeds, changes no row and creates none |
| `Scenarios.EditOverflowWritesNothing` | app.py:82-85 | an UPDATE with an income of 2^63 fails with IntegerOverflow and leaves the row as it was |
| `Scenarios.DeleteTwice` | app.py:95 | for any two applications with 64-bit numbers stored in a fresh table, the second delete of the first succeeds; it is then absent, the other row is intact, and a later insert gets an id above the deleted one |
| `Scenarios.DeleteIsIdempotent` | app.py:93-95 | on any valid table and any 64-bit id, a second delete of the same id succeeds and leaves the state the first one left: the rows lose only that id, and the next id and the set of assigned ids are unchanged |

## Left out

- Flask routing, `render_template`, `redirect`, `url_for` and `app.run`: web plumbing with no effect on the data.
- The sqlite3 connections, context managers, SQL text, and the `print` in `init_db`. Only the effect of each statement on the table is modelled.
- Form parsing with `int(request.form[...])`. The operations take the already-parsed integers. A non-numeric field raises an uncaught error in the program, and this is not modelled.
- Row order of `SELECT *` without `ORDER BY`. The engine defines it, so `List` gives a set of (id, row) pairs.
- The GET branch of the edit handler renders `None` for a missing id. Only the lookup itself (`Get`) is modelled.
- The add handler discards the new id. `ApplicationStore.ApplicationTable.Add` returns it so that callers can name the row.
- Other database failures (a locked or unreachable database file, a `name` text that cannot be encoded) are not modelled.
- Status text: the `status` column holds the text "Approved" or "Rejected". The model uses the two-constructor type `Status`.
