# Compliance data validation engine — a Dafny model

This project models the validation engine of a compliance-reporting
application. Before any regulatory report is generated, the engine checks the
store of five tables: transactions, the product master, customer licenses,
the MME (morphine milligram equivalent) reference data and warehouses. It
checks referential integrity and the regulatory business rules. The checks
run one after another inside a single database transaction. Two checks also
normalise data: the warehouse TIN cleaning and the MME factor assignment.

The model has these parts:

- `Models` holds the rows of the five tables, with only the columns the
  engine touches. `Tables` is the whole store as one value. Dates are day
  numbers. Floating-point strengths and conversion factors are an abstract
  type `Measure` that supports only equality.
- `Checks` holds the structured validation errors (one variant per raised
  exception) and `Checked`. A `Checked` is what one validator produces: its
  result (the updated tables or an error), the progress values it reports,
  and the tables it commits part-way through, if any.
- The validators of `DataValidator` are pure functions from tables to
  `Checked`:
  - `EnumCheck`: the Y/N report-inclusion flags;
  - `ForeignKeys`: the two left anti-joins;
  - `Licenses`: the license format and coverage check;
  - `TinConsistency`: TIN cleaning and the TIN/identity bijection;
  - `Mme`: MME factor assignment and validation.
- `UnitOfWork` models `TransMgmt.transaction`. It is generic over the store
  contents and the exception type. The body is a script of operations: stage
  new contents, commit part-way through, or raise. The manager's own calls
  (commit, rollback, close) follow a phase machine.
- `Orchestrator` models the sequential validation loop of the worker. It
  resolves method names to validators, turns each validator's output into
  body operations, and runs them in one transaction.
- `Exceptions` models the constructors that build user messages:
  - the fallback to the technical message;
  - friendly table names;
  - the classes that overwrite the caller's message;
  - the enum, duplicate-sheet and missing-column messages.
- `Text` and `Seqs` are helpers: lexicographic order, sorting with duplicates
  removed, join/split, Python's `str.replace`, counting and summing.

Where the source's docstrings and log messages promise more than its code
does, the model follows the code:

- The license "format" check tests only the length (7), not that the
  characters are digits, although data_validator.py:320, 420 and 426 speak
  of "exactly 7 digits" (`Licenses.FormatCheckIgnoresDigits`).
- The log line "All transactions have exactly one valid customer license."
  (data_validator.py:522) overclaims in two ways:
  - The ambiguity check groups by transaction id, so it skips sales whose
    id is NULL. A NULL-id sale with two covering licenses passes
    (`Licenses.NullIdEscapesAmbiguity`, and the finding below). The license
    check follows the code as written.
  - Coverage is stricter than "exactly one covering license". A sale fails
    as soon as one of its customer's license rows does not cover its date.
    So a customer with an expired license and a renewal that covers the
    date is reported as missing (`Licenses.RenewalReportedMissing`).
- With sales in scope and an empty license table, the format check raises
  `KeyError` after progress 33, instead of reporting missing coverage
  (data_validator.py:437-439). pandas reads the empty license table with
  object-typed columns. The per-row length test then yields an empty object
  Series. Indexing the frame with that Series selects an empty list of
  columns rather than masking rows. So the trailing `["license_number"]`
  finds no such column, and neither `except` clause at 401-414 surrounds
  the format check (`Licenses.ValCustomerLicenses`).
- With no in-scope sale, the license check passes without looking at the
  license numbers (data_validator.py:378-384).
- The TIN cleaning removes only dashes (data_validator.py:528).
- The transaction manager's docstring promises that all operations "commit
  together or rollback together" (db_manager.py:124). The TIN cleaning,
  however, commits part-way through the run. A later failure therefore does
  not roll the cleaned TINs back (`Orchestrator.CleaningSurvivesLaterFailure`).
- The MME check reports progress 100 before it raises for missing factors,
  although data_validator.py:683 places 100 at "validation complete".
- The transaction manager promises to re-raise the exception
  (db_manager.py:132). Yet a rollback that itself raises replaces the
  exception that caused it (`UnitOfWork.RollsBackOnRaise`).

## Model

| member | source | states |
|---|---|---|
| EnumCheck.Offenders | data_validator.py:122-136 | exactly the product codes whose flag in the column is NULL or neither "Y" nor "N" |
| EnumCheck.Details | data_validator.py:117-139 | one entry per visited column with offenders; each entry lists exactly that column's offending codes; every offending (product, visited column) has an entry |
| EnumCheck.AllColumnsVisited | data_validator.py:105-115 | the check visits all four flag columns |
| EnumCheck.AllOffencesListed | data_validator.py:105-139 | since all four columns are visited, every offending (product, column) pair has an entry |
| EnumCheck.EntriesIffOffence | data_validator.py:117-146 | the details have an entry iff some product offends in some column |
| EnumCheck.ValEnumColumns | data_validator.py:70-153 | fails iff some product has an invalid flag in some column; the error covers every offending column and lists exactly its offenders; tables unchanged; progress 50 per column, then 100 only on success |
| EnumCheck.EnumProgress | data_validator.py:132-153 | the progress is well formed and reaches 100 iff the check passes |
| ForeignKeys.Orphans | data_validator.py:192-206 | left anti-join: no duplicates, and x is listed iff it is a child value and not a parent key |
| ForeignKeys.ValWarehouseDeaNumbers | data_validator.py:155-235 | fails iff some transaction's registrant number has no warehouse; reports exactly the distinct such numbers; progress 0, 50, then 100 on success |
| ForeignKeys.ValNdcInSalesData | data_validator.py:237-311 | fails iff some transaction's product code is not in the product master; reports exactly the distinct such codes; progress 0, 66, then 100 on success |
| Licenses.InScopeSales | data_validator.py:356-377 | exactly the sales shipped to "ST1" of products flagged "Y" for the New York reports |
| Licenses.IncorrectLicenseNumbers | data_validator.py:436-439 | a license number is listed iff its length is not 7 |
| Licenses.FormatCheckIgnoresDigits | data_validator.py:436-439 | licenses whose numbers all have seven characters pass the format check, even when a number holds a character that is not a digit |
| Licenses.LengthsPass | data_validator.py:436-439 | licenses whose numbers all have seven characters produce no finding |
| Licenses.MissingRowsSound | data_validator.py:488-503 | every row with `is_valid` false comes from an uncovered sale: its customer has no license row, or has one that does not cover the date |
| Licenses.MissingRowsComplete | data_validator.py:488-503 | every uncovered sale yields a row with `is_valid` false |
| Licenses.KeepFirstSound | data_validator.py:501-503 | `drop_duplicates` keeps only rows that are the first of their transaction id |
| Licenses.KeepFirstDistinct | data_validator.py:501-503 | no two kept rows share a transaction id |
| Licenses.KeepFirstComplete | data_validator.py:501-503 | every transaction id present is kept |
| Licenses.MissingReport | data_validator.py:500-511 | non-empty iff some sale is uncovered; transaction ids are distinct |
| Licenses.MissingReportSound | data_validator.py:500-511 | every reported row is the report of an uncovered sale |
| Licenses.MissingReportComplete | data_validator.py:500-511 | the transaction id of every uncovered sale is reported |
| Licenses.CoveredOnce | data_validator.py:496-498 | a sale's covering count is positive iff some license row of its customer covers its date |
| Licenses.CoveredTwice | data_validator.py:514-515 | a sale's covering count exceeds one iff two distinct license rows cover it |
| Licenses.ValidRowsForAmbiguous | data_validator.py:514-515 | the valid group of a transaction id has more than one row iff two distinct valid merged rows carry that id |
| Licenses.PresentIds | data_validator.py:514 | the transaction ids that are not NULL: every present id is listed and nothing else |
| Licenses.AmbiguousTids | data_validator.py:514-518 | exactly the present transaction ids that are ambiguous, in ascending order; NULL ids take no part |
| Licenses.MergeSalesWithLicenses | data_validator.py:454-522 | the missing-coverage error iff some sale is uncovered, with the deduplicated report; otherwise the ambiguity error iff some present id is ambiguous, with exactly those ids sorted; passing means every sale has a covering license, exactly one when its id is not NULL |
| Licenses.MergeSalesWithLicensesGroupingNulls | data_validator.py:513-518 | with NULL ids grouped together: the ambiguity error iff some key, NULL included, is ambiguous, flagging the NULL group iff it is; passing means every sale has exactly one covering license |
| Licenses.GroupingNullsAgreesWithoutNulls | data_validator.py:513-518 | when every sale has an id, grouping NULLs changes nothing |
| Licenses.NullIdEscapesAmbiguity | data_validator.py:513-518 | a NULL-id sale with two covering licenses passes the step as written; the corrected step reports an ambiguous NULL group |
| Licenses.ExactlyOneCovering | data_validator.py:500-522 | a covered sale whose transaction id is not ambiguous has exactly one covering license |
| Licenses.ValCustomerLicenses | data_validator.py:313-439 | passes at once with no in-scope sale; with sales in scope, an empty license table fails with `KeyError` and a license number of the wrong length fails, both before coverage and after progress 33 only; then the coverage step decides; tables unchanged; progress 33, 66, 100 cut at the failure point |
| Licenses.EmptyLicenseTableRaisesKeyError | data_validator.py:430-439 | with a sale in scope and no license rows, the check fails with `KeyError` after progress 33, where the coverage step alone would report every in-scope sale as missing |
| Licenses.PassingMeansExactlyOneLicense | data_validator.py:313-416 | when the check passes, every in-scope sale has a covering license, exactly one when its id is not NULL, and every license number has length 7 |
| Licenses.RenewalReportedMissing | data_validator.py:496-511 | an expired license plus a renewal covering the date counts one covering row, yet the sale is reported as missing |
| TinConsistency.CleanTin | data_validator.py:544 | the cleaned TIN has no dash and keeps every other character with its multiplicity |
| TinConsistency.CleanTinIdempotent | data_validator.py:544 | cleaning a cleaned TIN changes nothing |
| TinConsistency.CleanWarehouses | data_validator.py:543-551 | every warehouse keeps all columns but the TIN, which is cleaned |
| TinConsistency.UnexpectedTins | data_validator.py:543-547 | an original TIN is listed iff its cleaned form is not nine digits |
| TinConsistency.CleanTinValues | data_validator.py:524-565 | writes back the cleaned TINs and changes nothing else; commits iff no cleaned TIN is malformed; lists exactly the malformed originals |
| TinConsistency.CleanTinValuesIdempotent | data_validator.py:543-551 | cleaning the cleaned tables stages the same tables |
| TinConsistency.ConflictingTinsPairwise | data_validator.py:616-631 | a TIN is reported iff two warehouses carry it with different identities |
| TinConsistency.ConflictingInfosPairwise | data_validator.py:617-640 | an identity is reported iff two warehouses carry it with different TINs |
| TinConsistency.NoConflictsIffBijective | data_validator.py:605-642 | both conflict groups are empty iff TINs and identities are in one-to-one correspondence |
| TinConsistency.ValWarehouseConsistency | data_validator.py:567-651 | a malformed TIN fails before any progress and nothing is committed; otherwise the cleaning is committed and the check fails iff the cleaned TINs are not a bijection with the identities, reporting both conflict groups; progress 0, 50, then 100 on success |
| Mme.Prefix9 | data_validator.py:697 | the first nine characters, or the whole code when it is shorter |
| Mme.LookupFactorSpec | data_validator.py:698-731 | no reference row for the prefix; ambiguous iff two rows match prefix and strength; a match takes the factor of the only matching row; mismatch iff rows for the prefix exist but none has the strength |
| Mme.LookupIgnoresFactor | data_validator.py:697-709 | a product's lookup does not depend on its current factor |
| Mme.Assign | data_validator.py:727-728 | a unique match sets the factor; nothing else changes |
| Mme.FirstAmbiguousFrom | data_validator.py:695-726 | finds the first product whose lookup is ambiguous, or proves there is none |
| Mme.AssignAll | data_validator.py:695-733 | every product after its own lookup |
| Mme.MismatchRecords | data_validator.py:730-733 | exactly the (code, strength) pairs of the mismatching products, one per product |
| Mme.MissingFactors | data_validator.py:736-747 | exactly the New York flagged products without a factor |
| Mme.CheckMissingFactors | data_validator.py:735-787 | fails iff a New York flagged product still lacks a factor after the sweep, listing exactly those; on success the products carry their assigned factors and every New York product has one |
| Mme.ConcludeSweep | data_validator.py:749-787 | a mismatch error iff some product mismatches, listing exactly those pairs, raised before the missing-factor check; 100 is reported unless there is a mismatch |
| Mme.LookupAfterAssign | data_validator.py:697-728 | assigning a factor does not change the product's lookup |
| Mme.AssignAllIdempotent | data_validator.py:695-733 | assigning the factors twice is the same as once |
| Mme.AppendAndValMme | data_validator.py:653-793 | stops at the first ambiguous product, whose code and strength it reports, with one 50 per earlier match; otherwise the sweep runs to the end; no inner commit |
| Mme.MissingAfterAssign | data_validator.py:735-747 | after the sweep, exactly the New York products that had no factor and no unique match are listed as missing |
| Mme.Accepted | data_validator.py:653-793 | an accepted run assigned every factor, reported 50 per assignment then 100, and saw no ambiguity, mismatch or missing factor |
| Mme.AppendAndValMmeIdempotent | data_validator.py:653-793 | re-running the check on the tables it accepted gives the same outcome |
| UnitOfWork.Transaction | db_manager.py:153-165 | the manager's calls are a legal run of the phase machine ending closed; close is last and happens once; at most one commit; rollback iff an exception propagates; a body that raises is never committed; a rollback that raises propagates its own exception |
| UnitOfWork.RunBodyStopsAtRaise | db_manager.py:156 | the body runs to its end iff it raises nowhere |
| UnitOfWork.RunBodyMatchesReference | db_manager.py:156 | a raise-free body leaves the session pending on the last staged state, with the last inner commit durable |
| UnitOfWork.RunBodyUpToRaise | db_manager.py:156-159 | the body stops at its first raise with that exception |
| UnitOfWork.NoInnerCommitKeepsDurable | db_manager.py:123-127 | without an inner commit, nothing becomes durable |
| UnitOfWork.LastCommittedIgnoresTail | db_manager.py:123-127 | operations after the last inner commit do not change what is durable |
| UnitOfWork.CommitsOnSuccess | db_manager.py:156-158 | a body that completes is committed and closed, and its last staged state becomes durable |
| UnitOfWork.RollsBackOnRaise | db_manager.py:159-165 | a body that raises is rolled back and closed; its exception propagates, or the rollback's own when the rollback raises; the durable state is the last inner commit |
| UnitOfWork.RollsBackOnCommitFault | db_manager.py:157-165 | a failing commit is rolled back and closed; its exception propagates, or the rollback's own when the rollback raises |
| UnitOfWork.Atomicity | db_manager.py:123-127 | a failed transaction without inner commits leaves the durable state unchanged |
| UnitOfWork.TransactionPreserves | db_manager.py:153-165 | a property of the durable state that every staged state has holds afterwards |
| UnitOfWork.SucceedsOnlyByCommit | db_manager.py:156-158 | a transaction that propagates nothing had a raise-free body and a single successful commit |
| UnitOfWork.InnerCommitSurvives | db_manager.py:123-127 | what the body committed first, with no later inner commit, survives a later failure |
| Orchestrator.Resolve | worker_threads.py:376-377 | a name resolves iff it is the method name of one of the six validators |
| Orchestrator.RunEffects | data_validator.py:543-551 | no validator changes rows other than TINs and MME factors; only the consistency check commits part-way through |
| Orchestrator.Body | worker_threads.py:375-382 | only the last operation can raise; with no raise, the validators that succeeded are exactly the known names in order, and the success flag holds iff every name is known |
| Orchestrator.BodyKeepsRows | worker_threads.py:375-382 | everything the loop stages keeps the rows of the input tables |
| Orchestrator.NoInnerCommitWithoutCleaning | worker_threads.py:375-382 | without the consistency check, the loop commits nothing part-way through |
| Orchestrator.Validate | worker_threads.py:366-392 | overall success means a single commit and every name known; with no exception, the succeeded names are the known names; an exception means a rollback |
| Orchestrator.ValidateKeepsRows | worker_threads.py:373-382 | whatever happens, the durable tables keep their rows |
| Orchestrator.FailureWithoutCleaningChangesNothing | worker_threads.py:373-382 | a failed run without the consistency check leaves the durable store unchanged |
| Orchestrator.CommittingFirst | worker_threads.py:375-382 | a loop that starts with the consistency check begins with its inner commit and commits nothing else part-way through |
| Orchestrator.CleaningSurvivesLaterFailure | data_validator.py:564 | when the consistency check runs first and a later validator fails, the cleaned TINs stay durable |
| Exceptions.Fallback | exceptions.py:57 | a missing or empty user message falls back to the technical message |
| Exceptions.ApplicationError | exceptions.py:52-60 | the technical message is kept; no table, a table not in the friendly-name map, or a message that does not mention the table leaves the user message as the fallback |
| Exceptions.FriendlyNameReplaced | exceptions.py:55-60 | a known table name is replaced at its first occurrence, and the replacement continues over the rest of the message |
| Exceptions.ExactTableNameBecomesFriendly | exceptions.py:55-60 | a user message that is just a known table name becomes its friendly name |
| Exceptions.TinNumInconsistencyError | exceptions.py:328-330 | any user message the caller passes is ignored; the same as passing none |
| Exceptions.MultipleValidCustomerLicensesFoundError | exceptions.py:611-613 | any user message the caller passes is ignored; the same as passing none |
| Exceptions.NoValidCustomerLicensesFoundError | exceptions.py:624-626 | any user message the caller passes is ignored; the same as passing none |
| Exceptions.ListedNdcs | exceptions.py:256-259 | the union of the codes across all columns |
| Exceptions.ListedColumns | exceptions.py:261-265 | the friendly names of all columns present |
| Exceptions.EnumUserMessage | exceptions.py:256-276 | exactly "No invalid values detected." iff no column lists a code; otherwise lists the distinct codes sorted, then the distinct friendly column names sorted |
| Exceptions.EnumUserMessageCanonical | exceptions.py:256-276 | the message depends only on which codes and columns occur, not on order or repetition |
| Exceptions.EnumValidationErrorAsWritten | exceptions.py:251-281 | raises `AttributeError` iff the details are `None` |
| Exceptions.EnumValidationError | exceptions.py:251-281 | the technical message is kept; missing details give "No invalid values detected." |
| Exceptions.DuplicateSheetMessage | exceptions.py:118-130 | the message names the table and contains every (file, sheet) entry |
| Exceptions.DuplicateSheetError | exceptions.py:112-131 | `ValueError` iff some element is not a pair; otherwise, for a table with no friendly name, the user message contains every pair; for one of the five known tables, it is the opening words, the friendly name quoted, then the pairs and the closing advice with every occurrence of the table name replaced by the friendly name |
| Exceptions.KnownTableDuplicateMessage | exceptions.py:118-131 | for a known table, the duplicate-sheet message after the friendly-name replacement, as above |
| Exceptions.QuotedTableReplaced | exceptions.py:55-60 | a known table name quoted after the opening words is replaced there, and the replacement continues over the rest |
| Exceptions.NonNullableColumnMessage | exceptions.py:167-183 | no or empty missing columns give the generic text; otherwise the columns are listed so that splitting the listing at line breaks gives them back |
| Exceptions.NonNullableColumnError | exceptions.py:167-186 | the caller's user message is replaced by the computed one |

## Left out

- Concurrency in `worker_threads.py` is left out: Qt threads, signals and the
  report thread pool. So is the two-second pause. The worker's signals appear
  only as the progress trace and the list of succeeded names.
- SQLAlchemy, pandas and logging are not modelled. Queries become functions
  over sequences, and the text of log messages is dropped.
- `enable_foreign_key_constraints` is left out. It issues a SQLite pragma.
- `Orchestrator.Resolve`: only the six validator names resolve. Other `DataValidator` methods are
  treated as unknown names: `clean_tin_values`, `val_license_number_format`,
  `merge_sales_with_licenses` and `enable_foreign_key_constraints`. `getattr`
  would find them, but they take different arguments or have effects outside
  the model.
- The `progress_callback` of the validators is always given in the worker's
  loop. The `None` default and the guard at data_validator.py:600 are
  therefore not modelled.
- The license check's branch for a missing `license_number` column is left
  out, because the record always has the column.
- The `SQLAlchemyError` wrapping in `val_customer_licenses` is left out,
  because database failures are outside the model.
- Error payloads are structured values, not the formatted message strings.
  Python's rendering of lists and floats in the technical messages is not
  modelled.
- `ForeignKeys.Orphans`: SQL leaves the order of `DISTINCT` rows
  unspecified. The model lists orphans in first-occurrence order.
- `Licenses.MergeSalesWithLicenses` and `Licenses.PassingMeansExactlyOneLicense`:
  exactly one covering license is promised only for sales that have a
  transaction id. The code as written lets a NULL-id sale with several
  covering licenses pass (see Findings).
- `Licenses.ValCustomerLicenses`: the `KeyError` on an empty license table
  rests on how pandas types an empty query result and indexes a frame with
  an empty object-typed Series. No other dtype-dependent behaviour of
  pandas is modelled.
- `TinConsistency.UnexpectedTins`: `str.isdigit` is approximated by the ASCII
  digits `0`-`9`. Python also accepts other Unicode digits.
- `TinConsistency.ValWarehouseConsistency`: the conflict groups are reported
  as sets. The message text, which iterates Python sets in hash order, is not
  modelled.
- `Mme.LookupFactorSpec`: strengths and factors are compared by exact
  equality on an abstract type. IEEE-754 behaviour such as NaN is not
  modelled.
- `Mme.AppendAndValMme`: the SQL autoflush that makes the assigned factors
  visible to the missing-factor query is modelled as reading the assigned
  products. The generic `except Exception` re-raise is the identity and is
  not modelled separately.
- `UnitOfWork.Transaction`: a session is a pair of durable and pending
  states. Isolation between sessions and SQLite locking are not modelled.
  Whether a commit or a rollback fails is a parameter.
- `Exceptions.DuplicateSheetError`: detail elements are modelled as
  sequences of strings. The `isinstance(i, tuple)` test is modelled as the
  length test only, and the f-string rendering of non-string elements is not
  modelled.
- `Exceptions.ApplicationError`: the technical message reaches `Exception`
  unchanged; the exception object itself is not modelled.
- The data-loader and report exception classes other than
  `DuplicateSheetError` and `NonNullableColumnError` are left out. They use
  fixed message templates with no logic of their own.

## Findings

| source | as written | input that shows it | evidently intended | confidence | as-written member | corrected member |
|---|---|---|---|---|---|---|
| exceptions.py:251-265 | the `isinstance` fallback stores `{}` in the attribute, but the aggregation iterates the argument, so `None.values()` raises `AttributeError` | `EnumValidationError("m")` with the default `invalid_columns_details=None` | iterate the normalised attribute, so that missing details give "No invalid values detected." | high, not executed | Exceptions.EnumValidationErrorAsWritten | Exceptions.EnumValidationError |
| data_validator.py:513-518 | `groupby("transaction_id")` drops rows whose id is NULL, so the ambiguity check never sees a sale without an id | one in-scope sale with a NULL id and two license rows of its customer that both cover its date (`Licenses.NullIdEscapesAmbiguity`) | every sale passing the step has exactly one covering license, as the log line after the check states | medium, not executed | Licenses.MergeSalesWithLicenses | Licenses.MergeSalesWithLicensesGroupingNulls |
