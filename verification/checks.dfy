/** What every validator of data_validator.py produces: the tables after the
    check (or the error it raised), the progress percentages it reported
    through its callback, and the tables it committed part-way through, if
    it did. */
module Checks {
  import opened Wrappers
  import opened Models

  /** One transaction reported without a covering license: the columns
      `transaction_id`, `ship_to_customer`, `transaction_date` of the merged
      frame (data_validator.py:505-507). The transaction id is `None` when
      the column is NULL. */
  datatype MissingCoverage = MissingCoverage(transactionId: Option<string>, customer: string, date: Day)

  /** The structured payload of each error the validators raise. For the
      license ambiguity, `transactionIds` are the ambiguous present ids and
      `nullIdGroup` says whether the sales with a NULL id form an ambiguous
      group too (only when such sales are grouped at all). */
  datatype ValidationError =
    | EnumViolation(details: seq<(FlagColumn, seq<string>)>)   // EnumValidationError
    | WarehouseKeyViolation(deaNumbers: seq<string>)          // DeaNumberViolationError
    | ProductKeyViolation(ndcs: seq<string>)                  // NdcValidationError
    | LicenseFormatViolation(licenseNumbers: seq<string>)     // CustomerLicenseValidationError
    | LicenseNumberKeyError                                   // KeyError('license_number') on an empty license table
    | MissingLicenseCoverage(rows: seq<MissingCoverage>)      // NoValidCustomerLicensesFoundError
    | AmbiguousLicenseCoverage(transactionIds: seq<string>, nullIdGroup: bool)  // MultipleValidCustomerLicensesFoundError
    | TinFormatViolation(badTins: seq<string>)                // TINNumInconsistencyError (format)
    | TinInconsistency(tins: set<string>, identities: set<CorporateInfo>)  // TINNumInconsistencyError (bijection)
    | MmeAmbiguity(ndc: string, strength: Measure)            // MmeError (duplicate reference rows)
    | MmeMismatch(records: seq<(string, Measure)>)            // MmeError (strength mismatch)
    | MmeMissing(ndcs: seq<string>)                           // MmeError (missing factor)

  datatype Checked = Checked(
    result: Result<Tables, ValidationError>,
    progress: seq<int>,
    innerCommit: Option<Tables>
  )

  /** A progress trace as the callback contract describes it: percentages,
      never decreasing. */
  predicate WellFormedProgress(p: seq<int>) {
    && (forall i :: 0 <= i < |p| ==> 0 <= p[i] <= 100)
    && (forall i, j :: 0 <= i < j < |p| ==> p[i] <= p[j])
  }

  /** `n` reports of the same percentage. */
  function Repeat(n: nat, v: int): (r: seq<int>)
    ensures |r| == n
    ensures forall i :: 0 <= i < n ==> r[i] == v
  {
    seq(n, _ => v)
  }
}
