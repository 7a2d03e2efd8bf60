/** `val_customer_licenses` (data_validator.py:313-416) with its helpers
    `val_license_number_format` (418-452) and `merge_sales_with_licenses`
    (454-522): every in-scope sale must be covered by its customer's license
    rows on its date. */
module Licenses {
  import opened Wrappers
  import opened Models
  import opened Checks
  import opened Seqs
  import Text

  /** The jurisdiction tag of the sales in scope. */
  const TargetState: string := "ST1"

  /** The only requirement the format check puts on a license number. */
  const LicenseNumberLength: nat := 7

  /** A product flagged "Y" for the New York state and excise-tax reports. */
  predicate RelevantNdc(t: Tables, ndc: string) {
    exists j :: 0 <= j < |t.products| && t.products[j].ndc == ndc && t.products[j].nyState == Some("Y")
  }

  /** A sale of a relevant product shipped to the target state. */
  predicate InScope(t: Tables, x: Transaction) {
    x.state == TargetState && RelevantNdc(t, x.ndc)
  }

  function InScopeSales(t: Tables): (r: seq<Transaction>)
    ensures forall k :: 0 <= k < |r| ==> r[k] in t.transactions && InScope(t, r[k])
    ensures forall i :: 0 <= i < |t.transactions| && InScope(t, t.transactions[i]) ==> t.transactions[i] in r
  {
    Filter(t.transactions, x => InScope(t, x))
  }

  // ---------------------------------------------------------------------
  // Format: the length of the number, and nothing else
  // ---------------------------------------------------------------------

  /** The license numbers whose length is not 7, in table order with
      repetitions. Digits are not checked. */
  function IncorrectLicenseNumbers(ls: seq<License>): (r: seq<string>)
    ensures |r| <= |ls|
    ensures forall n :: n in r <==>
      exists j :: 0 <= j < |ls| && ls[j].licenseNumber == n && |n| != LicenseNumberLength
  {
    if |ls| == 0 then []
    else
      var rest := IncorrectLicenseNumbers(ls[1..]);
      assert forall j :: 0 < j < |ls| ==> ls[j] == ls[1..][j - 1];
      (if |ls[0].licenseNumber| != LicenseNumberLength then [ls[0].licenseNumber] else []) + rest
  }

  /** The format check looks at the length alone: licenses whose numbers all
      have seven characters pass it, even when one of those numbers holds a
      character that is not a digit. */
  lemma FormatCheckIgnoresDigits(ls: seq<License>, j: int)
    requires forall i :: 0 <= i < |ls| ==> |ls[i].licenseNumber| == LicenseNumberLength
    requires 0 <= j < |ls|
    requires exists k :: 0 <= k < LicenseNumberLength && !Text.IsDigit(ls[j].licenseNumber[k])
    ensures IncorrectLicenseNumbers(ls) == []
    ensures !Text.IsDigits(ls[j].licenseNumber)
  {
    LengthsPass(ls);
  }

  /** Licenses whose numbers all have seven characters produce no finding. */
  lemma {:induction false} LengthsPass(ls: seq<License>)
    requires forall i :: 0 <= i < |ls| ==> |ls[i].licenseNumber| == LicenseNumberLength
    ensures IncorrectLicenseNumbers(ls) == []
  {
    if |ls| > 0 {
      assert forall i :: 0 <= i < |ls[1..]| ==> ls[1..][i] == ls[i + 1];
      LengthsPass(ls[1..]);
    }
  }

  // ---------------------------------------------------------------------
  // Coverage: the left merge of sales with licenses on the customer
  // ---------------------------------------------------------------------

  /** Both ends of the validity interval are inclusive. */
  predicate Covers(l: License, d: Day) {
    l.validFrom <= d <= l.validTo
  }

  /** A merged row whose `is_valid` column is true. */
  predicate ValidRow(x: Transaction, l: License) {
    l.customer == x.customer && Covers(l, x.date)
  }

  /** A sale that yields at least one merged row with `is_valid` false: its
      customer has no license rows at all (the left merge then gives a row of
      nulls, which compares false), or one of its customer's rows does not
      cover its date. */
  predicate Uncovered(x: Transaction, ls: seq<License>) {
    || (forall j :: 0 <= j < |ls| ==> ls[j].customer != x.customer)
    || (exists j :: 0 <= j < |ls| && ls[j].customer == x.customer && !Covers(ls[j], x.date))
  }

  function Report(x: Transaction): MissingCoverage {
    MissingCoverage(x.transactionId, x.customer, x.date)
  }

  /** The merged rows with `is_valid` false, projected on the reported
      columns, one per uncovered sale, in sale order. */
  function MissingRows(sales: seq<Transaction>, ls: seq<License>): (r: seq<MissingCoverage>)
    ensures |r| <= |sales|
  {
    if |sales| == 0 then []
    else
      var last := sales[|sales| - 1];
      MissingRows(sales[..|sales| - 1], ls) + (if Uncovered(last, ls) then [Report(last)] else [])
  }

  /** Every missing-coverage row is the report of an uncovered sale. */
  lemma {:induction false} MissingRowsSound(sales: seq<Transaction>, ls: seq<License>, k: int)
    requires 0 <= k < |MissingRows(sales, ls)|
    ensures exists i :: 0 <= i < |sales| && Uncovered(sales[i], ls) && MissingRows(sales, ls)[k] == Report(sales[i])
  {
    var init := sales[..|sales| - 1];
    var r := MissingRows(sales, ls);
    if k < |MissingRows(init, ls)| {
      MissingRowsSound(init, ls, k);
      var i :| 0 <= i < |init| && Uncovered(init[i], ls) && MissingRows(init, ls)[k] == Report(init[i]);
      assert r[k] == MissingRows(init, ls)[k];
      assert init[i] == sales[i];
    } else {
      assert r[k] == Report(sales[|sales| - 1]);
    }
  }

  /** Every uncovered sale is reported. */
  lemma {:induction false} MissingRowsComplete(sales: seq<Transaction>, ls: seq<License>, i: int)
    requires 0 <= i < |sales| && Uncovered(sales[i], ls)
    ensures exists k :: 0 <= k < |MissingRows(sales, ls)| && MissingRows(sales, ls)[k] == Report(sales[i])
  {
    var init := sales[..|sales| - 1];
    var r := MissingRows(sales, ls);
    if i < |sales| - 1 {
      assert init[i] == sales[i];
      MissingRowsComplete(init, ls, i);
      var k :| 0 <= k < |MissingRows(init, ls)| && MissingRows(init, ls)[k] == Report(init[i]);
      assert r[k] == MissingRows(init, ls)[k];
    } else {
      assert r[|r| - 1] == Report(sales[i]);
    }
  }

  /** Row `i` is the first row with its transaction id. */
  predicate FirstOf(rows: seq<MissingCoverage>, i: int)
    requires 0 <= i < |rows|
  {
    forall i' :: 0 <= i' < i ==> rows[i'].transactionId != rows[i].transactionId
  }

  /** `drop_duplicates(subset=["transaction_id"])` on `rows[..n]`: the rows
      that are the first with their transaction id, in order. */
  function KeepFirst(rows: seq<MissingCoverage>, n: nat): (r: seq<MissingCoverage>)
    requires n <= |rows|
    ensures |r| <= n
  {
    if n == 0 then []
    else KeepFirst(rows, n - 1) + (if FirstOf(rows, n - 1) then [rows[n - 1]] else [])
  }

  /** Every kept row is the first row of its transaction id. */
  lemma {:induction false} KeepFirstSound(rows: seq<MissingCoverage>, n: nat, k: int)
    requires n <= |rows| && 0 <= k < |KeepFirst(rows, n)|
    ensures exists i :: 0 <= i < n && rows[i] == KeepFirst(rows, n)[k] && FirstOf(rows, i)
  {
    var init := KeepFirst(rows, n - 1);
    if k < |init| {
      KeepFirstSound(rows, n - 1, k);
      assert KeepFirst(rows, n)[k] == init[k];
    } else {
      assert KeepFirst(rows, n)[k] == rows[n - 1];
    }
  }

  predicate DistinctIds(r: seq<MissingCoverage>) {
    forall k, l :: 0 <= k < l < |r| ==> r[k].transactionId != r[l].transactionId
  }

  /** No two kept rows share a transaction id. */
  lemma {:induction false} KeepFirstDistinct(rows: seq<MissingCoverage>, n: nat)
    requires n <= |rows|
    ensures DistinctIds(KeepFirst(rows, n))
  {
    if n > 0 {
      KeepFirstDistinct(rows, n - 1);
      var init := KeepFirst(rows, n - 1);
      var r := KeepFirst(rows, n);
      assert r == init + (if FirstOf(rows, n - 1) then [rows[n - 1]] else []);
      forall k, l | 0 <= k < l < |r|
        ensures r[k].transactionId != r[l].transactionId
      {
        assert r[k] == init[k];
        if l < |init| {
          assert r[l] == init[l];
          assert init[k].transactionId != init[l].transactionId;
        } else {
          KeepFirstSound(rows, n - 1, k);
          var i :| 0 <= i < n - 1 && rows[i] == init[k] && FirstOf(rows, i);
          assert r[l] == rows[n - 1];
          assert rows[i].transactionId != rows[n - 1].transactionId;
        }
      }
    }
  }

  /** Every transaction id among `rows[..n]` is kept. */
  lemma {:induction false} KeepFirstComplete(rows: seq<MissingCoverage>, n: nat, i: int)
    requires n <= |rows| && 0 <= i < n
    ensures exists k :: 0 <= k < |KeepFirst(rows, n)| && KeepFirst(rows, n)[k].transactionId == rows[i].transactionId
  {
    var init := KeepFirst(rows, n - 1);
    var r := KeepFirst(rows, n);
    if i < n - 1 {
      KeepFirstComplete(rows, n - 1, i);
      var k :| 0 <= k < |init| && init[k].transactionId == rows[i].transactionId;
      assert r[k] == init[k];
    } else if FirstOf(rows, n - 1) {
      assert r[|r| - 1] == rows[n - 1];
    } else {
      var i' :| 0 <= i' < n - 1 && rows[i'].transactionId == rows[n - 1].transactionId;
      KeepFirstComplete(rows, n - 1, i');
      var k :| 0 <= k < |init| && init[k].transactionId == rows[i'].transactionId;
      assert r[k] == init[k];
    }
  }

  /** The missing-coverage report: the uncovered sales, one row per
      transaction id (its first), non-empty exactly when some sale is
      uncovered and free of repeated transaction ids. */
  function MissingReport(sales: seq<Transaction>, ls: seq<License>): (r: seq<MissingCoverage>)
    ensures |r| > 0 <==> exists i :: 0 <= i < |sales| && Uncovered(sales[i], ls)
    ensures DistinctIds(r)
  {
    var rows := MissingRows(sales, ls);
    KeepFirstDistinct(rows, |rows|);
    KeptRowsNonEmpty(sales, ls);
    KeepFirst(rows, |rows|)
  }

  lemma KeptRowsNonEmpty(sales: seq<Transaction>, ls: seq<License>)
    ensures var rows := MissingRows(sales, ls);
      |KeepFirst(rows, |rows|)| > 0 <==> exists i :: 0 <= i < |sales| && Uncovered(sales[i], ls)
  {
    var rows := MissingRows(sales, ls);
    var r := KeepFirst(rows, |rows|);
    if |r| > 0 {
      KeepFirstSound(rows, |rows|, 0);
      var m :| 0 <= m < |rows| && rows[m] == r[0] && FirstOf(rows, m);
      MissingRowsSound(sales, ls, m);
    }
    if exists i :: 0 <= i < |sales| && Uncovered(sales[i], ls) {
      var i :| 0 <= i < |sales| && Uncovered(sales[i], ls);
      MissingRowsComplete(sales, ls, i);
      var m :| 0 <= m < |rows| && rows[m] == Report(sales[i]);
      KeepFirstComplete(rows, |rows|, m);
    }
  }

  /** Every reported row is the report of an uncovered sale. */
  lemma MissingReportSound(sales: seq<Transaction>, ls: seq<License>, k: int)
    requires 0 <= k < |MissingReport(sales, ls)|
    ensures exists i :: 0 <= i < |sales| && Uncovered(sales[i], ls) && MissingReport(sales, ls)[k] == Report(sales[i])
  {
    var rows := MissingRows(sales, ls);
    KeepFirstSound(rows, |rows|, k);
    var m :| 0 <= m < |rows| && rows[m] == MissingReport(sales, ls)[k] && FirstOf(rows, m);
    MissingRowsSound(sales, ls, m);
  }

  /** The transaction id of every uncovered sale is reported. */
  lemma MissingReportComplete(sales: seq<Transaction>, ls: seq<License>, i: int)
    requires 0 <= i < |sales| && Uncovered(sales[i], ls)
    ensures exists k :: (0 <= k < |MissingReport(sales, ls)| &&
      MissingReport(sales, ls)[k].transactionId == sales[i].transactionId)
  {
    var rows := MissingRows(sales, ls);
    MissingRowsComplete(sales, ls, i);
    var m :| 0 <= m < |rows| && rows[m] == Report(sales[i]);
    KeepFirstComplete(rows, |rows|, m);
    var k :| 0 <= k < |KeepFirst(rows, |rows|)| && KeepFirst(rows, |rows|)[k].transactionId == rows[m].transactionId;
    assert MissingReport(sales, ls)[k] == KeepFirst(rows, |rows|)[k];
  }

  /** The number of covering license rows of one sale. */
  function CoveringCount(x: Transaction, ls: seq<License>): nat {
    Count(ls, l => ValidRow(x, l))
  }

  /** A sale has a covering row exactly when its count is positive. */
  lemma CoveredOnce(x: Transaction, ls: seq<License>)
    ensures CoveringCount(x, ls) >= 1 <==> exists j :: 0 <= j < |ls| && ValidRow(x, ls[j])
  {
    CountPositive(ls, l => ValidRow(x, l));
  }

  /** A sale has two covering rows exactly when its count exceeds one. */
  lemma CoveredTwice(x: Transaction, ls: seq<License>)
    ensures CoveringCount(x, ls) >= 2 <==>
      exists j, k :: 0 <= j < k < |ls| && ValidRow(x, ls[j]) && ValidRow(x, ls[k])
  {
    CountAtLeastTwo(ls, l => ValidRow(x, l));
  }

  /** Per sale, its covering rows when it carries the id `key`, else none.
      `key` is `None` for the sales whose id is NULL. */
  function TidCounts(sales: seq<Transaction>, ls: seq<License>, key: Option<string>): (r: seq<nat>)
    ensures |r| == |sales|
    ensures forall i :: 0 <= i < |sales| ==>
      r[i] == if sales[i].transactionId == key then CoveringCount(sales[i], ls) else 0
  {
    seq(|sales|, i requires 0 <= i < |sales| =>
      if sales[i].transactionId == key then CoveringCount(sales[i], ls) else 0)
  }

  /** `merged[merged["is_valid"]].groupby("transaction_id").size()` for one
      key: the covering rows of every sale carrying that id. */
  function ValidRowsFor(sales: seq<Transaction>, ls: seq<License>, key: Option<string>): nat {
    Sum(TidCounts(sales, ls, key))
  }

  /** Two distinct merged rows (sale, license) that are both valid and both
      carry `key`: two covering licenses of one sale, or two sales sharing
      the transaction id. */
  ghost predicate AmbiguousTid(sales: seq<Transaction>, ls: seq<License>, key: Option<string>) {
    exists i1, j1, i2, j2 :: TwoValidRows(sales, ls, key, i1, j1, i2, j2)
  }

  /** Merged rows (sale `i1`, license `j1`) and (sale `i2`, license `j2`)
      are distinct, valid, and both carry `key`. */
  predicate TwoValidRows(sales: seq<Transaction>, ls: seq<License>, key: Option<string>, i1: int, j1: int, i2: int, j2: int) {
    && 0 <= i1 < |sales| && 0 <= i2 < |sales| && 0 <= j1 < |ls| && 0 <= j2 < |ls|
    && (i1 != i2 || j1 != j2)
    && sales[i1].transactionId == key && sales[i2].transactionId == key
    && ValidRow(sales[i1], ls[j1]) && ValidRow(sales[i2], ls[j2])
  }

  lemma AmbiguousFromGroupSize(sales: seq<Transaction>, ls: seq<License>, key: Option<string>)
    requires ValidRowsFor(sales, ls, key) >= 2
    ensures AmbiguousTid(sales, ls, key)
  {
    var counts := TidCounts(sales, ls, key);
    SumAtLeastTwo(counts);
    if exists i :: 0 <= i < |counts| && counts[i] >= 2 {
      var i :| 0 <= i < |counts| && counts[i] >= 2;
      CoveredTwice(sales[i], ls);
      assert sales[i].transactionId == key;
      var j, k :| 0 <= j < k < |ls| && ValidRow(sales[i], ls[j]) && ValidRow(sales[i], ls[k]);
      assert TwoValidRows(sales, ls, key, i, j, i, k);
    } else {
      var i, i' :| 0 <= i < i' < |counts| && counts[i] >= 1 && counts[i'] >= 1;
      CoveredOnce(sales[i], ls);
      CoveredOnce(sales[i'], ls);
      assert sales[i].transactionId == key && sales[i'].transactionId == key;
      var j :| 0 <= j < |ls| && ValidRow(sales[i], ls[j]);
      var j' :| 0 <= j' < |ls| && ValidRow(sales[i'], ls[j']);
      assert TwoValidRows(sales, ls, key, i, j, i', j');
    }
  }

  lemma GroupSizeFromAmbiguous(sales: seq<Transaction>, ls: seq<License>, key: Option<string>)
    requires AmbiguousTid(sales, ls, key)
    ensures ValidRowsFor(sales, ls, key) >= 2
  {
    var i1, j1, i2, j2 :| TwoValidRows(sales, ls, key, i1, j1, i2, j2);
    var counts := TidCounts(sales, ls, key);
    if i1 == i2 {
      var lo, hi := if j1 < j2 then j1 else j2, if j1 < j2 then j2 else j1;
      assert 0 <= lo < hi < |ls| && ValidRow(sales[i1], ls[lo]) && ValidRow(sales[i1], ls[hi]);
      CoveredTwice(sales[i1], ls);
      assert counts[i1] >= 2;
      SumAtLeastTerm(counts, i1);
    } else {
      var lo, hi := if i1 < i2 then i1 else i2, if i1 < i2 then i2 else i1;
      CoveredOnce(sales[lo], ls);
      CoveredOnce(sales[hi], ls);
      assert ValidRow(sales[lo], ls[if lo == i1 then j1 else j2]);
      assert ValidRow(sales[hi], ls[if hi == i1 then j1 else j2]);
      assert counts[lo] >= 1 && counts[hi] >= 1;
      SumAtLeastPair(counts, lo, hi);
    }
  }

  /** The group size exceeds one exactly when two distinct valid merged rows
      carry the key. */
  lemma ValidRowsForAmbiguous(sales: seq<Transaction>, ls: seq<License>, key: Option<string>)
    ensures ValidRowsFor(sales, ls, key) >= 2 <==> AmbiguousTid(sales, ls, key)
  {
    if ValidRowsFor(sales, ls, key) >= 2 {
      AmbiguousFromGroupSize(sales, ls, key);
    }
    if AmbiguousTid(sales, ls, key) {
      GroupSizeFromAmbiguous(sales, ls, key);
    }
  }

  /** The transaction ids that are not NULL, in sale order with repetitions. */
  function PresentIds(sales: seq<Transaction>): (r: seq<string>)
    ensures |r| <= |sales|
    ensures forall i :: 0 <= i < |sales| && sales[i].transactionId.Some? ==> sales[i].transactionId.value in r
    ensures forall tid :: tid in r ==> exists i :: 0 <= i < |sales| && sales[i].transactionId == Some(tid)
  {
    if |sales| == 0 then []
    else
      var rest := PresentIds(sales[1..]);
      assert forall i :: 0 < i < |sales| ==> sales[i] == sales[1..][i - 1];
      (match sales[0].transactionId
       case Some(tid) => [tid]
       case None => []) + rest
  }

  /** `multiple_licenses.index.tolist()`: the ambiguous transaction ids,
      sorted (the group-by sorts its keys) and without repetition. The
      group-by drops NULL keys, so only present ids take part. */
  function AmbiguousTids(sales: seq<Transaction>, ls: seq<License>): (r: seq<string>)
    ensures Text.StrictlySorted(r)
    ensures forall tid :: tid in r <==> AmbiguousTid(sales, ls, Some(tid))
  {
    var ids := PresentIds(sales);
    var hits := Filter(ids, tid => ValidRowsFor(sales, ls, Some(tid)) >= 2);
    var r := Text.SortedUnique(hits);
    assert forall tid :: tid in r <==> AmbiguousTid(sales, ls, Some(tid)) by {
      forall tid
        ensures tid in r <==> AmbiguousTid(sales, ls, Some(tid))
      {
        ValidRowsForAmbiguous(sales, ls, Some(tid));
        if AmbiguousTid(sales, ls, Some(tid)) {
          var i1, j1, i2, j2 :| TwoValidRows(sales, ls, Some(tid), i1, j1, i2, j2);
          assert sales[i1].transactionId.value == tid;
          assert tid in hits;
        }
      }
    }
    r
  }

  /** The coverage step as written. The missing-coverage error comes first
      and is raised exactly when some sale is uncovered; the ambiguity error
      is raised only after that, exactly when some present transaction id
      has two valid merged rows. When neither is raised every sale has a
      covering license, and exactly one when its id is not NULL: the
      group-by drops the sales with a NULL id, so two covering licenses of
      such a sale go unnoticed. */
  function MergeSalesWithLicenses(sales: seq<Transaction>, ls: seq<License>): (r: Option<ValidationError>)
    ensures r.Some? ==> r.value.MissingLicenseCoverage? || r.value.AmbiguousLicenseCoverage?
    ensures (r.Some? && r.value.MissingLicenseCoverage?) <==>
      exists i :: 0 <= i < |sales| && Uncovered(sales[i], ls)
    ensures r.Some? && r.value.MissingLicenseCoverage? ==>
      r.value.rows == MissingReport(sales, ls)
    ensures (r.Some? && r.value.AmbiguousLicenseCoverage?) <==>
      (forall i :: 0 <= i < |sales| ==> !Uncovered(sales[i], ls)) &&
      exists tid :: AmbiguousTid(sales, ls, Some(tid))
    ensures r.Some? && r.value.AmbiguousLicenseCoverage? ==>
      && Text.StrictlySorted(r.value.transactionIds)
      && (forall tid :: tid in r.value.transactionIds <==> AmbiguousTid(sales, ls, Some(tid)))
      && !r.value.nullIdGroup
    ensures r.None? ==> forall i :: 0 <= i < |sales| ==>
      && CoveringCount(sales[i], ls) >= 1
      && (sales[i].transactionId.Some? ==> CoveringCount(sales[i], ls) == 1)
  {
    var missing := MissingReport(sales, ls);
    if |missing| > 0 then
      Some(MissingLicenseCoverage(missing))
    else
      var ambiguous := AmbiguousTids(sales, ls);
      if |ambiguous| > 0 then
        assert ambiguous[0] in ambiguous;
        Some(AmbiguousLicenseCoverage(ambiguous, false))
      else
        assert forall i :: 0 <= i < |sales| ==>
          && CoveringCount(sales[i], ls) >= 1
          && (sales[i].transactionId.Some? ==> CoveringCount(sales[i], ls) == 1)
        by {
          forall i | 0 <= i < |sales|
            ensures CoveringCount(sales[i], ls) >= 1
            ensures sales[i].transactionId.Some? ==> CoveringCount(sales[i], ls) == 1
          {
            CoveredHasCoveringRow(sales[i], ls);
            if sales[i].transactionId.Some? {
              assert sales[i].transactionId.value !in ambiguous;
              ExactlyOneCovering(sales, ls, i);
            }
          }
        }
        None
  }

  /** The coverage step with the sales of NULL id grouped together, as
      `groupby(..., dropna=False)` does: the ambiguity error is raised
      exactly when some key, NULL included, has two valid merged rows, so a
      passing run gives every sale exactly one covering license. */
  function MergeSalesWithLicensesGroupingNulls(sales: seq<Transaction>, ls: seq<License>): (r: Option<ValidationError>)
    ensures r.Some? ==> r.value.MissingLicenseCoverage? || r.value.AmbiguousLicenseCoverage?
    ensures (r.Some? && r.value.MissingLicenseCoverage?) <==>
      exists i :: 0 <= i < |sales| && Uncovered(sales[i], ls)
    ensures r.Some? && r.value.MissingLicenseCoverage? ==>
      r.value.rows == MissingReport(sales, ls)
    ensures (r.Some? && r.value.AmbiguousLicenseCoverage?) <==>
      (forall i :: 0 <= i < |sales| ==> !Uncovered(sales[i], ls)) &&
      exists key :: AmbiguousTid(sales, ls, key)
    ensures r.Some? && r.value.AmbiguousLicenseCoverage? ==>
      && Text.StrictlySorted(r.value.transactionIds)
      && (forall tid :: tid in r.value.transactionIds <==> AmbiguousTid(sales, ls, Some(tid)))
      && (r.value.nullIdGroup <==> AmbiguousTid(sales, ls, None))
    ensures r.None? ==> forall i :: 0 <= i < |sales| ==> CoveringCount(sales[i], ls) == 1
  {
    var missing := MissingReport(sales, ls);
    if |missing| > 0 then
      Some(MissingLicenseCoverage(missing))
    else
      var ambiguous := AmbiguousTids(sales, ls);
      var nullGroup := ValidRowsFor(sales, ls, None) >= 2;
      ValidRowsForAmbiguous(sales, ls, None);
      if |ambiguous| > 0 || nullGroup then
        assert |ambiguous| > 0 ==> ambiguous[0] in ambiguous;
        Some(AmbiguousLicenseCoverage(ambiguous, nullGroup))
      else
        assert forall key :: !AmbiguousTid(sales, ls, key) by {
          forall key
            ensures !AmbiguousTid(sales, ls, key)
          {
            if key.Some? {
              assert key.value !in ambiguous;
            }
          }
        }
        assert forall i :: 0 <= i < |sales| ==> CoveringCount(sales[i], ls) == 1 by {
          forall i | 0 <= i < |sales|
            ensures CoveringCount(sales[i], ls) == 1
          {
            ExactlyOneCovering(sales, ls, i);
          }
        }
        None
  }

  /** When every sale has a transaction id, grouping the NULL ids changes
      nothing: the step as written and the corrected one agree. */
  lemma GroupingNullsAgreesWithoutNulls(sales: seq<Transaction>, ls: seq<License>)
    requires forall i :: 0 <= i < |sales| ==> sales[i].transactionId.Some?
    ensures MergeSalesWithLicensesGroupingNulls(sales, ls) == MergeSalesWithLicenses(sales, ls)
  {
  }

  /** A sale with a NULL transaction id and two licenses of its customer
      covering its date passes the step as written, while the corrected step
      reports the ambiguity. */
  lemma NullIdEscapesAmbiguity(x: Transaction, a: License, b: License)
    requires x.transactionId == None
    requires a.customer == x.customer && b.customer == x.customer
    requires Covers(a, x.date) && Covers(b, x.date)
    ensures CoveringCount(x, [a, b]) == 2
    ensures MergeSalesWithLicenses([x], [a, b]) == None
    ensures MergeSalesWithLicensesGroupingNulls([x], [a, b]) == Some(AmbiguousLicenseCoverage([], true))
  {
    var ls := [a, b];
    assert ValidRow(x, ls[0]) && ValidRow(x, ls[1]);
    var f := l => ValidRow(x, l);
    assert ls[1..] == [b] && [b][1..] == [];
    assert Count([b], f) == 1;
    assert CoveringCount(x, ls) == Count(ls, f) == 2;
    assert !Uncovered([x][0], ls);
    assert TidCounts([x], ls, None) == [2];
    assert [2][1..] == [];
    assert ValidRowsFor([x], ls, None) == 2;
  }

  /** A sale with license rows of its customer, none of which fails to
      cover its date, has a covering row. */
  lemma CoveredHasCoveringRow(x: Transaction, ls: seq<License>)
    ensures !Uncovered(x, ls) ==> CoveringCount(x, ls) >= 1
  {
    CoveredOnce(x, ls);
    if !Uncovered(x, ls) {
      var j :| 0 <= j < |ls| && ls[j].customer == x.customer;
      assert ValidRow(x, ls[j]);
    }
  }

  /** Two covering rows of one sale make its transaction id ambiguous. */
  lemma CoveredTwiceIsAmbiguous(sales: seq<Transaction>, ls: seq<License>, i: int)
    requires 0 <= i < |sales|
    ensures CoveringCount(sales[i], ls) >= 2 ==> AmbiguousTid(sales, ls, sales[i].transactionId)
  {
    CoveredTwice(sales[i], ls);
    if CoveringCount(sales[i], ls) >= 2 {
      var a, b :| 0 <= a < b < |ls| && ValidRow(sales[i], ls[a]) && ValidRow(sales[i], ls[b]);
      assert TwoValidRows(sales, ls, sales[i].transactionId, i, a, i, b);
    }
  }

  /** A covered sale whose transaction id is not ambiguous has exactly one
      covering license row. */
  lemma ExactlyOneCovering(sales: seq<Transaction>, ls: seq<License>, i: int)
    requires 0 <= i < |sales|
    requires !Uncovered(sales[i], ls)
    requires !AmbiguousTid(sales, ls, sales[i].transactionId)
    ensures CoveringCount(sales[i], ls) == 1
  {
    CoveredHasCoveringRow(sales[i], ls);
    CoveredTwiceIsAmbiguous(sales, ls, i);
  }

  predicate AnyInScope(t: Tables) {
    exists i :: 0 <= i < |t.transactions| && InScope(t, t.transactions[i])
  }

  predicate AllLicenseNumbersWellFormed(ls: seq<License>) {
    forall j :: 0 <= j < |ls| ==> |ls[j].licenseNumber| == LicenseNumberLength
  }

  /** The license check. With no sale in scope it passes at once, without
      looking at the licenses (progress stops at 33). Otherwise an empty
      license table makes the format check fail with `KeyError`: pandas
      reads the empty length mask, of object type, as a list of columns, so
      the selected frame has no `license_number` column. Then a license
      number of the wrong length fails the check before coverage is
      considered. After that the coverage step decides. It never changes
      the tables. */
  function ValCustomerLicenses(t: Tables): (c: Checked)
    ensures c.innerCommit == None
    ensures c.result.Ok? ==> c.result.value == t
    ensures !AnyInScope(t) ==> c.result == Ok(t)
    ensures (c.result.Err? && c.result.error.LicenseNumberKeyError?) <==>
      AnyInScope(t) && |t.licenses| == 0
    ensures (c.result.Err? && c.result.error.LicenseFormatViolation?) <==>
      AnyInScope(t) && |t.licenses| > 0 && !AllLicenseNumbersWellFormed(t.licenses)
    ensures c.result.Err? && c.result.error.LicenseFormatViolation? ==>
      c.result.error.licenseNumbers == IncorrectLicenseNumbers(t.licenses)
    ensures AnyInScope(t) && |t.licenses| > 0 && AllLicenseNumbersWellFormed(t.licenses) ==>
      match MergeSalesWithLicenses(InScopeSales(t), t.licenses)
      case Some(e) => c.result == Err(e)
      case None => c.result == Ok(t)
    ensures c.progress ==
      if !AnyInScope(t) || (c.result.Err? && (c.result.error.LicenseFormatViolation? || c.result.error.LicenseNumberKeyError?)) then [33]
      else if c.result.Err? then [33, 66]
      else [33, 66, 100]
  {
    var sales := InScopeSales(t);
    if |sales| == 0 then
      assert !AnyInScope(t);
      Checked(Ok(t), [33], None)
    else
      assert sales[0] in t.transactions;
      if |t.licenses| == 0 then
        Checked(Err(LicenseNumberKeyError), [33], None)
      else
        FormatThenCoverage(t, sales)
  }

  /** The format check on a non-empty license table, then the coverage
      step on the given sales. */
  function FormatThenCoverage(t: Tables, sales: seq<Transaction>): (c: Checked)
    ensures c.innerCommit == None
    ensures c.result.Ok? ==> c.result.value == t
    ensures c.result.Err? ==> !c.result.error.LicenseNumberKeyError?
    ensures (c.result.Err? && c.result.error.LicenseFormatViolation?) <==>
      !AllLicenseNumbersWellFormed(t.licenses)
    ensures c.result.Err? && c.result.error.LicenseFormatViolation? ==>
      c.result.error.licenseNumbers == IncorrectLicenseNumbers(t.licenses)
    ensures AllLicenseNumbersWellFormed(t.licenses) ==>
      match MergeSalesWithLicenses(sales, t.licenses)
      case Some(e) => c.result == Err(e)
      case None => c.result == Ok(t)
    ensures c.progress ==
      if c.result.Err? && c.result.error.LicenseFormatViolation? then [33]
      else if c.result.Err? then [33, 66]
      else [33, 66, 100]
  {
    var bad := IncorrectLicenseNumbers(t.licenses);
    if |bad| > 0 then
      assert bad[0] in bad;
      Checked(Err(LicenseFormatViolation(bad)), [33], None)
    else
      assert AllLicenseNumbersWellFormed(t.licenses) by {
        forall j | 0 <= j < |t.licenses|
          ensures |t.licenses[j].licenseNumber| == LicenseNumberLength
        {
          assert t.licenses[j].licenseNumber !in bad;
        }
      }
      match MergeSalesWithLicenses(sales, t.licenses)
      case Some(e) => Checked(Err(e), [33, 66], None)
      case None => Checked(Ok(t), [33, 66, 100], None)
  }

  /** With a sale in scope, an empty license table fails with `KeyError`
      after progress 33, where the coverage step alone would have reported
      every in-scope sale as missing. */
  lemma EmptyLicenseTableRaisesKeyError(t: Tables)
    requires AnyInScope(t) && t.licenses == []
    ensures ValCustomerLicenses(t) == Checked(Err(LicenseNumberKeyError), [33], None)
    ensures MergeSalesWithLicenses(InScopeSales(t), t.licenses) == Some(MissingLicenseCoverage(MissingReport(InScopeSales(t), t.licenses)))
  {
    var sales := InScopeSales(t);
    var i :| 0 <= i < |t.transactions| && InScope(t, t.transactions[i]);
    assert t.transactions[i] in sales;
    var k :| 0 <= k < |sales| && sales[k] == t.transactions[i];
    assert Uncovered(sales[k], t.licenses);
  }

  /** When the license check passes, every in-scope sale has a covering
      license row, exactly one when its transaction id is not NULL, and no
      license number has the wrong length unless nothing was in scope. */
  lemma PassingMeansExactlyOneLicense(t: Tables)
    requires ValCustomerLicenses(t).result.Ok?
    ensures forall i :: 0 <= i < |t.transactions| && InScope(t, t.transactions[i]) ==>
      && CoveringCount(t.transactions[i], t.licenses) >= 1
      && (t.transactions[i].transactionId.Some? ==> CoveringCount(t.transactions[i], t.licenses) == 1)
    ensures AnyInScope(t) ==> AllLicenseNumbersWellFormed(t.licenses)
  {
    if AnyInScope(t) {
      var sales := InScopeSales(t);
      assert MergeSalesWithLicenses(sales, t.licenses).None?;
      forall i | 0 <= i < |t.transactions| && InScope(t, t.transactions[i])
        ensures CoveringCount(t.transactions[i], t.licenses) >= 1
        ensures t.transactions[i].transactionId.Some? ==> CoveringCount(t.transactions[i], t.licenses) == 1
      {
        assert t.transactions[i] in sales;
      }
    }
  }

  /** The coverage rule is stricter than "exactly one covering license": a
      sale whose customer has an expired license and a renewal that covers
      the sale date is still reported as missing coverage. */
  lemma RenewalReportedMissing(x: Transaction, expired: License, renewal: License)
    requires expired.customer == x.customer && renewal.customer == x.customer
    requires expired.validFrom <= expired.validTo < x.date
    requires renewal.validFrom <= x.date <= renewal.validTo
    ensures CoveringCount(x, [expired, renewal]) == 1
    ensures MergeSalesWithLicenses([x], [expired, renewal]) == Some(MissingLicenseCoverage([Report(x)]))
  {
    var ls := [expired, renewal];
    assert Uncovered([x][0], ls) by {
      assert ls[0].customer == x.customer && !Covers(ls[0], x.date);
    }
    assert !ValidRow(x, ls[0]) && ValidRow(x, ls[1]);
    CoveredOnce(x, ls);
    CoveredTwice(x, ls);
    assert MissingRows([x], ls) == [Report(x)];
    assert KeepFirst([Report(x)], 1) == [Report(x)];
  }
}
