/** `val_enum_columns` (data_validator.py:70-153): every report-inclusion flag
    of the product master must be "Y" or "N"; offenders are collected for all
    four columns before one error is raised. */
module EnumCheck {
  import opened Wrappers
  import opened Models
  import opened Checks

  /** The SQL filter `NOT col IN ('Y','N') OR col IS NULL`, negated. */
  predicate IsValidFlag(v: Option<string>) {
    v == Some("Y") || v == Some("N")
  }

  predicate Offends(p: Product, c: FlagColumn) {
    !IsValidFlag(p.Flag(c))
  }

  /** The product codes of the rows whose column `c` is null or neither "Y"
      nor "N", in table order. */
  function Offenders(ps: seq<Product>, c: FlagColumn): (r: seq<string>)
    ensures |r| <= |ps|
    ensures forall n :: n in r <==> exists i :: 0 <= i < |ps| && ps[i].ndc == n && Offends(ps[i], c)
  {
    if |ps| == 0 then []
    else
      var rest := Offenders(ps[1..], c);
      assert forall i :: 0 < i < |ps| ==> ps[i] == ps[1..][i - 1];
      (if Offends(ps[0], c) then [ps[0].ndc] else []) + rest
  }

  /** `d` has one entry per visited column that has offenders, each entry
      lists exactly that column's offending codes, and every offence in a
      visited column has an entry. */
  ghost predicate Describes(ps: seq<Product>, cols: seq<FlagColumn>, d: seq<(FlagColumn, seq<string>)>) {
    && (forall k :: 0 <= k < |d| ==> d[k].0 in cols && |d[k].1| > 0)
    && (forall k, n :: 0 <= k < |d| ==>
          (n in d[k].1 <==> exists i :: 0 <= i < |ps| && ps[i].ndc == n && Offends(ps[i], d[k].0)))
    && (forall i, c :: 0 <= i < |ps| && c in cols && Offends(ps[i], c) ==>
          exists k :: 0 <= k < |d| && d[k].0 == c)
  }

  /** The `invalid_columns_details` dictionary, in insertion order: one entry
      per visited column that has offenders. */
  function Details(ps: seq<Product>, cols: seq<FlagColumn>): (d: seq<(FlagColumn, seq<string>)>)
    ensures Describes(ps, cols, d)
  {
    if |cols| == 0 then []
    else
      var o := Offenders(ps, cols[0]);
      var rest := Details(ps, cols[1..]);
      if |o| > 0 then
        ConsEntry(ps, cols, rest);
        [(cols[0], o)] + rest
      else
        SkipColumn(ps, cols, rest);
        rest
  }

  /** A column with offenders contributes an entry in front of the entries
      of the columns after it. */
  lemma ConsEntry(ps: seq<Product>, cols: seq<FlagColumn>, rest: seq<(FlagColumn, seq<string>)>)
    requires |cols| > 0 && |Offenders(ps, cols[0])| > 0
    requires Describes(ps, cols[1..], rest)
    ensures Describes(ps, cols, [(cols[0], Offenders(ps, cols[0]))] + rest)
  {
    var o := Offenders(ps, cols[0]);
    var d := [(cols[0], o)] + rest;
    assert cols == [cols[0]] + cols[1..];
    forall k | 0 <= k < |d|
      ensures d[k].0 in cols && |d[k].1| > 0
    {
      if k > 0 {
        assert d[k] == rest[k - 1];
      }
    }
    forall k, n | 0 <= k < |d|
      ensures n in d[k].1 <==> exists i :: 0 <= i < |ps| && ps[i].ndc == n && Offends(ps[i], d[k].0)
    {
      if k > 0 {
        assert d[k] == rest[k - 1];
      }
    }
    forall i, c | 0 <= i < |ps| && c in cols && Offends(ps[i], c)
      ensures exists k :: 0 <= k < |d| && d[k].0 == c
    {
      if c == cols[0] {
        assert d[0].0 == c;
      } else {
        assert c in cols[1..];
        var k :| 0 <= k < |rest| && rest[k].0 == c;
        assert d[k + 1].0 == c;
      }
    }
  }

  /** A column without offenders contributes no entry. */
  lemma SkipColumn(ps: seq<Product>, cols: seq<FlagColumn>, rest: seq<(FlagColumn, seq<string>)>)
    requires |cols| > 0 && |Offenders(ps, cols[0])| == 0
    requires Describes(ps, cols[1..], rest)
    ensures Describes(ps, cols, rest)
  {
    assert cols == [cols[0]] + cols[1..];
    forall i, c | 0 <= i < |ps| && c in cols && Offends(ps[i], c)
      ensures exists k :: 0 <= k < |rest| && rest[k].0 == c
    {
      assert ps[i].ndc !in Offenders(ps, cols[0]);
      assert c != cols[0];
      assert c in cols[1..];
    }
  }

  lemma AllColumnsVisited()
    ensures forall col :: col in FlagColumns
  {
    forall col
      ensures col in FlagColumns
    {
      match col
      case Arcos => assert FlagColumns[0] == col;
      case Dscsa => assert FlagColumns[1] == col;
      case MiState => assert FlagColumns[2] == col;
      case NyState => assert FlagColumns[3] == col;
    }
  }

  /** The enum check. It never changes the tables; it fails exactly when some
      product has some flag that is null or not "Y"/"N", and then lists, for
      exactly the columns that have offenders, exactly the offending product
      codes. Progress: 50 once per column, then 100 on success. */
  function ValEnumColumns(t: Tables): (c: Checked)
    ensures c.innerCommit == None
    ensures c.result.Ok? ==> c.result.value == t
    ensures c.result.Err? <==>
      exists i, col :: 0 <= i < |t.products| && Offends(t.products[i], col)
    ensures c.result.Err? ==> c.result.error.EnumViolation?
    ensures c.result.Err? ==>
      var d := c.result.error.details;
      && (forall i, col :: 0 <= i < |t.products| && Offends(t.products[i], col) ==>
            exists k :: 0 <= k < |d| && d[k].0 == col)
      && (forall k, n :: 0 <= k < |d| ==>
            (n in d[k].1 <==> exists i :: 0 <= i < |t.products| && t.products[i].ndc == n && Offends(t.products[i], d[k].0)))
    ensures c.progress == Repeat(|FlagColumns|, 50) + (if c.result.Ok? then [100] else [])
  {
    var d := Details(t.products, FlagColumns);
    AllOffencesListed(t.products);
    EntriesIffOffence(t.products);
    if |d| > 0 then
      Checked(Err(EnumViolation(d)), Repeat(4, 50), None)
    else
      Checked(Ok(t), Repeat(4, 50) + [100], None)
  }

  /** Every column in which some product offends has an entry in `d`. */
  predicate ListsEveryOffence(ps: seq<Product>, d: seq<(FlagColumn, seq<string>)>) {
    forall i, col :: 0 <= i < |ps| && Offends(ps[i], col) ==>
      exists k :: 0 <= k < |d| && d[k].0 == col
  }

  /** Since the check visits all four columns, every offence has an entry. */
  lemma AllOffencesListed(ps: seq<Product>)
    ensures ListsEveryOffence(ps, Details(ps, FlagColumns))
  {
    var d := Details(ps, FlagColumns);
    AllColumnsVisited();
    forall i, col | 0 <= i < |ps| && Offends(ps[i], col)
      ensures exists k :: 0 <= k < |d| && d[k].0 == col
    {
      assert col in FlagColumns;
    }
  }

  /** There are entries exactly when some product offends in some column. */
  lemma EntriesIffOffence(ps: seq<Product>)
    ensures |Details(ps, FlagColumns)| > 0 <==> exists i, col :: 0 <= i < |ps| && Offends(ps[i], col)
  {
    var d := Details(ps, FlagColumns);
    if |d| > 0 {
      var n := d[0].1[0];
      assert n in d[0].1;
      var i :| 0 <= i < |ps| && ps[i].ndc == n && Offends(ps[i], d[0].0);
    } else {
      AllOffencesListed(ps);
    }
  }

  /** The trace is a well-formed progress report that reaches 100 exactly
      when the check passes. */
  lemma EnumProgress(t: Tables)
    ensures WellFormedProgress(ValEnumColumns(t).progress)
    ensures ValEnumColumns(t).result.Ok? <==> 100 in ValEnumColumns(t).progress
  {
    var c := ValEnumColumns(t);
    FiftiesThenHundred(|FlagColumns|);
    if c.result.Ok? {
      assert c.progress[|FlagColumns|] == 100;
    }
  }

  /** Reports of 50 followed, or not, by a final 100 never go backwards, and
      only the final report is 100. */
  lemma FiftiesThenHundred(n: nat)
    ensures WellFormedProgress(Repeat(n, 50))
    ensures WellFormedProgress(Repeat(n, 50) + [100])
    ensures 100 !in Repeat(n, 50)
  {
    var f := Repeat(n, 50);
    var g := f + [100];
    forall i, j | 0 <= i < j < |g|
      ensures g[i] <= g[j]
    {
      if j < n {
        assert g[j] == f[j];
      }
      if i < n {
        assert g[i] == f[i];
      }
    }
  }
}
