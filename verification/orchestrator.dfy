/** The sequential validation loop of `ValidationWorker.run`
    (worker_threads.py:366-392): one transaction around every requested
    validator, called by name in order. A name that is not a validator is
    skipped and clears the success flag; the first validator that raises
    ends the loop, and the transaction rolls back and re-raises. The
    consistency validator commits its TIN cleaning part-way through, so
    that cleaning survives a later failure. */
module Orchestrator {
  import opened Wrappers
  import opened Models
  import opened Checks
  import opened Seqs
  import opened UnitOfWork
  import EnumCheck
  import ForeignKeys
  import Licenses
  import TinConsistency
  import Mme

  datatype Validator =
    | EnumColumns
    | WarehouseDeaNumbers
    | NdcInSalesData
    | CustomerLicenses
    | WarehouseConsistency
    | MmeFactors

  /** The method name the worker is given for each validator. */
  function Name(v: Validator): string {
    match v
    case EnumColumns => "val_enum_columns"
    case WarehouseDeaNumbers => "val_warehouse_dea_numbers"
    case NdcInSalesData => "val_ndc_in_sales_data"
    case CustomerLicenses => "val_customer_licenses"
    case WarehouseConsistency => "val_warehouse_consistency"
    case MmeFactors => "append_and_val_mme"
  }

  /** `getattr(validator, name, None)` followed by `callable(method)`. */
  function Resolve(name: string): (r: Option<Validator>)
    ensures r.Some? ==> Name(r.value) == name
    ensures r.None? <==> forall v: Validator :: Name(v) != name
  {
    if name == "val_enum_columns" then Some(EnumColumns)
    else if name == "val_warehouse_dea_numbers" then Some(WarehouseDeaNumbers)
    else if name == "val_ndc_in_sales_data" then Some(NdcInSalesData)
    else if name == "val_customer_licenses" then Some(CustomerLicenses)
    else if name == "val_warehouse_consistency" then Some(WarehouseConsistency)
    else if name == "append_and_val_mme" then Some(MmeFactors)
    else None
  }

  function Run(v: Validator, t: Tables): Checked {
    match v
    case EnumColumns => EnumCheck.ValEnumColumns(t)
    case WarehouseDeaNumbers => ForeignKeys.ValWarehouseDeaNumbers(t)
    case NdcInSalesData => ForeignKeys.ValNdcInSalesData(t)
    case CustomerLicenses => Licenses.ValCustomerLicenses(t)
    case WarehouseConsistency => TinConsistency.ValWarehouseConsistency(t)
    case MmeFactors => Mme.AppendAndValMme(t)
  }

  /** No validator adds, removes or reorders rows, or touches a column other
      than the warehouse TIN and the product MME factor, whether in its
      result or in what it commits part-way through; only the consistency
      check commits part-way through. */
  lemma RunEffects(v: Validator, t: Tables)
    ensures KeepsRows(t, Run(v, t))
    ensures v != WarehouseConsistency ==> Run(v, t).innerCommit.None?
  {
    if v == WarehouseConsistency {
      var cl := TinConsistency.CleanTinValues(t);
      assert SameRows(t, cl.tables);
    }
  }

  /** What one validator does to the session: the inner commit of its
      cleaning, if it made one, then its result staged or its exception
      raised. */
  function OpsOf(c: Checked): seq<Op<Tables, ValidationError>> {
    (if c.innerCommit.Some? then [Stage(c.innerCommit.value), InnerCommit] else []) +
    (match c.result
     case Ok(t) => [Stage(t)]
     case Err(e) => [Raise(e)])
  }

  /** Only the last operation of a validator can raise, and it does
      exactly when the validator fails. */
  lemma OpsOfShape(c: Checked)
    ensures |OpsOf(c)| > 0
    ensures forall i :: 0 <= i < |OpsOf(c)| - 1 ==> !OpsOf(c)[i].Raise?
    ensures OpsOf(c)[|OpsOf(c)| - 1].Raise? <==> c.result.Err?
  {
  }

  /** A validator's progress reports, tagged with its method name. */
  function Tag(name: string, ps: seq<int>): (r: seq<(string, int)>)
    ensures |r| == |ps|
    ensures forall i :: 0 <= i < |ps| ==> r[i] == (name, ps[i])
  {
    seq(|ps|, i requires 0 <= i < |ps| => (name, ps[i]))
  }

  /** The body of the `with` block, with the progress it emits, the names it
      reported as passed, and the `all_validations_successful` flag. */
  datatype Script = Script(
    ops: seq<Op<Tables, ValidationError>>,
    progress: seq<(string, int)>,
    succeeded: seq<string>,
    allKnown: bool
  )

  predicate Known(name: string) {
    Resolve(name).Some?
  }

  /** The body of the `with` block over any way `run` of running a
      validator; the worker runs them with `Run`. */
  function Body(names: seq<string>, t: Tables, run: (Validator, Tables) -> Checked): (s: Script)
    ensures forall i :: 0 <= i < |s.ops| - 1 ==> !s.ops[i].Raise?
    ensures RaiseFree(s.ops) ==> s.succeeded == Filter(names, Known)
    ensures RaiseFree(s.ops) ==> (s.allKnown <==> forall k :: 0 <= k < |names| ==> Known(names[k]))
    decreases |names|
  {
    if |names| == 0 then Script([], [], [], true)
    else
      var rest := names[1..];
      KnownCons(names);
      match Resolve(names[0])
      case None =>
        var s := Body(rest, t, run);
        s.(allKnown := false)
      case Some(v) =>
        var c := run(v, t);
        var progress := [(names[0], 0)] + Tag(names[0], c.progress);
        OpsOfShape(c);
        match c.result
        case Err(e) =>
          Script(OpsOf(c), progress, [], true)
        case Ok(t') =>
          var s := Body(rest, t', run);
          AppendOps(OpsOf(c), s.ops);
          Script(OpsOf(c) + s.ops, progress + s.progress, [names[0]] + s.succeeded, s.allKnown)
  }

  /** The known names of a non-empty list, and whether all are known, in
      terms of its head and its tail. */
  lemma KnownCons(names: seq<string>)
    requires |names| > 0
    ensures Filter(names, Known) == (if Known(names[0]) then [names[0]] else []) + Filter(names[1..], Known)
    ensures (forall k :: 0 <= k < |names| ==> Known(names[k])) <==>
      Known(names[0]) && forall k :: 0 <= k < |names[1..]| ==> Known(names[1..][k])
  {
    AllCons(names, Known);
  }

  lemma AllCons<T>(s: seq<T>, f: T -> bool)
    requires |s| > 0
    ensures (forall k :: 0 <= k < |s| ==> f(s[k])) <==> f(s[0]) && forall k :: 0 <= k < |s[1..]| ==> f(s[1..][k])
  {
    assert forall k :: 1 <= k < |s| ==> s[k] == s[1..][k - 1];
  }

  /** Raise-free operations followed by operations that raise at most at
      their end raise at most at the end, and raise nowhere exactly when the
      second part raises nowhere. */
  lemma AppendOps(a: seq<Op<Tables, ValidationError>>, b: seq<Op<Tables, ValidationError>>)
    requires RaiseFree(a)
    requires forall i :: 0 <= i < |b| - 1 ==> !b[i].Raise?
    ensures forall i :: 0 <= i < |a + b| - 1 ==> !(a + b)[i].Raise?
    ensures RaiseFree(a + b) <==> RaiseFree(b)
  {
    assert forall i :: 0 <= i < |b| ==> (a + b)[|a| + i] == b[i];
  }

  /** A validator's output keeps the rows of the tables it was given. */
  predicate KeepsRows(t: Tables, c: Checked) {
    && (c.result.Ok? ==> SameRows(t, c.result.value))
    && (c.innerCommit.Some? ==> SameRows(t, c.innerCommit.value))
  }

  /** Every state the body stages keeps the rows of the tables it started
      from, when every validator keeps them. */
  lemma {:induction false} BodyKeepsRows(names: seq<string>, t: Tables, run: (Validator, Tables) -> Checked)
    requires forall v, t0 :: KeepsRows(t0, run(v, t0))
    ensures forall i :: 0 <= i < |Body(names, t, run).ops| && Body(names, t, run).ops[i].Stage? ==>
      SameRows(t, Body(names, t, run).ops[i].state)
    decreases |names|
  {
    if |names| > 0 {
      match Resolve(names[0])
      case None =>
        BodyKeepsRows(names[1..], t, run);
      case Some(v) =>
        var c := run(v, t);
        assert KeepsRows(t, c);
        if c.result.Ok? {
          var t' := c.result.value;
          var s := Body(names[1..], t', run);
          BodyKeepsRows(names[1..], t', run);
          var ops := OpsOf(c) + s.ops;
          forall i | 0 <= i < |ops| && ops[i].Stage?
            ensures SameRows(t, ops[i].state)
          {
            if i >= |OpsOf(c)| {
              assert ops[i] == s.ops[i - |OpsOf(c)|];
              SameRowsTransitive(t, t', ops[i].state);
            }
          }
        }
    }
  }

  /** One step of the body for an unknown name: it is skipped. */
  lemma BodySkips(names: seq<string>, t: Tables, run: (Validator, Tables) -> Checked)
    requires |names| > 0 && Resolve(names[0]).None?
    ensures Body(names, t, run).ops == Body(names[1..], t, run).ops
  {
  }

  /** One step of the body for a validator that passes: its operations come
      first, then those of the rest on the tables it produced. */
  lemma BodyContinues(names: seq<string>, v: Validator, t: Tables, run: (Validator, Tables) -> Checked)
    requires |names| > 0 && Resolve(names[0]) == Some(v) && run(v, t).result.Ok?
    ensures Body(names, t, run).ops == OpsOf(run(v, t)) + Body(names[1..], run(v, t).result.value, run).ops
  {
  }

  /** One step of the body for a validator that raises: the body ends with
      its operations. */
  lemma BodyStops(names: seq<string>, v: Validator, t: Tables, run: (Validator, Tables) -> Checked)
    requires |names| > 0 && Resolve(names[0]) == Some(v) && run(v, t).result.Err?
    ensures Body(names, t, run).ops == OpsOf(run(v, t))
  {
  }

  /** Only validators that commit part-way through put a `InnerCommit` in the
      body. */
  lemma {:induction false} NoInnerCommitWithoutCleaning(names: seq<string>, t: Tables, run: (Validator, Tables) -> Checked)
    requires forall v, t0 :: v != WarehouseConsistency ==> run(v, t0).innerCommit.None?
    requires forall k :: 0 <= k < |names| ==> Resolve(names[k]) != Some(WarehouseConsistency)
    ensures forall i :: 0 <= i < |Body(names, t, run).ops| ==> !Body(names, t, run).ops[i].InnerCommit?
    decreases |names|
  {
    if |names| > 0 {
      var rest := names[1..];
      assert forall k :: 0 <= k < |rest| ==> Resolve(rest[k]) != Some(WarehouseConsistency) by {
        assert forall k :: 0 <= k < |rest| ==> rest[k] == names[k + 1];
      }
      var r := Resolve(names[0]);
      if r.None? {
        BodySkips(names, t, run);
        NoInnerCommitWithoutCleaning(rest, t, run);
      } else {
        var v := r.value;
        var c := run(v, t);
        assert c.innerCommit.None?;
        if c.result.Ok? {
          BodyContinues(names, v, t, run);
          NoInnerCommitWithoutCleaning(rest, c.result.value, run);
          assert OpsOf(c) == [Stage(c.result.value)];
        } else {
          BodyStops(names, v, t, run);
          assert OpsOf(c) == [Raise(c.result.error)];
        }
      }
    }
  }

  /** The worker's run: the transaction around the body, the progress it
      emitted, the validators it reported as passed, and whether it
      signalled that every validation succeeded. */
  datatype Report = Report(
    outcome: Outcome<Tables, ValidationError>,
    progress: seq<(string, int)>,
    succeeded: seq<string>,
    allSucceeded: bool
  )

  function Validate(names: seq<string>, durable: Tables, commitFault: Option<ValidationError>, rollbackFault: Option<ValidationError>): (r: Report)
    ensures r.allSucceeded ==> r.outcome.raised.None? && r.outcome.calls == [Commit(true), Close]
    ensures r.allSucceeded ==> forall k :: 0 <= k < |names| ==> Known(names[k])
    ensures r.outcome.raised.None? ==> r.succeeded == Filter(names, Known)
    ensures r.outcome.raised.Some? ==> Rollback in r.outcome.calls
  {
    var b := Body(names, durable, Run);
    var o := UnitOfWork.Transaction(durable, b.ops, commitFault, rollbackFault);
    SucceedsOnlyByCommit(durable, b.ops, commitFault, rollbackFault);
    Report(o, b.progress, b.succeeded, o.raised.None? && b.allKnown)
  }

  /** However the run ends, the durable tables keep their rows: validation
      only ever rewrites TINs and MME factors. */
  lemma ValidateKeepsRows(names: seq<string>, durable: Tables, commitFault: Option<ValidationError>, rollbackFault: Option<ValidationError>)
    ensures SameRows(durable, Validate(names, durable, commitFault, rollbackFault).outcome.durable)
  {
    var b := Body(names, durable, Run);
    forall v: Validator, t: Tables ensures KeepsRows(t, Run(v, t)) {
      RunEffects(v, t);
    }
    BodyKeepsRows(names, durable, Run);
    TransactionPreserves(x => SameRows(durable, x), durable, b.ops, commitFault, rollbackFault);
  }

  lemma OnlyCleaningCommitsInner()
    ensures forall v, t :: v != WarehouseConsistency ==> Run(v, t).innerCommit.None?
  {
    forall v: Validator, t: Tables | v != WarehouseConsistency
      ensures Run(v, t).innerCommit.None?
    {
      RunEffects(v, t);
    }
  }

  /** A failed run that requested no consistency check leaves the durable
      tables exactly as they were before it. */
  lemma FailureWithoutCleaningChangesNothing(names: seq<string>, durable: Tables, commitFault: Option<ValidationError>, rollbackFault: Option<ValidationError>)
    requires forall k :: 0 <= k < |names| ==> Resolve(names[k]) != Some(WarehouseConsistency)
    requires Validate(names, durable, commitFault, rollbackFault).outcome.raised.Some?
    ensures Validate(names, durable, commitFault, rollbackFault).outcome.durable == durable
  {
    var b := Body(names, durable, Run);
    OnlyCleaningCommitsInner();
    NoInnerCommitWithoutCleaning(names, durable, Run);
    Atomicity(durable, b.ops, commitFault, rollbackFault);
  }

  /** A body that starts with a validator committing `x` part-way
      through stages and commits `x` first, and commits nothing after it
      when no later validator does. */
  lemma CommittingFirst(name: string, v: Validator, rest: seq<string>, t: Tables, run: (Validator, Tables) -> Checked)
    requires Resolve(name) == Some(v)
    requires forall w, t0 :: w != WarehouseConsistency ==> run(w, t0).innerCommit.None?
    requires forall k :: 0 <= k < |rest| ==> Resolve(rest[k]) != Some(WarehouseConsistency)
    requires run(v, t).innerCommit.Some?
    ensures var ops := Body([name] + rest, t, run).ops;
      && |ops| >= 2
      && ops[0] == Stage(run(v, t).innerCommit.value)
      && ops[1] == InnerCommit
      && forall i :: 2 <= i < |ops| ==> !ops[i].InnerCommit?
  {
    var names := [name] + rest;
    assert names[0] == name && names[1..] == rest;
    if run(v, t).result.Ok? {
      CommittingFirstPasses(names, v, t, run);
    } else {
      BodyStops(names, v, t, run);
    }
  }

  /** The case of `CommittingFirst` where the committing validator passes. */
  lemma CommittingFirstPasses(names: seq<string>, v: Validator, t: Tables, run: (Validator, Tables) -> Checked)
    requires |names| > 0 && Resolve(names[0]) == Some(v)
    requires forall w, t0 :: w != WarehouseConsistency ==> run(w, t0).innerCommit.None?
    requires forall k :: 1 <= k < |names| ==> Resolve(names[k]) != Some(WarehouseConsistency)
    requires run(v, t).innerCommit.Some? && run(v, t).result.Ok?
    ensures var ops := Body(names, t, run).ops;
      && |ops| >= 2
      && ops[0] == Stage(run(v, t).innerCommit.value)
      && ops[1] == InnerCommit
      && forall i :: 2 <= i < |ops| ==> !ops[i].InnerCommit?
  {
    var c := run(v, t);
    var rest := names[1..];
    assert forall k :: 0 <= k < |rest| ==> Resolve(rest[k]) != Some(WarehouseConsistency) by {
      assert forall k :: 0 <= k < |rest| ==> rest[k] == names[k + 1];
    }
    BodyContinues(names, v, t, run);
    NoInnerCommitWithoutCleaning(rest, c.result.value, run);
    assert OpsOf(c) == [Stage(c.innerCommit.value), InnerCommit, Stage(c.result.value)];
    CommitThenNoInnerCommit(c.innerCommit.value, c.result.value, Body(rest, c.result.value, run).ops);
  }

  /** Staging and committing `x`, then staging `y`, then operations without
      a commit: the only commit is the second operation. */
  lemma CommitThenNoInnerCommit(x: Tables, y: Tables, b: seq<Op<Tables, ValidationError>>)
    requires forall i :: 0 <= i < |b| ==> !b[i].InnerCommit?
    ensures var ops := [Stage(x), InnerCommit, Stage(y)] + b;
      && ops[0] == Stage(x)
      && ops[1] == InnerCommit
      && forall i :: 2 <= i < |ops| ==> !ops[i].InnerCommit?
  {
    var ops := [Stage(x), InnerCommit, Stage(y)] + b;
    assert forall i :: 3 <= i < |ops| ==> ops[i] == b[i - 3];
  }

  /** The inner commit of the TIN cleaning survives a later failure: when
      the consistency check runs first and its cleaning commits, a run that
      fails afterwards (in the consistency check itself, in a later
      validator, or in the final commit) leaves the cleaned tables
      durable. */
  lemma CleaningSurvivesLaterFailure(rest: seq<string>, durable: Tables, commitFault: Option<ValidationError>, rollbackFault: Option<ValidationError>)
    requires TinConsistency.CleanTinValues(durable).committed
    requires forall k :: 0 <= k < |rest| ==> Resolve(rest[k]) != Some(WarehouseConsistency)
    requires Validate([Name(WarehouseConsistency)] + rest, durable, commitFault, rollbackFault).outcome.raised.Some?
    ensures Validate([Name(WarehouseConsistency)] + rest, durable, commitFault, rollbackFault).outcome.durable ==
      TinConsistency.CleanTinValues(durable).tables
  {
    var cleaned := TinConsistency.CleanTinValues(durable).tables;
    var names := [Name(WarehouseConsistency)] + rest;
    ConsistencyCommitsCleaning(durable);
    ResolvesOwnName(WarehouseConsistency);
    OnlyCleaningCommitsInner();
    CommittingFirst(Name(WarehouseConsistency), WarehouseConsistency, rest, durable, Run);
    var ops := Body(names, durable, Run).ops;
    assert Validate(names, durable, commitFault, rollbackFault).outcome == UnitOfWork.Transaction(durable, ops, commitFault, rollbackFault);
    CommitFirstSurvives(durable, cleaned, ops, commitFault, rollbackFault);
  }

  /** A body that stages `x` and commits it first, and commits nothing
      after, leaves `x` durable when the transaction fails. */
  lemma CommitFirstSurvives(durable: Tables, x: Tables, ops: seq<Op<Tables, ValidationError>>, commitFault: Option<ValidationError>, rollbackFault: Option<ValidationError>)
    requires |ops| >= 2 && ops[0] == Stage(x) && ops[1] == InnerCommit
    requires forall i :: 2 <= i < |ops| ==> !ops[i].InnerCommit?
    requires UnitOfWork.Transaction(durable, ops, commitFault, rollbackFault).raised.Some?
    ensures UnitOfWork.Transaction(durable, ops, commitFault, rollbackFault).durable == x
  {
    assert ops == [Stage(x), InnerCommit] + ops[2..];
    InnerCommitSurvives(durable, x, ops[2..], commitFault, rollbackFault);
  }

  /** A committing cleaning is what the consistency check commits
      part-way through. */
  lemma ConsistencyCommitsCleaning(durable: Tables)
    requires TinConsistency.CleanTinValues(durable).committed
    ensures Run(WarehouseConsistency, durable).innerCommit == Some(TinConsistency.CleanTinValues(durable).tables)
  {
  }

  /** Every validator is found under its own method name. */
  lemma ResolvesOwnName(v: Validator)
    ensures Resolve(Name(v)) == Some(v)
  {
    var r := Resolve(Name(v));
    assert r.Some?;
    match v
    case EnumColumns =>
    case WarehouseDeaNumbers =>
    case NdcInSalesData =>
    case CustomerLicenses =>
    case WarehouseConsistency =>
    case MmeFactors =>
  }
}
