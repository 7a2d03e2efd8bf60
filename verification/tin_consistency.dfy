/** `clean_tin_values` (data_validator.py:524-565) and
    `val_warehouse_consistency` (567-651): warehouse TINs are stripped of
    dashes and written back, checked for nine digits, committed, and then
    required to be in one-to-one correspondence with the corporate identity
    5-tuple. */
module TinConsistency {
  import opened Wrappers
  import opened Models
  import opened Checks
  import Text

  const TinLength: nat := 9

  /** The only character the cleaning removes. */
  const Dash: char := '-'

  function CleanTin(tin: string): (r: string)
    ensures Dash !in r
    ensures |r| <= |tin|
    ensures forall c :: c != Dash ==> multiset(r)[c] == multiset(tin)[c]
  {
    Text.RemoveChar(tin, Dash)
  }

  /** Cleaning an already clean TIN changes nothing. */
  lemma CleanTinIdempotent(tin: string)
    ensures CleanTin(CleanTin(tin)) == CleanTin(tin)
  {
    Text.RemoveCharIdempotent(tin, Dash);
  }

  /** The format the excise-tax report needs: nine characters, all digits. */
  predicate WellFormedTin(cleaned: string) {
    |cleaned| == TinLength && Text.IsDigits(cleaned)
  }

  /** The warehouses after the write-back: every TIN replaced by its cleaned
      form, whether or not that form is well formed. */
  function CleanWarehouses(ws: seq<Warehouse>): (r: seq<Warehouse>)
    ensures |r| == |ws|
    ensures forall i :: 0 <= i < |ws| ==>
      && r[i].(tin := ws[i].tin) == ws[i]
      && Dash !in r[i].tin
      && (forall c :: c != Dash ==> multiset(r[i].tin)[c] == multiset(ws[i].tin)[c])
  {
    seq(|ws|, i requires 0 <= i < |ws| => ws[i].(tin := CleanTin(ws[i].tin)))
  }

  /** The original TIN values whose cleaned form is malformed, in table
      order. */
  function UnexpectedTins(ws: seq<Warehouse>): (r: seq<string>)
    ensures |r| <= |ws|
    ensures forall x :: x in r <==>
      exists i :: 0 <= i < |ws| && ws[i].tin == x && !WellFormedTin(CleanTin(x))
  {
    if |ws| == 0 then []
    else
      var rest := UnexpectedTins(ws[1..]);
      assert forall i :: 0 < i < |ws| ==> ws[i] == ws[1..][i - 1];
      (if !WellFormedTin(CleanTin(ws[0].tin)) then [ws[0].tin] else []) + rest
  }

  /** What one call of the cleaning leaves behind: the tables with the
      write-back staged, the malformed originals, and whether it committed. */
  datatype Cleaning = Cleaning(tables: Tables, unexpected: seq<string>, committed: bool)

  /** The cleaning step. The write-back touches only the TIN column and is
      staged for every warehouse, including the malformed ones; the step
      commits exactly when no TIN is malformed. */
  function CleanTinValues(t: Tables): (r: Cleaning)
    ensures SameRows(t, r.tables)
    ensures r.tables.warehouses == CleanWarehouses(t.warehouses)
    ensures r.committed <==> |r.unexpected| == 0
    ensures r.committed <==>
      forall i :: 0 <= i < |t.warehouses| ==> WellFormedTin(CleanTin(t.warehouses[i].tin))
    ensures forall x :: x in r.unexpected <==>
      exists i :: 0 <= i < |t.warehouses| && t.warehouses[i].tin == x && !WellFormedTin(CleanTin(x))
  {
    var bad := UnexpectedTins(t.warehouses);
    assert |bad| > 0 ==> bad[0] in bad;
    Cleaning(t.(warehouses := CleanWarehouses(t.warehouses)), bad, |bad| == 0)
  }

  /** Running the cleaning on its own output stages the same tables again. */
  lemma CleanTinValuesIdempotent(t: Tables)
    ensures CleanTinValues(CleanTinValues(t).tables).tables == CleanTinValues(t).tables
  {
    var once := CleanTinValues(t).tables;
    var twice := CleanTinValues(once).tables;
    assert |twice.warehouses| == |once.warehouses|;
    forall i | 0 <= i < |once.warehouses|
      ensures twice.warehouses[i] == once.warehouses[i]
    {
      CleanTinIdempotent(t.warehouses[i].tin);
    }
  }

  // ---------------------------------------------------------------------
  // The TIN <-> corporate identity correspondence
  // ---------------------------------------------------------------------

  /** `tin_to_corporate_info[tin]`. */
  function InfosOf(ws: seq<Warehouse>, tin: string): set<CorporateInfo> {
    set i | 0 <= i < |ws| && ws[i].tin == tin :: ws[i].corporate
  }

  /** `corporate_info_to_tin[info]`. */
  function TinsOf(ws: seq<Warehouse>, info: CorporateInfo): set<string> {
    set i | 0 <= i < |ws| && ws[i].corporate == info :: ws[i].tin
  }

  /** The TINs whose group holds more than one identity. */
  function ConflictingTins(ws: seq<Warehouse>): set<string> {
    set i | 0 <= i < |ws| && |InfosOf(ws, ws[i].tin)| > 1 :: ws[i].tin
  }

  /** The identities whose group holds more than one TIN. */
  function ConflictingInfos(ws: seq<Warehouse>): set<CorporateInfo> {
    set i | 0 <= i < |ws| && |TinsOf(ws, ws[i].corporate)| > 1 :: ws[i].corporate
  }

  /** The reference definition: equal TINs exactly when equal identities. */
  predicate Bijective(ws: seq<Warehouse>) {
    forall i, j :: 0 <= i < |ws| && 0 <= j < |ws| ==>
      (ws[i].tin == ws[j].tin <==> ws[i].corporate == ws[j].corporate)
  }

  lemma {:induction false} MoreThanOne<T>(s: set<T>)
    ensures |s| > 1 <==> exists a, b :: a in s && b in s && a != b
  {
    if |s| > 1 {
      var a :| a in s;
      assert |s - {a}| == |s| - 1;
      var b :| b in s - {a};
    }
    if exists a, b :: a in s && b in s && a != b {
      var a, b :| a in s && b in s && a != b;
      assert |s - {a}| == |s| - 1;
      assert b in s - {a};
    }
  }

  /** A TIN conflicts exactly when two warehouses carry it with different
      identities. */
  lemma ConflictingTinsPairwise(ws: seq<Warehouse>, tin: string)
    ensures tin in ConflictingTins(ws) <==>
      exists i, j :: 0 <= i < |ws| && 0 <= j < |ws| && ws[i].tin == tin && ws[j].tin == tin &&
        ws[i].corporate != ws[j].corporate
  {
    MoreThanOne(InfosOf(ws, tin));
    if tin in ConflictingTins(ws) {
      var a, b :| a in InfosOf(ws, tin) && b in InfosOf(ws, tin) && a != b;
      var i :| 0 <= i < |ws| && ws[i].tin == tin && ws[i].corporate == a;
      var j :| 0 <= j < |ws| && ws[j].tin == tin && ws[j].corporate == b;
    }
    if exists i, j :: 0 <= i < |ws| && 0 <= j < |ws| && ws[i].tin == tin && ws[j].tin == tin &&
        ws[i].corporate != ws[j].corporate
    {
      var i, j :| 0 <= i < |ws| && 0 <= j < |ws| && ws[i].tin == tin && ws[j].tin == tin &&
        ws[i].corporate != ws[j].corporate;
      assert ws[i].corporate in InfosOf(ws, tin) && ws[j].corporate in InfosOf(ws, tin);
    }
  }

  /** An identity conflicts exactly when two warehouses carry it with
      different TINs. */
  lemma ConflictingInfosPairwise(ws: seq<Warehouse>, info: CorporateInfo)
    ensures info in ConflictingInfos(ws) <==>
      exists i, j :: 0 <= i < |ws| && 0 <= j < |ws| && ws[i].corporate == info && ws[j].corporate == info &&
        ws[i].tin != ws[j].tin
  {
    MoreThanOne(TinsOf(ws, info));
    if info in ConflictingInfos(ws) {
      var a, b :| a in TinsOf(ws, info) && b in TinsOf(ws, info) && a != b;
      var i :| 0 <= i < |ws| && ws[i].corporate == info && ws[i].tin == a;
      var j :| 0 <= j < |ws| && ws[j].corporate == info && ws[j].tin == b;
    }
    if exists i, j :: 0 <= i < |ws| && 0 <= j < |ws| && ws[i].corporate == info && ws[j].corporate == info &&
        ws[i].tin != ws[j].tin
    {
      var i, j :| 0 <= i < |ws| && 0 <= j < |ws| && ws[i].corporate == info && ws[j].corporate == info &&
        ws[i].tin != ws[j].tin;
      assert ws[i].tin in TinsOf(ws, info) && ws[j].tin in TinsOf(ws, info);
    }
  }

  /** The two group-size checks together find nothing exactly when TINs and
      identities are in one-to-one correspondence. */
  lemma NoConflictsIffBijective(ws: seq<Warehouse>)
    ensures ConflictingTins(ws) == {} && ConflictingInfos(ws) == {} <==> Bijective(ws)
  {
    if !Bijective(ws) {
      var i, j :| 0 <= i < |ws| && 0 <= j < |ws| &&
        !(ws[i].tin == ws[j].tin <==> ws[i].corporate == ws[j].corporate);
      if ws[i].tin == ws[j].tin {
        ConflictingTinsPairwise(ws, ws[i].tin);
        assert ws[i].tin in ConflictingTins(ws);
      } else {
        ConflictingInfosPairwise(ws, ws[i].corporate);
        assert ws[i].corporate in ConflictingInfos(ws);
      }
    }
    if ConflictingTins(ws) != {} {
      var tin :| tin in ConflictingTins(ws);
      ConflictingTinsPairwise(ws, tin);
    }
    if ConflictingInfos(ws) != {} {
      var info :| info in ConflictingInfos(ws);
      ConflictingInfosPairwise(ws, info);
    }
  }

  /** The consistency check. It first runs the cleaning: a malformed TIN
      fails it before any progress is reported and nothing is committed.
      Otherwise the cleaned tables are committed, progress 0 and 50 are
      reported, and the check fails exactly when the cleaned TINs and the
      identities are not in one-to-one correspondence, reporting both
      conflict groups in one error; on success it reports 100. */
  function ValWarehouseConsistency(t: Tables): (c: Checked)
    ensures var cl := CleanTinValues(t);
      c.innerCommit == (if cl.committed then Some(cl.tables) else None)
    ensures c.result.Ok? ==> c.result.value == CleanTinValues(t).tables
    ensures c.result.Ok? ==> Bijective(c.result.value.warehouses)
    ensures (c.result.Err? && c.result.error.TinFormatViolation?) <==> !CleanTinValues(t).committed
    ensures c.result.Err? && c.result.error.TinFormatViolation? ==>
      c.result.error.badTins == CleanTinValues(t).unexpected
    ensures (c.result.Err? && c.result.error.TinInconsistency?) <==>
      CleanTinValues(t).committed && !Bijective(CleanWarehouses(t.warehouses))
    ensures c.result.Err? && c.result.error.TinInconsistency? ==>
      && c.result.error.tins == ConflictingTins(CleanWarehouses(t.warehouses))
      && c.result.error.identities == ConflictingInfos(CleanWarehouses(t.warehouses))
    ensures c.result.Err? ==> c.result.error.TinFormatViolation? || c.result.error.TinInconsistency?
    ensures c.progress ==
      if !CleanTinValues(t).committed then []
      else if c.result.Err? then [0, 50]
      else [0, 50, 100]
  {
    var cl := CleanTinValues(t);
    if !cl.committed then
      Checked(Err(TinFormatViolation(cl.unexpected)), [], None)
    else
      var ws := cl.tables.warehouses;
      NoConflictsIffBijective(ws);
      var tins := ConflictingTins(ws);
      var infos := ConflictingInfos(ws);
      if tins != {} || infos != {} then
        Checked(Err(TinInconsistency(tins, infos)), [0, 50], Some(cl.tables))
      else
        Checked(Ok(cl.tables), [0, 50, 100], Some(cl.tables))
  }
}
