/** `append_and_val_mme` (data_validator.py:653-793): every product is
    looked up in the MME reference table by the first nine characters of its
    code and by exact strength; a unique match assigns the conversion factor,
    several matches stop the sweep at once, none is recorded as a mismatch.
    Afterwards mismatches fail the check, and then products flagged for the
    New York reports that still lack a factor fail it. */
module Mme {
  import opened Wrappers
  import opened Models
  import opened Checks
  import opened Seqs

  const PrefixLength: nat := 9

  /** `ndc_no_dashes[:9]`: Python slicing keeps a shorter code whole. */
  function Prefix9(ndc: string): (r: string)
    ensures |r| <= PrefixLength
    ensures |r| == if |ndc| < PrefixLength then |ndc| else PrefixLength
    ensures r <= ndc
  {
    if |ndc| <= PrefixLength then ndc else ndc[..PrefixLength]
  }

  /** A reference row for the product's nine-digit code. */
  predicate SameCode(row: MmeRow, p: Product) {
    row.nineDigitNdc == Prefix9(p.ndc)
  }

  /** ... whose strength equals the product's (a NULL strength never does). */
  predicate StrengthMatch(row: MmeRow, p: Product) {
    SameCode(row, p) && row.strength == Some(p.strength)
  }

  /** The outcome of one product's lookup. */
  datatype Lookup = NoReference | Ambiguous | Match(factor: Measure) | Mismatch

  /** The lookup as written: count the rows of the product's code, collect
      those of its strength too. */
  function LookupFactor(mme: seq<MmeRow>, p: Product): Lookup {
    var references := Count(mme, row => SameCode(row, p));
    var hits := Filter(mme, row => StrengthMatch(row, p));
    if references == 0 then NoReference
    else if |hits| > 1 then Ambiguous
    else if |hits| == 1 then Match(hits[0].factor)
    else Mismatch
  }

  /** What each outcome of the lookup means in terms of the reference rows:
      no row of the code; two rows of the code and strength; exactly one such
      row, whose factor is taken; rows of the code but none of the
      strength. */
  lemma LookupFactorSpec(mme: seq<MmeRow>, p: Product)
    ensures var r := LookupFactor(mme, p);
      && (r.NoReference? <==> forall j :: 0 <= j < |mme| ==> !SameCode(mme[j], p))
      && (r.Ambiguous? <==>
            exists j, k :: 0 <= j < k < |mme| && StrengthMatch(mme[j], p) && StrengthMatch(mme[k], p))
      && (r.Match? ==>
            exists j :: 0 <= j < |mme| && StrengthMatch(mme[j], p) && mme[j].factor == r.factor)
      && (r.Match? ==>
            forall j, k :: 0 <= j < k < |mme| ==> !(StrengthMatch(mme[j], p) && StrengthMatch(mme[k], p)))
      && (r.Mismatch? <==>
            (exists j :: 0 <= j < |mme| && SameCode(mme[j], p)) &&
            (forall j :: 0 <= j < |mme| ==> !StrengthMatch(mme[j], p)))
  {
    var hits := Filter(mme, row => StrengthMatch(row, p));
    CountPositive(mme, row => SameCode(row, p));
    CountPositive(mme, row => StrengthMatch(row, p));
    CountAtLeastTwo(mme, row => StrengthMatch(row, p));
    if |hits| == 1 {
      assert hits[0] in mme && StrengthMatch(hits[0], p);
    }
  }

  /** Only the code and the strength of a product take part in its lookup. */
  lemma LookupIgnoresFactor(mme: seq<MmeRow>, p: Product, f: Option<Measure>)
    ensures LookupFactor(mme, p.(mmeFactor := f)) == LookupFactor(mme, p)
  {
    var q := p.(mmeFactor := f);
    CountCorresponding(mme, row => SameCode(row, q), mme, row => SameCode(row, p));
    FilterAgreeing(mme, row => StrengthMatch(row, q), row => StrengthMatch(row, p));
  }

  /** One product after its lookup: a unique match sets (or overwrites) the
      factor, every other outcome leaves the product as it was. */
  function Assign(mme: seq<MmeRow>, p: Product): (r: Product)
    ensures r.(mmeFactor := p.mmeFactor) == p
    ensures LookupFactor(mme, p).Match? ==> r.mmeFactor == Some(LookupFactor(mme, p).factor)
    ensures !LookupFactor(mme, p).Match? ==> r == p
  {
    match LookupFactor(mme, p)
    case Match(f) => p.(mmeFactor := Some(f))
    case _ => p
  }

  predicate Assigns(mme: seq<MmeRow>, p: Product) {
    LookupFactor(mme, p).Match?
  }

  predicate Mismatches(mme: seq<MmeRow>, p: Product) {
    LookupFactor(mme, p).Mismatch?
  }

  /** Product `i` is the first whose lookup is ambiguous. */
  predicate FirstAmbiguous(mme: seq<MmeRow>, ps: seq<Product>, i: int) {
    && 0 <= i < |ps|
    && LookupFactor(mme, ps[i]).Ambiguous?
    && forall i' :: 0 <= i' < i ==> !LookupFactor(mme, ps[i']).Ambiguous?
  }

  /** The first ambiguous product at or after `from`, if any: the sweep
      stops there. */
  function FirstAmbiguousFrom(mme: seq<MmeRow>, ps: seq<Product>, from: nat): (r: Option<nat>)
    requires from <= |ps|
    requires forall i :: 0 <= i < from ==> !LookupFactor(mme, ps[i]).Ambiguous?
    ensures r.Some? ==> FirstAmbiguous(mme, ps, r.value)
    ensures r.None? ==> forall i :: 0 <= i < |ps| ==> !LookupFactor(mme, ps[i]).Ambiguous?
    decreases |ps| - from
  {
    if from == |ps| then None
    else if LookupFactor(mme, ps[from]).Ambiguous? then Some(from)
    else
      assert forall i :: 0 <= i < from + 1 ==> !LookupFactor(mme, ps[i]).Ambiguous?;
      FirstAmbiguousFrom(mme, ps, from + 1)
  }

  /** Every product after its lookup, for a sweep that ran to the end. */
  function AssignAll(mme: seq<MmeRow>, ps: seq<Product>): (r: seq<Product>)
    ensures |r| == |ps|
    ensures forall i :: 0 <= i < |ps| ==> r[i] == Assign(mme, ps[i])
  {
    seq(|ps|, i requires 0 <= i < |ps| => Assign(mme, ps[i]))
  }

  /** The (code, strength) pairs of the products whose lookup found the code
      but no row of their strength, in table order. */
  function MismatchRecords(mme: seq<MmeRow>, ps: seq<Product>): (r: seq<(string, Measure)>)
    ensures |r| == Count(ps, p => Mismatches(mme, p))
    ensures forall m :: m in r <==>
      exists i :: 0 <= i < |ps| && Mismatches(mme, ps[i]) && m == (ps[i].ndc, ps[i].strength)
  {
    if |ps| == 0 then []
    else
      var rest := MismatchRecords(mme, ps[1..]);
      assert forall i :: 0 < i < |ps| ==> ps[i] == ps[1..][i - 1];
      (if Mismatches(mme, ps[0]) then [(ps[0].ndc, ps[0].strength)] else []) + rest
  }

  /** The New York flagged products that still have no factor, in table
      order. */
  function MissingFactors(ps: seq<Product>): (r: seq<string>)
    ensures |r| <= |ps|
    ensures forall n :: n in r <==>
      exists i :: 0 <= i < |ps| && ps[i].ndc == n && ps[i].nyState == Some("Y") && ps[i].mmeFactor.None?
  {
    if |ps| == 0 then []
    else
      var rest := MissingFactors(ps[1..]);
      assert forall i :: 0 < i < |ps| ==> ps[i] == ps[1..][i - 1];
      (if ps[0].nyState == Some("Y") && ps[0].mmeFactor.None? then [ps[0].ndc] else []) + rest
  }

  /** A product ends the sweep without a factor exactly when it had none and
      its lookup did not match. */
  predicate StillMissing(mme: seq<MmeRow>, p: Product) {
    p.nyState == Some("Y") && p.mmeFactor.None? && !LookupFactor(mme, p).Match?
  }

  /** The last stage, reached when the sweep ran through every product
      without a mismatch: New York flagged products that still lack a factor
      fail the check. On success the products carry their assigned factors
      and nothing else changes. */
  function CheckMissingFactors(t: Tables): (r: Result<Tables, ValidationError>)
    ensures r.Err? ==> r.error.MmeMissing?
    ensures r.Err? <==> exists i :: 0 <= i < |t.products| && StillMissing(t.mme, t.products[i])
    ensures r.Err? ==>
      forall n :: n in r.error.ndcs <==>
        exists i :: 0 <= i < |t.products| && t.products[i].ndc == n && StillMissing(t.mme, t.products[i])
    ensures r.Ok? ==>
      && SameRows(t, r.value)
      && r.value.warehouses == t.warehouses
      && |r.value.products| == |t.products|
      && (forall i :: 0 <= i < |t.products| ==> r.value.products[i] == Assign(t.mme, t.products[i]))
      && (forall i :: 0 <= i < |t.products| && t.products[i].nyState == Some("Y") ==>
            r.value.products[i].mmeFactor.Some?)
  {
    var ps := t.products;
    var qs := AssignAll(t.mme, ps);
    var missing := MissingFactors(qs);
    MissingAfterAssign(t.mme, ps);
    if |missing| > 0 then
      assert missing[0] in missing;
      Err(MmeMissing(missing))
    else
      NothingMissingAfterAssign(t.mme, ps);
      Ok(t.(products := qs))
  }

  /** After the assignments, the codes still missing a factor are exactly
      those of the products that are `StillMissing` before them. */
  lemma MissingAfterAssign(mme: seq<MmeRow>, ps: seq<Product>)
    ensures forall n :: n in MissingFactors(AssignAll(mme, ps)) <==>
      exists i :: 0 <= i < |ps| && ps[i].ndc == n && StillMissing(mme, ps[i])
  {
    var qs := AssignAll(mme, ps);
    assert forall i :: 0 <= i < |ps| ==>
      && (qs[i].nyState == Some("Y") && qs[i].mmeFactor.None? <==> StillMissing(mme, ps[i]))
      && qs[i].ndc == ps[i].ndc;
  }

  /** When nothing is missing after the assignments, every New York flagged
      product has a factor. */
  lemma NothingMissingAfterAssign(mme: seq<MmeRow>, ps: seq<Product>)
    requires |MissingFactors(AssignAll(mme, ps))| == 0
    ensures forall i :: 0 <= i < |ps| ==> !StillMissing(mme, ps[i])
    ensures forall i :: 0 <= i < |ps| && ps[i].nyState == Some("Y") ==> AssignAll(mme, ps)[i].mmeFactor.Some?
  {
    MissingAfterAssign(mme, ps);
    var qs := AssignAll(mme, ps);
    forall i | 0 <= i < |ps|
      ensures !StillMissing(mme, ps[i])
    {
      assert ps[i].ndc !in MissingFactors(qs);
    }
  }

  /** The end of the check once the sweep has run through every product:
      strength mismatches fail it and report every mismatched (code,
      strength) pair; otherwise progress 100 is reported and the missing
      factors are checked. `k` is the number of assignments the sweep
      reported. */
  function ConcludeSweep(t: Tables, k: nat): (c: Checked)
    ensures c.innerCommit == None
    ensures (c.result.Err? && c.result.error.MmeMismatch?) <==>
      exists i :: 0 <= i < |t.products| && Mismatches(t.mme, t.products[i])
    ensures c.result.Err? && c.result.error.MmeMismatch? ==>
      forall m :: m in c.result.error.records <==>
        exists i :: 0 <= i < |t.products| && Mismatches(t.mme, t.products[i]) &&
          m == (t.products[i].ndc, t.products[i].strength)
    ensures !(c.result.Err? && c.result.error.MmeMismatch?) ==> c.result == CheckMissingFactors(t)
    ensures c.progress == Repeat(k, 50) + (if c.result.Err? && c.result.error.MmeMismatch? then [] else [100])
  {
    var mismatches := MismatchRecords(t.mme, t.products);
    CountPositive(t.products, p => Mismatches(t.mme, p));
    if |mismatches| > 0 then
      Checked(Err(MmeMismatch(mismatches)), Repeat(k, 50), None)
    else
      Checked(CheckMissingFactors(t), Repeat(k, 50) + [100], None)
  }

  /** A product's lookup is the same after its factor has been assigned. */
  lemma LookupAfterAssign(mme: seq<MmeRow>, p: Product)
    ensures LookupFactor(mme, Assign(mme, p)) == LookupFactor(mme, p)
  {
    LookupIgnoresFactor(mme, p, Assign(mme, p).mmeFactor);
    assert p.(mmeFactor := Assign(mme, p).mmeFactor) == Assign(mme, p);
  }

  /** Assigning the factors a second time changes nothing. */
  lemma AssignAllIdempotent(mme: seq<MmeRow>, ps: seq<Product>)
    ensures AssignAll(mme, AssignAll(mme, ps)) == AssignAll(mme, ps)
  {
    var once := AssignAll(mme, ps);
    forall i | 0 <= i < |ps|
      ensures Assign(mme, once[i]) == once[i]
    {
      LookupAfterAssign(mme, ps[i]);
    }
  }

  /** The MME check. The sweep assigns factors product by product, reporting
      progress 50 for each assignment; an ambiguous lookup stops it at once
      and fails the check with the first such product. A sweep that runs to
      the end is concluded as above. */
  function AppendAndValMme(t: Tables): (c: Checked)
    ensures c.innerCommit == None
    ensures c.result.Err? ==>
      c.result.error.MmeAmbiguity? || c.result.error.MmeMismatch? || c.result.error.MmeMissing?
    ensures (c.result.Err? && c.result.error.MmeAmbiguity?) <==>
      exists i :: 0 <= i < |t.products| && LookupFactor(t.mme, t.products[i]).Ambiguous?
    ensures c.result.Err? && c.result.error.MmeAmbiguity? ==>
      exists i :: FirstAmbiguous(t.mme, t.products, i) &&
        c.result.error.ndc == t.products[i].ndc && c.result.error.strength == t.products[i].strength &&
        c.progress == Repeat(Count(t.products[..i], p => Assigns(t.mme, p)), 50)
    ensures !(c.result.Err? && c.result.error.MmeAmbiguity?) ==>
      c == ConcludeSweep(t, Count(t.products, p => Assigns(t.mme, p)))
  {
    var ps := t.products;
    match FirstAmbiguousFrom(t.mme, ps, 0)
    case Some(i) =>
      var k := Count(ps[..i], p => Assigns(t.mme, p));
      Checked(Err(MmeAmbiguity(ps[i].ndc, ps[i].strength)), Repeat(k, 50), None)
    case None =>
      ConcludeSweep(t, Count(ps, p => Assigns(t.mme, p)))
  }

  /** What an accepted run looks like: the products carry their assigned
      factors, progress 50 per assignment then 100, and no product's lookup
      was ambiguous or mismatched or left it missing a factor. */
  lemma Accepted(t: Tables)
    requires AppendAndValMme(t).result.Ok?
    ensures AppendAndValMme(t) ==
      Checked(Ok(t.(products := AssignAll(t.mme, t.products))),
              Repeat(Count(t.products, p => Assigns(t.mme, p)), 50) + [100], None)
    ensures forall i :: 0 <= i < |t.products| ==>
      && !LookupFactor(t.mme, t.products[i]).Ambiguous?
      && !Mismatches(t.mme, t.products[i])
      && !StillMissing(t.mme, t.products[i])
  {
    var v := AppendAndValMme(t).result.value;
    assert CheckMissingFactors(t) == Ok(v);
    assert v.products == AssignAll(t.mme, t.products);
  }

  /** Tables whose products already carry their factors, none of them
      missing, pass the last stage unchanged. */
  lemma CheckMissingFactorsFixed(t: Tables)
    requires AssignAll(t.mme, t.products) == t.products
    requires forall i :: 0 <= i < |t.products| ==> !StillMissing(t.mme, t.products[i])
    ensures CheckMissingFactors(t) == Ok(t)
  {
  }

  /** Re-running the check on the tables it accepted accepts them again,
      unchanged, with the same progress. */
  lemma AppendAndValMmeIdempotent(t: Tables)
    requires AppendAndValMme(t).result.Ok?
    ensures var v := AppendAndValMme(t).result.value;
      AppendAndValMme(v) == AppendAndValMme(t)
  {
    Accepted(t);
    var v := AppendAndValMme(t).result.value;
    var ps, qs := t.products, v.products;
    forall i | 0 <= i < |ps|
      ensures LookupFactor(v.mme, qs[i]) == LookupFactor(t.mme, ps[i])
    {
      LookupAfterAssign(t.mme, ps[i]);
    }
    AssignAllIdempotent(t.mme, ps);
    CheckMissingFactorsFixed(v);
    CountCorresponding(ps, p => Assigns(t.mme, p), qs, p => Assigns(v.mme, p));
    CountPositive(qs, p => Mismatches(v.mme, p));
  }
}
