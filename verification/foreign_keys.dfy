/** `val_warehouse_dea_numbers` (data_validator.py:155-235) and
    `val_ndc_in_sales_data` (data_validator.py:237-311): the two manual
    foreign-key checks, each a `SELECT DISTINCT child ... LEFT OUTER JOIN
    parent ... WHERE parent.key IS NULL`, i.e. a left anti-join. */
module ForeignKeys {
  import opened Wrappers
  import opened Models
  import opened Checks

  predicate NoDuplicates(s: seq<string>) {
    forall i, j :: 0 <= i < j < |s| ==> s[i] != s[j]
  }

  /** Extends `acc` with the child values, in first-occurrence order, that
      are neither parent keys nor already listed. */
  function OrphansFrom(children: seq<string>, parents: seq<string>, acc: seq<string>): (r: seq<string>)
    requires NoDuplicates(acc)
    requires forall x :: x in acc ==> x !in parents
    ensures NoDuplicates(r)
    ensures forall x :: x in r <==> x in acc || (x in children && x !in parents)
    decreases |children|
  {
    if |children| == 0 then acc
    else
      var x := children[0];
      var acc' := if x !in parents && x !in acc then acc + [x] else acc;
      assert forall y :: y in children <==> y == x || y in children[1..] by {
        assert children == [x] + children[1..];
      }
      OrphansFrom(children[1..], parents, acc')
  }

  /** The distinct child values that match no parent key. SQL leaves the
      order of `DISTINCT` rows open; the model lists them in first-occurrence
      order. */
  function Orphans(children: seq<string>, parents: seq<string>): (r: seq<string>)
    ensures NoDuplicates(r)
    ensures forall x :: x in r <==> x in children && x !in parents
  {
    OrphansFrom(children, parents, [])
  }

  function Registrants(t: Tables): (r: seq<string>)
    ensures forall x :: x in r <==> exists i :: 0 <= i < |t.transactions| && t.transactions[i].registrant == x
  {
    var r := seq(|t.transactions|, i requires 0 <= i < |t.transactions| => t.transactions[i].registrant);
    assert forall i :: 0 <= i < |t.transactions| ==> r[i] == t.transactions[i].registrant;
    r
  }

  function DeaNumbers(t: Tables): (r: seq<string>)
    ensures forall x :: x in r <==> exists j :: 0 <= j < |t.warehouses| && t.warehouses[j].dea == x
  {
    var r := seq(|t.warehouses|, j requires 0 <= j < |t.warehouses| => t.warehouses[j].dea);
    assert forall j :: 0 <= j < |t.warehouses| ==> r[j] == t.warehouses[j].dea;
    r
  }

  function TransactionNdcs(t: Tables): (r: seq<string>)
    ensures forall x :: x in r <==> exists i :: 0 <= i < |t.transactions| && t.transactions[i].ndc == x
  {
    var r := seq(|t.transactions|, i requires 0 <= i < |t.transactions| => t.transactions[i].ndc);
    assert forall i :: 0 <= i < |t.transactions| ==> r[i] == t.transactions[i].ndc;
    r
  }

  function ProductNdcs(t: Tables): (r: seq<string>)
    ensures forall x :: x in r <==> exists j :: 0 <= j < |t.products| && t.products[j].ndc == x
  {
    var r := seq(|t.products|, j requires 0 <= j < |t.products| => t.products[j].ndc);
    assert forall j :: 0 <= j < |t.products| ==> r[j] == t.products[j].ndc;
    r
  }

  predicate HasWarehouse(t: Tables, dea: string) {
    exists j :: 0 <= j < |t.warehouses| && t.warehouses[j].dea == dea
  }

  predicate HasProduct(t: Tables, ndc: string) {
    exists j :: 0 <= j < |t.products| && t.products[j].ndc == ndc
  }

  /** Transactions -> warehouses. Fails exactly when some transaction names a
      registrant number that no warehouse has, and then reports exactly the
      distinct such numbers. Never changes the tables. Progress 0, 50, then
      100 on success. */
  function ValWarehouseDeaNumbers(t: Tables): (c: Checked)
    ensures c.innerCommit == None
    ensures c.result.Ok? ==> c.result.value == t
    ensures c.result.Err? <==>
      exists i :: 0 <= i < |t.transactions| && !HasWarehouse(t, t.transactions[i].registrant)
    ensures c.result.Err? ==>
      && c.result.error.WarehouseKeyViolation?
      && NoDuplicates(c.result.error.deaNumbers)
      && forall x :: x in c.result.error.deaNumbers <==>
           (exists i :: 0 <= i < |t.transactions| && t.transactions[i].registrant == x) && !HasWarehouse(t, x)
    ensures c.progress == [0, 50] + (if c.result.Ok? then [100] else [])
  {
    var orphans := Orphans(Registrants(t), DeaNumbers(t));
    if |orphans| > 0 then
      assert orphans[0] in orphans;
      Checked(Err(WarehouseKeyViolation(orphans)), [0, 50], None)
    else
      assert forall i :: 0 <= i < |t.transactions| ==> HasWarehouse(t, t.transactions[i].registrant) by {
        forall i | 0 <= i < |t.transactions|
          ensures HasWarehouse(t, t.transactions[i].registrant)
        {
          assert t.transactions[i].registrant in Registrants(t);
          assert t.transactions[i].registrant !in orphans;
        }
      }
      Checked(Ok(t), [0, 50, 100], None)
  }

  /** Transactions -> product master, the same anti-join on product codes.
      Progress 0, 66, then 100 on success. */
  function ValNdcInSalesData(t: Tables): (c: Checked)
    ensures c.innerCommit == None
    ensures c.result.Ok? ==> c.result.value == t
    ensures c.result.Err? <==>
      exists i :: 0 <= i < |t.transactions| && !HasProduct(t, t.transactions[i].ndc)
    ensures c.result.Err? ==>
      && c.result.error.ProductKeyViolation?
      && NoDuplicates(c.result.error.ndcs)
      && forall x :: x in c.result.error.ndcs <==>
           (exists i :: 0 <= i < |t.transactions| && t.transactions[i].ndc == x) && !HasProduct(t, x)
    ensures c.progress == [0, 66] + (if c.result.Ok? then [100] else [])
  {
    var orphans := Orphans(TransactionNdcs(t), ProductNdcs(t));
    if |orphans| > 0 then
      assert orphans[0] in orphans;
      Checked(Err(ProductKeyViolation(orphans)), [0, 66], None)
    else
      assert forall i :: 0 <= i < |t.transactions| ==> HasProduct(t, t.transactions[i].ndc) by {
        forall i | 0 <= i < |t.transactions|
          ensures HasProduct(t, t.transactions[i].ndc)
        {
          assert t.transactions[i].ndc in TransactionNdcs(t);
          assert t.transactions[i].ndc !in orphans;
        }
      }
      Checked(Ok(t), [0, 66, 100], None)
  }
}
