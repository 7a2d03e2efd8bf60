/** The five tables the validation engine reads and writes (models.py), with
    only the columns the engine touches. Dates are day numbers; floating-point
    strengths and conversion factors are the abstract `Measure`, which
    supports equality and nothing else. */
module Models {
  import opened Wrappers

  /** A strength or conversion factor (a SQL `Float`); only compared for
      equality, never computed with. */
  type Measure(==, !new)

  /** A day number standing for a SQL `Date`. */
  type Day = int

  /** One row of `transaction_data` (models.py:31-113). */
  datatype Transaction = Transaction(
    id: int,                 // row primary key
    transactionId: Option<string>,  // business transaction number, not unique; None when NULL
    registrant: string,      // reporting_registrant_num -> warehouse_data.dea_number
    customer: string,        // ship_to_customer
    date: Day,               // transaction_date
    state: string,           // ship-to state tag, e.g. "ST1"
    ndc: string              // ndc_num -> controlled_substance_master.ndc_no_dashes
  )

  /** The four Y/N report-inclusion columns of the product master. */
  datatype FlagColumn = Arcos | Dscsa | MiState | NyState

  /** The columns in the order the enum check visits them
      (data_validator.py:105-115). */
  const FlagColumns: seq<FlagColumn> := [Arcos, Dscsa, MiState, NyState]

  /** One row of `controlled_substance_master` (models.py:116-163). A flag
      is `None` when the column holds SQL NULL. */
  datatype Product = Product(
    ndc: string,                  // ndc_no_dashes, primary key
    arcos: Option<string>,
    dscsa: Option<string>,
    miState: Option<string>,
    nyState: Option<string>,      // include_in_ny_state_and_excise_tax_reports
    strength: Measure,            // cs_strength_mg
    mmeFactor: Option<Measure>    // mme_conv_factor, NULL until assigned
  ) {
    function Flag(c: FlagColumn): Option<string> {
      match c
      case Arcos => arcos
      case Dscsa => dscsa
      case MiState => miState
      case NyState => nyState
    }
  }

  /** One row of `customer_license_data` (models.py:166-204). */
  datatype License = License(
    id: int,
    customer: string,
    licenseNumber: string,
    validFrom: Day,
    validTo: Day
  )

  /** One row of `ndc_mme_data` (models.py:207-232). The reference table is
      kept as a plain sequence, so two rows may share a nine-digit NDC. */
  datatype MmeRow = MmeRow(
    nineDigitNdc: string,
    strength: Option<Measure>,    // strength_per_unit, nullable
    factor: Measure               // mme_conversion_factor
  )

  /** The corporate identity 5-tuple of a warehouse. */
  datatype CorporateInfo = CorporateInfo(
    name: string,
    address: string,
    city: string,
    state: string,
    zip: string
  )

  /** One row of `warehouse_data` (models.py:235-272). */
  datatype Warehouse = Warehouse(
    dea: string,                  // dea_number, primary key
    tin: string,                  // tin_number
    corporate: CorporateInfo
  )

  /** The whole store as one value. */
  datatype Tables = Tables(
    transactions: seq<Transaction>,
    products: seq<Product>,
    licenses: seq<License>,
    mme: seq<MmeRow>,
    warehouses: seq<Warehouse>
  )

  /** The reference tables a validation run never writes stay as they were,
      and the two tables it may write keep their rows, their keys and every
      column other than the two it normalises. */
  predicate SameRows(a: Tables, b: Tables) {
    && a.transactions == b.transactions
    && a.licenses == b.licenses
    && a.mme == b.mme
    && |a.products| == |b.products|
    && (forall i :: 0 <= i < |a.products| ==>
          a.products[i] == b.products[i].(mmeFactor := a.products[i].mmeFactor))
    && |a.warehouses| == |b.warehouses|
    && (forall i :: 0 <= i < |a.warehouses| ==>
          a.warehouses[i] == b.warehouses[i].(tin := a.warehouses[i].tin))
  }

  lemma SameRowsTransitive(a: Tables, b: Tables, c: Tables)
    requires SameRows(a, b) && SameRows(b, c)
    ensures SameRows(a, c)
  {
  }
}
