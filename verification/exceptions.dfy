/** The exception constructors of exceptions.py that compute the message
    shown to the user: the fallback to the technical message, the
    replacement of table names by friendly names, the classes that overwrite
    the caller's user message, and the messages built from structured
    details. The technical message is kept unchanged on every path. */
module Exceptions {
  import opened Wrappers
  import opened Models
  import Text

  /** `USER_TABLE_NAMES` (exceptions.py:27-33). */
  const UserTableNames: map<string, string> := map[
    "transaction_data" := "Transaction Data",
    "customer_license_data" := "Customer License Data",
    "controlled_substance_master" := "Controlled Substance Master",
    "ndc_mme_data" := "NDC MME Data",
    "warehouse_data" := "Warehouse Data"
  ]

  /** An application error: the technical message passed to `Exception`, and
      the message for the GUI. */
  datatype AppError = AppError(message: string, userMessage: string)

  /** The exceptions the constructors themselves can raise. */
  datatype PyError = AttributeError(detail: string) | ValueError(detail: string)

  /** How an f-string renders a string that may be `None`. */
  function Render(s: Option<string>): string {
    match s
    case None => "None"
    case Some(x) => x
  }

  /** `USER_TABLE_NAMES.get(table_name, table_name)`. */
  function FriendlyName(tableName: Option<string>): Option<string> {
    match tableName
    case None => None
    case Some(t) => Some(if t in UserTableNames then UserTableNames[t] else t)
  }

  /** `user_message or message`: a missing or empty user message falls back
      to the technical one. */
  function Fallback(message: string, userMessage: Option<string>): (r: string)
    ensures userMessage.None? ==> r == message
    ensures userMessage.Some? && userMessage.value == "" ==> r == message
    ensures userMessage.Some? && userMessage.value != "" ==> r == userMessage.value
  {
    match userMessage
    case Some(u) => if u != "" then u else message
    case None => message
  }

  /** `ApplicationError.__init__` (exceptions.py:52-60). The user message
      falls back to the technical one; then, when the friendly name and the
      user message are both non-empty, every occurrence of the table name in
      the user message is replaced by the friendly name. */
  function ApplicationError(message: string, userMessage: Option<string>, tableName: Option<string>): (e: AppError)
    ensures e.message == message
    ensures tableName.None? ==> e.userMessage == Fallback(message, userMessage)
    ensures tableName.Some? && tableName.value !in UserTableNames ==>
      e.userMessage == Fallback(message, userMessage)
    ensures tableName.Some? && !Text.Contains(Fallback(message, userMessage), tableName.value) ==>
      e.userMessage == Fallback(message, userMessage)
  {
    var um := Fallback(message, userMessage);
    match FriendlyName(tableName)
    case None => AppError(message, um)
    case Some(f) =>
      var t := tableName.value;
      if f != "" && um != "" then
        assert t != "";
        if t !in UserTableNames then
          Text.ReplaceBySelf(um, t);
          AppError(message, Text.ReplaceAll(um, t, f))
        else if !Text.Contains(um, t) then
          Text.ReplaceAbsent(um, t, f);
          AppError(message, Text.ReplaceAll(um, t, f))
        else
          AppError(message, Text.ReplaceAll(um, t, f))
      else
        assert t == "" || um == "";
        assert Text.OccursAt(um, t, 0) ==> t == "";
        AppError(message, um)
  }

  /** A known table name is replaced where it first occurs, and the
      replacement goes on after it, so every occurrence Python's
      `str.replace` finds is replaced by the friendly name. */
  lemma FriendlyNameReplaced(message: string, userMessage: Option<string>, t: string, a: string, b: string)
    requires t in UserTableNames
    requires Fallback(message, userMessage) == a + t + b
    requires forall i :: 0 <= i < |a| ==> !Text.OccursAt(a + t, t, i)
    ensures ApplicationError(message, userMessage, Some(t)).userMessage ==
      a + UserTableNames[t] + ApplicationError(b, None, Some(t)).userMessage
  {
    assert t != "" && UserTableNames[t] != "";
    Text.ReplaceFirst(a, t, UserTableNames[t], b);
    if b == "" {
      assert !Text.Contains(b, t);
      Text.ReplaceAbsent(b, t, UserTableNames[t]);
    }
  }

  /** Replacing a known table name in a user message that is exactly that
      name gives the friendly name. */
  lemma ExactTableNameBecomesFriendly(message: string, t: string)
    requires t in UserTableNames
    ensures ApplicationError(message, Some(t), Some(t)).userMessage == UserTableNames[t]
  {
    FriendlyNameReplaced(message, Some(t), t, "", "");
    assert "" + t + "" == t;
    assert !Text.Contains("", t) by {
      assert t != "";
    }
  }

  // ---------------------------------------------------------------------
  // Classes that overwrite the caller's user message
  // ---------------------------------------------------------------------

  /** `TINNumInconsistencyError` (exceptions.py:328-330): whatever user
      message the caller passes, the technical message is shown. */
  function TinNumInconsistencyError(message: string, userMessage: Option<string>, tableName: Option<string>): (e: AppError)
    ensures e == ApplicationError(message, None, tableName)
  {
    ApplicationError(message, Some(message), tableName)
  }

  /** `MultipleValidCustomerLicensesFoundError` (exceptions.py:611-613). */
  function MultipleValidCustomerLicensesFoundError(message: string, userMessage: Option<string>, tableName: Option<string>): (e: AppError)
    ensures e == ApplicationError(message, None, tableName)
  {
    ApplicationError(message, Some(message), tableName)
  }

  /** `NoValidCustomerLicensesFoundError` (exceptions.py:624-626). */
  function NoValidCustomerLicensesFoundError(message: string, userMessage: Option<string>, tableName: Option<string>): (e: AppError)
    ensures e == ApplicationError(message, None, tableName)
  {
    ApplicationError(message, Some(message), tableName)
  }

  // ---------------------------------------------------------------------
  // EnumValidationError
  // ---------------------------------------------------------------------

  /** `user_friendly_column_names` (exceptions.py:244-249). */
  function FriendlyColumn(c: FlagColumn): string {
    match c
    case Arcos => "For ARCOS Reports"
    case MiState => "For Michigan State Reports"
    case NyState => "For New York State and Excise Tax Reports"
    case Dscsa => "For DSCSA Reports"
  }

  /** Every product code listed under any column, with repetitions. */
  function ListedNdcs(details: seq<(FlagColumn, seq<string>)>): (r: seq<string>)
    ensures forall n :: n in r <==> exists k :: 0 <= k < |details| && n in details[k].1
  {
    if |details| == 0 then []
    else
      var rest := ListedNdcs(details[1..]);
      assert forall k :: 1 <= k < |details| ==> details[k] == details[1..][k - 1];
      details[0].1 + rest
  }

  /** The friendly name of every column in the details, with repetitions. */
  function ListedColumns(details: seq<(FlagColumn, seq<string>)>): (r: seq<string>)
    ensures forall c :: c in r <==> exists k :: 0 <= k < |details| && FriendlyColumn(details[k].0) == c
  {
    var r := seq(|details|, k requires 0 <= k < |details| => FriendlyColumn(details[k].0));
    assert forall k :: 0 <= k < |details| ==> r[k] == FriendlyColumn(details[k].0);
    r
  }

  const NoInvalidValues: string := "No invalid values detected."
  const EnumNdcsLead: string := "Invalid values detected"
  const EnumNdcsHeader: string := EnumNdcsLead + " in the master data for the following NDCs: \n\n"
  const EnumColumnsHeader: string := "\n\nPlease ensure the values in the following columns contain a 'Y' or 'N' value: \n\n"

  /** No column lists a code exactly when the listing is empty. */
  lemma NothingListed(details: seq<(FlagColumn, seq<string>)>)
    ensures |ListedNdcs(details)| == 0 <==> forall k :: 0 <= k < |details| ==> |details[k].1| == 0
  {
    var all := ListedNdcs(details);
    if |all| > 0 {
      assert all[0] in all;
    }
    forall k | 0 <= k < |details| && |details[k].1| > 0
      ensures |all| > 0
    {
      assert details[k].1[0] in all;
    }
  }

  /** The message text for a non-empty finding. */
  function EnumListing(ndcs: seq<string>, columns: seq<string>): (m: string)
    ensures m != NoInvalidValues
  {
    var m := EnumNdcsHeader + (Text.Join(ndcs, ", ") + EnumColumnsHeader + Text.Join(columns, ", "));
    assert m[0] == EnumNdcsLead[0];
    m
  }

  /** The user message of `EnumValidationError` (exceptions.py:256-276):
      the fixed "nothing found" text exactly when no column lists a code;
      otherwise the distinct codes across all columns in ascending order,
      then the distinct friendly names of the columns in ascending order. */
  function EnumUserMessage(details: seq<(FlagColumn, seq<string>)>): (m: string)
    ensures m == NoInvalidValues <==> forall k :: 0 <= k < |details| ==> |details[k].1| == 0
    ensures m != NoInvalidValues ==>
      exists ndcs, columns :: EnumMessageLists(details, m, ndcs, columns)
  {
    var all := ListedNdcs(details);
    NothingListed(details);
    if |all| == 0 then
      NoInvalidValues
    else
      var ndcs := Text.SortedUnique(all);
      var columns := Text.SortedUnique(ListedColumns(details));
      var m := EnumListing(ndcs, columns);
      assert EnumMessageLists(details, m, ndcs, columns);
      m
  }

  /** `m` lists exactly the distinct codes, sorted, and exactly the distinct
      friendly column names, sorted. */
  ghost predicate EnumMessageLists(details: seq<(FlagColumn, seq<string>)>, m: string, ndcs: seq<string>, columns: seq<string>) {
    && m == EnumListing(ndcs, columns)
    && Text.StrictlySorted(ndcs)
    && (forall n :: n in ndcs <==> exists k :: 0 <= k < |details| && n in details[k].1)
    && Text.StrictlySorted(columns)
    && (forall c :: c in columns <==> exists k :: 0 <= k < |details| && FriendlyColumn(details[k].0) == c)
  }

  /** The message depends only on which codes and which columns occur, not
      on the order of the details nor on repetitions. */
  lemma EnumUserMessageCanonical(d1: seq<(FlagColumn, seq<string>)>, d2: seq<(FlagColumn, seq<string>)>)
    requires forall n :: n in ListedNdcs(d1) <==> n in ListedNdcs(d2)
    requires forall c :: c in ListedColumns(d1) <==> c in ListedColumns(d2)
    ensures EnumUserMessage(d1) == EnumUserMessage(d2)
  {
    var a1, a2 := ListedNdcs(d1), ListedNdcs(d2);
    assert forall n :: n in a1 <==> n in a2;
    if |a1| > 0 {
      assert a1[0] in a2;
    }
    if |a2| > 0 {
      assert a2[0] in a1;
    }
    Text.SortedUniqueDependsOnElements(a1, a2);
    Text.SortedUniqueDependsOnElements(ListedColumns(d1), ListedColumns(d2));
  }

  /** `EnumValidationError.__init__` as written (exceptions.py:251-281): the
      `isinstance` fallback fills the attribute, but the aggregation then
      iterates the argument itself, so the default `None` raises
      `AttributeError`. */
  function EnumValidationErrorAsWritten(message: string, tableName: Option<string>,
                                        details: Option<seq<(FlagColumn, seq<string>)>>): (r: Result<AppError, PyError>)
    ensures r.Err? <==> details.None?
    ensures r.Err? ==> r.error.AttributeError?
    ensures r.Ok? ==> r.value == EnumValidationError(message, tableName, details)
  {
    match details
    case None => Err(AttributeError("'NoneType' object has no attribute 'values'"))
    case Some(d) => Ok(ApplicationError(message, Some(EnumUserMessage(d)), tableName))
  }

  /** `EnumValidationError.__init__` as evidently intended: the aggregation
      reads the normalised attribute, so missing details mean "nothing
      found". The technical message is kept; the user message is the enum
      message, with the table name replaced as for every application
      error. */
  function EnumValidationError(message: string, tableName: Option<string>,
                               details: Option<seq<(FlagColumn, seq<string>)>>): (e: AppError)
    ensures e.message == message
    ensures var m := EnumUserMessage(if details.Some? then details.value else []);
      (tableName.None? || !Text.Contains(m, tableName.value)) ==> e.userMessage == m
    ensures details.None? && (tableName.None? || !Text.Contains(NoInvalidValues, tableName.value)) ==>
      e.userMessage == NoInvalidValues
  {
    var d := if details.Some? then details.value else [];
    ApplicationError(message, Some(EnumUserMessage(d)), tableName)
  }

  // ---------------------------------------------------------------------
  // DuplicateSheetError and NonNullableColumnError
  // ---------------------------------------------------------------------

  const TupleShapeMessage: string := "detailed_info must be a list of tuples with exactly two elements each"
  /** The opening words of the duplicate-sheet message, in short pieces so
      that their characters can be inspected. */
  const DuplicateSheetLead: string := "Multiple " + "matches were " + "found when " + "searching " + "for the "
  const DuplicateSheetFooter: string := " \n\nPlease ensure there are no duplicate sheets in the directory."

  /** One `(file, sheet)` pair as the message lists it. */
  function SheetEntry(file: string, sheet: string): string {
    "\n\n Sheet named '" + sheet + "' in file named '" + file + "'"
  }

  function SheetEntries(info: seq<seq<string>>): (r: seq<string>)
    requires forall k :: 0 <= k < |info| ==> |info[k]| == 2
    ensures |r| == |info|
    ensures forall k :: 0 <= k < |info| ==> r[k] == SheetEntry(info[k][0], info[k][1])
  {
    seq(|info|, k requires 0 <= k < |info| => SheetEntry(info[k][0], info[k][1]))
  }

  /** The user message naming the table and every duplicate pair, before
      the friendly-name replacement. */
  function DuplicateSheetMessage(info: seq<seq<string>>, tableName: Option<string>): (m: string)
    requires forall k :: 0 <= k < |info| ==> |info[k]| == 2
    ensures Text.Contains(m, "'" + Render(tableName) + "'")
    ensures forall k :: 0 <= k < |info| ==> Text.Contains(m, SheetEntry(info[k][0], info[k][1]))
  {
    var joined := Text.Join(SheetEntries(info), ", ");
    var quoted := "'" + Render(tableName) + "'";
    var m := DuplicateSheetLead + quoted + ": " + joined + DuplicateSheetFooter;
    Text.ContainsSelf(quoted);
    Text.ContainsWithin(DuplicateSheetLead, quoted, ": " + joined + DuplicateSheetFooter, quoted);
    assert DuplicateSheetLead + quoted + (": " + joined + DuplicateSheetFooter) == m;
    forall k | 0 <= k < |info|
      ensures Text.Contains(m, SheetEntry(info[k][0], info[k][1]))
    {
      Text.JoinContains(SheetEntries(info), ", ", k);
      Text.ContainsWithin(DuplicateSheetLead + quoted + ": ", joined, DuplicateSheetFooter, SheetEntries(info)[k]);
    }
    m
  }

  /** `DuplicateSheetError.__init__` (exceptions.py:112-131): raises
      `ValueError` unless every element of the details is a pair; otherwise
      the user message names the table and every `(file, sheet)` pair. For
      one of the five known tables the friendly name replaces the table
      name, in the pairs too. */
  function DuplicateSheetError(message: string, info: seq<seq<string>>, tableName: Option<string>): (r: Result<AppError, PyError>)
    ensures r.Err? <==> exists k :: 0 <= k < |info| && |info[k]| != 2
    ensures r.Err? ==> r.error == ValueError(TupleShapeMessage)
    ensures r.Ok? ==> r.value.message == message
    ensures r.Ok? && (tableName.None? || tableName.value !in UserTableNames) ==>
      forall k :: 0 <= k < |info| ==> Text.Contains(r.value.userMessage, SheetEntry(info[k][0], info[k][1]))
    ensures r.Ok? && tableName.Some? && tableName.value in UserTableNames ==>
      var t := tableName.value;
      r.value.userMessage ==
        DuplicateSheetLead + "'" + UserTableNames[t] + "': " +
        Text.ReplaceAll(Text.Join(SheetEntries(info), ", ") + DuplicateSheetFooter, t, UserTableNames[t])
  {
    if exists k :: 0 <= k < |info| && |info[k]| != 2 then
      Err(ValueError(TupleShapeMessage))
    else if tableName.Some? && tableName.value in UserTableNames then
      KnownTableDuplicateMessage(message, info, tableName.value);
      Ok(ApplicationError(message, Some(DuplicateSheetMessage(info, tableName)), tableName))
    else
      Ok(ApplicationError(message, Some(DuplicateSheetMessage(info, tableName)), tableName))
  }

  /** Every known table name holds an underscore and starts with none of
      the characters that close the quoted name in a message. */
  lemma KnownTableNameShape(t: string)
    requires t in UserTableNames
    ensures '_' in t && t[0] !in "': " && UserTableNames[t] != ""
  {
  }

  lemma LeadHasNoUnderscore()
    ensures '_' !in DuplicateSheetLead + "'"
  {
    assert '_' !in "Multiple ";
    assert '_' !in "matches were ";
    assert '_' !in "found when ";
    assert '_' !in "searching ";
    assert '_' !in "for the ";
  }

  /** For a known table, the message starts with the friendly name quoted,
      and every later occurrence of the table name, inside a file or sheet
      name included, is replaced as well. */
  lemma KnownTableDuplicateMessage(message: string, info: seq<seq<string>>, t: string)
    requires forall k :: 0 <= k < |info| ==> |info[k]| == 2
    requires t in UserTableNames
    ensures ApplicationError(message, Some(DuplicateSheetMessage(info, Some(t))), Some(t)).userMessage ==
      DuplicateSheetLead + "'" + UserTableNames[t] + "': " +
      Text.ReplaceAll(Text.Join(SheetEntries(info), ", ") + DuplicateSheetFooter, t, UserTableNames[t])
  {
    var rest := Text.Join(SheetEntries(info), ", ") + DuplicateSheetFooter;
    DuplicateSheetMessageShape(info, t);
    QuotedTableReplaced(message, DuplicateSheetMessage(info, Some(t)), t, rest);
  }

  lemma DuplicateSheetMessageShape(info: seq<seq<string>>, t: string)
    requires forall k :: 0 <= k < |info| ==> |info[k]| == 2
    ensures DuplicateSheetMessage(info, Some(t)) ==
      DuplicateSheetLead + "'" + t + "': " + (Text.Join(SheetEntries(info), ", ") + DuplicateSheetFooter)
  {
  }

  /** The replacement step of the lemma above, for any text after the
      quoted table name. */
  lemma QuotedTableReplaced(message: string, m: string, t: string, rest: string)
    requires t in UserTableNames
    requires m == DuplicateSheetLead + "'" + t + "': " + rest
    ensures ApplicationError(message, Some(m), Some(t)).userMessage ==
      DuplicateSheetLead + "'" + UserTableNames[t] + "': " + Text.ReplaceAll(rest, t, UserTableNames[t])
  {
    var f := UserTableNames[t];
    var a := DuplicateSheetLead + "'";
    var b := "': " + rest;
    assert DuplicateSheetLead + "'" + t + "': " + rest == a + t + b;
    KnownTableNameShape(t);
    LeadHasNoUnderscore();
    Text.NoOccurrenceBefore(a, t, '_');
    FriendlyNameReplaced(message, Some(a + t + b), t, a, b);
    KnownTableReplacedEverywhere(b, t);
    Text.ReplaceKeepsPrefix("': ", rest, t, f);
    var tail := Text.ReplaceAll(rest, t, f);
    assert a + f + ("': " + tail) == DuplicateSheetLead + "'" + f + "': " + tail;
  }

  /** A non-empty user message naming a known table has every occurrence of
      the name replaced. */
  lemma KnownTableReplacedEverywhere(userMessage: string, t: string)
    requires t in UserTableNames && userMessage != ""
    ensures ApplicationError(userMessage, None, Some(t)).userMessage ==
      Text.ReplaceAll(userMessage, t, UserTableNames[t])
  {
    assert UserTableNames[t] != "";
  }

  const GenericMissingValues: string :=
    "There are missing values in required fields. Please check your data and try again."
  const MissingColumnsFooter: string :=
    "\n\nPlease ensure there are valid values in these columns and try again."

  function MissingColumnsHeader(tableName: Option<string>): string {
    "The '" + Render(FriendlyName(tableName)) + "' sheet has missing values in the following required column(s):\n\n"
  }

  /** Columns without line breaks are recovered from their listing. */
  lemma ColumnsListingSplits(cols: seq<string>)
    requires |cols| > 0
    ensures (forall k :: 0 <= k < |cols| ==> '\n' !in cols[k]) ==> Text.Split(Text.Join(cols, "\n"), '\n') == cols
  {
    if forall k :: 0 <= k < |cols| ==> '\n' !in cols[k] {
      Text.SplitJoin(cols, '\n');
    }
  }

  /** The user message of `NonNullableColumnError` (exceptions.py:170-183):
      with missing columns, the friendly table name and the columns one per
      line, which split back into the columns; otherwise a fixed generic
      text. */
  function NonNullableColumnMessage(tableName: Option<string>, missingColumns: Option<seq<string>>): (m: string)
    ensures missingColumns.None? || |missingColumns.value| == 0 ==> m == GenericMissingValues
    ensures (missingColumns.Some? && |missingColumns.value| > 0 &&
      forall k :: 0 <= k < |missingColumns.value| ==> '\n' !in missingColumns.value[k]) ==>
      exists listing :: m == MissingColumnsHeader(tableName) + listing + MissingColumnsFooter &&
        Text.Split(listing, '\n') == missingColumns.value
  {
    match missingColumns
    case Some(cols) =>
      if |cols| > 0 then
        var listing := Text.Join(cols, "\n");
        ColumnsListingSplits(cols);
        MissingColumnsHeader(tableName) + listing + MissingColumnsFooter
      else GenericMissingValues
    case None => GenericMissingValues
  }

  /** `NonNullableColumnError.__init__`: the caller's user message is always
      replaced by the computed one. */
  function NonNullableColumnError(message: string, userMessage: Option<string>, tableName: Option<string>,
                                  missingColumns: Option<seq<string>>): (e: AppError)
    ensures e.message == message
    ensures e == ApplicationError(message, Some(NonNullableColumnMessage(tableName, missingColumns)), tableName)
    ensures (tableName.None? || tableName.value !in UserTableNames) ==>
      e.userMessage == NonNullableColumnMessage(tableName, missingColumns)
  {
    ApplicationError(message, Some(NonNullableColumnMessage(tableName, missingColumns)), tableName)
  }
}
