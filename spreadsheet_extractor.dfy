/** The spreadsheet side of the checker: the required columns are checked,
    then every row whose name cell holds a `<Name> (CRD #<digits>)` entry
    becomes one record, its summary cell split into labelled lines.
    Reading the workbook is done by a library outside the model; its
    result, the column names and one map from column to cell per row, is
    the input. */
module SpreadsheetExtractor {
  import opened Wrappers
  import opened Text
  import opened Patterns

  /** A cell as the workbook reader delivers it: an empty cell is NaN. */
  datatype Cell = NaN | Str(text: string)

  /** One row: the cell under each column. */
  type Row = map<string, Cell>

  /** A sheet as `read_excel` gives it: its header and its rows. The
      operations do not demand `WellFormed`: a row lacking a column reads
      as absent there (`Get` gives None), as `row.get` would. */
  datatype Sheet = Sheet(columns: seq<string>, rows: seq<Row>)

  /** Every row has a cell under exactly the sheet's columns. */
  predicate WellFormed(sheet: Sheet) {
    forall i :: 0 <= i < |sheet.rows| ==> sheet.rows[i].Keys == set c | c in sheet.columns
  }

  /** In a well-formed sheet, `row.get` finds a cell exactly under the
      sheet's columns. */
  lemma WellFormedGet(sheet: Sheet, i: nat, col: string)
    requires WellFormed(sheet) && i < |sheet.rows|
    ensures Get(sheet.rows[i], col).Some? <==> col in sheet.columns
  {
    assert col in sheet.rows[i].Keys <==> col in set c | c in sheet.columns;
  }

  const IndividualListed := "Individual Listed"
  const BusinessName := "Business Name"
  const SummaryColumn := "Summary of Disciplinary Action"
  const CityStateColumn := "City/State of Business or Individual"
  const FinesColumn := "Fines/Restitution"

  /** The columns checked before any row is read, in the order checked. */
  const RequiredColumns: seq<string> := [IndividualListed, BusinessName, SummaryColumn]

  // ---------------------------------------------------------------------
  // The column check
  // ---------------------------------------------------------------------

  /** The first of `required` that is not among `columns`. */
  function FirstMissing(columns: seq<string>, required: seq<string>): Option<string>
  {
    if |required| == 0 then None
    else if required[0] !in columns then Some(required[0])
    else FirstMissing(columns, required[1..])
  }

  /** No column is reported exactly when all are present, and a column is
      reported exactly when it is absent and every column before it in the
      order is present. */
  lemma {:induction false} FirstMissingSpec(columns: seq<string>, required: seq<string>)
    ensures FirstMissing(columns, required).None? <==> forall i :: 0 <= i < |required| ==> required[i] in columns
    ensures forall c :: FirstMissing(columns, required) == Some(c) <==>
              exists i :: 0 <= i < |required| && required[i] == c && c !in columns &&
                          forall j :: 0 <= j < i ==> required[j] in columns
  {
    if |required| > 0 {
      FirstMissingSpec(columns, required[1..]);
      forall c ensures FirstMissing(columns, required) == Some(c) <==>
                 exists i :: 0 <= i < |required| && required[i] == c && c !in columns &&
                             forall j :: 0 <= j < i ==> required[j] in columns
      {
        if FirstMissing(columns, required) == Some(c) {
          if required[0] !in columns {
            assert required[0] == c;
          } else {
            var i :| 0 <= i < |required[1..]| && required[1..][i] == c && c !in columns &&
                     forall j :: 0 <= j < i ==> required[1..][j] in columns;
            assert forall j :: 0 <= j < i + 1 ==> required[j] in columns by {
              forall j | 0 <= j < i + 1 ensures required[j] in columns {
                if j > 0 { assert required[j] == required[1..][j - 1]; }
              }
            }
          }
        }
        if exists i :: 0 <= i < |required| && required[i] == c && c !in columns &&
                       forall j :: 0 <= j < i ==> required[j] in columns {
          var i :| 0 <= i < |required| && required[i] == c && c !in columns &&
                   forall j :: 0 <= j < i ==> required[j] in columns;
          if i > 0 {
            assert required[0] in columns;
            assert required[1..][i - 1] == c;
            assert forall j :: 0 <= j < i - 1 ==> required[1..][j] in columns by {
              forall j | 0 <= j < i - 1 ensures required[1..][j] in columns {
                assert required[1..][j] == required[j + 1];
              }
            }
          }
        }
      }
      forall i | 0 <= i < |required[1..]| ensures required[1..][i] == required[i + 1] { }
    }
  }

  /** The loop over the required columns, returning at the first one the
      sheet lacks. */
  method CheckRequiredColumns(columns: seq<string>) returns (missing: Option<string>)
    ensures missing == FirstMissing(columns, RequiredColumns)
  {
    var i := 0;
    while i < |RequiredColumns|
      invariant 0 <= i <= |RequiredColumns|
      invariant FirstMissing(columns, RequiredColumns) == FirstMissing(columns, RequiredColumns[i..])
    {
      var col := RequiredColumns[i];
      if col !in columns {
        return Some(col);
      }
      assert RequiredColumns[i..][1..] == RequiredColumns[i + 1..];
      i := i + 1;
    }
    return None;
  }

  // ---------------------------------------------------------------------
  // Reading cells
  // ---------------------------------------------------------------------

  /** `row.get(col)`: the cell, or Python's `None` for a column the row lacks. */
  function Get(row: Row, col: string): Option<Cell>
  {
    if col in row then Some(row[col]) else None
  }

  /** `row.get(col, otherwise)`. */
  function GetOr(row: Row, col: string, otherwise: Cell): Cell
  {
    if col in row then row[col] else otherwise
  }

  /** Python truth: `None` and the empty string are false, NaN is true. */
  predicate Truthy(v: Option<Cell>) {
    match v
    case None => false
    case Some(NaN) => true
    case Some(Str(t)) => t != ""
  }

  /** `pd.isna`: true of `None` and of NaN. */
  predicate IsNa(v: Option<Cell>) {
    v.None? || v.value.NaN?
  }

  /** `row.get("Individual Listed") or row.get("Business Name")`. */
  function NameField(row: Row): Option<Cell>
  {
    var listed := Get(row, IndividualListed);
    if Truthy(listed) then listed else Get(row, BusinessName)
  }

  // ---------------------------------------------------------------------
  // One row
  // ---------------------------------------------------------------------

  /** One entry of `excel_data`. The two cells copied from the row keep
      whatever the row holds there, NaN included. */
  datatype ExcelRecord = ExcelRecord(name: string, crd: string, cityState: Cell, fines: Cell,
                                     date: string, action: string, findings: string,
                                     caseNumber: string)

  /** What the loop body does with one row: skip it, append a record, or
      fail, because `.split` is called on a summary that is NaN and not
      text. */
  datatype RowResult = Skipped | Extracted(record: ExcelRecord) | SummaryNotText

  const DatePrefix := "Date: "
  const ActionPrefix := "Action: "
  const FindingsPrefix := "Key Findings: "

  /** Summary line `k` with every occurrence of its label removed, or ""
      when the summary has fewer lines. */
  function SummaryLine(lines: seq<string>, k: nat, prefix: string): string
    requires |prefix| > 0
  {
    if |lines| > k then Remove(lines[k], prefix) else ""
  }

  /** The first case number anywhere in the summary, or "". */
  function CaseNumberIn(summary: string): string
  {
    SearchCaseNumberSpec(summary, 0);
    match SearchCaseNumber(summary, 0)
    case Some(t) => summary[t.start..t.end]
    case None => ""
  }

  /** The record built from a name text whose entry is `m` and the row's
      summary text. */
  function RecordFrom(row: Row, text: string, m: NameCrd, summary: string): ExcelRecord
    requires IsNameCrd(text, m)
  {
    var lines := Split(summary, '\n');
    ExcelRecord(Strip(text[m.start..m.nameEnd]),
                Strip(text[m.open + |CrdMarker|..m.close]),
                GetOr(row, CityStateColumn, Str("")),
                GetOr(row, FinesColumn, Str("")),
                SummaryLine(lines, 0, DatePrefix),
                SummaryLine(lines, 1, ActionPrefix),
                SummaryLine(lines, 2, FindingsPrefix),
                CaseNumberIn(summary))
  }

  /** The body of the row loop. */
  function ParseRow(row: Row): RowResult
  {
    var field := NameField(row);
    if IsNa(field) then Skipped
    else
      var text := field.value.text;
      SearchNameCrdSpec(text, 0);
      match SearchNameCrd(text, 0)
      case None => Skipped
      case Some(m) =>
        match GetOr(row, SummaryColumn, Str(""))
        case NaN => SummaryNotText
        case Str(summary) => Extracted(RecordFrom(row, text, m, summary))
  }

  /** A row is skipped exactly when its chosen name cell is missing or NaN
      or its text holds no `<Name> (CRD #<digits>)` entry anywhere. */
  lemma ParseRowSkipped(row: Row)
    ensures ParseRow(row).Skipped? <==>
              IsNa(NameField(row)) ||
              forall m :: !IsNameCrd(NameField(row).value.text, m)
  {
    if !IsNa(NameField(row)) {
      var text := NameField(row).value.text;
      SearchNameCrdSpec(text, 0);
    }
  }

  /** A row stops the loop exactly when its chosen name cell is text that
      holds a `<Name> (CRD #<digits>)` entry and its summary cell is NaN: a
      skipped row never reaches the `split`. */
  lemma ParseRowFails(row: Row)
    ensures ParseRow(row).SummaryNotText? <==>
              && !IsNa(NameField(row))
              && (exists m :: IsNameCrd(NameField(row).value.text, m))
              && GetOr(row, SummaryColumn, Str("")).NaN?
  {
    ParseRowSkipped(row);
  }

  /** A row yields a record exactly when its chosen name cell is text that
      holds an entry and its summary cell is text or absent. */
  lemma ParseRowExtracted(row: Row)
    ensures ParseRow(row).Extracted? <==>
              && !IsNa(NameField(row))
              && (exists m :: IsNameCrd(NameField(row).value.text, m))
              && GetOr(row, SummaryColumn, Str("")).Str?
  {
    ParseRowSkipped(row);
  }

  /** "Business Name" is consulted only when "Individual Listed" is false
      to Python: a non-empty listed name makes the business cell
      irrelevant, and a NaN listed name skips the row whatever the business
      cell holds. */
  lemma NameFieldChoice(row: Row, business: Cell)
    ensures Get(row, IndividualListed) == Some(NaN) ==> ParseRow(row).Skipped?
    ensures Truthy(Get(row, IndividualListed)) ==>
              ParseRow(row) == ParseRow(row[BusinessName := business])
    ensures !Truthy(Get(row, IndividualListed)) ==>
              NameField(row) == Get(row, BusinessName)
  {
    if Truthy(Get(row, IndividualListed)) {
      var row' := row[BusinessName := business];
      assert Get(row', IndividualListed) == Get(row, IndividualListed);
      assert forall c :: c != BusinessName ==> GetOr(row', c, Str("")) == GetOr(row, c, Str(""));
    }
  }

  /** The name and CRD of a kept row come from the leftmost entry of its
      name text: the name group without surrounding blanks and the digit
      group. */
  lemma ExtractedEntry(row: Row) returns (m: NameCrd)
    requires ParseRow(row).Extracted?
    ensures !IsNa(NameField(row))
    ensures var text := NameField(row).value.text; var r := ParseRow(row).record;
      && IsNameCrd(text, m)
      && (forall n :: IsNameCrd(text, n) ==> m.start <= n.start)
      && r.name == Strip(text[m.start..m.nameEnd])
      && r.crd == text[m.open + |CrdMarker|..m.close]
  {
    var text := NameField(row).value.text;
    SearchNameCrdSpec(text, 0);
    m := SearchNameCrd(text, 0).value;
    DigitsUnstripped(text[m.open + |CrdMarker|..m.close]);
  }

  lemma DigitsUnstripped(t: string)
    requires forall k :: 0 <= k < |t| ==> IsDigit(t[k])
    ensures Strip(t) == t
  {
    if t != [] {
      assert IsDigit(t[0]) && IsDigit(t[|t| - 1]);
      StripUnspaced(t);
    }
  }

  /** What a kept row's name and CRD look like: a name that starts with a
      capital and has no surrounding blanks, and a CRD of digits. */
  lemma ExtractedShape(row: Row)
    requires ParseRow(row).Extracted?
    ensures var r := ParseRow(row).record;
      && r.name != "" && IsUpper(r.name[0]) && !IsSpace(r.name[|r.name| - 1])
      && r.crd != "" && forall k :: 0 <= k < |r.crd| ==> IsDigit(r.crd[k])
  {
    var m := ExtractedEntry(row);
    var text := NameField(row).value.text;
    var g := text[m.start..m.nameEnd];
    assert g[0] == text[m.start];
    var t := StripStart(g);
    assert t == g;
    var u := StripEnd(t);
    StripEndSpec(t);
    assert u != [];
    assert u[0] == g[0];
    var c := text[m.open + |CrdMarker|..m.close];
    forall k | 0 <= k < |c| ensures IsDigit(c[k]) {
      assert c[k] == text[m.open + |CrdMarker| + k];
    }
  }

  /** The copied and summary fields of a kept row: the City/State and
      Fines/Restitution cells as the row holds them, "" when absent;
      summary lines 0, 1 and 2 with their labels removed, "" for a line the
      summary lacks; and the case number, which is "" exactly when the
      summary holds none and is otherwise the leftmost one with its whole
      digit run. */
  lemma ExtractedSummary(row: Row)
    requires ParseRow(row).Extracted?
    ensures GetOr(row, SummaryColumn, Str("")).Str?
    ensures var summary := GetOr(row, SummaryColumn, Str("")).text;
      var lines := Split(summary, '\n'); var r := ParseRow(row).record;
      && r.cityState == GetOr(row, CityStateColumn, Str(""))
      && r.fines == GetOr(row, FinesColumn, Str(""))
      && r.date == SummaryLine(lines, 0, DatePrefix) == Remove(lines[0], DatePrefix)
      && r.action == SummaryLine(lines, 1, ActionPrefix)
      && r.findings == SummaryLine(lines, 2, FindingsPrefix)
      && (r.caseNumber == "" <==> forall t :: !IsCaseNumber(summary, t))
      && (r.caseNumber != "" ==>
            exists t :: && IsCaseNumber(summary, t) && r.caseNumber == summary[t.start..t.end]
                        && (t.end == |summary| || !IsDigit(summary[t.end]))
                        && forall u :: IsCaseNumber(summary, u) ==> t.start <= u.start)
  {
    var summary := GetOr(row, SummaryColumn, Str("")).text;
    SearchCaseNumberSpec(summary, 0);
  }

  /** A summary written the conventional way, one labelled line each for
      the date, the action and the findings, gives back exactly the three
      values as the three summary fields. */
  lemma ConventionalSummary(date: string, action: string, findings: string, rest: seq<string>)
    requires '\n' !in date && '\n' !in action && '\n' !in findings
    requires forall k :: 0 <= k < |rest| ==> '\n' !in rest[k]
    requires !Contains(date, DatePrefix) && !Contains(action, ActionPrefix) && !Contains(findings, FindingsPrefix)
    ensures var lines := Split(Join([DatePrefix + date, ActionPrefix + action, FindingsPrefix + findings] + rest, "\n"), '\n');
      && |lines| == 3 + |rest|
      && SummaryLine(lines, 0, DatePrefix) == date
      && SummaryLine(lines, 1, ActionPrefix) == action
      && SummaryLine(lines, 2, FindingsPrefix) == findings
  {
    var parts := [DatePrefix + date, ActionPrefix + action, FindingsPrefix + findings] + rest;
    forall k | 0 <= k < |parts| ensures '\n' !in parts[k] {
      if k >= 3 { assert parts[k] == rest[k - 3]; }
    }
    SplitJoin(parts, '\n');
    RemoveLabel(DatePrefix, date);
    RemoveLabel(ActionPrefix, action);
    RemoveLabel(FindingsPrefix, findings);
  }

  // ---------------------------------------------------------------------
  // All rows
  // ---------------------------------------------------------------------

  /** The outcome of the row loop: the records appended, in row order, or
      the index of the row whose summary could not be split. */
  datatype SheetResult = Records(records: seq<ExcelRecord>) | SummaryNotTextAt(row: nat)

  /** The row loop run over `rows`, defined one row at a time from the
      front as the loop runs. */
  function ParseRows(rows: seq<Row>): SheetResult
  {
    if |rows| == 0 then Records([])
    else
      match ParseRows(rows[..|rows| - 1])
      case SummaryNotTextAt(i) => SummaryNotTextAt(i)
      case Records(rs) =>
        match ParseRow(rows[|rows| - 1])
        case Skipped => Records(rs)
        case Extracted(r) => Records(rs + [r])
        case SummaryNotText => SummaryNotTextAt(|rows| - 1)
  }

  /** The loop stops at the first row that names a CRD and whose summary
      is NaN (`ParseRowFails`). */
  lemma {:induction false} ParseRowsError(rows: seq<Row>)
    ensures forall i: nat :: ParseRows(rows) == SummaryNotTextAt(i) <==>
              && i < |rows| && ParseRow(rows[i]).SummaryNotText?
              && forall j :: 0 <= j < i ==> !ParseRow(rows[j]).SummaryNotText?
    ensures ParseRows(rows).Records? <==> forall j :: 0 <= j < |rows| ==> !ParseRow(rows[j]).SummaryNotText?
  {
    if |rows| > 0 {
      var init := rows[..|rows| - 1];
      ParseRowsError(init);
      assert forall j :: 0 <= j < |init| ==> init[j] == rows[j];
    }
  }

  /** Without an error, the records are those of the rows that yield one,
      each once and in row order: `idx` lists those rows. */
  lemma {:induction false} ParseRowsRecords(rows: seq<Row>) returns (idx: seq<nat>)
    requires ParseRows(rows).Records?
    ensures |idx| == |ParseRows(rows).records|
    ensures forall k :: 0 <= k < |idx| ==>
              idx[k] < |rows| && ParseRow(rows[idx[k]]) == Extracted(ParseRows(rows).records[k])
    ensures forall k, l :: 0 <= k < l < |idx| ==> idx[k] < idx[l]
    ensures forall j :: 0 <= j < |rows| && ParseRow(rows[j]).Extracted? ==> j in idx
  {
    if |rows| == 0 {
      idx := [];
    } else {
      var init := rows[..|rows| - 1];
      var last := |rows| - 1;
      idx := ParseRowsRecords(init);
      assert forall j :: 0 <= j < |init| ==> init[j] == rows[j];
      if ParseRow(rows[last]).Extracted? {
        idx := idx + [last];
      }
    }
  }

  /** Without an error, no record results exactly when no row yields one. */
  lemma ParseRowsNone(rows: seq<Row>)
    requires ParseRows(rows).Records?
    ensures ParseRows(rows).records == [] <==> forall j :: 0 <= j < |rows| ==> !ParseRow(rows[j]).Extracted?
  {
    var idx := ParseRowsRecords(rows);
    if ParseRows(rows).records != [] {
      assert ParseRow(rows[idx[0]]).Extracted?;
    }
  }

  /** The row loop: each row is skipped or appends its record, and the loop
      ends at the first row that names a CRD and whose summary is NaN. */
  method ParseSheet(rows: seq<Row>) returns (res: SheetResult)
    ensures res == ParseRows(rows)
  {
    var data: seq<ExcelRecord> := [];
    var i := 0;
    while i < |rows|
      invariant 0 <= i <= |rows|
      invariant ParseRows(rows[..i]) == Records(data)
    {
      assert rows[..i + 1][..i] == rows[..i];
      match ParseRow(rows[i]) {
        case Skipped =>
        case Extracted(r) =>
          data := data + [r];
        case SummaryNotText =>
          ParseRowsError(rows[..i]);
          assert forall j :: 0 <= j < i ==> rows[..i][j] == rows[j];
          ParseRowsError(rows);
          return SummaryNotTextAt(i);
      }
      i := i + 1;
    }
    assert rows[..i] == rows;
    return Records(data);
  }
}
