/** The checker's one operation: from the page texts of the PDF report and
    the rows of the spreadsheet, either a one-row error table or the merged
    rows that do not match. */
module CrdChecker {
  import opened Wrappers
  import opened Text
  import opened Patterns
  import opened PdfExtractor
  import opened SpreadsheetExtractor
  import opened Reconciler

  /** What the operation produces: a table whose one row holds an error
      message, the report, or the `AttributeError` that `.split` raises on
      the summary of the given row when that cell is NaN. */
  datatype Outcome = ErrorTable(message: string) | Report(rows: seq<ReportRow>) | SummaryAttributeError(row: nat)

  const MissingColumnPrefix := "Missing required column in Excel: "
  const MissingCrdMessage := "Missing CRD column in one of the sources. Ensure your Excel matches the required format."
  const NoDataMessage := "One or both sources did not contain extractable CRD data. Check file formatting."

  /** The operation, stage by stage: the column check, the row loop, the
      checks on the two record tables, then the report. */
  function Reconcile(pages: seq<string>, sheet: Sheet): Outcome
  {
    match FirstMissing(sheet.columns, RequiredColumns)
    case Some(col) => ErrorTable(MissingColumnPrefix + col)
    case None =>
      match ParseRows(sheet.rows)
      case SummaryNotTextAt(i) => SummaryAttributeError(i)
      case Records(es) =>
        var ps := PdfRecords(pages);
        // An empty record list builds a frame without a CRD column.
        if |es| == 0 then ErrorTable(MissingCrdMessage)
        else if |ps| == 0 then ErrorTable(NoDataMessage)
        else Report(Unmatched(ReportRows(Merge(ps, es))))
  }

  /** `match_crds_from_pdf_and_excel`. */
  method MatchCrdsFromPdfAndExcel(pages: seq<string>, sheet: Sheet) returns (out: Outcome)
    ensures out == Reconcile(pages, sheet)
  {
    var ps := PdfRecords(pages);
    var missing := CheckRequiredColumns(sheet.columns);
    if missing.Some? {
      return ErrorTable(MissingColumnPrefix + missing.value);
    }
    var parsed := ParseSheet(sheet.rows);
    if parsed.SummaryNotTextAt? {
      return SummaryAttributeError(parsed.row);
    }
    var es := parsed.records;
    if |es| == 0 {
      return ErrorTable(MissingCrdMessage);
    }
    if |ps| == 0 {
      return ErrorTable(NoDataMessage);
    }
    var combined := Merge(ps, es);
    var columns := AddMatchColumns(combined);
    var classified := seq(|combined|, (i: int) requires 0 <= i < |combined| =>
      var flags := seq(|FlagFields|, (j: int) requires 0 <= j < |FlagFields| => columns[j][i]);
      ReportRow(combined[i], flags, StatusOf(combined[i], flags)));
    assert classified == ReportRows(combined) by {
      forall i | 0 <= i < |combined| ensures classified[i] == ReportRows(combined)[i] {
        assert classified[i].flags == RowFlags(combined[i]);
      }
    }
    return Report(Unmatched(classified));
  }

  /** A sheet without one of the required columns gives the error naming
      the first absent one in the checked order, whatever the rest. */
  lemma MissingColumnError(pages: seq<string>, sheet: Sheet, i: nat)
    requires i < |RequiredColumns| && RequiredColumns[i] !in sheet.columns
    requires forall j :: 0 <= j < i ==> RequiredColumns[j] in sheet.columns
    ensures Reconcile(pages, sheet) == ErrorTable(MissingColumnPrefix + RequiredColumns[i])
  {
    FirstMissingSpec(sheet.columns, RequiredColumns);
  }

  /** With the required columns present, a NaN summary in a row that names
      a CRD stops the operation at the first such row. */
  lemma SummaryError(pages: seq<string>, sheet: Sheet, i: nat)
    requires forall c :: c in RequiredColumns ==> c in sheet.columns
    requires i < |sheet.rows| && ParseRow(sheet.rows[i]).SummaryNotText?
    requires forall j :: 0 <= j < i ==> !ParseRow(sheet.rows[j]).SummaryNotText?
    ensures Reconcile(pages, sheet) == SummaryAttributeError(i)
  {
    FirstMissingSpec(sheet.columns, RequiredColumns);
    ParseRowsError(sheet.rows);
  }

  /** When no row yields a record, the frame built from the empty list has
      no CRD column, and the result is that error, whatever the PDF holds. */
  lemma NoSheetRecordsError(pages: seq<string>, sheet: Sheet)
    requires forall c :: c in RequiredColumns ==> c in sheet.columns
    requires forall j :: 0 <= j < |sheet.rows| ==> ParseRow(sheet.rows[j]).Skipped?
    ensures Reconcile(pages, sheet) == ErrorTable(MissingCrdMessage)
  {
    FirstMissingSpec(sheet.columns, RequiredColumns);
    ParseRowsError(sheet.rows);
    ParseRowsNone(sheet.rows);
  }

  /** When some row yields a record but the PDF text holds no record, the
      result is the error about missing extractable data. */
  lemma NoPdfRecordsError(pages: seq<string>, sheet: Sheet, j: nat)
    requires forall c :: c in RequiredColumns ==> c in sheet.columns
    requires forall k :: 0 <= k < |sheet.rows| ==> !ParseRow(sheet.rows[k]).SummaryNotText?
    requires j < |sheet.rows| && ParseRow(sheet.rows[j]).Extracted?
    requires forall m :: !IsRecordMatch(PdfText(pages), m)
    ensures Reconcile(pages, sheet) == ErrorTable(NoDataMessage)
  {
    FirstMissingSpec(sheet.columns, RequiredColumns);
    ParseRowsError(sheet.rows);
    ParseRowsNone(sheet.rows);
    PdfRecordsNone(pages);
  }

  /** The operation gives a report exactly when every required column is
      present, no row that names a CRD has a NaN summary, some row yields a
      sheet record, and the PDF text holds a record match. */
  lemma ReportWhen(pages: seq<string>, sheet: Sheet)
    ensures Reconcile(pages, sheet).Report? <==>
      && (forall c :: c in RequiredColumns ==> c in sheet.columns)
      && (forall j :: 0 <= j < |sheet.rows| ==> !ParseRow(sheet.rows[j]).SummaryNotText?)
      && (exists j :: 0 <= j < |sheet.rows| && ParseRow(sheet.rows[j]).Extracted?)
      && (exists m :: IsRecordMatch(PdfText(pages), m))
  {
    FirstMissingSpec(sheet.columns, RequiredColumns);
    ParseRowsError(sheet.rows);
    if ParseRows(sheet.rows).Records? {
      ParseRowsNone(sheet.rows);
    }
    PdfRecordsNone(pages);
  }

  /** A report lists, with their flags and statuses, joined rows of the PDF
      records and the sheet records, none of them a Match; it lists every
      joined row that is not an agreeing pairing; and it is in CRD order. */
  lemma ReconcileReport(pages: seq<string>, sheet: Sheet)
    requires Reconcile(pages, sheet).Report?
    ensures ParseRows(sheet.rows).Records?
    ensures var ps := PdfRecords(pages);
      var es := ParseRows(sheet.rows).records;
      var out := Reconcile(pages, sheet).rows;
      && ps != [] && es != []
      && (forall x :: x in out ==>
            && Belongs(x.row, ps, es) && x.flags == RowFlags(x.row)
            && x.status == StatusOf(x.row, x.flags) && x.status != Match)
      && (forall row ::
            (Belongs(row, ps, es) && !(row.pdf.Some? && row.excel.Some? && SameFields(row.pdf.value, row.excel.value)))
            ==> exists x :: x in out && x.row == row)
      && (forall i, j :: 0 <= i < j < |out| ==>
            out[i].row.crd == out[j].row.crd || StrLess(out[i].row.crd, out[j].row.crd))
  {
    var ps := PdfRecords(pages);
    var es := ParseRows(sheet.rows).records;
    assert Reconcile(pages, sheet).rows == Unmatched(ReportRows(Merge(ps, es)));
    ReportMembers(ps, es);
  }

  /** For records laid out the conventional way, where the sheet's date
      line was stripped of its `Date: ` label, every PDF and sheet record
      with the same CRD is reported as a mismatch, for the PDF date keeps
      its label. */
  lemma PairedDatesMismatch(pages: seq<string>, sheet: Sheet, p: PdfRecord, e: ExcelRecord)
    requires Reconcile(pages, sheet).Report?
    requires ParseRows(sheet.rows).Records?
    requires p in PdfRecords(pages) && e in ParseRows(sheet.rows).records && p.crd == e.crd
    requires !OccursAt(e.date, DateLabel, 0)
    ensures exists x :: x in Reconcile(pages, sheet).rows && x.row == MergedRow(p.crd, Some(p), Some(e)) && x.status == Mismatch
  {
    PdfRecordsShaped(pages);
    assert !SameFields(p, e);
    ReportsPairing(PdfRecords(pages), ParseRows(sheet.rows).records, p, e);
  }
}
