# crd-checker in Dafny

This project models the reconciliation function `match_crds_from_pdf_and_excel`
of the FINRA disciplinary-action validator. The function works in three
stages.

1. **PDF side.** The texts of the non-empty pages are joined with line
   breaks. The record pattern is scanned over the joined text, and every
   match becomes a PDF record. A PDF record holds Name, CRD, Date, Action,
   Key Findings and Case Number.
2. **Spreadsheet side.** The three required columns are checked first, in
   a fixed order. Each row then picks its name cell with Python `or`
   semantics. It searches that cell for `<Name> (CRD #<digits>)`. Date,
   Action and Key Findings come from lines 0, 1 and 2 of the summary, with
   their labels removed. Case Number is the first `FINRA Case #<digits>`
   anywhere in the summary.
3. **Reconciler.** The error checks come first, and each error is returned
   as a one-row table. The two record tables are then outer-joined on CRD.
   Seven equality flags are computed per joined row, and each row gets a
   status by a fixed precedence. Rows with status Match are dropped.

## Modules

- **`Wrappers`** (`wrappers.dfy`): `Option`.
- **`Text`** (`text.dfy`): the Python string operations the function uses.
  These are `"\n".join`, `str.split("\n")`, `str.replace(label, "")` and
  `str.strip()`. `Find` locates a substring.
- **`Patterns`** (`patterns.dfy`): the two regular expressions.
  - Each pattern is a declarative predicate saying what a match is:
    `IsNameCrd`, `IsCaseNumber`, `IsLabelledLine` and `IsRecordMatch`.
  - Each pattern also has a deterministic scanner that follows how Python's
    backtracking engine treats the lazy quantifiers: `NameCrdAt`,
    `CaseNumberAt`, `LabelledLineFrom`, `TailFrom` and `RecordAt`.
  - Lemmas prove each scanner sound ("what it reports is a match") and
    complete ("if a match exists it finds one"). They also prove that its
    result is the match the engine prefers.
  - `FindAll` models `re.findall`, which resumes after each match.
  - `SearchNameCrd` and `SearchCaseNumber` model `re.search`.
- **`PdfExtractor`** (`pdf_extractor.dfy`): joining the page texts, and
  building the PDF table from the matches.
- **`SpreadsheetExtractor`** (`spreadsheet_extractor.dfy`):
  - The sheet is a list of column names plus rows. A row is a map from
    column name to a cell, and a cell is `NaN` or a string.
  - `CheckRequiredColumns` is the column-check loop.
  - `ParseRow` turns one row into one record.
  - `ParseSheet` is the row loop.
- **`Reconciler`** (`reconciler.dfy`):
  - the outer join (`Merge`);
  - the column naming of the joined table (`RowGet`);
  - the flag loop (`AddMatchColumns`);
  - the status lambda (`StatusOf`);
  - the final filter (`Unmatched`).
- **`CrdChecker`** (`crd_checker.dfy`): the whole function. `Reconcile` is
  its specification, and `MatchCrdsFromPdfAndExcel` is the imperative
  version proved equal to it.

## Inputs and semantics

- **Inputs.** The model takes two inputs:
  - the page texts that PyPDF2 extracts, as `seq<string>`;
  - the sheet that `pd.read_excel` produces, as column names and rows.

  Reading bytes, PDF text extraction and spreadsheet decoding are library
  calls outside the model.
- **Cells.** A cell holds either `NaN` or a string.
  - `Get` gives `None` for a column the row lacks, as `row.get` does.
  - `NaN` is truthy, the empty string is falsy, and `pd.isna` holds for
    `NaN` and for `None`.
  - Equality with `NaN` is always false.
- **Join order.** Joined rows are ordered by CRD in lexicographic
  (code-point) order, which is the key order of an outer `pd.merge`.
  Within one CRD, the rows go in PDF-record-major order, pairing every PDF
  record with every Excel record that has that CRD. The records of a CRD
  keep their table order and repetitions (`PdfWithOrder`,
  `ExcelWithOrder`), and each row occurs as often as `MergeCount` says. A
  record whose CRD has no partner gets `NaN` for the other side's fields.
- **Joined-table columns.** `RowGet` models how the pandas merge names the
  columns.
  - The shared columns are Name, Date, Action, Key Findings, Case Number
    and Source. They get the `_PDF` and `_Excel` suffixes.
  - City/State and Fines/Restitution exist only on the spreadsheet side,
    so they stay unsuffixed.

### Behaviour of the code worth knowing

Each item below is what app.py does. Each is stated and proved as a
property of the model.

- **City/State and Fines/Restitution.** The page text at app.py:76-86
  lists seven compared fields, and app.py:53-56 builds a flag for each.
  The PDF records carry neither field (app.py:13), and the Excel records
  store them under the keys "City/State" and "Fines/Restitution"
  (app.py:34-35). After the merge these keys have no `_PDF`/`_Excel`
  suffix, so `row.get("City/State_PDF")` and `row.get("City/State_Excel")`
  are both `None`, and the same holds for Fines/Restitution. These two
  flags are therefore always ✅. They never decide a status
  (`FieldMatchMeaning`, `StatusMeaning`).
- **Name choice.** app.py:25 takes "Individual Listed" unless that value
  is falsy, and only then "Business Name". A blank cell is read as `NaN`,
  which is truthy, so app.py:26-27 skips the row rather than falling back
  (`NameFieldChoice`).
- **No spreadsheet records.** When no row yields a record, app.py:42
  builds an empty data frame with no CRD column. app.py:45-46 then reports
  the "Missing CRD column" error before the emptiness test at app.py:48-49
  is reached (`NoSheetRecordsError`).
- **Duplicate CRDs.** The merge at app.py:51 gives one row per pairing of
  a PDF and an Excel record with the same CRD. Duplicates therefore give a
  cross product, and each pairing occurs as often as the product of the
  two records' multiplicities (`CrossMembers`, `CrossSize`, `MergeCount`).
- **Date, Action and Key Findings labels.**
  - On the PDF side, the groups of app.py:12 keep their labels: the Date
    group starts with `Date:`.
  - On the spreadsheet side, app.py:36-38 remove `Date: ` and the other
    labels.
  - So a conventionally written pair of records never agrees on Date, and
    every paired CRD is reported as Mismatch (`LabelledDateMismatch`,
    `PairedDatesMismatch`).

## Model

| member | source | states |
|---|---|---|
| Text.Find | app.py:12-13 | a reported position is an occurrence of the pattern |
| Text.Join | app.py:10 | `"\n".join` of pages; its contract is stated by `SplitJoin`, `SplitJoinAll` and `JoinSplit` |
| Text.FindFirst | app.py:12-13 | the reported occurrence is the first one at or after the start; none is reported only when there is none |
| Text.FindBefore | app.py:12-13 | any occurrence at or after the start bounds the reported one from above |
| Text.Split | app.py:30 | `split("\n")` gives at least one piece, and no piece holds the separator |
| Text.JoinSplit | app.py:30 | joining the pieces of a split with the separator gives back the text |
| Text.SplitJoin | app.py:10 | splitting a join of separator-free pieces gives back the pieces |
| Text.NoSeparatorNotFound | app.py:10 | a text without the separator has no occurrence of it |
| Text.SplitAround | app.py:10 | splitting a text around one separator gives the pieces of its two sides, concatenated |
| Text.SplitJoinAll | app.py:10 | splitting a join of any pieces gives the pieces of each piece in turn, concatenated |
| Text.Remove | app.py:36-38 | `replace(label, "")` never lengthens the text; what it removes is stated by `RemoveAbsent`, `RemoveFirst` and `RemoveLabel` |
| Text.RemoveAbsent | app.py:36-38 | removing a label the text does not contain leaves the text unchanged |
| Text.RemoveUnmatchedPrefix | app.py:36-38 | a prefix in which no occurrence of the label starts is kept as it is, and removal goes on after it |
| Text.RemoveFirst | app.py:36-38 | with no occurrence of the label the text is unchanged; otherwise the text up to the first occurrence is kept, that occurrence is dropped, and removal goes on after it |
| Text.RemoveLabel | app.py:36-38 | removing the label from label + value gives the value when the value holds no label |
| Text.StripStartSpec | app.py:32-33 | stripping the front drops exactly the leading whitespace |
| Text.StripEndSpec | app.py:32-33 | stripping the back drops exactly the trailing whitespace |
| Text.StripUnspaced | app.py:32-33 | `strip()` leaves a text that neither starts nor ends with whitespace unchanged |
| Text.StripShape | app.py:32-33 | `strip()` gives the slice between a whitespace prefix and a whitespace suffix, and that slice neither starts nor ends with whitespace |
| Text.Strip | app.py:32-33 | `str.strip()`; its contract is stated by `StripShape`, `StripUnspaced`, `StripStartSpec` and `StripEndSpec` |
| Patterns.DigitsEndSpec | app.py:28 | the digit run from a position is as long as possible and consists of digits |
| Patterns.DigitsEndAt | app.py:28 | a digit run that ends at a non-digit is the digit run the scanner finds |
| Patterns.CrdAfterSound | app.py:28 | what `\s*\(CRD #(\d+)\)` reports is blanks, the marker, digits and `)` |
| Patterns.CrdAfterComplete | app.py:28 | whenever blanks, the marker, digits and `)` follow, `\s*\(CRD #(\d+)\)` reports exactly them |
| Patterns.CrdAfterWithin | app.py:28 | from inside a name match, `\s*\(CRD #(\d+)\)` can only find that match's own marker |
| Patterns.NameFromSound | app.py:28 | the lazy name group grown from a capital gives a match of `<Name> (CRD #<digits>)` |
| Patterns.NameCrdAtSound | app.py:28 | the name-and-CRD scanner reports a match starting at the given position |
| Patterns.NameFromComplete | app.py:28 | when a name match exists, the lazy name group finds one with a name no longer than it and the same marker |
| Patterns.NameCrdAtComplete | app.py:28 | when a match starts at a position, the scanner finds the shortest-name match there with the same marker |
| Patterns.SearchNameCrdFirst | app.py:28 | `re.search` reports the scanner's match at the first position where one exists |
| Patterns.SearchNameCrdSpec | app.py:28 | `re.search` for the name pattern finds a match exactly when one exists, and the leftmost one with the shortest name |
| Patterns.SearchNameCrd | app.py:28 | `re.search` of the name pattern; its contract is stated by `SearchNameCrdSpec` and `SearchNameCrdFirst` |
| Patterns.CaseNumberAtSound | app.py:39 | the case-number scanner reports `FINRA Case #` followed by the maximal run of digits |
| Patterns.CaseNumberAtComplete | app.py:39 | when a case number starts at a position, the scanner finds it, up to at least its end |
| Patterns.SearchCaseNumberFirst | app.py:39 | `re.search` for the case number reports the first position where one starts |
| Patterns.SearchCaseNumberSpec | app.py:39 | `re.search` for the case number finds one exactly when one exists, the leftmost and maximal one |
| Patterns.SearchCaseNumberPrefers | app.py:39 | the case number found is preferred to any case number later in the text |
| Patterns.SearchCaseNumber | app.py:39 | `re.search` of the case-number pattern; its contract is stated by `SearchCaseNumberSpec`, `SearchCaseNumberFirst` and `SearchCaseNumberPrefers` |
| Patterns.TailBounds | app.py:12 | a record tail has one line per label and ends with a case number inside the text |
| Patterns.TailShape | app.py:12 | a record tail is the Date, Action and Key Findings lines in order, then the case number, none overlapping the next |
| Patterns.RecordMatchShape | app.py:12 | a record match is a name with its CRD, then the Date, Action and Key Findings lines in order, then the case number |
| Patterns.LabelledLineFromSound | app.py:12 | `.*?(label.*?)\n` reports a labelled line at or after the start |
| Patterns.LabelledLineFromComplete | app.py:12 | when a labelled line exists, the lazy scan finds one that starts and ends no later |
| Patterns.TailFromSound | app.py:12 | the tail scanner reports a record tail whose case number ends at a non-digit |
| Patterns.TailFromComplete | app.py:12 | when a tail exists from a later point, the scanner finds one whose lines and case number are no later |
| Patterns.LabelledLineFromOneLine | app.py:12 | the lazy labelled group stops at the first line break, so it is one line |
| Patterns.TailFromOneLine | app.py:12 | every labelled line the tail scanner reports is one line |
| Patterns.RecordAtOneLine | app.py:12 | every labelled line of a scanned record is one line |
| Patterns.RecordAtSound | app.py:12 | the record scanner reports a record match starting at the given position |
| Patterns.RecordAtComplete | app.py:12 | when a record match starts at a position, the scanner finds one there that the engine prefers |
| Patterns.RecordAt | app.py:12 | one attempt of the record pattern at a position; its contract is stated by `RecordAtSound`, `RecordAtComplete` and `RecordAtOneLine` |
| Patterns.MatchTableAdvances | app.py:12 | every scanned match ends after the position it starts at |
| Patterns.ScanAllSound | app.py:12 | findall reports scanned matches, in text order, none overlapping the next |
| Patterns.ScanAllCovering | app.py:12 | every position where a match could start lies inside a reported match |
| Patterns.FindAllSound | app.py:12 | `re.findall` reports record matches in text order, each the scanner's match at its start, none overlapping |
| Patterns.FindAllComplete | app.py:12 | every record match of the text lies inside one that `re.findall` reports |
| Patterns.FindAll | app.py:12 | `re.findall` of the record pattern; its contract is stated by `FindAllSound` and `FindAllComplete` |
| PdfExtractor.NonEmptyPagesSpec | app.py:10 | the comprehension keeps only non-empty pages, keeps every non-empty page, is no longer than the pages, and keeps all pages when none is empty |
| PdfExtractor.NonEmptyPagesOrder | app.py:10 | the kept pages are the pages at a strictly increasing list of positions that holds every position of a non-empty page, so order and repetitions are kept |
| PdfExtractor.PdfText | app.py:10 | the joined page text; its contract is stated by `PdfTextSplit` and `PdfTextLines` |
| PdfExtractor.PdfTextSplit | app.py:10 | splitting the joined text at line breaks gives the lines of each kept page in turn, and `[""]` when no page is kept |
| PdfExtractor.PdfTextLines | app.py:10 | splitting the joined text at line breaks gives back the non-empty pages when pages have no line break |
| PdfExtractor.RecordOfShaped | app.py:12-13 | the six groups of a one-line match have the record's shape |
| PdfExtractor.ScannedRecordShaped | app.py:12-13 | the groups of a scanned match have the record's shape: capitalised name, digit CRD, labelled lines, case number |
| PdfExtractor.NameGroup | app.py:12 | the name group starts with a capital and continues with name characters |
| PdfExtractor.DigitsGroup | app.py:12 | the CRD group is a non-empty run of digits |
| PdfExtractor.CaseGroup | app.py:12 | the case group is `FINRA Case #` followed by digits |
| PdfExtractor.LineGroup | app.py:12 | a labelled group starts with its label and holds no line break |
| PdfExtractor.PdfRecordsSpec | app.py:10-14 | the PDF table has one record per reported match, holding its six groups in order; every possible match lies inside a reported one |
| PdfExtractor.PdfRecordsShaped | app.py:12-13 | every PDF record is well shaped |
| PdfExtractor.PdfRecordsNone | app.py:12-13 | the PDF table is empty exactly when the text holds no record match |
| PdfExtractor.PdfRecords | app.py:12-14 | the PDF table; its contract is stated by `PdfRecordsSpec`, `PdfRecordsShaped` and `PdfRecordsNone` |
| SpreadsheetExtractor.FirstMissingSpec | app.py:18-21 | the first missing required column is reported when some column is missing, and nothing is reported when all are present |
| SpreadsheetExtractor.CheckRequiredColumns | app.py:18-21 | the column-check loop returns the first missing required column, in order |
| SpreadsheetExtractor.ParseRowSkipped | app.py:24-29 | a row is skipped exactly when its name cell is NaN or missing, or holds no `<Name> (CRD #<digits>)` |
| SpreadsheetExtractor.ParseRowFails | app.py:24-30 | a row stops the loop exactly when its name cell is text holding a `<Name> (CRD #<digits>)` entry and its summary cell is NaN |
| SpreadsheetExtractor.ParseRowExtracted | app.py:24-40 | a row yields a record exactly when its name cell is text holding an entry and its summary cell is text or absent |
| SpreadsheetExtractor.NameFieldChoice | app.py:25-27 | a NaN listed name skips the row; a truthy listed name makes Business Name irrelevant; a falsy one selects Business Name |
| SpreadsheetExtractor.NameField | app.py:25 | `row.get("Individual Listed") or row.get("Business Name")`; its contract is stated by `NameFieldChoice` |
| SpreadsheetExtractor.WellFormedGet | app.py:24-25 | in a sheet whose rows all have exactly its columns, `row.get` finds a cell exactly under those columns |
| SpreadsheetExtractor.ExtractedEntry | app.py:28-33 | a record's Name is the stripped name group and its CRD the digit group of the leftmost match in the name cell |
| SpreadsheetExtractor.DigitsUnstripped | app.py:33 | `strip()` leaves the CRD digits unchanged |
| SpreadsheetExtractor.ExtractedShape | app.py:28-33 | a record's Name is non-empty, capitalised, without trailing blanks, and its CRD is non-empty digits |
| SpreadsheetExtractor.ExtractedSummary | app.py:30-39 | City/State and Fines/Restitution are the row's cells, "" when absent; Date, Action and Key Findings are summary lines 0-2 with labels removed, "" when absent; Case Number is "" exactly when there is none, else the leftmost one |
| SpreadsheetExtractor.ConventionalSummary | app.py:30-38 | a summary written as the three labelled lines gives back the three values |
| SpreadsheetExtractor.ParseRow | app.py:24-40 | one pass of the row loop; its three outcomes are characterised by `ParseRowSkipped`, `ParseRowFails` and `ParseRowExtracted`, and its record by `ExtractedEntry`, `ExtractedShape` and `ExtractedSummary` |
| SpreadsheetExtractor.ParseRowsError | app.py:23-40 | the row loop fails at a row exactly when it is the first row that names a CRD and whose summary is NaN, and succeeds exactly when there is none |
| SpreadsheetExtractor.ParseRowsRecords | app.py:23-40 | the records are those of the extracted rows, one each, in row order |
| SpreadsheetExtractor.ParseRowsNone | app.py:23-42 | there are no records exactly when no row is extracted |
| SpreadsheetExtractor.ParseSheet | app.py:23-40 | the row loop computes the sheet's records, or stops at the first row that names a CRD and whose summary is NaN |
| Reconciler.StrLessIrreflexive | app.py:51 | no key sorts before itself |
| Reconciler.StrLessTransitive | app.py:51 | the key order is transitive |
| Reconciler.StrLessTotal | app.py:51 | of two different keys, exactly one sorts first |
| Reconciler.InsertKeySpec | app.py:51 | inserting a key keeps the key list strictly sorted, and adds exactly that key |
| Reconciler.SortedKeysSpec | app.py:51 | the join keys are strictly sorted and are exactly the CRDs of either side |
| Reconciler.SortedUnique | app.py:51 | two strictly sorted key lists with the same members are equal |
| Reconciler.SortedKeysUnique | app.py:51 | the join's key list is the only strictly sorted listing of the CRDs of either side |
| Reconciler.SortedKeysSameMembers | app.py:51 | the key order depends only on which CRDs occur, not on the order or repetition in which they were collected |
| Reconciler.PdfWithSpec | app.py:51 | the PDF records for a key are exactly those with that CRD |
| Reconciler.ExcelWithSpec | app.py:51 | the Excel records for a key are exactly those with that CRD |
| Reconciler.PdfWithEmpty | app.py:51 | the PDF side has no record of a key exactly when no PDF record carries it |
| Reconciler.ExcelWithEmpty | app.py:51 | the Excel side has no record of a key exactly when no Excel record carries it |
| Reconciler.PdfWithOrder | app.py:51 | the PDF records of a key are those at a strictly increasing list of positions holding every position with that CRD: table order and repetitions are kept |
| Reconciler.ExcelWithOrder | app.py:51 | the Excel records of a key are those at a strictly increasing list of positions holding every position with that CRD: table order and repetitions are kept |
| Reconciler.PdfWithCount | app.py:51 | each PDF record of a key occurs among that key's records as often as in the PDF table |
| Reconciler.ExcelWithCount | app.py:51 | each Excel record of a key occurs among that key's records as often as in the Excel table |
| Reconciler.PdfAloneMembers | app.py:51 | an unpartnered PDF record gives a row with the Excel side absent |
| Reconciler.ExcelAloneMembers | app.py:51 | an unpartnered Excel record gives a row with the PDF side absent |
| Reconciler.PairsMembers | app.py:51 | a PDF record is paired with every Excel record of its CRD |
| Reconciler.CrossMembers | app.py:51 | the rows of a key with both sides are exactly all pairings of its PDF and Excel records |
| Reconciler.CrossSize | app.py:51 | a key with l PDF and r Excel records gives l × r joined rows |
| Reconciler.PairsSize | app.py:51 | one PDF record gives one row per Excel record of its CRD |
| Reconciler.RowsForKeyMembers | app.py:51 | the rows for a key are exactly the joined rows with that CRD |
| Reconciler.MergeKeysMembers | app.py:51 | the rows over a list of keys are exactly the joined rows with those CRDs |
| Reconciler.BelongsKey | app.py:51 | a joined row's CRD occurs on one of the sides |
| Reconciler.MergeMembers | app.py:51 | the outer join holds exactly the pairings of equal-CRD records plus the unpartnered records of each side |
| Reconciler.OrderedConcat | app.py:51 | rows of a smaller key put before CRD-ordered rows of larger keys stay CRD-ordered |
| Reconciler.MergeKeysOrdered | app.py:51 | rows produced over sorted keys are CRD-ordered |
| Reconciler.MergeOrdered | app.py:51 | the outer join's rows are ordered by CRD |
| Reconciler.RowCountBelongs | app.py:51 | a row has a positive multiplicity in the outer join exactly when it belongs there |
| Reconciler.PdfAloneCount | app.py:51 | unpartnered PDF rows occur once per occurrence of their record |
| Reconciler.ExcelAloneCount | app.py:51 | unpartnered Excel rows occur once per occurrence of their record |
| Reconciler.PairsCount | app.py:51 | a PDF record is paired with an Excel record once per occurrence of the Excel record |
| Reconciler.CrossCount | app.py:51 | a pairing occurs in the cross product as often as its PDF record times as often as its Excel record |
| Reconciler.PairRowCount | app.py:51 | a key with records on both sides holds each pairing of them multiplicity-times-multiplicity often |
| Reconciler.PdfOnlyRowCount | app.py:51 | a key with no Excel record holds each of its PDF records, unpartnered, as often as the PDF table does |
| Reconciler.ExcelOnlyRowCount | app.py:51 | a key with no PDF record holds each of its Excel records, unpartnered, as often as the Excel table does |
| Reconciler.RowsForKeyCountAt | app.py:51 | the rows of a key hold a row with that CRD as often as the join does, and no row of another CRD |
| Reconciler.RowsForKeyCount | app.py:51 | the rows of a key hold each row with that CRD as often as the join does, and no row of another CRD |
| Reconciler.MergeKeysCount | app.py:51 | the rows over sorted keys hold each row with one of those CRDs as often as the join does, and no other row |
| Reconciler.MergeCount | app.py:51 | the outer join holds each pairing as often as its PDF record times as often as its Excel record, each unpartnered record as often as its table does, and nothing else |
| Reconciler.Merge | app.py:51 | `pd.merge(..., on="CRD", how="outer")`; its contract is stated by `MergeCount`, `MergeMembers` and `MergeOrdered` |
| Reconciler.SuffixedFieldFinds | app.py:51 | a suffixed shared column name resolves to its field |
| Reconciler.SuffixedFieldMisses | app.py:51 | a name ending differently from the suffix resolves to no field |
| Reconciler.RowGetShared | app.py:51-55 | `row.get(f + "_PDF")` and `row.get(f + "_Excel")` give the side's value of a shared field, NaN when the side is absent |
| Reconciler.RowGetUnsuffixed | app.py:51-55 | `row.get` of City/State or Fines/Restitution with either suffix gives None |
| Reconciler.RowGet | app.py:51-55 | `row.get` on a joined row; its contract is stated by `RowGetShared` and `RowGetUnsuffixed` |
| Reconciler.NotSuffixed | app.py:51 | a name that is no field plus the suffix resolves to no field |
| Reconciler.FieldMatchMeaning | app.py:53-56 | a shared field's flag is ✅ exactly when both sides are present and agree; City/State and Fines/Restitution are always ✅ |
| Reconciler.AddMatchColumns | app.py:53-56 | the flag loop yields seven columns, one flag per row and field, each the field's equality |
| Reconciler.StatusMeaning | app.py:58-67 | a row is Missing in Excel when the Excel side is absent, Missing in PDF when only the PDF side is, Mismatch when both disagree on a shared field, Match when they agree on all |
| Reconciler.StatusOf | app.py:58-67 | the status lambda; its contract is stated by `StatusMeaning` |
| Reconciler.NoFalseFlag | app.py:62-64 | no flag is ❌ exactly when the five shared fields all agree |
| Reconciler.LabelledDateMismatch | app.py:58-67 | a pairing whose Excel date lacks the `Date:` label is a Mismatch |
| Reconciler.UnmatchedSpec | app.py:69 | the filter keeps exactly the rows whose status is not Match, in order |
| Reconciler.Unmatched | app.py:69 | the filter on `Status != "Match"`; its contract is stated by `UnmatchedSpec` |
| Reconciler.ReportMembers | app.py:51-69 | the report holds joined rows with their flags and statuses, none a Match; it holds every joined row that is not an agreeing pairing; it is ordered by CRD |
| Reconciler.ReportsMissingInExcel | app.py:58-69 | a PDF record whose CRD is not in the sheet is reported as Missing in Excel |
| Reconciler.ReportsMissingInPdf | app.py:58-69 | an Excel record whose CRD is not in the PDF is reported as Missing in PDF |
| Reconciler.ReportsPairing | app.py:51-69 | a pairing that disagrees is reported as Mismatch; one that agrees is absent from the report |
| CrdChecker.MatchCrdsFromPdfAndExcel | app.py:8-69 | the function's result is `Reconcile`: the column error, the summary error, the two empty-source errors in order, else the filtered report |
| CrdChecker.Reconcile | app.py:8-69 | the whole function on its decoded inputs; its contract is stated by `MatchCrdsFromPdfAndExcel`, the error lemmas below, `ReconcileReport` and `PairedDatesMismatch` |
| CrdChecker.MissingColumnError | app.py:18-21 | the first missing required column, in order, gives the error naming it |
| CrdChecker.SummaryError | app.py:30 | with all columns present, the first row that names a CRD and whose summary is NaN stops the function there |
| CrdChecker.NoSheetRecordsError | app.py:42-46 | a sheet from which no row is extracted gives the "Missing CRD column" error |
| CrdChecker.NoPdfRecordsError | app.py:48-49 | with spreadsheet records present, a PDF without any record match gives the "One or both sources" error |
| CrdChecker.ReportWhen | app.py:18-69 | a report is produced exactly when every required column is present, no row naming a CRD has a NaN summary, some row yields a record, and the PDF text holds a record match |
| CrdChecker.ReconcileReport | app.py:45-69 | a report means both sides have records; it lists joined rows of the two record tables with their flags and statuses, none a Match; it lists every joined row that is not an agreeing pairing; it is in CRD order |
| CrdChecker.PairedDatesMismatch | app.py:51-69 | every PDF record paired with a spreadsheet record whose date lacks the `Date:` label is reported as Mismatch |

## Left out

- The Streamlit page (app.py:72-116) is presentation and I/O. This covers
  the demo-file toggle, the uploads, the rendering, the CRD search box and
  the CSV download.
- PyPDF2 reading and text extraction (app.py:9-10) and `pd.read_excel`
  (app.py:16) are library calls. Their results (page texts, and column names
  with rows) are the inputs.
- The `Source` column (app.py:14, 43) is not stored in the records. It is
  produced by `RowGet` as "PDF" or "Excel" for the side that is present.
- `\d` matches ASCII digits only, and `[A-Z]` and the name class are ASCII.
  Python's Unicode digit classes are not modelled.
- A cell is NaN or a string. Numbers, dates and other dtypes that
  `read_excel` may produce, `str()` of them, and pandas dtype coercion are
  not modelled.
- CrdChecker.SummaryError: models the `AttributeError` raised by `split` on a NaN
  summary (app.py:30) as a result value, not as a raised exception. It is
  an outcome of the function rather than a precondition of it.
- Reconciler.Merge: fixes the key order to that of pandas 2.2 and later,
  where an outer merge sorts the keys lexicographically. Earlier pandas
  versions order rows by first appearance, and this model does not cover
  that.
- Reconciler.StatusOf: returns the status as an enumeration, and the flags
  are booleans. The output strings ("Missing in Excel" and so on) and the
  ✅/❌ glyphs are named in comments only.
- The `reset_index` on the result (app.py:69) only renumbers rows. The
  report is a sequence, which has no index of its own.
- The pattern's DOTALL `.*?` pieces are modelled by the scanners' lazy
  semantics. This is argued, not proved, to agree with the engine: every
  lazy run is followed by a literal, and every constraint is "no later
  than". `Preferred` states the engine's preference that the scanners are
  proved to meet.
