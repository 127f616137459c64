/** The PDF side of the checker: the page texts are joined into one text and
    every match of the record pattern becomes one record of six fields.
    Reading the PDF and extracting each page's text are done by a library
    outside the model; their result, one string per page, is the input. */
module PdfExtractor {
  import opened Text
  import opened Wrappers
  import opened Patterns

  /** The pages that contribute text: a page whose text is empty is falsy
      and is dropped by the comprehension's `if`. */
  function NonEmptyPages(pages: seq<string>): seq<string>
  {
    if |pages| == 0 then []
    else
      var kept := NonEmptyPages(pages[..|pages| - 1]);
      if pages[|pages| - 1] == "" then kept else kept + [pages[|pages| - 1]]
  }

  /** The comprehension keeps exactly the non-empty pages, in their order. */
  lemma {:induction false} NonEmptyPagesSpec(pages: seq<string>)
    ensures forall k :: 0 <= k < |NonEmptyPages(pages)| ==> NonEmptyPages(pages)[k] != ""
    ensures forall p :: p in NonEmptyPages(pages) <==> p in pages && p != ""
    ensures |NonEmptyPages(pages)| <= |pages|
    ensures (forall k :: 0 <= k < |pages| ==> pages[k] != "") ==> NonEmptyPages(pages) == pages
  {
    if |pages| > 0 {
      NonEmptyPagesSpec(pages[..|pages| - 1]);
      assert pages == pages[..|pages| - 1] + [pages[|pages| - 1]];
    }
  }

  /** The comprehension keeps the non-empty pages in their order and with
      their repetitions: the kept pages are those at a strictly increasing
      sequence of indices holding every index of a non-empty page. */
  lemma {:induction false} NonEmptyPagesOrder(pages: seq<string>) returns (idx: seq<nat>)
    ensures |idx| == |NonEmptyPages(pages)|
    ensures forall k :: 0 <= k < |idx| ==> idx[k] < |pages| && NonEmptyPages(pages)[k] == pages[idx[k]]
    ensures forall k, l :: 0 <= k < l < |idx| ==> idx[k] < idx[l]
    ensures forall j :: 0 <= j < |pages| && pages[j] != "" ==> j in idx
  {
    if |pages| == 0 {
      idx := [];
    } else {
      var init := pages[..|pages| - 1];
      var last := |pages| - 1;
      idx := NonEmptyPagesOrder(init);
      assert forall j :: 0 <= j < |init| ==> init[j] == pages[j];
      if pages[last] != "" {
        idx := idx + [last];
      }
    }
  }

  /** The text the record pattern is scanned over: the contributing pages
      joined by line breaks. */
  function PdfText(pages: seq<string>): string
  {
    Join(NonEmptyPages(pages), "\n")
  }

  /** A page break becomes a line break: splitting the text at line breaks
      gives back the lines of the contributing pages. */
  lemma PdfTextLines(pages: seq<string>)
    requires forall k :: 0 <= k < |pages| ==> '\n' !in pages[k]
    requires exists k :: 0 <= k < |pages| && pages[k] != ""
    ensures Split(PdfText(pages), '\n') == NonEmptyPages(pages)
  {
    NonEmptyPagesSpec(pages);
    var k :| 0 <= k < |pages| && pages[k] != "";
    assert pages[k] in NonEmptyPages(pages);
    forall j | 0 <= j < |NonEmptyPages(pages)| ensures '\n' !in NonEmptyPages(pages)[j] {
      assert NonEmptyPages(pages)[j] in pages;
    }
    SplitJoin(NonEmptyPages(pages), '\n');
  }

  /** A page break becomes a line break: the lines of the text are the
      lines of the contributing pages, page after page; with no
      contributing page the text is one empty line. */
  lemma PdfTextSplit(pages: seq<string>)
    ensures NonEmptyPages(pages) == [] ==> Split(PdfText(pages), '\n') == [""]
    ensures NonEmptyPages(pages) != [] ==> Split(PdfText(pages), '\n') == SplitEach(NonEmptyPages(pages), '\n')
  {
    if NonEmptyPages(pages) != [] {
      SplitJoinAll(NonEmptyPages(pages), '\n');
    }
  }

  /** One row of the PDF table: the six groups of a match, in order. Every
      row is tagged with source PDF; the tag is the type itself. */
  datatype PdfRecord = PdfRecord(name: string, crd: string, date: string, action: string,
                                 findings: string, caseNumber: string)

  /** The six groups of one record match of `s`. */
  function RecordOf(s: string, m: RecordMatch): PdfRecord
    requires IsRecordMatch(s, m)
  {
    RecordMatchShape(s, m);
    PdfRecord(s[m.head.start..m.head.nameEnd],
              s[m.head.open + |CrdMarker|..m.head.close],
              s[m.lines[0].start..m.lines[0].end],
              s[m.lines[1].start..m.lines[1].end],
              s[m.lines[2].start..m.lines[2].end],
              s[m.caseNo.start..m.caseNo.end])
  }

  predicate AllDigits(t: string) { forall k :: 0 <= k < |t| ==> IsDigit(t[k]) }

  /** What a record read from the report looks like: a capitalised name
      without the blanks before the marker, a CRD of digits, the three
      labelled lines with their labels and without their line breaks, and
      a case number. */
  predicate WellShaped(r: PdfRecord) {
    && |r.name| >= 2 && IsUpper(r.name[0]) && (forall k :: 1 <= k < |r.name| ==> IsNameChar(r.name[k]))
    && r.crd != "" && AllDigits(r.crd)
    && OccursAt(r.date, DateLabel, 0) && '\n' !in r.date
    && OccursAt(r.action, ActionLabel, 0) && '\n' !in r.action
    && OccursAt(r.findings, FindingsLabel, 0) && '\n' !in r.findings
    && OccursAt(r.caseNumber, CasePrefix, 0) && |r.caseNumber| > |CasePrefix|
    && AllDigits(r.caseNumber[|CasePrefix|..])
  }

  /** The groups of a match whose lines hold no line break have the shape
      of a record. */
  lemma RecordOfShaped(s: string, m: RecordMatch)
    requires IsRecordMatch(s, m)
    requires forall i :: 0 <= i < |m.lines| ==> NoBreakIn(s, m.lines[i])
    ensures WellShaped(RecordOf(s, m))
  {
    RecordMatchShape(s, m);
    NameGroup(s, m.head);
    DigitsGroup(s, m.head.open + |CrdMarker|, m.head.close);
    LineGroup(s, DateLabel, m.lines[0]);
    LineGroup(s, ActionLabel, m.lines[1]);
    LineGroup(s, FindingsLabel, m.lines[2]);
    CaseGroup(s, m.caseNo);
  }

  /** The records the scanner reports are well shaped. */
  lemma ScannedRecordShaped(s: string, p: nat)
    requires RecordAt(s, p).Some?
    ensures IsRecordMatch(s, RecordAt(s, p).value)
    ensures WellShaped(RecordOf(s, RecordAt(s, p).value))
  {
    RecordAtSound(s, p);
    RecordAtOneLine(s, p);
    RecordOfShaped(s, RecordAt(s, p).value);
  }

  lemma NameGroup(s: string, h: NameCrd)
    requires IsNameCrd(s, h)
    ensures var n := s[h.start..h.nameEnd];
      |n| >= 2 && IsUpper(n[0]) && forall k :: 1 <= k < |n| ==> IsNameChar(n[k])
  {
    var n := s[h.start..h.nameEnd];
    assert n[0] == s[h.start];
    forall k | 1 <= k < |n| ensures IsNameChar(n[k]) {
      assert n[k] == s[h.start + k];
    }
  }

  lemma DigitsGroup(s: string, i: nat, j: nat)
    requires i < j <= |s| && forall k :: i <= k < j ==> IsDigit(s[k])
    ensures s[i..j] != "" && AllDigits(s[i..j])
  {
    forall k | 0 <= k < j - i ensures IsDigit(s[i..j][k]) {
      assert s[i..j][k] == s[i + k];
    }
  }

  lemma CaseGroup(s: string, t: Span)
    requires IsCaseNumber(s, t)
    ensures var c := s[t.start..t.end];
      OccursAt(c, CasePrefix, 0) && |c| > |CasePrefix| && AllDigits(c[|CasePrefix|..])
  {
    var c := s[t.start..t.end];
    assert c[0..|CasePrefix|] == s[t.start..t.start + |CasePrefix|];
    DigitsGroup(s, t.start + |CasePrefix|, t.end);
    assert c[|CasePrefix|..] == s[t.start + |CasePrefix|..t.end];
  }

  /** The text of a labelled line starts with its label and, when the line
      holds no break, is one line. */
  lemma LineGroup(s: string, marker: string, t: Span)
    requires IsLabelledLine(s, marker, t) && NoBreakIn(s, t)
    ensures OccursAt(s[t.start..t.end], marker, 0) && '\n' !in s[t.start..t.end]
  {
    assert s[t.start..t.end][0..|marker|] == s[t.start..t.start + |marker|];
    forall k | 0 <= k < t.end - t.start ensures s[t.start..t.end][k] != '\n' {
      assert s[t.start..t.end][k] == s[t.start + k];
    }
  }

  /** `pd.DataFrame(re.findall(pattern, pdf_text, re.DOTALL), columns=...)`:
      one record per match, in text order. */
  function PdfRecords(pages: seq<string>): seq<PdfRecord>
  {
    var s := PdfText(pages);
    FindAllSound(s, 0);
    var ms := FindAll(s, 0);
    seq(|ms|, (i: int) requires 0 <= i < |ms| => RecordOf(s, ms[i]))
  }

  /** Each record holds the six groups of the corresponding match of the
      text, the match the engine reports, and is well shaped; every place
      where a record could start lies within one of the reported matches. */
  lemma PdfRecordsSpec(pages: seq<string>)
    ensures var s := PdfText(pages); var ms := FindAll(s, 0);
      && |PdfRecords(pages)| == |ms|
      && (forall i :: 0 <= i < |ms| ==>
            && IsRecordMatch(s, ms[i])
            && RecordAt(s, ms[i].head.start) == Some(ms[i])
            && PdfRecords(pages)[i] == RecordOf(s, ms[i])
            && WellShaped(PdfRecords(pages)[i]))
      && (forall m :: IsRecordMatch(s, m) ==>
            exists i :: 0 <= i < |ms| && ms[i].head.start <= m.head.start < ms[i].caseNo.end)
  {
    var s := PdfText(pages);
    var ms := FindAll(s, 0);
    FindAllSound(s, 0);
    forall i | 0 <= i < |ms| ensures WellShaped(RecordOf(s, ms[i])) {
      ScannedRecordShaped(s, ms[i].head.start);
    }
    forall m | IsRecordMatch(s, m)
      ensures exists i :: 0 <= i < |ms| && ms[i].head.start <= m.head.start < ms[i].caseNo.end
    {
      FindAllComplete(s, 0, m);
    }
  }

  /** Every record read from the report is well shaped. */
  lemma PdfRecordsShaped(pages: seq<string>)
    ensures forall r :: r in PdfRecords(pages) ==> WellShaped(r)
  {
    PdfRecordsSpec(pages);
  }

  /** There are no records exactly when the text holds no match. */
  lemma PdfRecordsNone(pages: seq<string>)
    ensures PdfRecords(pages) == [] <==> forall m :: !IsRecordMatch(PdfText(pages), m)
  {
    PdfRecordsSpec(pages);
    var s := PdfText(pages);
    if PdfRecords(pages) != [] {
      assert IsRecordMatch(s, FindAll(s, 0)[0]);
    }
  }
}
