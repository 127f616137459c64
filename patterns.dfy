/** The regular expressions of the checker, as deterministic scanners.

    Each pattern is first described declaratively (which spans of the text
    the pattern can match), then a scanner computes the match that Python's
    backtracking engine reports, trying the alternatives in the order the
    engine tries them. Every lazy `.*?` and `+?` in these patterns is
    followed by a literal, and every later piece only has to start after
    the earlier one ends, so the engine's first match is the one that takes
    the earliest possible position for each piece in turn. The soundness
    lemmas show that a scanner reports a genuine match; the completeness
    lemmas that it misses none and that what it reports is no later, piece
    by piece, than any other match at the same start. `\d` is read as the
    ASCII digits. */
module Patterns {
  import opened Wrappers
  import opened Text

  predicate IsUpper(c: char) { 'A' <= c <= 'Z' }

  /** The class `[a-zA-Z .,'-]`. */
  predicate IsNameChar(c: char) {
    ('a' <= c <= 'z') || ('A' <= c <= 'Z') || c == ' ' || c == '.' || c == ',' || c == '\'' || c == '-'
  }

  predicate IsDigit(c: char) { '0' <= c <= '9' }

  /** The end of the run of digits that starts at `i`: what a greedy `\d+`
      or `[0-9]+` takes. */
  function DigitsEnd(s: string, i: nat): nat
    decreases |s| - i
  {
    if i < |s| && IsDigit(s[i]) then DigitsEnd(s, i + 1) else i
  }

  lemma {:induction false} DigitsEndSpec(s: string, i: nat)
    requires i <= |s|
    ensures i <= DigitsEnd(s, i) <= |s|
    ensures forall k :: i <= k < DigitsEnd(s, i) ==> IsDigit(s[k])
    ensures DigitsEnd(s, i) < |s| ==> !IsDigit(s[DigitsEnd(s, i)])
    decreases |s| - i
  {
    if i < |s| && IsDigit(s[i]) {
      DigitsEndSpec(s, i + 1);
    }
  }

  /** A run of digits ended by a non-digit (or the end) is the run. */
  lemma {:induction false} DigitsEndAt(s: string, i: nat, j: nat)
    requires i <= j <= |s|
    requires forall k :: i <= k < j ==> IsDigit(s[k])
    requires j < |s| ==> !IsDigit(s[j])
    ensures DigitsEnd(s, i) == j
    decreases j - i
  {
    if i < j {
      DigitsEndAt(s, i + 1, j);
    }
  }

  /** A regular expression span `[start, end)`. */
  datatype Span = Span(start: nat, end: nat)

  // ---------------------------------------------------------------------
  // `([A-Z][a-zA-Z .,'-]+?)\s*\(CRD #(\d+)\)`
  // ---------------------------------------------------------------------

  const CrdMarker := "(CRD #"

  /** Where the pieces of a `<Name> (CRD #<digits>)` match lie: the name
      group is `s[start..nameEnd]`, the marker starts at `open`, the digits
      group is `s[open + 6..close]` and `)` stands at `close`. */
  datatype NameCrd = NameCrd(start: nat, nameEnd: nat, open: nat, close: nat)

  predicate IsNameCrd(s: string, m: NameCrd) {
    && m.start + 2 <= m.nameEnd <= m.open
    && m.open + |CrdMarker| < m.close < |s|
    && IsUpper(s[m.start])
    && (forall k :: m.start < k < m.nameEnd ==> IsNameChar(s[k]))
    && (forall k :: m.nameEnd <= k < m.open ==> IsSpace(s[k]))
    && OccursAt(s, CrdMarker, m.open)
    && (forall k :: m.open + |CrdMarker| <= k < m.close ==> IsDigit(s[k]))
    && s[m.close] == ')'
  }

  /** `\s*\(CRD #(\d+)\)` tried at `i`: where the marker and the `)`
      stand. The greedy `\s*` takes every blank (giving one back cannot
      help, since `(` is not a blank), and `\d+`, greedy or lazy, has to take
      the whole digit run, since only a `)` may follow it. */
  function CrdAfter(s: string, i: nat): Option<(nat, nat)>
    decreases |s| - i
  {
    if i < |s| && IsSpace(s[i]) then CrdAfter(s, i + 1)
    else if !OccursAt(s, CrdMarker, i) then None
    else
      var close := DigitsEnd(s, i + |CrdMarker|);
      if close == i + |CrdMarker| || close >= |s| || s[close] != ')' then None
      else Some((i, close))
  }

  lemma {:induction false} CrdAfterSound(s: string, i: nat)
    requires CrdAfter(s, i).Some?
    ensures var (open, close) := CrdAfter(s, i).value;
      && i <= open && open + |CrdMarker| < close < |s|
      && (forall k :: i <= k < open ==> IsSpace(s[k]))
      && OccursAt(s, CrdMarker, open)
      && (forall k :: open + |CrdMarker| <= k < close ==> IsDigit(s[k]))
      && s[close] == ')'
    decreases |s| - i
  {
    if i < |s| && IsSpace(s[i]) {
      CrdAfterSound(s, i + 1);
    } else {
      DigitsEndSpec(s, i + |CrdMarker|);
    }
  }

  lemma {:induction false} CrdAfterComplete(s: string, i: nat, open: nat, close: nat)
    requires i <= open && open + |CrdMarker| < close < |s|
    requires forall k :: i <= k < open ==> IsSpace(s[k])
    requires OccursAt(s, CrdMarker, open)
    requires forall k :: open + |CrdMarker| <= k < close ==> IsDigit(s[k])
    requires s[close] == ')'
    ensures CrdAfter(s, i) == Some((open, close))
    decreases open - i
  {
    if i < open {
      CrdAfterComplete(s, i + 1, open, close);
    } else {
      assert s[open] == '(' by { assert s[open..open + 6][0] == s[open]; }
      DigitsEndAt(s, open + |CrdMarker|, close);
    }
  }

  /** The lazy name group tried with end `e` and then with each longer name:
      the first end after which `\s*\(CRD #(\d+)\)` matches. */
  function NameFrom(s: string, p: nat, e: nat): Option<NameCrd>
    decreases |s| - e
  {
    match CrdAfter(s, e)
    case Some((open, close)) => Some(NameCrd(p, e, open, close))
    case None => if e < |s| && IsNameChar(s[e]) then NameFrom(s, p, e + 1) else None
  }

  /** The name pattern tried at `p`: an upper-case letter, at least one
      name character, then the lazy rest of the name. */
  function NameCrdAt(s: string, p: nat): Option<NameCrd>
  {
    if p + 1 < |s| && IsUpper(s[p]) && IsNameChar(s[p + 1]) then NameFrom(s, p, p + 2) else None
  }

  lemma {:induction false} NameFromSound(s: string, p: nat, e: nat)
    requires p + 2 <= e && p < |s| && IsUpper(s[p])
    requires forall k :: p < k < e ==> k < |s| && IsNameChar(s[k])
    requires NameFrom(s, p, e).Some?
    ensures var m := NameFrom(s, p, e).value; IsNameCrd(s, m) && m.start == p
    decreases |s| - e
  {
    match CrdAfter(s, e)
    case Some(_) =>
      CrdAfterSound(s, e);
    case None =>
      NameFromSound(s, p, e + 1);
  }

  /** What the scanner reports is a match of the pattern at `p`. */
  lemma NameCrdAtSound(s: string, p: nat)
    requires NameCrdAt(s, p).Some?
    ensures IsNameCrd(s, NameCrdAt(s, p).value) && NameCrdAt(s, p).value.start == p
  {
    NameFromSound(s, p, p + 2);
  }

  /** Inside or at the end of a name group, `\s*\(CRD #(\d+)\)` can only
      find the group's own marker. */
  lemma CrdAfterWithin(s: string, m: NameCrd, e: nat)
    requires IsNameCrd(s, m) && m.start + 2 <= e <= m.nameEnd
    requires CrdAfter(s, e).Some?
    ensures CrdAfter(s, e) == Some((m.open, m.close))
  {
    CrdAfterSound(s, e);
    var (o, c) := CrdAfter(s, e).value;
    assert s[o] == '(' by { assert s[o..o + 6][0] == s[o]; }
    assert m.nameEnd <= o;
    forall k | e <= k < m.open ensures IsSpace(s[k]) {
      if k >= o {
        assert m.nameEnd <= k;
      }
    }
    CrdAfterComplete(s, e, m.open, m.close);
  }

  lemma {:induction false} NameFromComplete(s: string, m: NameCrd, e: nat)
    requires IsNameCrd(s, m) && m.start + 2 <= e <= m.nameEnd
    ensures NameFrom(s, m.start, e).Some?
    ensures var n := NameFrom(s, m.start, e).value;
      n.nameEnd <= m.nameEnd && n.open == m.open && n.close == m.close
    decreases m.nameEnd - e
  {
    CrdAfterComplete(s, m.nameEnd, m.open, m.close);
    if CrdAfter(s, e).Some? {
      CrdAfterWithin(s, m, e);
    } else {
      NameFromComplete(s, m, e + 1);
    }
  }

  /** Whenever the pattern can match at a position, the scanner finds a
      match there, with the same marker and digits and the shortest name. */
  lemma NameCrdAtComplete(s: string, m: NameCrd)
    requires IsNameCrd(s, m)
    ensures NameCrdAt(s, m.start).Some?
    ensures NameCrdAt(s, m.start).value.nameEnd <= m.nameEnd
    ensures NameCrdAt(s, m.start).value.open == m.open
    ensures NameCrdAt(s, m.start).value.close == m.close
  {
    assert IsNameChar(s[m.start + 1]);
    NameFromComplete(s, m, m.start + 2);
  }

  /** `re.search`: the first position at or after `from` where the name
      pattern matches. */
  function SearchNameCrd(s: string, from: nat): Option<NameCrd>
    decreases |s| - from
  {
    if from >= |s| then None
    else match NameCrdAt(s, from)
      case Some(m) => Some(m)
      case None => SearchNameCrd(s, from + 1)
  }

  lemma {:induction false} SearchNameCrdFirst(s: string, from: nat)
    ensures SearchNameCrd(s, from).Some? ==>
              && from <= SearchNameCrd(s, from).value.start
              && NameCrdAt(s, SearchNameCrd(s, from).value.start) == SearchNameCrd(s, from)
    ensures forall p: nat :: from <= p && (SearchNameCrd(s, from).Some? ==> p < SearchNameCrd(s, from).value.start)
              ==> NameCrdAt(s, p).None?
    decreases |s| - from
  {
    if from < |s| {
      match NameCrdAt(s, from)
      case Some(m) =>
        NameCrdAtSound(s, from);
      case None =>
        SearchNameCrdFirst(s, from + 1);
    }
  }

  /** The search reports a genuine match, none starts earlier, and among
      the matches at its start it is the one the engine prefers. */
  lemma SearchNameCrdSpec(s: string, from: nat)
    ensures SearchNameCrd(s, from).Some? ==>
              IsNameCrd(s, SearchNameCrd(s, from).value) && from <= SearchNameCrd(s, from).value.start
    ensures forall m :: IsNameCrd(s, m) && from <= m.start ==>
              SearchNameCrd(s, from).Some? && SearchNameCrd(s, from).value.start <= m.start
    ensures forall m :: IsNameCrd(s, m) && SearchNameCrd(s, from).Some? && m.start == SearchNameCrd(s, from).value.start ==>
              && SearchNameCrd(s, from).value.nameEnd <= m.nameEnd
              && SearchNameCrd(s, from).value.open == m.open
              && SearchNameCrd(s, from).value.close == m.close
  {
    var r := SearchNameCrd(s, from);
    SearchNameCrdFirst(s, from);
    if r.Some? {
      NameCrdAtSound(s, r.value.start);
    }
    forall m | IsNameCrd(s, m) && from <= m.start
      ensures r.Some? && r.value.start <= m.start
      ensures r.value.start == m.start ==>
                r.value.nameEnd <= m.nameEnd && r.value.open == m.open && r.value.close == m.close
    {
      NameCrdAtComplete(s, m);
    }
  }

  // ---------------------------------------------------------------------
  // `FINRA Case #[0-9]+`
  // ---------------------------------------------------------------------

  const CasePrefix := "FINRA Case #"

  predicate IsCaseNumber(s: string, t: Span) {
    && OccursAt(s, CasePrefix, t.start)
    && t.start + |CasePrefix| < t.end <= |s|
    && forall k :: t.start + |CasePrefix| <= k < t.end ==> IsDigit(s[k])
  }

  /** The case-number pattern tried at `p`; the greedy `[0-9]+` takes the
      whole digit run. */
  function CaseNumberAt(s: string, p: nat): Option<Span>
  {
    if !OccursAt(s, CasePrefix, p) then None
    else
      var e := DigitsEnd(s, p + |CasePrefix|);
      if e == p + |CasePrefix| then None else Some(Span(p, e))
  }

  lemma CaseNumberAtSound(s: string, p: nat)
    requires CaseNumberAt(s, p).Some?
    ensures IsCaseNumber(s, CaseNumberAt(s, p).value) && CaseNumberAt(s, p).value.start == p
    ensures CaseNumberAt(s, p).value.end == |s| || !IsDigit(s[CaseNumberAt(s, p).value.end])
  {
    DigitsEndSpec(s, p + |CasePrefix|);
  }

  lemma CaseNumberAtComplete(s: string, t: Span)
    requires IsCaseNumber(s, t)
    ensures CaseNumberAt(s, t.start).Some? && CaseNumberAt(s, t.start).value.end >= t.end
  {
    DigitsEndSpec(s, t.start + |CasePrefix|);
  }

  /** `re.search(r"FINRA Case #[0-9]+", ...)` from `from`: the first
      position at or after `from` where the pattern matches. */
  function SearchCaseNumber(s: string, from: nat): Option<Span>
    decreases |s| - from
  {
    if from >= |s| then None
    else match CaseNumberAt(s, from)
      case Some(t) => Some(t)
      case None => SearchCaseNumber(s, from + 1)
  }

  lemma {:induction false} SearchCaseNumberFirst(s: string, from: nat)
    ensures SearchCaseNumber(s, from).Some? ==>
              && from <= SearchCaseNumber(s, from).value.start
              && CaseNumberAt(s, SearchCaseNumber(s, from).value.start) == SearchCaseNumber(s, from)
    ensures forall p: nat :: from <= p && (SearchCaseNumber(s, from).Some? ==> p < SearchCaseNumber(s, from).value.start)
              ==> CaseNumberAt(s, p).None?
    decreases |s| - from
  {
    if from < |s| {
      match CaseNumberAt(s, from)
      case Some(t) =>
        CaseNumberAtSound(s, from);
      case None =>
        SearchCaseNumberFirst(s, from + 1);
    }
  }

  /** The search reports a genuine case number that runs to the end of its
      digits, and no case number starts earlier. */
  lemma SearchCaseNumberSpec(s: string, from: nat)
    ensures SearchCaseNumber(s, from).Some? ==>
              && IsCaseNumber(s, SearchCaseNumber(s, from).value)
              && from <= SearchCaseNumber(s, from).value.start
              && (SearchCaseNumber(s, from).value.end == |s| || !IsDigit(s[SearchCaseNumber(s, from).value.end]))
    ensures forall t :: IsCaseNumber(s, t) && from <= t.start ==>
              SearchCaseNumber(s, from).Some? && SearchCaseNumber(s, from).value.start <= t.start
  {
    var r := SearchCaseNumber(s, from);
    SearchCaseNumberFirst(s, from);
    if r.Some? {
      CaseNumberAtSound(s, r.value.start);
    }
    forall t | IsCaseNumber(s, t) && from <= t.start
      ensures r.Some? && r.value.start <= t.start
    {
      CaseNumberAtComplete(s, t);
    }
  }

  /** What the case-number search prefers over a given case number from the
      same start onwards: one that starts no later, with no fewer digits
      when the two start together. */
  predicate CasePreferred(n: Span, m: Span) {
    n.start <= m.start && (n.start == m.start ==> n.end >= m.end)
  }

  /** The search finds a case number whenever there is one, and prefers it. */
  lemma SearchCaseNumberPrefers(s: string, from: nat, t: Span)
    requires from <= t.start && IsCaseNumber(s, t)
    ensures SearchCaseNumber(s, from).Some? && CasePreferred(SearchCaseNumber(s, from).value, t)
  {
    SearchCaseNumberSpec(s, from);
    var r := SearchCaseNumber(s, from).value;
    if r.start == t.start {
      CaseNumberAtComplete(s, t);
      SearchCaseNumberFirst(s, from);
    }
  }

  // ---------------------------------------------------------------------
  // The record pattern of the PDF text, matched with DOTALL:
  // `<name pattern>.*?(Date:.*?)\n.*?(Action:.*?)\n.*?(Key Findings:.*?)\n.*?(FINRA Case #[0-9]+)`
  // ---------------------------------------------------------------------

  const DateLabel := "Date:"
  const ActionLabel := "Action:"
  const FindingsLabel := "Key Findings:"

  /** The labels of the three `.*?(<label>.*?)\n` pieces, in pattern order. */
  const LineLabels: seq<string> := [DateLabel, ActionLabel, FindingsLabel]

  /** `(marker.*?)\n`: the group is `s[t.start..t.end]` and a line break
      stands at `t.end`. */
  predicate IsLabelledLine(s: string, marker: string, t: Span) {
    OccursAt(s, marker, t.start) && t.start + |marker| <= t.end < |s| && s[t.end] == '\n'
  }

  /** The rest of a record match from position `from` on: one labelled line
      per marker, each starting after the line break of the one before, then
      a case number. */
  predicate IsTail(s: string, markers: seq<string>, from: nat, lines: seq<Span>, caseNo: Span)
    decreases |markers|
  {
    if |markers| == 0 then lines == [] && from <= caseNo.start && IsCaseNumber(s, caseNo)
    else
      && |lines| > 0 && from <= lines[0].start && IsLabelledLine(s, markers[0], lines[0])
      && IsTail(s, markers[1..], lines[0].end + 1, lines[1..], caseNo)
  }

  lemma {:induction false} TailBounds(s: string, markers: seq<string>, from: nat, lines: seq<Span>, caseNo: Span)
    requires IsTail(s, markers, from, lines, caseNo)
    ensures |lines| == |markers| && from <= caseNo.start < caseNo.end <= |s|
    decreases |markers|
  {
    if |markers| > 0 {
      TailBounds(s, markers[1..], lines[0].end + 1, lines[1..], caseNo);
    }
  }

  /** The spans of the groups of one record match: the name and CRD, the
      date, action and findings lines, and the case number. */
  datatype RecordMatch = RecordMatch(head: NameCrd, lines: seq<Span>, caseNo: Span)

  predicate IsRecordMatch(s: string, m: RecordMatch) {
    IsNameCrd(s, m.head) && IsTail(s, LineLabels, m.head.close + 1, m.lines, m.caseNo)
  }

  lemma TailStep(s: string, markers: seq<string>, from: nat, lines: seq<Span>, caseNo: Span)
    requires |markers| > 0 && IsTail(s, markers, from, lines, caseNo)
    ensures |lines| > 0 && from <= lines[0].start && IsLabelledLine(s, markers[0], lines[0])
    ensures IsTail(s, markers[1..], lines[0].end + 1, lines[1..], caseNo)
  {
  }

  /** The tail of a record spelt out: three lines labelled in order, then
      the case number, none overlapping the next. */
  lemma TailShape(s: string, from: nat, ls: seq<Span>, caseNo: Span)
    requires IsTail(s, LineLabels, from, ls, caseNo)
    ensures |ls| == 3
    ensures from <= ls[0].start && IsLabelledLine(s, DateLabel, ls[0])
    ensures ls[0].end < ls[1].start && IsLabelledLine(s, ActionLabel, ls[1])
    ensures ls[1].end < ls[2].start && IsLabelledLine(s, FindingsLabel, ls[2])
    ensures ls[2].end < caseNo.start && IsCaseNumber(s, caseNo)
  {
    TailBounds(s, LineLabels, from, ls, caseNo);
    TailStep(s, LineLabels, from, ls, caseNo);
    assert LineLabels[1..] == [ActionLabel, FindingsLabel];
    TailStep(s, [ActionLabel, FindingsLabel], ls[0].end + 1, ls[1..], caseNo);
    assert [ActionLabel, FindingsLabel][1..] == [FindingsLabel];
    assert ls[1..][0] == ls[1] && ls[1..][1..] == ls[2..];
    TailStep(s, [FindingsLabel], ls[1].end + 1, ls[2..], caseNo);
    assert [FindingsLabel][1..] == [];
    assert ls[2..][0] == ls[2] && ls[2..][1..] == ls[3..];
    assert IsTail(s, [], ls[2].end + 1, ls[3..], caseNo);
  }

  /** A record match spelt out: three lines, labelled in order, between the
      name and the case number, none overlapping the next. */
  lemma RecordMatchShape(s: string, m: RecordMatch)
    requires IsRecordMatch(s, m)
    ensures |m.lines| == 3
    ensures m.head.close < m.lines[0].start && IsLabelledLine(s, DateLabel, m.lines[0])
    ensures m.lines[0].end < m.lines[1].start && IsLabelledLine(s, ActionLabel, m.lines[1])
    ensures m.lines[1].end < m.lines[2].start && IsLabelledLine(s, FindingsLabel, m.lines[2])
    ensures m.lines[2].end < m.caseNo.start && IsCaseNumber(s, m.caseNo)
  {
    TailShape(s, m.head.close + 1, m.lines, m.caseNo);
  }

  /** `.*?(marker.*?)\n` tried at `from`: the lazy `.*?` tries each
      position in turn; at the first occurrence of the marker the lazy
      group runs to the first line break after it. When that line break is
      missing, no later occurrence has one either. */
  function LabelledLineFrom(s: string, marker: string, from: nat): Option<Span>
    decreases |s| - from
  {
    if from + |marker| > |s| then None
    else if OccursAt(s, marker, from) then
      match Find(s, "\n", from + |marker|)
      case None => None
      case Some(e) => Some(Span(from, e))
    else LabelledLineFrom(s, marker, from + 1)
  }

  lemma {:induction false} LabelledLineFromSound(s: string, marker: string, from: nat)
    requires LabelledLineFrom(s, marker, from).Some?
    ensures IsLabelledLine(s, marker, LabelledLineFrom(s, marker, from).value)
    ensures from <= LabelledLineFrom(s, marker, from).value.start
    decreases |s| - from
  {
    if OccursAt(s, marker, from) {
      FindFirst(s, "\n", from + |marker|);
      var e := LabelledLineFrom(s, marker, from).value.end;
      assert s[e] == s[e..e + 1][0];
    } else {
      LabelledLineFromSound(s, marker, from + 1);
    }
  }

  lemma {:induction false} LabelledLineFromComplete(s: string, marker: string, from: nat, t: Span)
    requires from <= t.start && IsLabelledLine(s, marker, t)
    ensures LabelledLineFrom(s, marker, from).Some?
    ensures LabelledLineFrom(s, marker, from).value.start <= t.start
    ensures LabelledLineFrom(s, marker, from).value.end <= t.end
    decreases t.start - from
  {
    if OccursAt(s, marker, from) {
      assert OccursAt(s, "\n", t.end) by { assert s[t.end..t.end + 1] == [s[t.end]]; }
      FindBefore(s, "\n", from + |marker|, t.end);
    } else {
      LabelledLineFromComplete(s, marker, from + 1, t);
    }
  }

  /** The pieces after the name tried from `from`, left to right: each
      labelled line is looked for where the previous one ended, and the case
      number after the last. */
  function TailFrom(s: string, markers: seq<string>, from: nat): Option<(seq<Span>, Span)>
    decreases |markers|
  {
    if |markers| == 0 then
      match SearchCaseNumber(s, from)
      case None => None
      case Some(c) => Some(([], c))
    else
      match LabelledLineFrom(s, markers[0], from)
      case None => None
      case Some(t) =>
        match TailFrom(s, markers[1..], t.end + 1)
        case None => None
        case Some((ts, c)) => Some(([t] + ts, c))
  }

  lemma {:induction false} TailFromSound(s: string, markers: seq<string>, from: nat)
    requires TailFrom(s, markers, from).Some?
    ensures IsTail(s, markers, from, TailFrom(s, markers, from).value.0, TailFrom(s, markers, from).value.1)
    ensures var e := TailFrom(s, markers, from).value.1.end; e < |s| ==> !IsDigit(s[e])
    decreases |markers|
  {
    if |markers| == 0 {
      SearchCaseNumberSpec(s, from);
    } else {
      LabelledLineFromSound(s, markers[0], from);
      var t := LabelledLineFrom(s, markers[0], from).value;
      TailFromSound(s, markers[1..], t.end + 1);
      var ts := TailFrom(s, markers[1..], t.end + 1).value.0;
      assert ([t] + ts)[0] == t && ([t] + ts)[1..] == ts;
    }
  }

  /** Each scanned line no later than its counterpart. */
  predicate LinesNoLater(a: seq<Span>, b: seq<Span>) {
    |a| == |b| && forall i :: 0 <= i < |a| ==> NoLater(a[i], b[i])
  }

  /** One piece no later than another: what a lazy quantifier prefers. */
  predicate NoLater(a: Span, b: Span) { a.start <= b.start && a.end <= b.end }

  /** Whenever the rest of a record can match from some position, the scanner
      started there or earlier finds a match whose pieces are no later. */
  lemma {:induction false} TailFromComplete(s: string, markers: seq<string>, from: nat, from0: nat, lines: seq<Span>, caseNo: Span)
    requires from <= from0 && IsTail(s, markers, from0, lines, caseNo)
    ensures TailFrom(s, markers, from).Some?
    ensures LinesNoLater(TailFrom(s, markers, from).value.0, lines)
    ensures CasePreferred(TailFrom(s, markers, from).value.1, caseNo)
    decreases |markers|
  {
    if |markers| == 0 {
      SearchCaseNumberPrefers(s, from, caseNo);
    } else {
      LabelledLineFromComplete(s, markers[0], from, lines[0]);
      var t := LabelledLineFrom(s, markers[0], from).value;
      TailFromComplete(s, markers[1..], t.end + 1, lines[0].end + 1, lines[1..], caseNo);
      var ts := TailFrom(s, markers[1..], t.end + 1).value.0;
      forall i | 0 <= i < |[t] + ts| ensures NoLater(([t] + ts)[i], lines[i]) {
        if i > 0 {
          assert ([t] + ts)[i] == ts[i - 1] && lines[i] == lines[1..][i - 1];
        }
      }
    }
  }

  /** `n` is the match the engine prefers over `m`: every lazy piece ends no
      later, and the greedy case digits are no shorter when the two case
      numbers start together. */
  predicate Preferred(n: RecordMatch, m: RecordMatch) {
    && n.head.start == m.head.start
    && n.head.nameEnd <= m.head.nameEnd && n.head.open == m.head.open && n.head.close == m.head.close
    && LinesNoLater(n.lines, m.lines)
    && CasePreferred(n.caseNo, m.caseNo)
  }

  /** The record pattern tried at `p`: the name and CRD, then the rest. */
  function RecordAt(s: string, p: nat): Option<RecordMatch>
  {
    match NameCrdAt(s, p)
    case None => None
    case Some(head) =>
      match TailFrom(s, LineLabels, head.close + 1)
      case None => None
      case Some((lines, caseNo)) => Some(RecordMatch(head, lines, caseNo))
  }

  /** No line break falls inside the span. */
  predicate NoBreakIn(s: string, t: Span) {
    forall k :: t.start <= k < t.end && k < |s| ==> s[k] != '\n'
  }

  /** The lazy group of a labelled line ends at the first line break after
      its marker, so it is a single line when the marker is. */
  lemma {:induction false} LabelledLineFromOneLine(s: string, marker: string, from: nat)
    requires '\n' !in marker && LabelledLineFrom(s, marker, from).Some?
    ensures NoBreakIn(s, LabelledLineFrom(s, marker, from).value)
    decreases |s| - from
  {
    if OccursAt(s, marker, from) {
      var t := LabelledLineFrom(s, marker, from).value;
      FindFirst(s, "\n", from + |marker|);
      forall k | t.start <= k < t.end && k < |s| ensures s[k] != '\n' {
        if k >= from + |marker| {
          assert !OccursAt(s, "\n", k);
          assert s[k..k + 1] == [s[k]];
        } else {
          assert s[k] == s[from..from + |marker|][k - from];
        }
      }
    } else {
      LabelledLineFromOneLine(s, marker, from + 1);
    }
  }

  lemma {:induction false} TailFromOneLine(s: string, markers: seq<string>, from: nat)
    requires forall i :: 0 <= i < |markers| ==> '\n' !in markers[i]
    requires TailFrom(s, markers, from).Some?
    ensures forall i :: 0 <= i < |TailFrom(s, markers, from).value.0| ==>
              NoBreakIn(s, TailFrom(s, markers, from).value.0[i])
    decreases |markers|
  {
    if |markers| > 0 {
      LabelledLineFromOneLine(s, markers[0], from);
      var t := LabelledLineFrom(s, markers[0], from).value;
      TailFromOneLine(s, markers[1..], t.end + 1);
      var ts := TailFrom(s, markers[1..], t.end + 1).value.0;
      forall i | 0 <= i < |[t] + ts| ensures NoBreakIn(s, ([t] + ts)[i]) {
        if i > 0 {
          assert ([t] + ts)[i] == ts[i - 1];
        }
      }
    }
  }

  /** The three lines of a match the scanner reports hold no line break. */
  lemma RecordAtOneLine(s: string, p: nat)
    requires RecordAt(s, p).Some?
    ensures forall i :: 0 <= i < |RecordAt(s, p).value.lines| ==> NoBreakIn(s, RecordAt(s, p).value.lines[i])
  {
    var head := NameCrdAt(s, p).value;
    TailFromOneLine(s, LineLabels, head.close + 1);
  }

  /** What the scanner reports is a match of the record pattern at `p`, and
      its case digits run to the end of the digit run. */
  lemma RecordAtSound(s: string, p: nat)
    requires RecordAt(s, p).Some?
    ensures IsRecordMatch(s, RecordAt(s, p).value)
    ensures RecordAt(s, p).value.head.start == p && p < RecordAt(s, p).value.caseNo.end
    ensures var e := RecordAt(s, p).value.caseNo.end; e < |s| ==> !IsDigit(s[e])
  {
    var head := NameCrdAt(s, p).value;
    var (lines, caseNo) := TailFrom(s, LineLabels, head.close + 1).value;
    RecordAtOf(s, p, head, lines, caseNo);
    NameCrdAtSound(s, p);
    TailFromSound(s, LineLabels, head.close + 1);
    TailBounds(s, LineLabels, head.close + 1, lines, caseNo);
  }

  /** `RecordAt` put together from what its pieces report. */
  lemma RecordAtOf(s: string, p: nat, head: NameCrd, lines: seq<Span>, caseNo: Span)
    requires NameCrdAt(s, p) == Some(head)
    requires TailFrom(s, LineLabels, head.close + 1) == Some((lines, caseNo))
    ensures RecordAt(s, p) == Some(RecordMatch(head, lines, caseNo))
  {
  }

  /** Whenever the record pattern can match at a position, the scanner finds
      a match there, and it is the one the engine prefers. */
  lemma RecordAtComplete(s: string, m: RecordMatch)
    requires IsRecordMatch(s, m)
    ensures RecordAt(s, m.head.start).Some?
    ensures Preferred(RecordAt(s, m.head.start).value, m)
  {
    NameCrdAtComplete(s, m.head);
    NameCrdAtSound(s, m.head.start);
    var head := NameCrdAt(s, m.head.start).value;
    TailFromComplete(s, LineLabels, head.close + 1, m.head.close + 1, m.lines, m.caseNo);
    var (lines, caseNo) := TailFrom(s, LineLabels, head.close + 1).value;
    RecordAtOf(s, m.head.start, head, lines, caseNo);
  }

  /** What the record pattern gives at each position of the text. */
  function MatchTable(s: string): seq<Option<RecordMatch>>
  {
    seq(|s|, (p: int) requires 0 <= p => RecordAt(s, p))
  }

  /** A table of the matches at each position, where a match reported at a
      position starts there and ends after it. */
  predicate Advances(t: seq<Option<RecordMatch>>) {
    forall p :: 0 <= p < |t| && t[p].Some? ==> t[p].value.head.start == p < t[p].value.caseNo.end
  }

  lemma MatchTableAdvances(s: string)
    ensures |MatchTable(s)| == |s| && Advances(MatchTable(s))
  {
    forall p | 0 <= p < |s| && MatchTable(s)[p].Some?
      ensures MatchTable(s)[p].value.head.start == p < MatchTable(s)[p].value.caseNo.end
    {
      RecordAtSound(s, p);
    }
  }

  /** The scan of `findall` over a table of matches: from `from` on, take
      the match at the current position and resume where it ends, or move
      one position on when there is none. */
  function ScanAll(t: seq<Option<RecordMatch>>, from: nat): seq<RecordMatch>
    requires Advances(t)
    decreases |t| - from
  {
    if from >= |t| then []
    else match t[from]
      case Some(m) => [m] + ScanAll(t, m.caseNo.end)
      case None => ScanAll(t, from + 1)
  }

  /** The scan reports entries of the table at no earlier positions, each
      starting where the previous one ended or later. */
  lemma {:induction false} ScanAllSound(t: seq<Option<RecordMatch>>, from: nat)
    requires Advances(t)
    ensures forall i :: 0 <= i < |ScanAll(t, from)| ==>
              && from <= ScanAll(t, from)[i].head.start < |t|
              && t[ScanAll(t, from)[i].head.start] == Some(ScanAll(t, from)[i])
    ensures forall i :: 0 < i < |ScanAll(t, from)| ==>
              ScanAll(t, from)[i - 1].caseNo.end <= ScanAll(t, from)[i].head.start
    decreases |t| - from
  {
    if from < |t| {
      match t[from]
      case Some(m) =>
        ScanAllSound(t, m.caseNo.end);
      case None =>
        ScanAllSound(t, from + 1);
    }
  }

  /** Every table entry at or after `from` lies within a reported match. */
  lemma {:induction false} ScanAllCovering(t: seq<Option<RecordMatch>>, from: nat, p: nat) returns (i: nat)
    requires Advances(t) && from <= p < |t| && t[p].Some?
    ensures i < |ScanAll(t, from)|
    ensures ScanAll(t, from)[i].head.start <= p < ScanAll(t, from)[i].caseNo.end
    decreases |t| - from
  {
    match t[from]
    case Some(m) =>
      if p < m.caseNo.end {
        i := 0;
      } else {
        var j := ScanAllCovering(t, m.caseNo.end, p);
        i := j + 1;
        assert ScanAll(t, from)[i] == ScanAll(t, m.caseNo.end)[j];
      }
    case None =>
      i := ScanAllCovering(t, from + 1, p);
  }

  /** `re.findall` from `from`: the matches found left to right, each search
      resuming where the previous match ended. */
  function FindAll(s: string, from: nat): seq<RecordMatch>
  {
    MatchTableAdvances(s);
    ScanAll(MatchTable(s), from)
  }

  /** Every reported match is genuine and is the engine's choice at its
      start, and the matches do not overlap and come in text order. */
  lemma FindAllSound(s: string, from: nat)
    ensures forall i :: 0 <= i < |FindAll(s, from)| ==>
              && IsRecordMatch(s, FindAll(s, from)[i])
              && from <= FindAll(s, from)[i].head.start
              && RecordAt(s, FindAll(s, from)[i].head.start) == Some(FindAll(s, from)[i])
    ensures forall i :: 0 < i < |FindAll(s, from)| ==>
              FindAll(s, from)[i - 1].caseNo.end <= FindAll(s, from)[i].head.start
  {
    MatchTableAdvances(s);
    var r := FindAll(s, from);
    ScanAllSound(MatchTable(s), from);
    forall i | 0 <= i < |r|
      ensures IsRecordMatch(s, r[i]) && RecordAt(s, r[i].head.start) == Some(r[i])
    {
      RecordAtSound(s, r[i].head.start);
    }
  }

  /** Every position at which the pattern could start a match lies within a
      reported match, so `findall` skips no record. */
  lemma FindAllComplete(s: string, from: nat, m: RecordMatch)
    requires IsRecordMatch(s, m) && from <= m.head.start
    ensures exists i :: 0 <= i < |FindAll(s, from)| &&
              FindAll(s, from)[i].head.start <= m.head.start < FindAll(s, from)[i].caseNo.end
  {
    TailBounds(s, LineLabels, m.head.close + 1, m.lines, m.caseNo);
    RecordAtComplete(s, m);
    MatchTableAdvances(s);
    var t := MatchTable(s);
    assert t[m.head.start] == RecordAt(s, m.head.start);
    var i := ScanAllCovering(t, from, m.head.start);
    assert FindAll(s, from) == ScanAll(t, from);
  }
}
