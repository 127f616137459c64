/** The reconciliation: the outer merge of the two record tables on CRD,
    the seven per-field match flags, the status of each merged row and the
    removal of the rows that match. */
module Reconciler {
  import opened Wrappers
  import opened Text
  import opened Patterns
  import opened PdfExtractor
  import opened SpreadsheetExtractor

  // ---------------------------------------------------------------------
  // Order of the merge keys
  // ---------------------------------------------------------------------

  /** Lexicographic order of strings by code point, the order in which an
      outer merge lists its text keys. */
  predicate StrLess(a: string, b: string)
    decreases |a|
  {
    if |a| == 0 then |b| > 0
    else if |b| == 0 then false
    else if a[0] != b[0] then a[0] < b[0]
    else StrLess(a[1..], b[1..])
  }

  /** `StrLess` is a strict total order. */
  lemma {:induction false} StrLessIrreflexive(a: string)
    ensures !StrLess(a, a)
    decreases |a|
  {
    if |a| > 0 { StrLessIrreflexive(a[1..]); }
  }

  lemma {:induction false} StrLessTransitive(a: string, b: string, c: string)
    requires StrLess(a, b) && StrLess(b, c)
    ensures StrLess(a, c)
    decreases |a|
  {
    if |a| > 0 && a[0] == b[0] && b[0] == c[0] {
      StrLessTransitive(a[1..], b[1..], c[1..]);
    }
  }

  lemma {:induction false} StrLessTotal(a: string, b: string)
    requires a != b
    ensures StrLess(a, b) != StrLess(b, a)
    decreases |a|
  {
    if |a| > 0 && |b| > 0 && a[0] == b[0] {
      assert a == [a[0]] + a[1..] && b == [b[0]] + b[1..];
      StrLessTotal(a[1..], b[1..]);
    }
  }

  predicate StrictlySorted(ks: seq<string>) {
    forall i, j :: 0 <= i < j < |ks| ==> StrLess(ks[i], ks[j])
  }

  /** Adds one key to a sorted key list, once. */
  function InsertKey(k: string, ks: seq<string>): seq<string>
  {
    if |ks| == 0 then [k]
    else if k == ks[0] then ks
    else if StrLess(k, ks[0]) then [k] + ks
    else [ks[0]] + InsertKey(k, ks[1..])
  }

  lemma {:induction false} InsertKeySpec(k: string, ks: seq<string>)
    requires StrictlySorted(ks)
    ensures StrictlySorted(InsertKey(k, ks))
    ensures forall x :: x in InsertKey(k, ks) <==> x == k || x in ks
  {
    if |ks| > 0 && k != ks[0] {
      if StrLess(k, ks[0]) {
        var r := [k] + ks;
        forall i, j | 0 <= i < j < |r| ensures StrLess(r[i], r[j]) {
          if i == 0 && j > 1 { StrLessTransitive(k, ks[0], ks[j - 1]); }
        }
      } else {
        StrLessTotal(k, ks[0]);
        InsertKeySpec(k, ks[1..]);
        var t := InsertKey(k, ks[1..]);
        var r := [ks[0]] + t;
        forall i, j | 0 <= i < j < |r| ensures StrLess(r[i], r[j]) {
          if i == 0 {
            assert r[j] == t[j - 1];
            assert r[j] in t;
          }
        }
        assert ks == [ks[0]] + ks[1..];
      }
    }
  }

  /** The distinct keys of `keys` in increasing order. */
  function SortedKeys(keys: seq<string>): seq<string>
  {
    if |keys| == 0 then [] else InsertKey(keys[|keys| - 1], SortedKeys(keys[..|keys| - 1]))
  }

  lemma {:induction false} SortedKeysSpec(keys: seq<string>)
    ensures StrictlySorted(SortedKeys(keys))
    ensures forall x :: x in SortedKeys(keys) <==> x in keys
  {
    if |keys| > 0 {
      var init := keys[..|keys| - 1];
      SortedKeysSpec(init);
      InsertKeySpec(keys[|keys| - 1], SortedKeys(init));
      assert keys == init + [keys[|keys| - 1]];
    }
  }

  /** A strictly sorted list is fixed by its elements: the key order of the
      merge does not depend on how the keys were collected. */
  lemma {:induction false} SortedUnique(a: seq<string>, b: seq<string>)
    requires StrictlySorted(a) && StrictlySorted(b)
    requires forall x :: x in a <==> x in b
    ensures a == b
    decreases |a|
  {
    if |a| > 0 { assert a[0] in b; }
    if |b| > 0 { assert b[0] in a; }
    if |a| > 0 && |b| > 0 {
      if a[0] != b[0] {
        var i :| 0 <= i < |b| && b[i] == a[0];
        var j :| 0 <= j < |a| && a[j] == b[0];
        StrLessTransitive(a[0], a[j], b[i]);
        StrLessIrreflexive(a[0]);
      }
      forall x ensures x in a[1..] <==> x in b[1..] {
        if x in a[1..] {
          var i :| 0 <= i < |a[1..]| && a[1..][i] == x;
          assert StrLess(a[0], a[i + 1]);
          StrLessIrreflexive(x);
          assert x in a && x in b;
          var j :| 0 <= j < |b| && b[j] == x;
          assert j != 0;
          assert b[1..][j - 1] == x;
        }
        if x in b[1..] {
          var i :| 0 <= i < |b[1..]| && b[1..][i] == x;
          assert StrLess(b[0], b[i + 1]);
          StrLessIrreflexive(x);
          assert x in b && x in a;
          var j :| 0 <= j < |a| && a[j] == x;
          assert j != 0;
          assert a[1..][j - 1] == x;
        }
      }
      SortedUnique(a[1..], b[1..]);
      assert a == [a[0]] + a[1..] && b == [b[0]] + b[1..];
    }
  }

  /** The join's key list is the one strictly sorted listing of the CRDs
      of either side. */
  lemma SortedKeysUnique(keys: seq<string>, ks: seq<string>)
    requires StrictlySorted(ks) && forall x :: x in ks <==> x in keys
    ensures ks == SortedKeys(keys)
  {
    SortedKeysSpec(keys);
    SortedUnique(ks, SortedKeys(keys));
  }

  /** The key order does not depend on the order in which the CRDs were
      collected, nor on repetitions. */
  lemma SortedKeysSameMembers(a: seq<string>, b: seq<string>)
    requires forall x :: x in a <==> x in b
    ensures SortedKeys(a) == SortedKeys(b)
  {
    SortedKeysSpec(a);
    SortedKeysUnique(b, SortedKeys(a));
  }

  // ---------------------------------------------------------------------
  // The outer merge on CRD
  // ---------------------------------------------------------------------

  /** One row of the merged table: its CRD and the record from each side,
      absent where the other side has a CRD this side lacks. */
  datatype MergedRow = MergedRow(crd: string, pdf: Option<PdfRecord>, excel: Option<ExcelRecord>)

  function PdfCrds(ps: seq<PdfRecord>): seq<string> {
    seq(|ps|, (i: int) requires 0 <= i < |ps| => ps[i].crd)
  }

  function ExcelCrds(es: seq<ExcelRecord>): seq<string> {
    seq(|es|, (i: int) requires 0 <= i < |es| => es[i].crd)
  }

  /** The records of one side with CRD `k`, in their order. */
  function PdfWith(k: string, ps: seq<PdfRecord>): seq<PdfRecord> {
    if |ps| == 0 then []
    else PdfWith(k, ps[..|ps| - 1]) + (if ps[|ps| - 1].crd == k then [ps[|ps| - 1]] else [])
  }

  function ExcelWith(k: string, es: seq<ExcelRecord>): seq<ExcelRecord> {
    if |es| == 0 then []
    else ExcelWith(k, es[..|es| - 1]) + (if es[|es| - 1].crd == k then [es[|es| - 1]] else [])
  }

  lemma {:induction false} PdfWithSpec(k: string, ps: seq<PdfRecord>)
    ensures forall p :: p in PdfWith(k, ps) <==> p in ps && p.crd == k
  {
    if |ps| > 0 {
      PdfWithSpec(k, ps[..|ps| - 1]);
      assert ps == ps[..|ps| - 1] + [ps[|ps| - 1]];
    }
  }

  lemma {:induction false} ExcelWithSpec(k: string, es: seq<ExcelRecord>)
    ensures forall e :: e in ExcelWith(k, es) <==> e in es && e.crd == k
  {
    if |es| > 0 {
      ExcelWithSpec(k, es[..|es| - 1]);
      assert es == es[..|es| - 1] + [es[|es| - 1]];
    }
  }

  /** A side has no record of CRD `k` exactly when none of its records
      carries that CRD. */
  lemma PdfWithEmpty(k: string, ps: seq<PdfRecord>)
    ensures PdfWith(k, ps) == [] <==> forall p :: p in ps ==> p.crd != k
  {
    PdfWithSpec(k, ps);
    if PdfWith(k, ps) != [] {
      assert PdfWith(k, ps)[0] in PdfWith(k, ps);
    }
  }

  lemma ExcelWithEmpty(k: string, es: seq<ExcelRecord>)
    ensures ExcelWith(k, es) == [] <==> forall e :: e in es ==> e.crd != k
  {
    ExcelWithSpec(k, es);
    if ExcelWith(k, es) != [] {
      assert ExcelWith(k, es)[0] in ExcelWith(k, es);
    }
  }

  /** The positions in the PDF table of the records with CRD `k`. */
  function PdfPositions(k: string, ps: seq<PdfRecord>): seq<nat> {
    if |ps| == 0 then []
    else PdfPositions(k, ps[..|ps| - 1]) + (if ps[|ps| - 1].crd == k then [|ps| - 1] else [])
  }

  lemma {:induction false} PdfPositionsAt(k: string, ps: seq<PdfRecord>)
    ensures |PdfPositions(k, ps)| == |PdfWith(k, ps)|
    ensures forall i :: 0 <= i < |PdfPositions(k, ps)| ==>
              PdfPositions(k, ps)[i] < |ps| && PdfWith(k, ps)[i] == ps[PdfPositions(k, ps)[i]]
  {
    if |ps| > 0 {
      var init := ps[..|ps| - 1];
      PdfPositionsAt(k, init);
      assert forall j :: 0 <= j < |init| ==> init[j] == ps[j];
    }
  }

  lemma {:induction false} PdfPositionsIncreasing(k: string, ps: seq<PdfRecord>)
    ensures forall i :: 0 <= i < |PdfPositions(k, ps)| ==> PdfPositions(k, ps)[i] < |ps|
    ensures forall i, j :: 0 <= i < j < |PdfPositions(k, ps)| ==> PdfPositions(k, ps)[i] < PdfPositions(k, ps)[j]
  {
    if |ps| > 0 {
      PdfPositionsIncreasing(k, ps[..|ps| - 1]);
    }
  }

  lemma {:induction false} PdfPositionsCover(k: string, ps: seq<PdfRecord>)
    ensures forall j :: 0 <= j < |ps| && ps[j].crd == k ==> j in PdfPositions(k, ps)
  {
    if |ps| > 0 {
      var init := ps[..|ps| - 1];
      PdfPositionsCover(k, init);
      assert forall j :: 0 <= j < |init| ==> init[j] == ps[j];
    }
  }

  /** The PDF records of a key keep their order in the PDF table: they are
      the records at a strictly increasing sequence of indices that holds
      every index of a record with that CRD. */
  lemma PdfWithOrder(k: string, ps: seq<PdfRecord>) returns (idx: seq<nat>)
    ensures |idx| == |PdfWith(k, ps)|
    ensures forall i :: 0 <= i < |idx| ==> idx[i] < |ps| && PdfWith(k, ps)[i] == ps[idx[i]]
    ensures forall i, j :: 0 <= i < j < |idx| ==> idx[i] < idx[j]
    ensures forall j :: 0 <= j < |ps| && ps[j].crd == k ==> j in idx
  {
    idx := PdfPositions(k, ps);
    PdfPositionsAt(k, ps);
    PdfPositionsIncreasing(k, ps);
    PdfPositionsCover(k, ps);
  }

  /** The positions in the Excel table of the records with CRD `k`. */
  function ExcelPositions(k: string, es: seq<ExcelRecord>): seq<nat> {
    if |es| == 0 then []
    else ExcelPositions(k, es[..|es| - 1]) + (if es[|es| - 1].crd == k then [|es| - 1] else [])
  }

  lemma {:induction false} ExcelPositionsAt(k: string, es: seq<ExcelRecord>)
    ensures |ExcelPositions(k, es)| == |ExcelWith(k, es)|
    ensures forall i :: 0 <= i < |ExcelPositions(k, es)| ==>
              ExcelPositions(k, es)[i] < |es| && ExcelWith(k, es)[i] == es[ExcelPositions(k, es)[i]]
  {
    if |es| > 0 {
      var init := es[..|es| - 1];
      ExcelPositionsAt(k, init);
      assert forall j :: 0 <= j < |init| ==> init[j] == es[j];
    }
  }

  lemma {:induction false} ExcelPositionsIncreasing(k: string, es: seq<ExcelRecord>)
    ensures forall i :: 0 <= i < |ExcelPositions(k, es)| ==> ExcelPositions(k, es)[i] < |es|
    ensures forall i, j :: 0 <= i < j < |ExcelPositions(k, es)| ==> ExcelPositions(k, es)[i] < ExcelPositions(k, es)[j]
  {
    if |es| > 0 {
      ExcelPositionsIncreasing(k, es[..|es| - 1]);
    }
  }

  lemma {:induction false} ExcelPositionsCover(k: string, es: seq<ExcelRecord>)
    ensures forall j :: 0 <= j < |es| && es[j].crd == k ==> j in ExcelPositions(k, es)
  {
    if |es| > 0 {
      var init := es[..|es| - 1];
      ExcelPositionsCover(k, init);
      assert forall j :: 0 <= j < |init| ==> init[j] == es[j];
    }
  }

  /** The Excel records of a key keep their order in the Excel table. */
  lemma ExcelWithOrder(k: string, es: seq<ExcelRecord>) returns (idx: seq<nat>)
    ensures |idx| == |ExcelWith(k, es)|
    ensures forall i :: 0 <= i < |idx| ==> idx[i] < |es| && ExcelWith(k, es)[i] == es[idx[i]]
    ensures forall i, j :: 0 <= i < j < |idx| ==> idx[i] < idx[j]
    ensures forall j :: 0 <= j < |es| && es[j].crd == k ==> j in idx
  {
    idx := ExcelPositions(k, es);
    ExcelPositionsAt(k, es);
    ExcelPositionsIncreasing(k, es);
    ExcelPositionsCover(k, es);
  }

  /** Each record of a key is kept as often as it occurs. */
  lemma {:induction false} PdfWithCount(k: string, ps: seq<PdfRecord>)
    ensures forall p :: multiset(PdfWith(k, ps))[p] == if p.crd == k then multiset(ps)[p] else 0
  {
    if |ps| > 0 {
      PdfWithCount(k, ps[..|ps| - 1]);
      assert ps == ps[..|ps| - 1] + [ps[|ps| - 1]];
    }
  }

  lemma {:induction false} ExcelWithCount(k: string, es: seq<ExcelRecord>)
    ensures forall e :: multiset(ExcelWith(k, es))[e] == if e.crd == k then multiset(es)[e] else 0
  {
    if |es| > 0 {
      ExcelWithCount(k, es[..|es| - 1]);
      assert es == es[..|es| - 1] + [es[|es| - 1]];
    }
  }

  /** The records of one side whose CRD the other side lacks, each alone
      in its row. */
  function PdfAlone(k: string, l: seq<PdfRecord>): seq<MergedRow>
  {
    if |l| == 0 then [] else [MergedRow(k, Some(l[0]), None)] + PdfAlone(k, l[1..])
  }

  function ExcelAlone(k: string, r: seq<ExcelRecord>): seq<MergedRow>
  {
    if |r| == 0 then [] else [MergedRow(k, None, Some(r[0]))] + ExcelAlone(k, r[1..])
  }

  /** Every PDF record with every Excel record, PDF-major. */
  function Cross(k: string, l: seq<PdfRecord>, r: seq<ExcelRecord>): seq<MergedRow>
  {
    if |l| == 0 then [] else Pairs(k, l[0], r) + Cross(k, l[1..], r)
  }

  function Pairs(k: string, p: PdfRecord, r: seq<ExcelRecord>): seq<MergedRow>
  {
    if |r| == 0 then [] else [MergedRow(k, Some(p), Some(r[0]))] + Pairs(k, p, r[1..])
  }

  lemma {:induction false} PdfAloneMembers(k: string, l: seq<PdfRecord>)
    ensures forall row :: row in PdfAlone(k, l) <==> row.crd == k && row.pdf.Some? && row.pdf.value in l && row.excel.None?
  {
    if |l| > 0 {
      PdfAloneMembers(k, l[1..]);
      assert l == [l[0]] + l[1..];
    }
  }

  lemma {:induction false} ExcelAloneMembers(k: string, r: seq<ExcelRecord>)
    ensures forall row :: row in ExcelAlone(k, r) <==> row.crd == k && row.pdf.None? && row.excel.Some? && row.excel.value in r
  {
    if |r| > 0 {
      ExcelAloneMembers(k, r[1..]);
      assert r == [r[0]] + r[1..];
    }
  }

  lemma {:induction false} PairsMembers(k: string, p: PdfRecord, r: seq<ExcelRecord>)
    ensures forall row :: row in Pairs(k, p, r) <==> row.crd == k && row.pdf == Some(p) && row.excel.Some? && row.excel.value in r
  {
    if |r| > 0 {
      PairsMembers(k, p, r[1..]);
      assert r == [r[0]] + r[1..];
    }
  }

  lemma {:induction false} CrossMembers(k: string, l: seq<PdfRecord>, r: seq<ExcelRecord>)
    ensures forall row :: row in Cross(k, l, r) <==>
              row.crd == k && row.pdf.Some? && row.excel.Some? && row.pdf.value in l && row.excel.value in r
  {
    if |l| > 0 {
      CrossMembers(k, l[1..], r);
      PairsMembers(k, l[0], r);
      assert l == [l[0]] + l[1..];
    }
  }

  /** With `n` records on one side and `m` on the other, a CRD gets `n * m`
      rows. */
  lemma {:induction false} CrossSize(k: string, l: seq<PdfRecord>, r: seq<ExcelRecord>)
    ensures |Cross(k, l, r)| == |l| * |r|
  {
    if |l| > 0 {
      CrossSize(k, l[1..], r);
      PairsSize(k, l[0], r);
      assert |l| * |r| == |r| + (|l| - 1) * |r|;
    }
  }

  lemma {:induction false} PairsSize(k: string, p: PdfRecord, r: seq<ExcelRecord>)
    ensures |Pairs(k, p, r)| == |r|
  {
    if |r| > 0 { PairsSize(k, p, r[1..]); }
  }

  /** The merged rows of one key: the cross product of the two sides'
      records with that CRD, or each one-sided record alone. */
  function RowsForKey(k: string, ps: seq<PdfRecord>, es: seq<ExcelRecord>): seq<MergedRow>
  {
    var l := PdfWith(k, ps);
    var r := ExcelWith(k, es);
    if |r| == 0 then PdfAlone(k, l)
    else if |l| == 0 then ExcelAlone(k, r)
    else Cross(k, l, r)
  }

  function MergeKeys(ks: seq<string>, ps: seq<PdfRecord>, es: seq<ExcelRecord>): seq<MergedRow>
  {
    if |ks| == 0 then [] else RowsForKey(ks[0], ps, es) + MergeKeys(ks[1..], ps, es)
  }

  /** `pd.merge(pdf_df, excel_df, on="CRD", how="outer")`: the keys of both
      sides in increasing order, each with its rows. */
  function Merge(ps: seq<PdfRecord>, es: seq<ExcelRecord>): seq<MergedRow>
  {
    MergeKeys(SortedKeys(PdfCrds(ps) + ExcelCrds(es)), ps, es)
  }

  /** A row the outer merge of `ps` and `es` must hold: a pairing of two
      records with its CRD, or a record with its CRD whose CRD the other
      side lacks. */
  predicate Belongs(row: MergedRow, ps: seq<PdfRecord>, es: seq<ExcelRecord>) {
    match row
    case MergedRow(k, Some(p), Some(e)) => p in ps && e in es && p.crd == k && e.crd == k
    case MergedRow(k, Some(p), None) => p in ps && p.crd == k && forall e :: e in es ==> e.crd != k
    case MergedRow(k, None, Some(e)) => e in es && e.crd == k && forall p :: p in ps ==> p.crd != k
    case MergedRow(_, None, None) => false
  }

  /** The rows one key contributes are the rows of that key that belong. */
  lemma RowsForKeyMembers(k: string, ps: seq<PdfRecord>, es: seq<ExcelRecord>)
    ensures forall row :: row in RowsForKey(k, ps, es) <==> row.crd == k && Belongs(row, ps, es)
  {
    var l := PdfWith(k, ps);
    var r := ExcelWith(k, es);
    PdfWithSpec(k, ps);
    ExcelWithSpec(k, es);
    if |r| == 0 {
      PdfAloneMembers(k, l);
      assert forall e :: e in es ==> e.crd != k;
    } else if |l| == 0 {
      ExcelAloneMembers(k, r);
      assert forall p :: p in ps ==> p.crd != k;
    } else {
      CrossMembers(k, l, r);
      assert r[0] in es && r[0].crd == k;
      assert l[0] in ps && l[0].crd == k;
    }
  }

  lemma {:induction false} MergeKeysMembers(ks: seq<string>, ps: seq<PdfRecord>, es: seq<ExcelRecord>)
    ensures forall row :: row in MergeKeys(ks, ps, es) <==> row.crd in ks && Belongs(row, ps, es)
  {
    if |ks| > 0 {
      MergeKeysMembers(ks[1..], ps, es);
      RowsForKeyMembers(ks[0], ps, es);
      assert ks == [ks[0]] + ks[1..];
    }
  }

  /** A record's CRD is among the merge keys. */
  lemma BelongsKey(row: MergedRow, ps: seq<PdfRecord>, es: seq<ExcelRecord>)
    requires Belongs(row, ps, es)
    ensures row.crd in PdfCrds(ps) + ExcelCrds(es)
  {
    var keys := PdfCrds(ps) + ExcelCrds(es);
    if row.pdf.Some? {
      var i :| 0 <= i < |ps| && ps[i] == row.pdf.value;
      assert keys[i] == row.crd;
    } else {
      var j :| 0 <= j < |es| && es[j] == row.excel.value;
      assert keys[|ps| + j] == row.crd;
    }
  }

  /** The merged rows are exactly those that belong: every pairing of a PDF
      and an Excel record with the same CRD, and every record whose CRD the
      other side lacks, alone. */
  lemma MergeMembers(ps: seq<PdfRecord>, es: seq<ExcelRecord>)
    ensures forall row :: row in Merge(ps, es) <==> Belongs(row, ps, es)
  {
    var keys := PdfCrds(ps) + ExcelCrds(es);
    SortedKeysSpec(keys);
    MergeKeysMembers(SortedKeys(keys), ps, es);
    forall row: MergedRow | Belongs(row, ps, es) ensures row.crd in SortedKeys(keys) {
      BelongsKey(row, ps, es);
    }
  }

  /** Rows in increasing order of CRD, rows of one CRD together. */
  predicate CrdOrdered(rows: seq<MergedRow>) {
    forall i, j :: 0 <= i < j < |rows| ==> rows[i].crd == rows[j].crd || StrLess(rows[i].crd, rows[j].crd)
  }

  lemma OrderedConcat(head: seq<MergedRow>, k: string, tail: seq<MergedRow>)
    requires forall row :: row in head ==> row.crd == k
    requires CrdOrdered(tail) && forall row :: row in tail ==> StrLess(k, row.crd)
    ensures CrdOrdered(head + tail)
  {
    var r := head + tail;
    forall i, j | 0 <= i < j < |r| ensures r[i].crd == r[j].crd || StrLess(r[i].crd, r[j].crd) {
      if j < |head| {
        assert r[i] in head && r[j] in head;
      } else if i < |head| {
        assert r[i] in head && r[j] == tail[j - |head|] && r[j] in tail;
      } else {
        assert r[i] == tail[i - |head|] && r[j] == tail[j - |head|];
      }
    }
  }

  lemma {:induction false} MergeKeysOrdered(ks: seq<string>, ps: seq<PdfRecord>, es: seq<ExcelRecord>)
    requires StrictlySorted(ks)
    ensures CrdOrdered(MergeKeys(ks, ps, es))
  {
    if |ks| > 0 {
      MergeKeysOrdered(ks[1..], ps, es);
      RowsForKeyMembers(ks[0], ps, es);
      MergeKeysMembers(ks[1..], ps, es);
      forall row: MergedRow | row in MergeKeys(ks[1..], ps, es) ensures StrLess(ks[0], row.crd) {
        var i :| 0 <= i < |ks[1..]| && ks[1..][i] == row.crd;
        assert ks[i + 1] == row.crd;
      }
      OrderedConcat(RowsForKey(ks[0], ps, es), ks[0], MergeKeys(ks[1..], ps, es));
    }
  }

  /** The merged rows come in increasing order of CRD, the rows of one CRD
      together; each CRD of either side appears. */
  lemma MergeOrdered(ps: seq<PdfRecord>, es: seq<ExcelRecord>)
    ensures CrdOrdered(Merge(ps, es))
  {
    SortedKeysSpec(PdfCrds(ps) + ExcelCrds(es));
    MergeKeysOrdered(SortedKeys(PdfCrds(ps) + ExcelCrds(es)), ps, es);
  }

  /** How many times the outer merge of `ps` and `es` holds `row`: a
      pairing once for every occurrence of its PDF record times every
      occurrence of its Excel record, and a record whose CRD the other side
      lacks once for every occurrence of it. */
  function RowCount(row: MergedRow, ps: seq<PdfRecord>, es: seq<ExcelRecord>): nat {
    match row
    case MergedRow(k, Some(p), Some(e)) =>
      if p.crd == k && e.crd == k then multiset(ps)[p] * multiset(es)[e] else 0
    case MergedRow(k, Some(p), None) =>
      if p.crd == k && (forall e :: e in es ==> e.crd != k) then multiset(ps)[p] else 0
    case MergedRow(k, None, Some(e)) =>
      if e.crd == k && (forall p :: p in ps ==> p.crd != k) then multiset(es)[e] else 0
    case MergedRow(_, None, None) => 0
  }

  lemma MulPositive(x: nat, y: nat)
    ensures x * y > 0 <==> x > 0 && y > 0
  {
    if x > 0 && y > 0 {
      assert x * y >= y;
    }
  }

  /** A row occurs in the merge exactly when it belongs there. */
  lemma RowCountBelongs(row: MergedRow, ps: seq<PdfRecord>, es: seq<ExcelRecord>)
    ensures RowCount(row, ps, es) > 0 <==> Belongs(row, ps, es)
  {
    if row.pdf.Some? && row.excel.Some? {
      MulPositive(multiset(ps)[row.pdf.value], multiset(es)[row.excel.value]);
    }
  }

  lemma {:induction false} PdfAloneCount(k: string, l: seq<PdfRecord>)
    ensures forall row: MergedRow :: multiset(PdfAlone(k, l))[row] ==
              if row.crd == k && row.pdf.Some? && row.excel.None? then multiset(l)[row.pdf.value] else 0
  {
    if |l| > 0 {
      PdfAloneCount(k, l[1..]);
      assert l == [l[0]] + l[1..];
    }
  }

  lemma {:induction false} ExcelAloneCount(k: string, r: seq<ExcelRecord>)
    ensures forall row: MergedRow :: multiset(ExcelAlone(k, r))[row] ==
              if row.crd == k && row.pdf.None? && row.excel.Some? then multiset(r)[row.excel.value] else 0
  {
    if |r| > 0 {
      ExcelAloneCount(k, r[1..]);
      assert r == [r[0]] + r[1..];
    }
  }

  lemma {:induction false} PairsCount(k: string, p: PdfRecord, r: seq<ExcelRecord>)
    ensures forall row: MergedRow :: multiset(Pairs(k, p, r))[row] ==
              if row.crd == k && row.pdf == Some(p) && row.excel.Some? then multiset(r)[row.excel.value] else 0
  {
    if |r| > 0 {
      PairsCount(k, p, r[1..]);
      assert r == [r[0]] + r[1..];
    }
  }

  lemma CountStep(x: nat, b: nat, c: nat, m: nat, same: bool)
    requires m == if same then b + 1 else b
    requires x == if same then c else 0
    ensures x + b * c == m * c
  {
  }

  lemma HeadCount(l: seq<PdfRecord>, p: PdfRecord)
    requires |l| > 0
    ensures multiset(l)[p] == if l[0] == p then multiset(l[1..])[p] + 1 else multiset(l[1..])[p]
  {
    assert l == [l[0]] + l[1..];
  }

  lemma PairsRowCount(k: string, q: PdfRecord, r: seq<ExcelRecord>, p: PdfRecord, e: ExcelRecord)
    ensures multiset(Pairs(k, q, r))[MergedRow(k, Some(p), Some(e))] == if q == p then multiset(r)[e] else 0
  {
    PairsCount(k, q, r);
  }

  lemma CrossSplitCount(k: string, l: seq<PdfRecord>, r: seq<ExcelRecord>, row: MergedRow)
    requires |l| > 0
    ensures multiset(Cross(k, l, r))[row] == multiset(Pairs(k, l[0], r))[row] + multiset(Cross(k, l[1..], r))[row]
  {
  }

  /** The cross product holds each pairing as often as its PDF record
      occurs times as often as its Excel record occurs. */
  lemma {:induction false} CrossCount(k: string, l: seq<PdfRecord>, r: seq<ExcelRecord>, p: PdfRecord, e: ExcelRecord)
    ensures multiset(Cross(k, l, r))[MergedRow(k, Some(p), Some(e))] == multiset(l)[p] * multiset(r)[e]
  {
    if |l| > 0 {
      var row := MergedRow(k, Some(p), Some(e));
      CrossCount(k, l[1..], r, p, e);
      PairsRowCount(k, l[0], r, p, e);
      HeadCount(l, p);
      CrossSplitCount(k, l, r, row);
      CountStep(multiset(Pairs(k, l[0], r))[row], multiset(l[1..])[p], multiset(r)[e], multiset(l)[p], l[0] == p);
    }
  }

  lemma PairRowCount(k: string, ps: seq<PdfRecord>, es: seq<ExcelRecord>, p: PdfRecord, e: ExcelRecord)
    requires p in ps && e in es && p.crd == k && e.crd == k
    ensures multiset(RowsForKey(k, ps, es))[MergedRow(k, Some(p), Some(e))] == multiset(ps)[p] * multiset(es)[e]
  {
    PdfWithEmpty(k, ps);
    ExcelWithEmpty(k, es);
    PdfWithCount(k, ps);
    ExcelWithCount(k, es);
    assert multiset(PdfWith(k, ps))[p] == multiset(ps)[p];
    assert multiset(ExcelWith(k, es))[e] == multiset(es)[e];
    CrossCount(k, PdfWith(k, ps), ExcelWith(k, es), p, e);
  }

  lemma PdfOnlyRowCount(k: string, ps: seq<PdfRecord>, es: seq<ExcelRecord>, p: PdfRecord)
    requires p.crd == k && forall e :: e in es ==> e.crd != k
    ensures multiset(RowsForKey(k, ps, es))[MergedRow(k, Some(p), None)] == multiset(ps)[p]
  {
    ExcelWithEmpty(k, es);
    PdfWithCount(k, ps);
    PdfAloneCount(k, PdfWith(k, ps));
  }

  lemma ExcelOnlyRowCount(k: string, ps: seq<PdfRecord>, es: seq<ExcelRecord>, e: ExcelRecord)
    requires e in es && e.crd == k && forall p :: p in ps ==> p.crd != k
    ensures multiset(RowsForKey(k, ps, es))[MergedRow(k, None, Some(e))] == multiset(es)[e]
  {
    PdfWithEmpty(k, ps);
    ExcelWithEmpty(k, es);
    ExcelWithCount(k, es);
    ExcelAloneCount(k, ExcelWith(k, es));
  }

  /** How often one key's rows hold a given row. */
  lemma RowsForKeyCountAt(k: string, ps: seq<PdfRecord>, es: seq<ExcelRecord>, row: MergedRow)
    ensures multiset(RowsForKey(k, ps, es))[row] == if row.crd == k then RowCount(row, ps, es) else 0
  {
    RowCountBelongs(row, ps, es);
    if row.crd != k || !Belongs(row, ps, es) {
      RowsForKeyMembers(k, ps, es);
    } else {
      match row
      case MergedRow(_, Some(p), Some(e)) => PairRowCount(k, ps, es, p, e);
      case MergedRow(_, Some(p), None) => PdfOnlyRowCount(k, ps, es, p);
      case MergedRow(_, None, Some(e)) => ExcelOnlyRowCount(k, ps, es, e);
      case MergedRow(_, None, None) => assert false;
    }
  }

  /** The rows one key contributes, counted. */
  lemma RowsForKeyCount(k: string, ps: seq<PdfRecord>, es: seq<ExcelRecord>)
    ensures forall row: MergedRow :: multiset(RowsForKey(k, ps, es))[row] ==
              if row.crd == k then RowCount(row, ps, es) else 0
  {
    forall row: MergedRow
      ensures multiset(RowsForKey(k, ps, es))[row] == if row.crd == k then RowCount(row, ps, es) else 0
    {
      RowsForKeyCountAt(k, ps, es, row);
    }
  }

  lemma {:induction false} MergeKeysCount(ks: seq<string>, ps: seq<PdfRecord>, es: seq<ExcelRecord>)
    requires StrictlySorted(ks)
    ensures forall row: MergedRow :: multiset(MergeKeys(ks, ps, es))[row] ==
              if row.crd in ks then RowCount(row, ps, es) else 0
  {
    if |ks| > 0 {
      MergeKeysCount(ks[1..], ps, es);
      RowsForKeyCount(ks[0], ps, es);
      assert ks == [ks[0]] + ks[1..];
      if ks[0] in ks[1..] {
        var i :| 0 <= i < |ks[1..]| && ks[1..][i] == ks[0];
        assert StrLess(ks[0], ks[i + 1]);
        StrLessIrreflexive(ks[0]);
      }
    }
  }

  /** The outer merge holds every row exactly `RowCount` times: each
      pairing of a PDF and an Excel record with the same CRD once per
      occurrence of the one times occurrence of the other, and each record
      whose CRD the other side lacks once per occurrence. */
  lemma MergeCount(ps: seq<PdfRecord>, es: seq<ExcelRecord>)
    ensures forall row: MergedRow :: multiset(Merge(ps, es))[row] == RowCount(row, ps, es)
  {
    var keys := PdfCrds(ps) + ExcelCrds(es);
    SortedKeysSpec(keys);
    MergeKeysCount(SortedKeys(keys), ps, es);
    forall row: MergedRow | RowCount(row, ps, es) > 0 ensures row.crd in SortedKeys(keys) {
      RowCountBelongs(row, ps, es);
      BelongsKey(row, ps, es);
    }
  }

  // ---------------------------------------------------------------------
  // Columns of the merged table
  // ---------------------------------------------------------------------

  /** A value as `row.get(column)` gives it: Python's `None` for a column
      the table lacks, NaN in the other side's columns of a one-sided row,
      or a string. */
  datatype Value = PyNone | PyNaN | PyStr(s: string)

  function CellValue(c: Cell): Value {
    match c
    case NaN => PyNaN
    case Str(t) => PyStr(t)
  }

  /** Python's `==` on these values: NaN equals nothing, itself included. */
  predicate PyEq(a: Value, b: Value) {
    match (a, b)
    case (PyNone, PyNone) => true
    case (PyStr(x), PyStr(y)) => x == y
    case _ => false
  }

  /** `pd.isna`. */
  predicate IsNaValue(v: Value) {
    v.PyNone? || v.PyNaN?
  }

  const PdfSuffix := "_PDF"
  const ExcelSuffix := "_Excel"

  /** The columns both record tables have besides CRD, which the merge
      renames with the two suffixes. The Excel table's City/State and
      Fines/Restitution columns keep their names. */
  const SharedFields: seq<string> := ["Name", "Date", "Action", "Key Findings", "Case Number", "Source"]

  /** The shared field that `column` names with `suffix`, if any. */
  function SuffixedField(fields: seq<string>, column: string, suffix: string): Option<string>
  {
    if |fields| == 0 then None
    else if column == fields[0] + suffix then Some(fields[0])
    else SuffixedField(fields[1..], column, suffix)
  }

  function PdfField(p: PdfRecord, f: string): string {
    if f == "Name" then p.name
    else if f == "Date" then p.date
    else if f == "Action" then p.action
    else if f == "Key Findings" then p.findings
    else if f == "Case Number" then p.caseNumber
    else "PDF"
  }

  function ExcelField(e: ExcelRecord, f: string): string {
    if f == "Name" then e.name
    else if f == "Date" then e.date
    else if f == "Action" then e.action
    else if f == "Key Findings" then e.findings
    else if f == "Case Number" then e.caseNumber
    else "Excel"
  }

  /** `row.get(column)` on a row of the merged table. */
  function RowGet(row: MergedRow, column: string): Value
  {
    if column == "CRD" then PyStr(row.crd)
    else if column == "City/State" then
      (if row.excel.Some? then CellValue(row.excel.value.cityState) else PyNaN)
    else if column == "Fines/Restitution" then
      (if row.excel.Some? then CellValue(row.excel.value.fines) else PyNaN)
    else match SuffixedField(SharedFields, column, PdfSuffix)
      case Some(f) => (if row.pdf.Some? then PyStr(PdfField(row.pdf.value, f)) else PyNaN)
      case None =>
        match SuffixedField(SharedFields, column, ExcelSuffix)
        case Some(f) => (if row.excel.Some? then PyStr(ExcelField(row.excel.value, f)) else PyNaN)
        case None => PyNone
  }

  // ---------------------------------------------------------------------
  // Match flags
  // ---------------------------------------------------------------------

  /** The fields compared, in the order their flag columns are added. */
  const FlagFields: seq<string> := ["Name", "Date", "Action", "Key Findings", "Case Number", "Fines/Restitution", "City/State"]

  /** The flag of one field on one row: ✅ (true) when the row's `_PDF`
      and `_Excel` values of the field compare equal. */
  predicate FieldMatch(row: MergedRow, field: string) {
    PyEq(RowGet(row, field + PdfSuffix), RowGet(row, field + ExcelSuffix))
  }

  /** The five compared fields that both sides have. */
  predicate SameFields(p: PdfRecord, e: ExcelRecord) {
    && p.name == e.name && p.date == e.date && p.action == e.action
    && p.findings == e.findings && p.caseNumber == e.caseNumber
  }

  lemma {:induction false} SuffixedFieldFinds(fields: seq<string>, f: string, suffix: string)
    requires f in fields
    ensures SuffixedField(fields, f + suffix, suffix) == Some(f)
  {
    if f + suffix == fields[0] + suffix {
      assert f == (f + suffix)[..|f|] == (fields[0] + suffix)[..|fields[0]|] == fields[0];
    } else {
      assert f != fields[0];
      SuffixedFieldFinds(fields[1..], f, suffix);
    }
  }

  /** A column ending in one suffix is not named with a suffix that ends
      in another character. */
  lemma {:induction false} SuffixedFieldMisses(fields: seq<string>, column: string, suffix: string)
    requires |column| > 0 && |suffix| > 0 && column[|column| - 1] != suffix[|suffix| - 1]
    ensures SuffixedField(fields, column, suffix) == None
  {
    if |fields| > 0 {
      assert (fields[0] + suffix)[|fields[0] + suffix| - 1] == suffix[|suffix| - 1];
      SuffixedFieldMisses(fields[1..], column, suffix);
    }
  }

  /** A shared field's two columns hold the field of each side's record,
      NaN where the row lacks that side. */
  lemma RowGetShared(row: MergedRow, f: string)
    requires f in SharedFields
    ensures RowGet(row, f + PdfSuffix) == if row.pdf.Some? then PyStr(PdfField(row.pdf.value, f)) else PyNaN
    ensures RowGet(row, f + ExcelSuffix) == if row.excel.Some? then PyStr(ExcelField(row.excel.value, f)) else PyNaN
  {
    SuffixedFieldFinds(SharedFields, f, PdfSuffix);
    SuffixedFieldFinds(SharedFields, f, ExcelSuffix);
    assert (f + ExcelSuffix)[|f + ExcelSuffix| - 1] == 'l';
    SuffixedFieldMisses(SharedFields, f + ExcelSuffix, PdfSuffix);
    assert |f + PdfSuffix| == |f| + 4 && (f + PdfSuffix)[0] == f[0];
    assert |f + ExcelSuffix| == |f| + 6 && (f + ExcelSuffix)[0] == f[0];
  }

  /** The City/State and Fines/Restitution flags look up columns the merged
      table lacks on both sides. */
  lemma RowGetUnsuffixed(row: MergedRow, f: string)
    requires f == "City/State" || f == "Fines/Restitution"
    ensures RowGet(row, f + PdfSuffix) == PyNone
    ensures RowGet(row, f + ExcelSuffix) == PyNone
  {
    forall g | g in SharedFields ensures f + PdfSuffix != g + PdfSuffix && f + ExcelSuffix != g + ExcelSuffix {
      assert |f| != |g|;
    }
    assert SuffixedField(SharedFields, f + PdfSuffix, PdfSuffix) == None by {
      NotSuffixed(SharedFields, f + PdfSuffix, PdfSuffix);
    }
    assert SuffixedField(SharedFields, f + ExcelSuffix, ExcelSuffix) == None by {
      NotSuffixed(SharedFields, f + ExcelSuffix, ExcelSuffix);
    }
    assert (f + ExcelSuffix)[|f + ExcelSuffix| - 1] == 'l';
    assert (f + PdfSuffix)[|f + PdfSuffix| - 1] == 'F';
    SuffixedFieldMisses(SharedFields, f + ExcelSuffix, PdfSuffix);
    SuffixedFieldMisses(SharedFields, f + PdfSuffix, ExcelSuffix);
    assert |f + PdfSuffix| == |f| + 4 && |f + ExcelSuffix| == |f| + 6;
  }

  lemma {:induction false} NotSuffixed(fields: seq<string>, column: string, suffix: string)
    requires forall g :: g in fields ==> column != g + suffix
    ensures SuffixedField(fields, column, suffix) == None
  {
    if |fields| > 0 {
      assert fields[0] in fields;
      NotSuffixed(fields[1..], column, suffix);
    }
  }

  /** A shared field's flag is ✅ exactly when the row pairs two records
      that agree on it; the City/State and Fines/Restitution flags are ✅
      on every row. */
  lemma FieldMatchMeaning(row: MergedRow)
    ensures FieldMatch(row, "Name") <==> row.pdf.Some? && row.excel.Some? && row.pdf.value.name == row.excel.value.name
    ensures FieldMatch(row, "Date") <==> row.pdf.Some? && row.excel.Some? && row.pdf.value.date == row.excel.value.date
    ensures FieldMatch(row, "Action") <==> row.pdf.Some? && row.excel.Some? && row.pdf.value.action == row.excel.value.action
    ensures FieldMatch(row, "Key Findings") <==> row.pdf.Some? && row.excel.Some? && row.pdf.value.findings == row.excel.value.findings
    ensures FieldMatch(row, "Case Number") <==> row.pdf.Some? && row.excel.Some? && row.pdf.value.caseNumber == row.excel.value.caseNumber
    ensures FieldMatch(row, "Fines/Restitution")
    ensures FieldMatch(row, "City/State")
  {
    RowGetShared(row, "Name");
    RowGetShared(row, "Date");
    RowGetShared(row, "Action");
    RowGetShared(row, "Key Findings");
    RowGetShared(row, "Case Number");
    RowGetUnsuffixed(row, "Fines/Restitution");
    RowGetUnsuffixed(row, "City/State");
  }

  /** The loop that adds the seven flag columns, one column per field,
      each computed over every row. */
  method AddMatchColumns(combined: seq<MergedRow>) returns (columns: seq<seq<bool>>)
    ensures |columns| == |FlagFields|
    ensures forall j :: 0 <= j < |FlagFields| ==> |columns[j]| == |combined|
    ensures forall j, i :: 0 <= j < |FlagFields| && 0 <= i < |combined| ==>
              columns[j][i] == FieldMatch(combined[i], FlagFields[j])
  {
    columns := [];
    var j := 0;
    while j < |FlagFields|
      invariant 0 <= j <= |FlagFields| && |columns| == j
      invariant forall j' :: 0 <= j' < j ==> |columns[j']| == |combined|
      invariant forall j', i :: 0 <= j' < j && 0 <= i < |combined| ==>
                  columns[j'][i] == FieldMatch(combined[i], FlagFields[j'])
    {
      var field := FlagFields[j];
      var column := seq(|combined|, (i: int) requires 0 <= i < |combined| => FieldMatch(combined[i], field));
      columns := columns + [column];
      j := j + 1;
    }
  }

  /** The flags of one row, in field order. */
  function RowFlags(row: MergedRow): seq<bool> {
    seq(|FlagFields|, (j: int) requires 0 <= j < |FlagFields| => FieldMatch(row, FlagFields[j]))
  }

  // ---------------------------------------------------------------------
  // Status
  // ---------------------------------------------------------------------

  /** The four values of the Status column: "Missing in Excel",
      "Missing in PDF", "Mismatch" and "Match". */
  datatype Status = MissingInExcel | MissingInPdf | Mismatch | Match

  /** The status lambda, in its order of precedence. */
  function StatusOf(row: MergedRow, flags: seq<bool>): Status {
    if IsNaValue(RowGet(row, "Name" + ExcelSuffix)) then MissingInExcel
    else if IsNaValue(RowGet(row, "Name" + PdfSuffix)) then MissingInPdf
    else if false in flags then Mismatch
    else Match
  }

  /** What each status means of a merged row: which side it lacks, or
      whether the two records it pairs agree on all five shared fields. */
  lemma StatusMeaning(row: MergedRow)
    ensures StatusOf(row, RowFlags(row)) == MissingInExcel <==> row.excel.None?
    ensures StatusOf(row, RowFlags(row)) == MissingInPdf <==> row.excel.Some? && row.pdf.None?
    ensures StatusOf(row, RowFlags(row)) == Mismatch <==>
              row.pdf.Some? && row.excel.Some? && !SameFields(row.pdf.value, row.excel.value)
    ensures StatusOf(row, RowFlags(row)) == Match <==>
              row.pdf.Some? && row.excel.Some? && SameFields(row.pdf.value, row.excel.value)
  {
    NoFalseFlag(row);
    FieldMatchMeaning(row);
    RowGetShared(row, "Name");
  }

  /** No flag is false exactly when the five shared fields all compare
      equal: the two unsuffixed flags never are. */
  lemma NoFalseFlag(row: MergedRow)
    ensures false !in RowFlags(row) <==>
              && FieldMatch(row, "Name") && FieldMatch(row, "Date") && FieldMatch(row, "Action")
              && FieldMatch(row, "Key Findings") && FieldMatch(row, "Case Number")
  {
    RowGetUnsuffixed(row, "Fines/Restitution");
    RowGetUnsuffixed(row, "City/State");
    assert RowFlags(row) ==
      [FieldMatch(row, "Name"), FieldMatch(row, "Date"), FieldMatch(row, "Action"),
       FieldMatch(row, "Key Findings"), FieldMatch(row, "Case Number"),
       FieldMatch(row, "Fines/Restitution"), FieldMatch(row, "City/State")];
  }

  /** A PDF date keeps its `Date:` label, so a pairing whose Excel date was
      stripped of its label is a mismatch. */
  lemma LabelledDateMismatch(row: MergedRow)
    requires row.pdf.Some? && row.excel.Some?
    requires WellShaped(row.pdf.value) && !OccursAt(row.excel.value.date, DateLabel, 0)
    ensures StatusOf(row, RowFlags(row)) == Mismatch
  {
    StatusMeaning(row);
  }

  // ---------------------------------------------------------------------
  // The report
  // ---------------------------------------------------------------------

  /** One row of the returned table: the merged row, its seven flags and
      its status. */
  datatype ReportRow = ReportRow(row: MergedRow, flags: seq<bool>, status: Status)

  /** The merged rows with their seven flags and their status. */
  function ReportRows(combined: seq<MergedRow>): seq<ReportRow>
  {
    seq(|combined|, (i: int) requires 0 <= i < |combined| =>
      ReportRow(combined[i], RowFlags(combined[i]), StatusOf(combined[i], RowFlags(combined[i]))))
  }

  /** `combined[combined["Status"] != "Match"]`. */
  function Unmatched(rows: seq<ReportRow>): seq<ReportRow>
  {
    if |rows| == 0 then []
    else
      var init := Unmatched(rows[..|rows| - 1]);
      if rows[|rows| - 1].status != Match then init + [rows[|rows| - 1]] else init
  }

  /** The filter keeps exactly the rows whose status is not Match, in their
      order: `idx` lists their positions. */
  lemma {:induction false} UnmatchedSpec(rows: seq<ReportRow>) returns (idx: seq<nat>)
    ensures |idx| == |Unmatched(rows)|
    ensures forall k :: 0 <= k < |idx| ==> idx[k] < |rows| && Unmatched(rows)[k] == rows[idx[k]]
    ensures forall k, l :: 0 <= k < l < |idx| ==> idx[k] < idx[l]
    ensures forall i :: 0 <= i < |rows| ==> (rows[i].status != Match <==> i in idx)
  {
    if |rows| == 0 {
      idx := [];
    } else {
      var init := rows[..|rows| - 1];
      var last := |rows| - 1;
      idx := UnmatchedSpec(init);
      assert forall i :: 0 <= i < |init| ==> init[i] == rows[i];
      if rows[last].status != Match {
        idx := idx + [last];
      }
    }
  }

  /** The report of two record tables: its rows are the merged rows that
      belong, except the pairings that agree on all five shared fields, each
      with its flags and a status other than Match, in increasing order of
      CRD. */
  lemma ReportMembers(ps: seq<PdfRecord>, es: seq<ExcelRecord>)
    ensures var out := Unmatched(ReportRows(Merge(ps, es)));
      && (forall x :: x in out ==>
            && Belongs(x.row, ps, es) && x.flags == RowFlags(x.row)
            && x.status == StatusOf(x.row, x.flags) && x.status != Match)
      && (forall row ::
            (Belongs(row, ps, es) && !(row.pdf.Some? && row.excel.Some? && SameFields(row.pdf.value, row.excel.value)))
            ==> exists x :: x in out && x.row == row)
      && (forall i, j :: 0 <= i < j < |out| ==>
            out[i].row.crd == out[j].row.crd || StrLess(out[i].row.crd, out[j].row.crd))
  {
    var m := Merge(ps, es);
    var rows := ReportRows(m);
    var out := Unmatched(rows);
    MergeMembers(ps, es);
    MergeOrdered(ps, es);
    var idx := UnmatchedSpec(rows);
    forall x | x in out
      ensures Belongs(x.row, ps, es) && x.flags == RowFlags(x.row)
      ensures x.status == StatusOf(x.row, x.flags) && x.status != Match
    {
      var k :| 0 <= k < |out| && out[k] == x;
      assert x == rows[idx[k]] && m[idx[k]] in m;
      assert idx[k] in idx;
    }
    forall row: MergedRow | Belongs(row, ps, es) &&
                 !(row.pdf.Some? && row.excel.Some? && SameFields(row.pdf.value, row.excel.value))
      ensures exists x :: x in out && x.row == row
    {
      var i :| 0 <= i < |m| && m[i] == row;
      StatusMeaning(row);
      assert rows[i].status != Match;
      var k :| 0 <= k < |idx| && idx[k] == i;
      assert out[k] in out && out[k].row == row;
    }
    forall i, j | 0 <= i < j < |out|
      ensures out[i].row.crd == out[j].row.crd || StrLess(out[i].row.crd, out[j].row.crd)
    {
      assert out[i] == rows[idx[i]] && out[j] == rows[idx[j]];
    }
  }

  /** A PDF record whose CRD the sheet lacks is reported as Missing in
      Excel. */
  lemma ReportsMissingInExcel(ps: seq<PdfRecord>, es: seq<ExcelRecord>, p: PdfRecord)
    requires p in ps && forall e :: e in es ==> e.crd != p.crd
    ensures exists x :: x in Unmatched(ReportRows(Merge(ps, es))) &&
                        x.row == MergedRow(p.crd, Some(p), None) && x.status == MissingInExcel
  {
    var row := MergedRow(p.crd, Some(p), None);
    assert Belongs(row, ps, es);
    StatusMeaning(row);
    ReportMembers(ps, es);
  }

  /** A sheet record whose CRD the PDF lacks is reported as Missing in PDF. */
  lemma ReportsMissingInPdf(ps: seq<PdfRecord>, es: seq<ExcelRecord>, e: ExcelRecord)
    requires e in es && forall p :: p in ps ==> p.crd != e.crd
    ensures exists x :: x in Unmatched(ReportRows(Merge(ps, es))) &&
                        x.row == MergedRow(e.crd, None, Some(e)) && x.status == MissingInPdf
  {
    var row := MergedRow(e.crd, None, Some(e));
    assert Belongs(row, ps, es);
    StatusMeaning(row);
    ReportMembers(ps, es);
  }

  /** Two records with the same CRD that differ on a shared field are
      reported, paired, as Mismatch; two that agree are not reported. */
  lemma ReportsPairing(ps: seq<PdfRecord>, es: seq<ExcelRecord>, p: PdfRecord, e: ExcelRecord)
    requires p in ps && e in es && p.crd == e.crd
    ensures !SameFields(p, e) ==>
              exists x :: x in Unmatched(ReportRows(Merge(ps, es))) &&
                          x.row == MergedRow(p.crd, Some(p), Some(e)) && x.status == Mismatch
    ensures SameFields(p, e) ==>
              forall x :: x in Unmatched(ReportRows(Merge(ps, es))) ==> x.row != MergedRow(p.crd, Some(p), Some(e))
  {
    var row := MergedRow(p.crd, Some(p), Some(e));
    assert Belongs(row, ps, es);
    StatusMeaning(row);
    ReportMembers(ps, es);
  }
}
