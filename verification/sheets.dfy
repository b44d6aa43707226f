/** Reading and writing sample sheets through `csv.DictReader` and
    `csv.DictWriter` with the fixed ten field names. A sheet is a preamble of
    instrument metadata rows, a header row whose `Sample_ID` cell reads
    `Sample_ID`, and the sample rows after it. */
module Sheets {
  import opened Results
  import opened Paths
  import opened FileSystem

  /** The fixed field names both scrapers pass to the csv module. */
  const Fieldnames: seq<string> := [
    "Sample_ID", "Sample_Name", "Species", "Project", "NucleicAcid",
    "Sample_Well", "I7_Index_ID", "index", "I5_Index_ID", "index2"
  ]

  /** The records `csv.DictReader` yields: blank lines are skipped, every
      other row is kept in file order. */
  function Records(rows: seq<Row>): (r: seq<Row>)
    ensures |r| <= |rows|
    ensures forall i :: 0 <= i < |r| ==> |r[i]| > 0
    ensures (forall i :: 0 <= i < |rows| ==> |rows[i]| > 0) ==> r == rows
    ensures (forall i :: 0 <= i < |rows| ==> |rows[i]| == 0) ==> r == []
    decreases |rows|
  {
    if |rows| == 0 then []
    else (if |rows[0]| == 0 then [] else [rows[0]]) + Records(rows[1..])
  }

  /** The reader works row by row: the records of two stretches of the
      file are the records of the first, then those of the second. With the
      one-row cases above this fixes the records' order and multiplicity. */
  lemma {:induction false} RecordsAppend(a: seq<Row>, b: seq<Row>)
    ensures Records(a + b) == Records(a) + Records(b)
    decreases |a|
  {
    if |a| == 0 {
      assert a + b == b;
    } else {
      assert (a + b)[0] == a[0] && (a + b)[1..] == a[1..] + b;
      RecordsAppend(a[1..], b);
    }
  }

  /** A row is a record exactly when it is a non-blank row of the file. */
  lemma {:induction false} RecordsMembers(rows: seq<Row>, x: Row)
    ensures x in Records(rows) <==> x in rows && |x| > 0
    decreases |rows|
  {
    if |rows| > 0 {
      RecordsMembers(rows[1..], x);
      assert rows == [rows[0]] + rows[1..];
    }
  }

  /** `line['Sample_ID'] == 'Sample_ID'`: `Sample_ID` is the first field
      name, so it is the record's first cell. */
  predicate IsSentinel(r: Row) {
    |r| > 0 && r[0] == "Sample_ID"
  }

  /** A sheet as read: the rows before the header row, and those after it. */
  datatype Sheet = Sheet(preamble: seq<Row>, data: seq<Row>)

  /** Consumes records up to and including the first header row: the rows
      before it are the preamble, the header row is discarded, and all rows
      after it are data. Without a header row everything is preamble. */
  function SplitAtSentinel(records: seq<Row>): (s: Sheet)
    ensures forall i :: 0 <= i < |s.preamble| ==> !IsSentinel(s.preamble[i])
    ensures (forall i :: 0 <= i < |records| ==> !IsSentinel(records[i])) ==>
              s.preamble == records && s.data == []
    ensures (exists i :: 0 <= i < |records| && IsSentinel(records[i])) ==>
              && |s.preamble| < |records|
              && IsSentinel(records[|s.preamble|])
              && records == s.preamble + [records[|s.preamble|]] + s.data
    decreases |records|
  {
    if |records| == 0 then Sheet([], [])
    else if IsSentinel(records[0]) then Sheet([], records[1..])
    else
      var rest := SplitAtSentinel(records[1..]);
      assert forall i :: 1 <= i < |records| ==> records[i] == records[1..][i - 1];
      Sheet([records[0]] + rest.preamble, rest.data)
  }

  /** The sheet `read_samplesheet` makes of a file's rows. */
  function ParseSheet(rows: seq<Row>): Sheet {
    SplitAtSentinel(Records(rows))
  }

  /** What every sheet `ParseSheet` produces looks like: no blank rows, and
      no header row in the preamble. */
  predicate WellRead(s: Sheet) {
    && (forall i :: 0 <= i < |s.preamble| ==> |s.preamble[i]| > 0 && !IsSentinel(s.preamble[i]))
    && (forall j :: 0 <= j < |s.data| ==> |s.data[j]| > 0)
  }

  lemma ParseSheetWellRead(rows: seq<Row>)
    ensures WellRead(ParseSheet(rows))
  {
    var recs := Records(rows);
    var s := SplitAtSentinel(recs);
    if exists i :: 0 <= i < |recs| && IsSentinel(recs[i]) {
      var k := |s.preamble|;
      assert forall i :: 0 <= i < |s.preamble| ==> s.preamble[i] == recs[i];
      assert forall j :: 0 <= j < |s.data| ==> s.data[j] == recs[k + 1 + j];
    }
  }

  /** `read_samplesheet`: the parsed preamble and data rows of one file. */
  function ReadSampleSheet(fs: Tree, p: Path): (r: Result<Sheet, Error>)
    ensures r.Ok? <==> IsFile(fs, p)
    ensures r.Ok? ==> r.value == ParseSheet(fs[p].rows)
  {
    var rows :- ReadRows(fs, p);
    Ok(ParseSheet(rows))
  }

  /** A record `csv.DictWriter` can write: at most one cell per field name.
      `csv.DictReader` files extra cells under the key `None`, which the
      writer rejects. */
  predicate Fits(r: Row) {
    |r| <= |Fieldnames|
  }

  /** The row `csv.DictWriter` writes for a record: the cells in field
      order, with the fields the record lacks written as empty cells. */
  function Pad(r: Row): (w: Row)
    requires Fits(r)
    ensures |w| == |Fieldnames|
    ensures w[..|r|] == r
    ensures forall i :: |r| <= i < |w| ==> w[i] == ""
  {
    r + seq(|Fieldnames| - |r|, _ => "")
  }

  /** Every record fits the ten fields. */
  predicate AllFit(records: seq<Row>) {
    forall i :: 0 <= i < |records| ==> Fits(records[i])
  }

  /** `writer.writerows(records)` into the file `out`: fails with the
      writer's ValueError when some record has more cells than fields. */
  function WriteRows(records: seq<Row>, out: Path): (r: Result<seq<Row>, Error>)
    ensures r.Ok? <==> AllFit(records)
    ensures r.Err? ==> r.error == ExtraColumns(out)
    ensures r.Ok? ==> |r.value| == |records|
    ensures r.Ok? ==> forall i :: 0 <= i < |records| ==> Fits(records[i]) && r.value[i] == Pad(records[i])
    decreases |records|
  {
    if |records| == 0 then Ok([])
    else if !Fits(records[0]) then Err(ExtraColumns(out))
    else
      var rest :- WriteRows(records[1..], out);
      assert forall i :: 1 <= i < |records| ==> records[i] == records[1..][i - 1];
      Ok([Pad(records[0])] + rest)
  }
}
