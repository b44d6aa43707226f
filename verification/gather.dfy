/** The row gathering of `combine_sample_sheets` in the older scraper: the
    sample rows of every sheet, cut to the ten fixed fields and with the
    columns renamed through `COLUMNMAP`. */
module Gather {
  import opened Results
  import opened Paths
  import opened FileSystem
  import opened Sheets
  import opened Merger

  /** `COLUMNMAP`: DataFrame column names for the header cells of both
      sheet layouts the instruments write. */
  const ColumnMap: map<string, string> := map[
    "I5_Index_ID" := "i5IndexId",
    "I7_Index_ID" := "i7IndexId",
    "Index_ID" := "indexId",
    "Name" := "sampleName",
    "NucleicAcid" := "nucleicAcid",
    "Pop" := "pop",
    "Project" := "projectName",
    "SampleID" := "sampleId",
    "Sample_ID" := "sampleId",
    "Sample_Name" := "sampleName",
    "Sample_Well" := "sampleWell",
    "Species" := "species",
    "Well" := "sampleWell",
    "index" := "index",
    "index2" := "index2"
  ]

  /** The DataFrame's columns once the ten field names are renamed. */
  const Renamed: seq<string> := [
    "sampleId", "sampleName", "species", "projectName", "nucleicAcid",
    "sampleWell", "i7IndexId", "index", "i5IndexId", "index2"
  ]

  /** `[COLUMNMAP[i] for i in columns]`; `None` stands for the KeyError an
      unmapped column raises. */
  function Rename(columns: seq<string>): (r: Option<seq<string>>)
    ensures r.Some? <==> forall i :: 0 <= i < |columns| ==> columns[i] in ColumnMap
    ensures r.Some? ==> |r.value| == |columns|
    ensures r.Some? ==> forall i :: 0 <= i < |columns| ==> r.value[i] == ColumnMap[columns[i]]
  {
    if forall i :: 0 <= i < |columns| ==> columns[i] in ColumnMap then
      Some(seq(|columns|, i requires 0 <= i < |columns| && columns[i] in ColumnMap => ColumnMap[columns[i]]))
    else None
  }

  /** Renaming never fails on the ten field names, gives `Renamed`, and
      keeps the ten columns apart. */
  lemma RenameFieldnames()
    ensures Rename(Fieldnames) == Some(Renamed)
    ensures forall i, j :: 0 <= i < j < |Renamed| ==> Renamed[i] != Renamed[j]
  {
    FieldnamesMapped();
    var r := Rename(Fieldnames).value;
    assert r == Renamed;
    RenamedDistinct();
  }

  /** Each field name is a key of the map, and maps to the column of the
      same position. */
  lemma FieldnamesMapped()
    ensures forall i :: 0 <= i < |Fieldnames| ==> Fieldnames[i] in ColumnMap && ColumnMap[Fieldnames[i]] == Renamed[i]
  {
    assert ColumnMap[Fieldnames[0]] == Renamed[0] && ColumnMap[Fieldnames[1]] == Renamed[1];
    assert ColumnMap[Fieldnames[2]] == Renamed[2] && ColumnMap[Fieldnames[3]] == Renamed[3];
    assert ColumnMap[Fieldnames[4]] == Renamed[4] && ColumnMap[Fieldnames[5]] == Renamed[5];
    assert ColumnMap[Fieldnames[6]] == Renamed[6] && ColumnMap[Fieldnames[7]] == Renamed[7];
    assert ColumnMap[Fieldnames[8]] == Renamed[8] && ColumnMap[Fieldnames[9]] == Renamed[9];
  }

  lemma RenamedDistinct()
    ensures forall i, j :: 0 <= i < j < |Renamed| ==> Renamed[i] != Renamed[j]
  {
  }

  /** The map is many-to-one: both spellings of the sample id, and both of
      the well, land on one column. */
  lemma ColumnMapMerges()
    ensures "Sample_ID" != "SampleID" && ColumnMap["Sample_ID"] == ColumnMap["SampleID"] == "sampleId"
    ensures "Sample_Well" != "Well" && ColumnMap["Sample_Well"] == ColumnMap["Well"] == "sampleWell"
    ensures "Sample_Name" != "Name" && ColumnMap["Sample_Name"] == ColumnMap["Name"] == "sampleName"
  {
  }

  /** A `csv.DictReader` record as the DataFrame holds it: the value under
      each of the ten field names, `None` where the row is short. Cells past
      the tenth sit under the key `None`, whose column is popped. */
  function Cells(row: Row): (c: seq<Option<string>>)
    ensures |c| == |Fieldnames|
    ensures forall i :: 0 <= i < |c| ==> (c[i].Some? <==> i < |row|)
  {
    seq(|Fieldnames|, i requires 0 <= i < |Fieldnames| => if i < |row| then Some(row[i]) else None)
  }

  /** The index of the first missing cell at or after `i`. */
  function FirstMissing(c: seq<Option<string>>, i: nat): (n: nat)
    requires i <= |c|
    ensures i <= n <= |c|
    ensures forall j :: i <= j < n ==> c[j].Some?
    ensures n < |c| ==> c[n].None?
    decreases |c| - i
  {
    if i == |c| || c[i].None? then i else FirstMissing(c, i + 1)
  }

  /** The values present in a record, in field order, up to the first
      missing one. */
  function Present(c: seq<Option<string>>): (r: seq<string>)
    ensures |r| <= |c|
    ensures forall i :: 0 <= i < |r| ==> c[i] == Some(r[i])
  {
    var n := FirstMissing(c, 0);
    seq(n, i requires 0 <= i < n => c[i].value)
  }

  /** The first `min(|row|, 10)` cells. */
  function Truncate(row: Row): Row {
    if |row| <= |Fieldnames| then row else row[..|Fieldnames|]
  }

  /** A record keeps every cell under the ten fields and nothing past
      them: the values read back are the row with its extra cells
      dropped. */
  lemma CellsRoundTrip(row: Row)
    ensures Present(Cells(row)) == Truncate(row)
  {
    var c := Cells(row);
    var t := Truncate(row);
    FirstMissingAt(c, 0, |t|);
    assert forall i :: 0 <= i < |t| ==> Present(c)[i] == t[i];
  }

  /** `FirstMissing` finds the one index `m` before which every cell is
      present and at which (unless at the end) a cell is missing. */
  lemma {:induction false} FirstMissingAt(c: seq<Option<string>>, i: nat, m: nat)
    requires i <= m <= |c|
    requires forall j :: i <= j < m ==> c[j].Some?
    requires m < |c| ==> c[m].None?
    ensures FirstMissing(c, i) == m
    decreases m - i
  {
    if i < m {
      FirstMissingAt(c, i + 1, m);
    }
  }

  /** Two rows of at most ten cells make the same record only when equal;
      two longer rows make the same record when their first ten cells
      agree. */
  lemma CellsExactly(a: Row, b: Row)
    ensures Cells(a) == Cells(b) <==> Truncate(a) == Truncate(b)
  {
    CellsRoundTrip(a);
    CellsRoundTrip(b);
    if Truncate(a) == Truncate(b) {
      forall i | 0 <= i < |Fieldnames| ensures Cells(a)[i] == Cells(b)[i] {
        if i < |Truncate(a)| {
          assert Truncate(a)[i] == a[i] && Truncate(b)[i] == b[i];
        }
      }
    }
  }

  /** The loop over `filenames`: every row after each file's first header
      row, in file order. The first file that cannot be opened aborts. */
  function GatherRows(fs: Tree, names: seq<Path>): (r: Result<seq<Row>, Error>)
    ensures r.Ok? <==> forall i :: 0 <= i < |names| ==> IsFile(fs, names[i])
    decreases |names|
  {
    if |names| == 0 then Ok([])
    else
      var init := names[..|names| - 1];
      var last := names[|names| - 1];
      assert (forall i :: 0 <= i < |names| ==> IsFile(fs, names[i])) <==>
               (forall i :: 0 <= i < |init| ==> IsFile(fs, init[i])) && IsFile(fs, last) by {
        assert forall i :: 0 <= i < |init| ==> init[i] == names[i];
      }
      var before :- GatherRows(fs, init);
      var sheet :- ReadSampleSheet(fs, last);
      Ok(before + sheet.data)
  }

  /** The gathered rows are the merger's `all_lines` over the same files:
      each file's data rows, concatenated in order. */
  lemma {:induction false} GatherIsAllData(fs: Tree, names: seq<Path>)
    requires forall i :: 0 <= i < |names| ==> IsFile(fs, names[i])
    ensures GatherRows(fs, names).Ok? && ReadAll(fs, names).Ok?
    ensures GatherRows(fs, names).value == AllData(ParseAll(ReadAll(fs, names).value))
    decreases |names|
  {
    if |names| > 0 {
      var init := names[..|names| - 1];
      var last := names[|names| - 1];
      assert forall i :: 0 <= i < |init| ==> init[i] == names[i];
      GatherIsAllData(fs, init);
      var files := ReadAll(fs, names).value;
      var initFiles := ReadAll(fs, init).value;
      assert files[..|files| - 1] == initFiles;
      var sheets := ParseAll(files);
      ParseAllPrefix(files);
      assert sheets[..|sheets| - 1] == ParseAll(initFiles);
      assert sheets[|sheets| - 1] == ParseSheet(fs[last].rows);
      assert AllData(sheets) == AllData(ParseAll(initFiles)) + ParseSheet(fs[last].rows).data;
      assert GatherRows(fs, names).value == GatherRows(fs, init).value + ParseSheet(fs[last].rows).data;
    }
  }

  lemma ParseAllPrefix(files: seq<seq<Row>>)
    requires |files| > 0
    ensures ParseAll(files)[..|files| - 1] == ParseAll(files[..|files| - 1])
  {
  }

  /** A file without a header row contributes no rows. */
  lemma UnmarkedAddsNothing(fs: Tree, names: seq<Path>, f: Path)
    requires IsFile(fs, f)
    requires forall i :: 0 <= i < |Records(fs[f].rows)| ==> !IsSentinel(Records(fs[f].rows)[i])
    ensures GatherRows(fs, names + [f]) == GatherRows(fs, names)
  {
    var all := names + [f];
    assert all[..|all| - 1] == names;
    var recs := Records(fs[f].rows);
    assert SplitAtSentinel(recs).data == [];
    assert ReadSampleSheet(fs, f) == Ok(Sheet(recs, []));
    var g := GatherRows(fs, names);
    if g.Ok? {
      assert GatherRows(fs, all) == Ok(g.value + []);
      assert g.value + [] == g.value;
    } else {
      assert GatherRows(fs, all) == g.PropagateFailure();
    }
  }

  /** Every gathered row has a first cell, so every sample has a
      `sampleId`. */
  lemma {:induction false} GatheredRowsNonEmpty(fs: Tree, names: seq<Path>)
    requires GatherRows(fs, names).Ok?
    ensures forall j :: 0 <= j < |GatherRows(fs, names).value| ==> |GatherRows(fs, names).value[j]| > 0
    decreases |names|
  {
    if |names| > 0 {
      var init := names[..|names| - 1];
      assert forall i :: 0 <= i < |init| ==> init[i] == names[i];
      GatheredRowsNonEmpty(fs, init);
      ParseSheetWellRead(fs[names[|names| - 1]].rows);
    }
  }

  /** The DataFrame `combine_sample_sheets` returns: column names, and one
      record per sample. */
  datatype Table = Table(columns: seq<string>, rows: seq<seq<Option<string>>>)

  /** `combine_sample_sheets`: the gathered rows as records, the extra
      column popped and the rest renamed. With no rows the frame has no
      columns at all. */
  function CombineSampleSheets(fs: Tree, names: seq<Path>): (r: Result<Table, Error>)
    ensures r.Ok? <==> forall i :: 0 <= i < |names| ==> IsFile(fs, names[i])
    ensures r.Ok? ==> |r.value.rows| == |GatherRows(fs, names).value|
    ensures r.Ok? ==> (r.value.columns == [] <==> r.value.rows == [])
    ensures r.Ok? && r.value.rows != [] ==> r.value.columns == Renamed
    ensures r.Ok? ==> forall j :: 0 <= j < |r.value.rows| ==>
              && |r.value.rows[j]| == |Renamed|
              && r.value.rows[j][0].Some?
              && Present(r.value.rows[j]) == Truncate(GatherRows(fs, names).value[j])
  {
    var rows :- GatherRows(fs, names);
    if |rows| == 0 then Ok(Table([], []))
    else
      RenameFieldnames();
      GatheredRowsNonEmpty(fs, names);
      assert forall j :: 0 <= j < |rows| ==> Present(Cells(rows[j])) == Truncate(rows[j]) by {
        forall j | 0 <= j < |rows| {
          CellsRoundTrip(rows[j]);
        }
      }
      Ok(Table(Rename(Fieldnames).value, seq(|rows|, j requires 0 <= j < |rows| => Cells(rows[j]))))
  }

  /** The frame has one record per data row of the merged sheets, so the
      two scrapers count the same samples. */
  lemma CombineCountsData(fs: Tree, names: seq<Path>)
    requires forall i :: 0 <= i < |names| ==> IsFile(fs, names[i])
    ensures CombineSampleSheets(fs, names).Ok? && ReadAll(fs, names).Ok?
    ensures |CombineSampleSheets(fs, names).value.rows| == DataCount(ParseAll(ReadAll(fs, names).value))
  {
    GatherIsAllData(fs, names);
    AllDataCount(ParseAll(ReadAll(fs, names).value));
  }
}
