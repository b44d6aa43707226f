/** The merger (`combine_samplesheets`, `write_organized_samplesheets`):
    one output file per date key, either a verbatim copy of the single sheet
    of that date or a merge of all of them. */
module Merger {
  import opened Results
  import opened Paths
  import opened FileSystem
  import opened Sheets
  import opened Organizer

  /** The rows of every sheet, read in list order; the first unreadable
      sheet aborts the loop. Parsing a file's rows cannot fail, so reading
      them all first and parsing afterwards raises what `read_samplesheet`
      raises, on the same sheet. */
  function ReadAll(fs: Tree, ps: seq<Path>): (r: Result<seq<seq<Row>>, Error>)
    ensures r.Ok? <==> forall i :: 0 <= i < |ps| ==> IsFile(fs, ps[i])
    ensures r.Ok? ==> |r.value| == |ps|
    ensures r.Ok? ==> forall i :: 0 <= i < |ps| ==> IsFile(fs, ps[i]) && r.value[i] == fs[ps[i]].rows
    decreases |ps|
  {
    if |ps| == 0 then Ok([])
    else
      var init := ps[..|ps| - 1];
      assert forall i :: 0 <= i < |init| ==> ps[i] == init[i];
      var done :- ReadAll(fs, init);
      var last :- ReadRows(fs, ps[|ps| - 1]);
      var r := done + [last];
      assert forall i :: 0 <= i < |init| ==> r[i] == done[i];
      Ok(r)
  }

  /** Each file's rows parsed with `read_samplesheet`'s split. */
  function ParseAll(files: seq<seq<Row>>): (r: seq<Sheet>)
    ensures |r| == |files|
    ensures forall i :: 0 <= i < |files| ==> r[i] == ParseSheet(files[i])
  {
    seq(|files|, i requires 0 <= i < |files| => ParseSheet(files[i]))
  }

  /** `all_lines`: the data rows of every sheet, concatenated in order. */
  function AllData(sheets: seq<Sheet>): seq<Row>
    decreases |sheets|
  {
    if |sheets| == 0 then []
    else AllData(sheets[..|sheets| - 1]) + sheets[|sheets| - 1].data
  }

  /** The number of data rows across the sheets. */
  function DataCount(sheets: seq<Sheet>): nat
    decreases |sheets|
  {
    if |sheets| == 0 then 0
    else DataCount(sheets[..|sheets| - 1]) + |sheets[|sheets| - 1].data|
  }

  /** Concatenation distributes over splitting the list of sheets. */
  lemma {:induction false} AllDataAppend(a: seq<Sheet>, b: seq<Sheet>)
    ensures AllData(a + b) == AllData(a) + AllData(b)
    decreases |b|
  {
    if |b| > 0 {
      var b' := b[..|b| - 1];
      assert (a + b)[..|a + b| - 1] == a + b';
      AllDataAppend(a, b');
    } else {
      assert a + b == a;
    }
  }

  /** Sheet `i`'s data rows sit, in order, between the rows of the sheets
      before it and those of the sheets after it. */
  lemma AllDataAt(sheets: seq<Sheet>, i: nat)
    requires i < |sheets|
    ensures AllData(sheets) == AllData(sheets[..i]) + sheets[i].data + AllData(sheets[i + 1..])
  {
    var a := sheets[..i];
    var b := sheets[i + 1..];
    SplitAround(sheets, i);
    AllDataAppend(a + [sheets[i]], b);
    AllDataAppend(a, [sheets[i]]);
    assert AllData([sheets[i]]) == sheets[i].data by {
      assert [sheets[i]][..0] == [];
    }
  }

  lemma SplitAround<T>(s: seq<T>, i: nat)
    requires i < |s|
    ensures s == (s[..i] + [s[i]]) + s[i + 1..]
  {
  }

  /** The merged data-row count is the sum of the sheets' counts. */
  lemma {:induction false} AllDataCount(sheets: seq<Sheet>)
    ensures |AllData(sheets)| == DataCount(sheets)
    decreases |sheets|
  {
    if |sheets| > 0 {
      AllDataCount(sheets[..|sheets| - 1]);
    }
  }

  /** Every row of every sheet fits the ten fields. */
  predicate DataFits(sheets: seq<Sheet>) {
    forall i, j :: 0 <= i < |sheets| && 0 <= j < |sheets[i].data| ==> Fits(sheets[i].data[j])
  }

  lemma {:induction false} AllDataFits(sheets: seq<Sheet>)
    ensures DataFits(sheets) <==> AllFit(AllData(sheets))
    decreases |sheets|
  {
    if |sheets| > 0 {
      var init := sheets[..|sheets| - 1];
      var last := sheets[|sheets| - 1];
      AllDataFits(init);
      var all := AllData(sheets);
      assert all == AllData(init) + last.data;
      if DataFits(sheets) {
        assert DataFits(init) by {
          forall i, j | 0 <= i < |init| && 0 <= j < |init[i].data| ensures Fits(init[i].data[j]) {
            assert init[i] == sheets[i];
          }
        }
        forall j | 0 <= j < |all| ensures Fits(all[j]) {
          if j >= |AllData(init)| {
            assert all[j] == last.data[j - |AllData(init)|];
          }
        }
      }
      if forall j :: 0 <= j < |all| ==> Fits(all[j]) {
        forall i, j | 0 <= i < |sheets| && 0 <= j < |sheets[i].data| ensures Fits(sheets[i].data[j]) {
          if i < |init| {
            assert sheets[i] == init[i];
            assert all[j + |AllData(init[..i])|] == init[i].data[j] by {
              AllDataAt(init, i);
            }
            assert AllData(init)[j + |AllData(init[..i])|] == init[i].data[j] by {
              AllDataAt(init, i);
            }
          } else {
            assert all[|AllData(init)| + j] == last.data[j];
          }
        }
      }
    }
  }

  /** The preamble `combine_samplesheets` writes: `header` is the loop
      variable of its reading loop, so it holds the LAST sheet's preamble. */
  function LastPreamble(parsed: seq<Sheet>): seq<Row>
    requires |parsed| > 0
  {
    parsed[|parsed| - 1].preamble
  }

  /** What `combine_samplesheets` writes for already-read sheets: the last
      sheet's preamble, the header row, then every data row. */
  function MergeSheets(parsed: seq<Sheet>, out: Path): (r: Result<seq<Row>, Error>)
    requires |parsed| > 0
    ensures r.Ok? <==> AllFit(LastPreamble(parsed)) && DataFits(parsed)
    ensures r.Err? ==> r.error == ExtraColumns(out)
    ensures r.Ok? ==>
              var pre := LastPreamble(parsed);
              && |r.value| == |pre| + 1 + |AllData(parsed)|
              && (forall i :: 0 <= i < |pre| ==> Fits(pre[i]) && r.value[i] == Pad(pre[i]))
              && r.value[|pre|] == Fieldnames
              && (forall j :: 0 <= j < |AllData(parsed)| ==>
                    Fits(AllData(parsed)[j]) && r.value[|pre| + 1 + j] == Pad(AllData(parsed)[j]))
  {
    AllDataFits(parsed);
    var header := parsed[|parsed| - 1].preamble;
    var head :- WriteRows(header, out);
    var body :- WriteRows(AllData(parsed), out);
    Ok(head + [Fieldnames] + body)
  }

  /** `combine_samplesheets`: reads every sheet, then writes the merge. */
  function CombineSheets(fs: Tree, sheets: seq<Path>, out: Path): (r: Result<seq<Row>, Error>)
    requires |sheets| > 0
    ensures r.Ok? ==> forall i :: 0 <= i < |sheets| ==> IsFile(fs, sheets[i])
    ensures (forall i :: 0 <= i < |sheets| ==> IsFile(fs, sheets[i])) ==>
              r == MergeSheets(ParseAll(ReadAll(fs, sheets).value), out)
  {
    var files :- ReadAll(fs, sheets);
    MergeSheets(ParseAll(files), out)
  }

  /** Records of rows that are all non-blank are the rows themselves. */
  lemma {:induction false} RecordsOfNonBlank(rows: seq<Row>)
    requires forall i :: 0 <= i < |rows| ==> |rows[i]| > 0
    ensures Records(rows) == rows
    decreases |rows|
  {
    if |rows| > 0 {
      RecordsOfNonBlank(rows[1..]);
      assert [rows[0]] + rows[1..] == rows;
    }
  }

  /** Splitting a sheet laid out as preamble, header row, data. */
  lemma {:induction false} SplitLaidOut(pre: seq<Row>, header: Row, data: seq<Row>)
    requires forall i :: 0 <= i < |pre| ==> !IsSentinel(pre[i])
    requires IsSentinel(header)
    ensures SplitAtSentinel(pre + [header] + data) == Sheet(pre, data)
    decreases |pre|
  {
    var rows := pre + [header] + data;
    if |pre| == 0 {
      assert rows == [header] + data;
    } else {
      assert rows[1..] == pre[1..] + [header] + data;
      SplitLaidOut(pre[1..], header, data);
      assert [pre[0]] + pre[1..] == pre;
    }
  }

  /** Reading a merged output back: its preamble is the last sheet's
      preamble and its data is every sheet's data in order, each row padded
      to the ten fields as the writer left it. */
  lemma MergeReadBack(parsed: seq<Sheet>, out: Path)
    requires |parsed| > 0 && MergeSheets(parsed, out).Ok?
    requires forall i :: 0 <= i < |parsed| ==> WellRead(parsed[i])
    ensures var back := ParseSheet(MergeSheets(parsed, out).value);
            var pre := LastPreamble(parsed);
            && |back.preamble| == |pre|
            && (forall i :: 0 <= i < |pre| ==> Fits(pre[i]) && back.preamble[i] == Pad(pre[i]))
            && |back.data| == |AllData(parsed)|
            && (forall j :: 0 <= j < |back.data| ==> Fits(AllData(parsed)[j]) && back.data[j] == Pad(AllData(parsed)[j]))
  {
    var w := MergeSheets(parsed, out).value;
    var pre := LastPreamble(parsed);
    var head := w[..|pre|];
    var body := w[|pre| + 1..];
    assert w == head + [Fieldnames] + body;
    assert WellRead(parsed[|parsed| - 1]);
    forall i | 0 <= i < |head| ensures !IsSentinel(head[i]) {
      PadKeepsFirst(pre[i]);
    }
    assert forall i :: 0 <= i < |w| ==> |w[i]| == |Fieldnames|;
    RecordsOfNonBlank(w);
    SplitLaidOut(head, Fieldnames, body);
  }

  /** Padding keeps a record's first cell, so it keeps a header row a
      header row and any other row not one. */
  lemma PadKeepsFirst(r: Row)
    requires Fits(r) && |r| > 0
    ensures IsSentinel(Pad(r)) <==> IsSentinel(r)
  {
    assert Pad(r)[..|r|] == r;
    assert Pad(r)[0] == r[0];
  }

  /** `output_folder / f"{date_string}.SampleSheet.csv"` */
  function OutputPath(folder: Path, key: string): Path {
    Join(folder, key + ".SampleSheet.csv")
  }

  /** Different date keys never share an output file. */
  lemma OutputPathInjective(folder: Path, k1: string, k2: string)
    requires OutputPath(folder, k1) == OutputPath(folder, k2)
    ensures k1 == k2
  {
    JoinInjective(folder, k1 + ".SampleSheet.csv", folder, k2 + ".SampleSheet.csv");
    assert |k1| == |k2|;
    assert k1 == (k1 + ".SampleSheet.csv")[..|k1|];
  }

  /** One turn of `write_organized_samplesheets`: a bucket of two or more
      sheets is merged, a bucket of one is copied verbatim with
      `write_text(read_text())`, and an empty bucket writes nothing. */
  function WriteBucket(fs: Tree, sheets: seq<Path>, out: Path): (r: Result<Option<seq<Row>>, Error>)
    ensures |sheets| == 0 ==> r == Ok(None)
    ensures r.Ok? ==> (r.value.Some? <==> |sheets| > 0)
    ensures |sheets| == 1 ==> (r.Ok? <==> IsFile(fs, sheets[0]))
    ensures |sheets| == 1 && r.Ok? ==> r.value == Some(fs[sheets[0]].rows)
    ensures |sheets| > 1 ==> (r.Ok? <==> CombineSheets(fs, sheets, out).Ok?)
    ensures |sheets| > 1 && r.Ok? ==> r.value == Some(CombineSheets(fs, sheets, out).value)
  {
    if |sheets| > 1 then
      var rows :- CombineSheets(fs, sheets, out);
      Ok(Some(rows))
    else if |sheets| == 1 then
      var rows :- ReadRows(fs, sheets[0]);
      Ok(Some(rows))
    else Ok(None)
  }

  /** A write turn that succeeded and produced a file. */
  predicate Writes(w: Result<Option<seq<Row>>, Error>) {
    w.Ok? && w.value.Some?
  }

  /** `m` holds exactly the files the turns for `keys` produced. */
  ghost predicate Wrote(keys: seq<string>, folder: Path, write: string -> Result<Option<seq<Row>>, Error>,
                        m: map<Path, seq<Row>>) {
    && (forall out :: out in m <==> exists i :: 0 <= i < |keys| && Writes(write(keys[i])) && out == OutputPath(folder, keys[i]))
    && (forall i :: 0 <= i < |keys| && Writes(write(keys[i])) ==>
          OutputPath(folder, keys[i]) in m && m[OutputPath(folder, keys[i])] == write(keys[i]).value.value)
  }

  lemma WroteStep(keys: seq<string>, folder: Path, write: string -> Result<Option<seq<Row>>, Error>,
                  m: map<Path, seq<Row>>)
    requires |keys| > 0
    requires forall i, j :: 0 <= i < j < |keys| ==> keys[i] != keys[j]
    requires Wrote(keys[..|keys| - 1], folder, write, m)
    requires write(keys[|keys| - 1]).Ok?
    ensures var k := keys[|keys| - 1];
            var w := write(k).value;
            Wrote(keys, folder, write, if w.Some? then m[OutputPath(folder, k) := w.value] else m)
  {
    var init := keys[..|keys| - 1];
    var k := keys[|keys| - 1];
    var out := OutputPath(folder, k);
    assert forall i :: 0 <= i < |init| ==> init[i] == keys[i];
    forall i | 0 <= i < |init| ensures OutputPath(folder, init[i]) != out {
      if OutputPath(folder, init[i]) == out {
        OutputPathInjective(folder, init[i], k);
      }
    }
  }

  /** The loop of `write_organized_samplesheets` over the keys in dict
      order, where `write(k)` is the turn for key `k`; the first failing turn
      aborts the loop. The result maps each written path to its rows. */
  function WriteKeys(keys: seq<string>, folder: Path, write: string -> Result<Option<seq<Row>>, Error>)
    : (r: Result<map<Path, seq<Row>>, Error>)
    requires forall i, j :: 0 <= i < j < |keys| ==> keys[i] != keys[j]
    ensures r.Ok? <==> forall i :: 0 <= i < |keys| ==> write(keys[i]).Ok?
    ensures r.Ok? ==> Wrote(keys, folder, write, r.value)
    decreases |keys|
  {
    if |keys| == 0 then Ok(map[])
    else
      var init := keys[..|keys| - 1];
      var k := keys[|keys| - 1];
      assert forall i :: 0 <= i < |init| ==> init[i] == keys[i];
      var written :- WriteKeys(init, folder, write);
      var w :- write(k);
      WroteStep(keys, folder, write, written);
      if w.Some? then Ok(written[OutputPath(folder, k) := w.value]) else Ok(written)
  }

  /** The bucket of a key, empty for a key the dict lacks. */
  function BucketOf(org: Organized, k: string): seq<Path> {
    if k in org.buckets then org.buckets[k] else []
  }

  /** `write_organized_samplesheets`: one file per date key with sheets,
      named after the key, in the given output folder, holding what
      `WriteBucket` makes of that key's sheets (a verbatim copy of a single
      sheet, a merge of several); an empty bucket writes nothing. */
  function WriteOrganized(fs: Tree, org: Organized, folder: Path): (r: Result<map<Path, seq<Row>>, Error>)
    requires org.Valid()
    ensures r.Ok? <==> forall k :: k in org.buckets ==> WriteBucket(fs, org.buckets[k], OutputPath(folder, k)).Ok?
    ensures r.Ok? ==> forall out :: out in r.value <==>
              exists k :: k in org.buckets && |org.buckets[k]| > 0 && out == OutputPath(folder, k)
    ensures r.Ok? ==> forall k :: k in org.buckets && |org.buckets[k]| > 0 ==>
              && WriteBucket(fs, org.buckets[k], OutputPath(folder, k)).Ok?
              && WriteBucket(fs, org.buckets[k], OutputPath(folder, k)).value.Some?
              && OutputPath(folder, k) in r.value
              && r.value[OutputPath(folder, k)] == WriteBucket(fs, org.buckets[k], OutputPath(folder, k)).value.value
  {
    var write := k => WriteBucket(fs, BucketOf(org, k), OutputPath(folder, k));
    var r := WriteKeys(org.keys, folder, write);
    assert forall k :: k in org.buckets ==> write(k) == WriteBucket(fs, org.buckets[k], OutputPath(folder, k));
    KeysOfOrganized(org);
    if r.Ok? then
      WroteByKey(org, folder, write, r.value);
      r
    else r
  }

  lemma KeysOfOrganized(org: Organized)
    requires org.Valid()
    ensures forall k :: k in org.buckets <==> exists i :: 0 <= i < |org.keys| && org.keys[i] == k
  {
  }

  /** The files written for a dict's keys, by key rather than by position. */
  lemma WroteByKey(org: Organized, folder: Path, write: string -> Result<Option<seq<Row>>, Error>,
                   m: map<Path, seq<Row>>)
    requires org.Valid() && Wrote(org.keys, folder, write, m)
    ensures forall out :: out in m <==> exists k :: k in org.buckets && Writes(write(k)) && out == OutputPath(folder, k)
    ensures forall k :: k in org.buckets && Writes(write(k)) ==>
              OutputPath(folder, k) in m && m[OutputPath(folder, k)] == write(k).value.value
  {
    KeysOfOrganized(org);
    forall k | k in org.buckets && Writes(write(k))
      ensures OutputPath(folder, k) in m && m[OutputPath(folder, k)] == write(k).value.value
    {
      var i :| 0 <= i < |org.keys| && org.keys[i] == k;
    }
  }
}
