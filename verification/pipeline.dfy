/** `SampleSheetFinder.run`: read the index, locate the sheets, drop those
    already indexed, group the rest by date, write one output per date, and
    append the newly processed sheets to the index. */
module Pipeline {
  import opened Results
  import opened Text
  import opened Paths
  import opened FileSystem
  import opened Locator
  import opened Dedup
  import opened Organizer
  import opened Merger
  import opened PathIndex

  /** What a successful run computed and produced. */
  datatype Outcome = Outcome(
    located: Located,                  // the expected-location scan
    selected: seq<Path>,               // the sheets not yet indexed
    organized: Organized,              // the selection grouped by date
    written: map<Path, seq<Row>>,      // the output files and their rows
    index: string                      // the index file's new text
  )

  /** The folder the per-date outputs go to. */
  function FilesFolder(outputFolder: Path): Path {
    Join(outputFolder, "files")
  }

  /** `run(root_folder)`, in the order of its steps. Each step that can
      raise aborts the run, so the index is appended to only after every
      output has been written. `indexFile` is the index file's text (`None`
      when missing) and `resolve` stands for `Path.resolve`. */
  function Run(fs: Tree, root: Path, indexFile: Option<string>, outputFolder: Path, resolve: Path -> Path)
    : (r: Result<Outcome, Error>)
    ensures r.Ok? <==>
              && GetExpectedFiles(fs, root).Ok?
              && var sel := FilterSheets(fs, GetExpectedFiles(fs, root).value.defined, ReadIndex(indexFile));
                 sel.Ok? && WriteOrganized(fs, Organize(sel.value), FilesFolder(outputFolder)).Ok?
    ensures r.Ok? ==>
              && r.value.located == GetExpectedFiles(fs, root).value
              && r.value.selected == Unmatched(fs, r.value.located.defined, ReadIndex(indexFile))
              && r.value.organized == Organize(r.value.selected)
              && r.value.written == WriteOrganized(fs, r.value.organized, FilesFolder(outputFolder)).value
              && r.value.index == AppendIndex(indexFile, r.value.selected, resolve)
  {
    var index := ReadIndex(indexFile);
    var located :- GetExpectedFiles(fs, root);
    var selected :- FilterSheets(fs, located.defined, index);
    var organized := Organize(selected);
    var written :- WriteOrganized(fs, organized, FilesFolder(outputFolder));
    Ok(Outcome(located, selected, organized, written, AppendIndex(indexFile, selected, resolve)))
  }

  /** Every newly selected sheet ends up in the output file of its run
      folder's date. */
  lemma SelectedHaveOutputs(fs: Tree, root: Path, indexFile: Option<string>, outputFolder: Path,
                            resolve: Path -> Path, p: Path)
    requires Run(fs, root, indexFile, outputFolder, resolve).Ok?
    requires p in Run(fs, root, indexFile, outputFolder, resolve).value.selected
    ensures OutputPath(FilesFolder(outputFolder), DateKey(p)) in Run(fs, root, indexFile, outputFolder, resolve).value.written
  {
    var o := Run(fs, root, indexFile, outputFolder, resolve).value;
    assert DateKey(p) in o.organized.buckets && p in o.organized.buckets[DateKey(p)];
  }

  /** `resolve` names the same file as its argument, as a well-formed
      path that reads back as one line of the index: its text holds
      neither `\n` nor `\r` (`PathIndex.CarriageReturnSplits` shows what
      a `\r` does). */
  ghost predicate Resolves(fs: Tree, resolve: Path -> Path, ps: seq<Path>) {
    forall p :: p in ps ==>
      && Identical(fs, p, resolve(p))
      && WellFormed(resolve(p))
      && OneLine(Render(resolve(p)))
  }

  /** An extended index still holds every earlier entry, and holds each new
      sheet's resolved path. */
  lemma ExtendsKeeps(before: seq<Path>, after: seq<Path>, paths: seq<Path>, resolve: Path -> Path)
    requires Extends(before, after, paths, resolve)
    ensures forall q :: q in before ==> q in after
    ensures forall p :: p in paths ==> resolve(p) in after
  {
    forall q | q in before ensures q in after {
      var i :| 0 <= i < |before| && before[i] == q;
      if i < |before| - 1 {
        assert after[..|before| - 1][i] == before[..|before| - 1][i];
      } else {
        assert after[|after| - 1] == q;
      }
    }
    forall p | p in paths ensures resolve(p) in after {
      var k :| 0 <= k < |paths| && paths[k] == p;
      assert after[|before| - 1 + k] == resolve(p);
    }
  }

  /** Once the index holds every earlier entry and every newly selected
      sheet's resolved path, each candidate is named by some entry. */
  lemma AllIndexed(fs: Tree, cands: seq<Path>, before: seq<Path>, after: seq<Path>, resolve: Path -> Path)
    requires Resolves(fs, resolve, Unmatched(fs, cands, before))
    requires forall q :: q in before ==> q in after
    requires forall p :: p in Unmatched(fs, cands, before) ==> resolve(p) in after
    ensures forall c :: c in cands ==> !Unindexed(fs, c, after)
  {
    forall c | c in cands ensures !Unindexed(fs, c, after) {
      UnmatchedExactly(fs, cands, before, c);
      if Unindexed(fs, c, before) {
        var k :| 0 <= k < |after| && after[k] == resolve(c);
        assert Identical(fs, c, after[k]);
      } else {
        var j :| 0 <= j < |before| && Identical(fs, c, before[j]);
        assert before[j] in before;
        var k :| 0 <= k < |after| && after[k] == before[j];
        assert Identical(fs, c, after[k]);
      }
    }
  }

  /** When every candidate is indexed and every path involved exists, the
      filter keeps nothing and cannot fail. */
  lemma NoneLeft(fs: Tree, cands: seq<Path>, indexed: seq<Path>)
    requires forall c :: c in cands ==> c in fs && !Unindexed(fs, c, indexed)
    requires forall q :: q in indexed ==> q in fs
    ensures FilterSheets(fs, cands, indexed) == Ok([])
  {
    assert !SomeScanFails(fs, cands, indexed) by {
      forall i | 0 <= i < |cands| ensures !ScanFails(fs, cands[i], indexed) {
        assert cands[i] in cands;
        assert forall j :: 0 <= j < |indexed| ==> indexed[j] in indexed;
      }
    }
    UnmatchedNone(fs, cands, indexed);
  }

  lemma {:induction false} UnmatchedNone(fs: Tree, cands: seq<Path>, indexed: seq<Path>)
    requires forall c :: c in cands ==> !Unindexed(fs, c, indexed)
    ensures Unmatched(fs, cands, indexed) == []
    decreases |cands|
  {
    if |cands| > 0 {
      var init := cands[..|cands| - 1];
      assert forall c :: c in init ==> c in cands;
      assert cands[|cands| - 1] in cands;
      UnmatchedNone(fs, init, indexed);
    }
  }

  /** An empty selection has no dates, so nothing is written. */
  lemma OrganizeNothing()
    ensures Organize([]).buckets == map[]
  {
    assert Group([], DateKey).buckets == map[];
  }

  /** Running again on an unchanged tree, with the index the first run
      left, selects nothing: every sheet is either one the earlier index
      already named or one the first run appended. It needs the earlier
      index's paths to exist, since `samefile` raises on a missing one, and
      a consistent tree, whose working directory the final `.` names. */
  lemma RerunSelectsNothing(fs: Tree, root: Path, indexFile: Option<string>, outputFolder: Path,
                            resolve: Path -> Path)
    requires Consistent(fs)
    requires EndsWithNewline(Prior(indexFile))
    requires forall q :: q in ReadIndex(indexFile) ==> q in fs
    requires Run(fs, root, indexFile, outputFolder, resolve).Ok?
    requires Resolves(fs, resolve, Run(fs, root, indexFile, outputFolder, resolve).value.selected)
    ensures var again := Run(fs, root, Some(Run(fs, root, indexFile, outputFolder, resolve).value.index), outputFolder, resolve);
            again.Ok? && again.value.selected == []
  {
    var o := Run(fs, root, indexFile, outputFolder, resolve).value;
    var defined := o.located.defined;
    var after := ReadIndex(Some(o.index));
    assert forall c :: c in defined ==> c in fs;
    UpdatedIndexMatches(fs, defined, indexFile, resolve);
    UpdatedIndexExists(fs, defined, indexFile, resolve);
    NoneLeft(fs, defined, after);
    NothingNewSelectsNothing(fs, root, Some(o.index), outputFolder, resolve);
  }

  /** On a consistent tree, an index whose earlier paths all exist still
      names only existing paths after the update: the new entries are
      resolved sheets, and the final `.` is the working directory. */
  lemma UpdatedIndexExists(fs: Tree, cands: seq<Path>, indexFile: Option<string>, resolve: Path -> Path)
    requires Consistent(fs)
    requires EndsWithNewline(Prior(indexFile))
    requires forall q :: q in ReadIndex(indexFile) ==> q in fs
    requires Resolves(fs, resolve, Unmatched(fs, cands, ReadIndex(indexFile)))
    ensures var after := ReadIndex(Some(AppendIndex(indexFile, Unmatched(fs, cands, ReadIndex(indexFile)), resolve)));
            forall q :: q in after ==> q in fs
  {
    var selected := Unmatched(fs, cands, ReadIndex(indexFile));
    var after := ReadIndex(Some(AppendIndex(indexFile, selected, resolve)));
    var b := ReadIndex(Some(Prior(indexFile)));
    IndexReadBack(indexFile, selected, resolve);
    EmptyIsWorkingDir();
    assert forall q :: q in b ==> q in fs by {
      if indexFile.None? {
        assert Split("", '\n') == [""];
      }
    }
    ExtendsExists(fs, b, after, selected, resolve);
  }

  /** An extended index names only existing paths when the earlier one did,
      each new entry exists, and so does the final `.`. */
  lemma ExtendsExists(fs: Tree, before: seq<Path>, after: seq<Path>, paths: seq<Path>, resolve: Path -> Path)
    requires Extends(before, after, paths, resolve)
    requires forall q :: q in before ==> q in fs
    requires forall p :: p in paths ==> resolve(p) in fs
    ensures forall q :: q in after ==> q in fs
  {
    forall q | q in after ensures q in fs {
      var k :| 0 <= k < |after| && after[k] == q;
      if k < |before| - 1 {
        assert after[k] == before[k];
      } else if k < |before| - 1 + |paths| {
        assert q == resolve(paths[k - (|before| - 1)]);
      } else {
        assert q == before[|before| - 1];
      }
    }
  }

  /** After the update, the index names every candidate: those it named
      before, and those the run selected and appended. */
  lemma UpdatedIndexMatches(fs: Tree, cands: seq<Path>, indexFile: Option<string>, resolve: Path -> Path)
    requires EndsWithNewline(Prior(indexFile))
    requires Resolves(fs, resolve, Unmatched(fs, cands, ReadIndex(indexFile)))
    ensures var after := ReadIndex(Some(AppendIndex(indexFile, Unmatched(fs, cands, ReadIndex(indexFile)), resolve)));
            forall c :: c in cands ==> !Unindexed(fs, c, after)
  {
    var before := ReadIndex(indexFile);
    var selected := Unmatched(fs, cands, before);
    var after := ReadIndex(Some(AppendIndex(indexFile, selected, resolve)));
    var b := ReadIndex(Some(Prior(indexFile)));
    IndexReadBack(indexFile, selected, resolve);
    ExtendsKeeps(b, after, selected, resolve);
    assert forall q :: q in before ==> q in b;
    AllIndexed(fs, cands, before, after, resolve);
  }

  /** A run whose filter keeps nothing succeeds, writes nothing and selects
      nothing. */
  lemma NothingNewSelectsNothing(fs: Tree, root: Path, indexFile: Option<string>, outputFolder: Path,
                                 resolve: Path -> Path)
    requires GetExpectedFiles(fs, root).Ok?
    requires FilterSheets(fs, GetExpectedFiles(fs, root).value.defined, ReadIndex(indexFile)) == Ok([])
    ensures Run(fs, root, indexFile, outputFolder, resolve).Ok?
    ensures Run(fs, root, indexFile, outputFolder, resolve).value.selected == []
    ensures Run(fs, root, indexFile, outputFolder, resolve).value.written == map[]
  {
    OrganizeNothing();
  }
}
