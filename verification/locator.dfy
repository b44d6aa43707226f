/** Finding sample sheets: the expected-location scan of the sheet finder
    (`SampleSheetFinder.get_expected_files`) and the depth-bounded tree
    search of the older scraper (`search_for_sample_sheets`). */
module Locator {
  import opened Results
  import opened Paths
  import opened FileSystem

  const SheetName: string := "SampleSheet.csv"

  /** `get_expected_filename`: where a run folder keeps its sheet. */
  function ExpectedFilename(folder: Path): Path {
    Join(folder, SheetName)
  }

  /** Sheets found where they are expected, and the folders lacking one. */
  datatype Located = Located(defined: seq<Path>, missing: seq<Path>)

  /** Is `p` some folder's expected sheet path? */
  predicate IsExpectedFilename(p: Path) {
    |p.parts| > 0 && Name(p) == SheetName
  }

  lemma ExpectedFilenameInverse(folder: Path)
    ensures IsExpectedFilename(ExpectedFilename(folder))
    ensures Parent(ExpectedFilename(folder)) == folder
  {
    JoinInverse(folder, SheetName);
  }

  /** The loop of `get_expected_files` over the entries `subs`: plain files
      are skipped; every other entry contributes either its expected sheet
      (when that path exists) or itself as a missing folder. */
  function Classify(fs: Tree, subs: seq<Path>): (l: Located)
    ensures forall p :: p in l.missing <==>
              p in subs && !IsFile(fs, p) && !Exists(fs, ExpectedFilename(p))
    ensures forall p :: p in l.defined <==>
              && IsExpectedFilename(p) && Exists(fs, p)
              && Parent(p) in subs && !IsFile(fs, Parent(p))
    decreases |subs|
  {
    if |subs| == 0 then Located([], [])
    else
      var init := subs[..|subs| - 1];
      var sub := subs[|subs| - 1];
      var before := Classify(fs, init);
      assert init + [sub] == subs;
      ClassifyOneMissing(fs, init, sub, before);
      ClassifyOneDefined(fs, init, sub, before);
      ClassifyOne(fs, before, sub)
  }

  /** One turn of that loop, for the entry `sub`. */
  function ClassifyOne(fs: Tree, before: Located, sub: Path): Located {
    if IsFile(fs, sub) then before
    else if Exists(fs, ExpectedFilename(sub)) then Located(before.defined + [ExpectedFilename(sub)], before.missing)
    else Located(before.defined, before.missing + [sub])
  }

  /** A turn adds the entry to the missing folders exactly when it is not a
      file and lacks its sheet. */
  lemma ClassifyOneMissing(fs: Tree, init: seq<Path>, sub: Path, before: Located)
    requires forall p :: p in before.missing <==>
               p in init && !IsFile(fs, p) && !Exists(fs, ExpectedFilename(p))
    ensures forall p :: p in ClassifyOne(fs, before, sub).missing <==>
              p in init + [sub] && !IsFile(fs, p) && !Exists(fs, ExpectedFilename(p))
  {
    assert forall p :: p in init + [sub] <==> p in init || p == sub;
  }

  /** A turn adds the entry's sheet to the defined sheets exactly when the
      entry is not a file and the sheet exists. */
  lemma ClassifyOneDefined(fs: Tree, init: seq<Path>, sub: Path, before: Located)
    requires forall p :: p in before.defined <==>
               && IsExpectedFilename(p) && Exists(fs, p)
               && Parent(p) in init && !IsFile(fs, Parent(p))
    ensures forall p :: p in ClassifyOne(fs, before, sub).defined <==>
              && IsExpectedFilename(p) && Exists(fs, p)
              && Parent(p) in init + [sub] && !IsFile(fs, Parent(p))
  {
    assert forall p :: p in init + [sub] <==> p in init || p == sub;
    ExpectedFilenameInverse(sub);
    assert forall p :: IsExpectedFilename(p) ==> p == ExpectedFilename(Parent(p));
  }

  /** Each non-file entry is classified exactly once, plain files never. */
  lemma ClassifyPartition(fs: Tree, subs: seq<Path>, sub: Path)
    requires sub in subs
    ensures IsFile(fs, sub) ==>
              sub !in Classify(fs, subs).missing && ExpectedFilename(sub) !in Classify(fs, subs).defined
    ensures !IsFile(fs, sub) ==>
              && (ExpectedFilename(sub) in Classify(fs, subs).defined <==> Exists(fs, ExpectedFilename(sub)))
              && (sub in Classify(fs, subs).missing <==> !Exists(fs, ExpectedFilename(sub)))
  {
    ExpectedFilenameInverse(sub);
  }

  /** `get_expected_files`: fails when the root is not a directory;
      otherwise every non-file entry of the root lands in exactly one of the
      two lists, and plain files in neither. */
  function GetExpectedFiles(fs: Tree, root: Path): (r: Result<Located, Error>)
    ensures r.Ok? <==> IsDir(fs, root)
    ensures r.Ok? ==> IsDir(fs, root) && forall sub :: sub in Children(fs, root) && IsFile(fs, sub) ==>
              sub !in r.value.missing && ExpectedFilename(sub) !in r.value.defined
    ensures r.Ok? ==> IsDir(fs, root) && forall sub :: sub in Children(fs, root) && !IsFile(fs, sub) ==>
              && (ExpectedFilename(sub) in r.value.defined <==> Exists(fs, ExpectedFilename(sub)))
              && (sub in r.value.missing <==> !Exists(fs, ExpectedFilename(sub)))
    ensures r.Ok? ==> forall p :: p in r.value.defined ==>
              IsExpectedFilename(p) && Exists(fs, p) && Parent(p) in Children(fs, root)
  {
    var subs :- IterDir(fs, root);
    var l := Classify(fs, subs);
    assert forall sub :: sub in subs ==>
      && (IsFile(fs, sub) ==> sub !in l.missing && ExpectedFilename(sub) !in l.defined)
      && (!IsFile(fs, sub) ==>
          && (ExpectedFilename(sub) in l.defined <==> Exists(fs, ExpectedFilename(sub)))
          && (sub in l.missing <==> !Exists(fs, ExpectedFilename(sub))))
    by {
      forall sub | sub in subs {
        ClassifyPartition(fs, subs, sub);
      }
    }
    Ok(l)
  }

  // ---------------------------------------------------------------------
  // search_for_sample_sheets

  /** The recursion index beyond which the search stops. */
  const MaxIndex: int := 3

  /** The sheets found among the entries `es` of `folder` at recursion
      depth `index`, in entry order. */
  function Walk(fs: Tree, folder: Path, es: seq<string>, index: int): (r: seq<Path>)
    requires index <= MaxIndex
    ensures forall p :: p in r ==> Name(p) == SheetName && !IsDir(fs, p)
    decreases MaxIndex - index, |es|
  {
    if |es| == 0 then []
    else Found(fs, folder, es[0], index) + Walk(fs, folder, es[1..], index)
  }

  /** What one entry `e` of `folder` contributes: a subdirectory is searched
      one level deeper (nothing once the index would exceed the bound), a
      non-directory counts when it is named exactly `SampleSheet.csv`. */
  function Found(fs: Tree, folder: Path, e: string, index: int): (r: seq<Path>)
    requires index <= MaxIndex
    ensures forall p :: p in r ==> Name(p) == SheetName && !IsDir(fs, p)
    decreases MaxIndex - index, 0
  {
    var child := Join(folder, e);
    JoinInverse(folder, e);
    if IsDir(fs, child) then
      if index + 1 > MaxIndex then [] else Walk(fs, child, fs[child].entries, index + 1)
    else if e == SheetName then [child]
    else []
  }

  /** `search_for_sample_sheets(folder, index)`: with an index above three
      it returns an empty list at once; otherwise `folder.iterdir()` must
      succeed, and only non-directories named exactly `SampleSheet.csv` are
      returned. */
  function Search(fs: Tree, folder: Path, index: int): (r: Result<seq<Path>, Error>)
    ensures index > MaxIndex ==> r == Ok([])
    ensures index <= MaxIndex ==> (r.Ok? <==> IsDir(fs, folder))
    ensures r.Ok? ==> forall p :: p in r.value ==> Name(p) == SheetName && !IsDir(fs, p)
  {
    if index > MaxIndex then Ok([])
    else
      var _ :- IterDir(fs, folder);
      Ok(Walk(fs, folder, fs[folder].entries, index))
  }

  /** Step `k` of the way to `p`: its first `k` components name a
      directory that lists component `k`. */
  ghost predicate Step(fs: Tree, p: Path, k: nat)
    requires k < |p.parts|
  {
    var dir := Path(p.absolute, p.parts[..k]);
    IsDir(fs, dir) && p.parts[k] in fs[dir].entries
  }

  /** `p` is a non-directory named `SampleSheet.csv` lying below `folder`
      at most `depth` levels down, every component after the first being
      listed by the directory before it. */
  ghost predicate Within(fs: Tree, folder: Path, p: Path, depth: int) {
    var n := |folder.parts|;
    && p.absolute == folder.absolute
    && n < |p.parts| <= n + depth
    && p.parts[..n] == folder.parts
    && Name(p) == SheetName && !IsDir(fs, p)
    && forall k :: n < k < |p.parts| ==> Step(fs, p, k)
  }

  /** As `Within`, and the first component is listed by `folder` itself. */
  ghost predicate Below(fs: Tree, folder: Path, p: Path, depth: int) {
    Within(fs, folder, p, depth) && Step(fs, p, |folder.parts|)
  }

  /** A path below `folder` whose next component is `e` starts with `folder / e`. */
  lemma WithinThrough(fs: Tree, folder: Path, e: string, p: Path, depth: int)
    requires Within(fs, folder, p, depth) && p.parts[|folder.parts|] == e
    ensures Path(p.absolute, p.parts[..|folder.parts| + 1]) == Join(folder, e)
    ensures |p.parts| == |folder.parts| + 1 ==> p == Join(folder, e)
    ensures |p.parts| > |folder.parts| + 1 ==> IsDir(fs, Join(folder, e))
  {
    var n := |folder.parts|;
    assert p.parts[..n + 1] == p.parts[..n] + [p.parts[n]];
    if |p.parts| > n + 1 {
      assert Step(fs, p, n + 1);
    }
  }

  lemma {:induction false} FoundInDir(fs: Tree, folder: Path, e: string, index: int, p: Path)
    requires index < MaxIndex && IsDir(fs, Join(folder, e))
    ensures p in Found(fs, folder, e, index) <==>
              Within(fs, folder, p, MaxIndex + 1 - index) && p.parts[|folder.parts|] == e
    decreases MaxIndex - index, 0
  {
    var n := |folder.parts|;
    var child := Join(folder, e);
    var depth := MaxIndex + 1 - index;
    WalkExactly(fs, child, fs[child].entries, index + 1, p);
    assert Found(fs, folder, e, index) == Walk(fs, child, fs[child].entries, index + 1);
    if Within(fs, folder, p, depth) && p.parts[n] == e {
      WithinThrough(fs, folder, e, p, depth);
      assert |p.parts| > n + 1;
      assert Step(fs, p, n + 1);
      assert p.parts[..n + 1] == child.parts;
      assert p.parts[..n + 1][..n] == p.parts[..n];
      assert Within(fs, child, p, depth - 1);
    }
    if Within(fs, child, p, depth - 1) && p.parts[n + 1] in fs[child].entries {
      assert p.parts[..n + 1] == child.parts;
      assert p.parts[..n] == child.parts[..n];
      assert p.parts[n] == child.parts[n];
      assert Path(p.absolute, p.parts[..n + 1]) == child;
      assert Step(fs, p, n + 1);
      assert Within(fs, folder, p, depth);
    }
  }

  lemma FoundInDirAtBound(fs: Tree, folder: Path, e: string, p: Path)
    requires IsDir(fs, Join(folder, e))
    ensures p !in Found(fs, folder, e, MaxIndex)
    ensures !(Within(fs, folder, p, 1) && p.parts[|folder.parts|] == e)
  {
    if Within(fs, folder, p, 1) && p.parts[|folder.parts|] == e {
      WithinThrough(fs, folder, e, p, 1);
    }
  }

  lemma FoundNotDir(fs: Tree, folder: Path, e: string, index: int, p: Path)
    requires index <= MaxIndex && !IsDir(fs, Join(folder, e))
    ensures p in Found(fs, folder, e, index) <==>
              Within(fs, folder, p, MaxIndex + 1 - index) && p.parts[|folder.parts|] == e
  {
    var n := |folder.parts|;
    var child := Join(folder, e);
    JoinInverse(folder, e);
    if Within(fs, folder, p, MaxIndex + 1 - index) && p.parts[n] == e {
      WithinThrough(fs, folder, e, p, MaxIndex + 1 - index);
    }
    if p in Found(fs, folder, e, index) {
      assert p == child;
      assert child.parts[..n] == folder.parts;
    }
  }

  lemma {:induction false} FoundExactly(fs: Tree, folder: Path, e: string, index: int, p: Path)
    requires index <= MaxIndex
    ensures p in Found(fs, folder, e, index) <==>
              Within(fs, folder, p, MaxIndex + 1 - index) && p.parts[|folder.parts|] == e
    decreases MaxIndex - index, 1
  {
    if !IsDir(fs, Join(folder, e)) {
      FoundNotDir(fs, folder, e, index, p);
    } else if index == MaxIndex {
      FoundInDirAtBound(fs, folder, e, p);
    } else {
      FoundInDir(fs, folder, e, index, p);
    }
  }

  lemma {:induction false} WalkExactly(fs: Tree, folder: Path, es: seq<string>, index: int, p: Path)
    requires index <= MaxIndex
    ensures p in Walk(fs, folder, es, index) <==>
              Within(fs, folder, p, MaxIndex + 1 - index) && p.parts[|folder.parts|] in es
    decreases MaxIndex - index, |es| + 2
  {
    if |es| > 0 {
      FoundExactly(fs, folder, es[0], index, p);
      WalkExactly(fs, folder, es[1..], index, p);
      assert forall x :: x in es <==> x == es[0] || x in es[1..];
    }
  }

  /** Completeness and soundness of the tree search: from a directory at
      recursion index `index`, it finds exactly the sheets at most
      `4 - index` levels down. */
  lemma SearchFindsExactly(fs: Tree, folder: Path, index: int, p: Path)
    requires index <= MaxIndex && IsDir(fs, folder)
    ensures Search(fs, folder, index).Ok?
    ensures p in Search(fs, folder, index).value <==> Below(fs, folder, p, MaxIndex + 1 - index)
  {
    var n := |folder.parts|;
    WalkExactly(fs, folder, fs[folder].entries, index, p);
    if Within(fs, folder, p, MaxIndex + 1 - index) {
      assert Path(p.absolute, p.parts[..n]) == folder;
    }
  }
}
