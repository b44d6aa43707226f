/** The dedup filter (`filter_samplesheets` in both scrapers): keeps the
    candidate sheets that are the same file as no indexed path, comparing
    file identity with `Path.samefile` rather than path text. */
module Dedup {
  import opened Results
  import opened Paths
  import opened FileSystem

  /** No indexed path names the same file as `c`. */
  ghost predicate Unindexed(fs: Tree, c: Path, indexed: seq<Path>) {
    forall j :: 0 <= j < |indexed| ==> !Identical(fs, c, indexed[j])
  }

  /** Scanning the index for `c` reaches a `samefile` call on a missing path
      before any match, so `samefile` raises FileNotFoundError. */
  ghost predicate ScanFails(fs: Tree, c: Path, indexed: seq<Path>) {
    exists j :: 0 <= j < |indexed| && (c !in fs || indexed[j] !in fs) && NoMatchBefore(fs, c, indexed, j)
  }

  ghost predicate NoMatchBefore(fs: Tree, c: Path, indexed: seq<Path>, j: int)
    requires 0 <= j <= |indexed|
  {
    forall i :: 0 <= i < j ==> !Identical(fs, c, indexed[i])
  }

  lemma ScanFailsCons(fs: Tree, c: Path, indexed: seq<Path>)
    requires |indexed| > 0
    ensures ScanFails(fs, c, indexed) <==>
              (c !in fs || indexed[0] !in fs) || (!Identical(fs, c, indexed[0]) && ScanFails(fs, c, indexed[1..]))
  {
    var tail := indexed[1..];
    if ScanFails(fs, c, indexed) {
      var j :| 0 <= j < |indexed| && (c !in fs || indexed[j] !in fs) && NoMatchBefore(fs, c, indexed, j);
      if j > 0 && c in fs && indexed[0] in fs {
        assert !Identical(fs, c, indexed[0]);
        assert NoMatchBefore(fs, c, tail, j - 1) by {
          forall i | 0 <= i < j - 1 ensures !Identical(fs, c, tail[i]) {
            assert tail[i] == indexed[i + 1];
          }
        }
        assert (c !in fs || tail[j - 1] !in fs);
      }
    }
    if c !in fs || indexed[0] !in fs {
      assert NoMatchBefore(fs, c, indexed, 0);
    } else if !Identical(fs, c, indexed[0]) && ScanFails(fs, c, tail) {
      var j :| 0 <= j < |tail| && (c !in fs || tail[j] !in fs) && NoMatchBefore(fs, c, tail, j);
      assert NoMatchBefore(fs, c, indexed, j + 1) by {
        forall i | 0 <= i < j + 1 ensures !Identical(fs, c, indexed[i]) {
          if i > 0 {
            assert indexed[i] == tail[i - 1];
          }
        }
      }
      assert indexed[j + 1] == tail[j];
    }
  }

  /** The inner loop for one candidate: `samefile` against each indexed
      path in order, stopping at the first match. */
  function MatchesAny(fs: Tree, c: Path, indexed: seq<Path>): (r: Result<bool, Error>)
    ensures r.Err? <==> ScanFails(fs, c, indexed)
    ensures r.Ok? ==> (r.value <==> !Unindexed(fs, c, indexed))
    decreases |indexed|
  {
    if |indexed| == 0 then Ok(false)
    else
      ScanFailsCons(fs, c, indexed);
      var same :- SameFile(fs, c, indexed[0]);
      if same then Ok(true)
      else
        var rest := MatchesAny(fs, c, indexed[1..]);
        assert forall j :: 1 <= j < |indexed| ==> indexed[j] == indexed[1..][j - 1];
        rest
  }

  /** The reference answer: the candidates that no indexed path names,
      in candidate order. */
  ghost function Unmatched(fs: Tree, cands: seq<Path>, indexed: seq<Path>): seq<Path>
    decreases |cands|
  {
    if |cands| == 0 then []
    else
      var last := cands[|cands| - 1];
      Unmatched(fs, cands[..|cands| - 1], indexed) + (if Unindexed(fs, last, indexed) then [last] else [])
  }

  /** The candidates `c` for which some scan fails. */
  ghost predicate SomeScanFails(fs: Tree, cands: seq<Path>, indexed: seq<Path>) {
    exists i :: 0 <= i < |cands| && ScanFails(fs, cands[i], indexed)
  }

  /** `filter_samplesheets`: raises when some candidate's scan reaches a
      missing path before a match; otherwise keeps exactly the candidates
      no indexed path names, in order. */
  function FilterSheets(fs: Tree, cands: seq<Path>, indexed: seq<Path>): (r: Result<seq<Path>, Error>)
    ensures r.Err? <==> SomeScanFails(fs, cands, indexed)
    ensures r.Ok? ==> r.value == Unmatched(fs, cands, indexed)
    decreases |cands|
  {
    if |cands| == 0 then Ok([])
    else
      var init := cands[..|cands| - 1];
      var last := cands[|cands| - 1];
      assert forall i :: 0 <= i < |init| ==> init[i] == cands[i];
      assert SomeScanFails(fs, cands, indexed) <==>
               SomeScanFails(fs, init, indexed) || ScanFails(fs, last, indexed);
      var kept :- FilterSheets(fs, init, indexed);
      var matched :- MatchesAny(fs, last, indexed);
      Ok(if matched then kept else kept + [last])
  }

  /** The filter is sound and complete: a candidate is kept exactly when no
      indexed path is the same file as it. */
  lemma {:induction false} UnmatchedExactly(fs: Tree, cands: seq<Path>, indexed: seq<Path>, c: Path)
    ensures c in Unmatched(fs, cands, indexed) <==> c in cands && Unindexed(fs, c, indexed)
    decreases |cands|
  {
    if |cands| > 0 {
      var init := cands[..|cands| - 1];
      UnmatchedExactly(fs, init, indexed, c);
      assert cands == init + [cands[|cands| - 1]];
    }
  }

  /** The kept candidates never outnumber the candidates. */
  lemma {:induction false} UnmatchedShorter(fs: Tree, cands: seq<Path>, indexed: seq<Path>)
    ensures |Unmatched(fs, cands, indexed)| <= |cands|
    decreases |cands|
  {
    if |cands| > 0 {
      UnmatchedShorter(fs, cands[..|cands| - 1], indexed);
    }
  }

  /** With an empty index nothing is compared, so everything is kept. */
  lemma {:induction false} EmptyIndexKeepsAll(fs: Tree, cands: seq<Path>)
    ensures FilterSheets(fs, cands, []) == Ok(cands)
    decreases |cands|
  {
    if |cands| > 0 {
      EmptyIndexKeepsAll(fs, cands[..|cands| - 1]);
      assert cands[..|cands| - 1] + [cands[|cands| - 1]] == cands;
    }
  }

  /** On a consistent tree the `.` entry every written index ends with never
      changes the filter: a sheet is a file and `.` a directory, so
      `samefile` answers no without raising. */
  lemma {:induction false} TrailingDotHarmless(fs: Tree, cands: seq<Path>, indexed: seq<Path>)
    requires Consistent(fs)
    requires forall i :: 0 <= i < |cands| ==> IsFile(fs, cands[i])
    ensures FilterSheets(fs, cands, indexed + [WorkingDir]) == FilterSheets(fs, cands, indexed)
    decreases |cands|
  {
    if |cands| > 0 {
      var init := cands[..|cands| - 1];
      var last := cands[|cands| - 1];
      TrailingDotHarmless(fs, init, indexed);
      MatchesAnySnoc(fs, last, indexed, WorkingDir);
    }
  }

  /** A last index entry that exists and is not the candidate's file changes
      neither the answer nor the error of the scan. */
  lemma {:induction false} MatchesAnySnoc(fs: Tree, c: Path, indexed: seq<Path>, q: Path)
    requires c in fs && q in fs && !Identical(fs, c, q)
    ensures MatchesAny(fs, c, indexed + [q]) == MatchesAny(fs, c, indexed)
    decreases |indexed|
  {
    var s := indexed + [q];
    if |indexed| > 0 {
      assert s[0] == indexed[0] && s[1..] == indexed[1..] + [q];
      MatchesAnySnoc(fs, c, indexed[1..], q);
    } else {
      assert s[1..] == [];
    }
  }
}
