/** `pathlib.PurePosixPath` as far as the scraper uses it: joining with `/`,
    `.parent`, `.name`, ordering, `str(path)` and `Path(text)`. */
module Paths {
  import opened Text
  import opened Order

  /** A path is an absolute-or-relative list of components. */
  datatype Path = Path(absolute: bool, parts: seq<string>)

  /** `Path('.')`, the working directory. */
  const WorkingDir: Path := Path(false, [])

  /** `folder / name` */
  function Join(folder: Path, name: string): Path {
    Path(folder.absolute, folder.parts + [name])
  }

  /** `path.parent`; the parent of `/` is `/`, of `.` is `.`. */
  function Parent(p: Path): Path {
    if |p.parts| == 0 then p else Path(p.absolute, p.parts[..|p.parts| - 1])
  }

  /** `path.name`; empty for `/` and `.`. */
  function Name(p: Path): string {
    if |p.parts| == 0 then "" else p.parts[|p.parts| - 1]
  }

  lemma JoinInverse(folder: Path, name: string)
    ensures Parent(Join(folder, name)) == folder
    ensures Name(Join(folder, name)) == name
  {
    assert (folder.parts + [name])[..|folder.parts|] == folder.parts;
  }

  /** `folder / name` determines both `folder` and `name`. */
  lemma JoinInjective(f1: Path, n1: string, f2: Path, n2: string)
    requires Join(f1, n1) == Join(f2, n2)
    ensures f1 == f2 && n1 == n2
  {
    JoinInverse(f1, n1);
    JoinInverse(f2, n2);
  }

  /** Python's ordering of posix paths: component lists compared
      lexicographically, each component compared as a `str`. Between an
      absolute and a relative path Python's order depends on its version:
      up to 3.11 the absolute path's leading `/` part is compared with the
      relative path's first component; from 3.12 the key is the text split
      on `/`, whose empty first part puts absolute paths first. This model
      follows neither and puts relative paths first. */
  predicate PathLess(a: Path, b: Path) {
    if a.absolute == b.absolute then LexLess(a.parts, b.parts, StrLess)
    else !a.absolute
  }

  lemma PathLessIrreflexive(a: Path)
    ensures !PathLess(a, a)
  {
    StrLessStrictTotal();
    LexIrreflexive(a.parts, StrLess);
  }

  lemma PathLessTransitive(a: Path, b: Path, c: Path)
    requires PathLess(a, b) && PathLess(b, c)
    ensures PathLess(a, c)
  {
    if a.absolute == b.absolute == c.absolute {
      StrLessStrictTotal();
      LexTransitive(a.parts, b.parts, c.parts, StrLess);
    }
  }

  lemma PathLessAsymmetric(a: Path, b: Path)
    ensures !(PathLess(a, b) && PathLess(b, a))
  {
    PathLessIrreflexive(a);
    forall c | PathLess(a, b) && PathLess(b, c) ensures PathLess(a, c) {
      PathLessTransitive(a, b, c);
    }
  }

  lemma PathLessTotal(a: Path, b: Path)
    requires a != b
    ensures PathLess(a, b) || PathLess(b, a)
  {
    if a.absolute == b.absolute {
      StrLessStrictTotal();
      LexTotal(a.parts, b.parts, StrLess);
    }
  }

  /** Components that `Path(text)` would never produce: empty, `.`, or
      holding a separator. */
  predicate GoodComponent(s: string) {
    |s| > 0 && s != "." && '/' !in s
  }

  /** A path that `str()` renders and `Path()` reads back unchanged. */
  predicate WellFormed(p: Path) {
    forall i :: 0 <= i < |p.parts| ==> GoodComponent(p.parts[i])
  }

  /** `str(path)` */
  function Render(p: Path): string {
    if p.absolute then "/" + JoinOn(p.parts, '/')
    else if |p.parts| == 0 then "."
    else JoinOn(p.parts, '/')
  }

  /** The components `Path(text)` keeps: empty and `.` pieces are dropped. */
  function Components(pieces: seq<string>): (r: seq<string>)
    ensures forall i :: 0 <= i < |r| ==> r[i] != "" && r[i] != "." && r[i] in pieces
  {
    if |pieces| == 0 then []
    else if pieces[0] == "" || pieces[0] == "." then Components(pieces[1..])
    else [pieces[0]] + Components(pieces[1..])
  }

  /** `Path(text)` on a posix system. A leading `//`, which Python keeps as
      a distinct root, is read like a single `/`. */
  function Parse(text: string): Path {
    Path(|text| > 0 && text[0] == '/', Components(Split(text, '/')))
  }

  /** An empty line reads as `.`, the working directory, and `.` is
      written and read back as itself. */
  lemma EmptyIsWorkingDir()
    ensures Parse("") == WorkingDir
    ensures Parse(Render(WorkingDir)) == WorkingDir
  {
    assert Split("", '/') == [""];
    assert Split(".", '/') == ["."];
  }

  lemma {:induction false} ComponentsKeepsGood(pieces: seq<string>)
    requires forall i :: 0 <= i < |pieces| ==> GoodComponent(pieces[i])
    ensures Components(pieces) == pieces
    decreases |pieces|
  {
    if |pieces| > 0 {
      ComponentsKeepsGood(pieces[1..]);
      assert [pieces[0]] + pieces[1..] == pieces;
    }
  }

  lemma JoinStartsWithFirst(parts: seq<string>, c: char)
    requires |parts| > 0 && |parts[0]| > 0
    ensures |JoinOn(parts, c)| > 0 && JoinOn(parts, c)[0] == parts[0][0]
  {
  }

  /** Reading back a rendered well-formed path gives the same path. */
  lemma ParseRender(p: Path)
    requires WellFormed(p)
    ensures Parse(Render(p)) == p
  {
    if p.absolute && |p.parts| == 0 {
      assert JoinOn(["", ""], '/') == Render(p);
      SplitJoin(["", ""], '/');
    } else if p.absolute {
      var pieces := [""] + p.parts;
      assert pieces[1..] == p.parts;
      assert JoinOn(pieces, '/') == Render(p);
      SplitJoin(pieces, '/');
      assert pieces[1..] == p.parts;
      ComponentsKeepsGood(p.parts);
    } else if |p.parts| == 0 {
      SplitJoin(["."], '/');
    } else {
      SplitJoin(p.parts, '/');
      ComponentsKeepsGood(p.parts);
      JoinStartsWithFirst(p.parts, '/');
    }
  }
}
