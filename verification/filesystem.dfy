/** An abstract, read-only filesystem. Each node carries the identity that
    `os.stat` reports (device and inode): two paths naming the same node
    (a symlink and its target, two hard links) share it. A file's content is
    its CSV rows, already split into cells. */
module FileSystem {
  import opened Results
  import opened Paths

  /** One CSV row: its cells, in order. A blank line is the empty row. */
  type Row = seq<string>

  datatype Node =
    | File(id: nat, rows: seq<Row>)
    | Dir(id: nat, entries: seq<string>)

  /** Every path that exists, with what it names. The program only ever
      sees trees that are `Consistent`; the lemmas that need it say so. */
  type Tree = map<Path, Node>

  /** A tree as a running Python process sees it: the working directory
      exists and is a directory, and one stat identity names one node. */
  ghost predicate Consistent(fs: Tree) {
    && IsDir(fs, WorkingDir)
    && forall a, b :: a in fs && b in fs && fs[a].id == fs[b].id ==> fs[a] == fs[b]
  }

  /** The Python exceptions the core can raise. */
  datatype Error =
    | FileNotFound(path: Path)     // FileNotFoundError
    | NotADirectory(path: Path)    // NotADirectoryError from `iterdir`
    | IsADirectory(path: Path)     // IsADirectoryError from `open`
    | ExtraColumns(path: Path)     // ValueError from csv.DictWriter

  /** `path.exists()` */
  predicate Exists(fs: Tree, p: Path) {
    p in fs
  }

  /** `path.is_file()` */
  predicate IsFile(fs: Tree, p: Path) {
    p in fs && fs[p].File?
  }

  /** `path.is_dir()` */
  predicate IsDir(fs: Tree, p: Path) {
    p in fs && fs[p].Dir?
  }

  /** The paths `folder.iterdir()` yields, in directory order. */
  function Children(fs: Tree, folder: Path): (r: seq<Path>)
    requires IsDir(fs, folder)
    ensures |r| == |fs[folder].entries|
    ensures forall i :: 0 <= i < |r| ==> r[i] == Join(folder, fs[folder].entries[i])
  {
    seq(|fs[folder].entries|, i requires 0 <= i < |fs[folder].entries| => Join(folder, fs[folder].entries[i]))
  }

  /** `folder.iterdir()`, which fails on a missing path or a plain file. */
  function IterDir(fs: Tree, folder: Path): (r: Result<seq<Path>, Error>)
    ensures r.Ok? <==> IsDir(fs, folder)
  {
    if folder !in fs then Err(FileNotFound(folder))
    else if fs[folder].File? then Err(NotADirectory(folder))
    else Ok(Children(fs, folder))
  }

  /** Reading a file's rows, which fails on a missing path or a directory. */
  function ReadRows(fs: Tree, p: Path): (r: Result<seq<Row>, Error>)
    ensures r.Ok? <==> IsFile(fs, p)
  {
    if p !in fs then Err(FileNotFound(p))
    else if fs[p].Dir? then Err(IsADirectory(p))
    else Ok(fs[p].rows)
  }

  /** Both paths exist and name the same node. */
  ghost predicate Identical(fs: Tree, a: Path, b: Path) {
    a in fs && b in fs && fs[a].id == fs[b].id
  }

  /** `a.samefile(b)`: compares the `stat` identities of the two paths and
      fails when either does not exist. */
  function SameFile(fs: Tree, a: Path, b: Path): (r: Result<bool, Error>)
    ensures r.Err? <==> a !in fs || b !in fs
    ensures r.Ok? ==> (r.value <==> Identical(fs, a, b))
  {
    if a !in fs then Err(FileNotFound(a))
    else if b !in fs then Err(FileNotFound(b))
    else Ok(fs[a].id == fs[b].id)
  }
}
