/** The index file (`read_index`, `update_index`, `write_index`): an
    append-only text file naming one already-processed sheet per line. */
module PathIndex {
  import opened Results
  import opened Text
  import opened Paths

  /** `read_index`: one path per line of the file, a missing file being an
      empty index. `read_text()` reads with universal newlines, so `\r\n`
      and a lone `\r` end a line too. The newline after the last entry
      leaves a final empty line, which `Path("")` reads as `.`. */
  function ReadIndex(file: Option<string>): (r: seq<Path>)
    ensures file.None? ==> r == []
    ensures file.Some? ==> |r| == |Split(Newlines(file.value), '\n')| && |r| >= 1
  {
    match file
    case None => []
    case Some(text) => ParseText(Newlines(text))
  }

  /** The entries of translated text: one path per `\n`-separated line. */
  function ParseText(text: string): (r: seq<Path>)
    ensures |r| == |Split(text, '\n')|
  {
    ParseLines(Split(text, '\n'))
  }

  /** `[Path(line) for line in lines]` */
  function ParseLines(lines: seq<string>): (r: seq<Path>)
    ensures |r| == |lines|
    ensures forall i :: 0 <= i < |lines| ==> r[i] == Parse(lines[i])
  {
    seq(|lines|, i requires 0 <= i < |lines| => Parse(lines[i]))
  }

  /** Parsing lines piecewise. */
  lemma ParseLinesAppend(a: seq<string>, b: seq<string>)
    ensures ParseLines(a + b) == ParseLines(a) + ParseLines(b)
  {
  }

  /** The lines `update_index` writes: each sheet's resolved path, in list
      order. */
  function IndexLines(paths: seq<Path>, resolve: Path -> Path): (r: seq<string>)
    ensures |r| == |paths|
    ensures forall i :: 0 <= i < |paths| ==> r[i] == Render(resolve(paths[i]))
  {
    seq(|paths|, i requires 0 <= i < |paths| => Render(resolve(paths[i])))
  }

  /** The file's text before the update; opening a missing file for
      appending creates it empty. */
  function Prior(file: Option<string>): string {
    match file
    case None => ""
    case Some(text) => text
  }

  /** `update_index` (and `write_index`): the index after appending `paths`,
      one line each. Nothing is ever removed or rewritten: the earlier text
      is a prefix of the new. */
  function AppendIndex(file: Option<string>, paths: seq<Path>, resolve: Path -> Path): (r: string)
    ensures |Prior(file)| <= |r| && r[..|Prior(file)|] == Prior(file)
    ensures |paths| == 0 ==> r == Prior(file)
  {
    Prior(file) + Terminated(IndexLines(paths, resolve), '\n')
  }

  /** The text is what this program writes: empty, or ending in a newline. */
  predicate EndsWithNewline(t: string) {
    t == "" || t[|t| - 1] == '\n'
  }

  /** `after` is the index `before` with `paths`, resolved, put in place of
      its final entry (the `.` of the final empty line), which comes last
      again. */
  predicate Extends(before: seq<Path>, after: seq<Path>, paths: seq<Path>, resolve: Path -> Path) {
    && |before| >= 1
    && |after| == |before| + |paths|
    && after[..|before| - 1] == before[..|before| - 1]
    && (forall i :: 0 <= i < |paths| ==> after[|before| - 1 + i] == resolve(paths[i]))
    && after[|after| - 1] == before[|before| - 1] == Parse("")
  }

  /** Reading the index back after an update: the earlier entries, then
      each new sheet's resolved path in order, then the `.` that the final
      empty line reads as. */
  lemma {:induction false} IndexReadBack(file: Option<string>, paths: seq<Path>, resolve: Path -> Path)
    requires EndsWithNewline(Prior(file))
    requires forall i :: 0 <= i < |paths| ==> WellFormed(resolve(paths[i])) && OneLine(Render(resolve(paths[i])))
    ensures Extends(ReadIndex(Some(Prior(file))), ReadIndex(Some(AppendIndex(file, paths, resolve))), paths, resolve)
  {
    var t := Prior(file);
    var lines := IndexLines(paths, resolve);
    var u := Newlines(t);
    assert Newlines(AppendIndex(file, paths, resolve)) == u + Terminated(lines, '\n') by {
      assert AppendIndex(file, paths, resolve) == t + Terminated(lines, '\n');
      NewlinesAppend(t, Terminated(lines, '\n'));
      TerminatedFree(lines, '\n');
      NewlinesFree(Terminated(lines, '\n'));
    }
    assert EndsWithNewline(u) by {
      if |t| > 0 {
        NewlinesKeepsEnd(t);
      }
    }
    LinesReadBack(paths, resolve);
    ExtendsAfterAppend(u, lines, paths, resolve);
  }

  /** Text that `read_text()` reads back as a single line: it holds neither
      `\n` nor `\r`. */
  predicate OneLine(s: string) {
    '\n' !in s && '\r' !in s
  }

  /** `Extends` for text that ends in a newline and lines that read back as
      the resolved paths. */
  lemma {:induction false} ExtendsAfterAppend(t: string, lines: seq<string>, paths: seq<Path>, resolve: Path -> Path)
    requires EndsWithNewline(t)
    requires |lines| == |paths|
    requires forall i :: 0 <= i < |lines| ==> '\n' !in lines[i]
    requires forall i :: 0 <= i < |paths| ==> Parse(lines[i]) == resolve(paths[i])
    ensures Extends(ParseText(t), ParseText(t + Terminated(lines, '\n')), paths, resolve)
  {
    var prev := Split(t, '\n');
    var keep := prev[..|prev| - 1];
    ReadBefore(t, keep);
    ReadAfter(t, lines, keep);
    ExtendsByLines(keep, lines, paths, resolve, ParseText(t), ParseText(t + Terminated(lines, '\n')));
  }

  /** The index text before an update, as the lines of the file: the kept
      lines, then the empty piece after the final newline. */
  lemma {:induction false} ReadBefore(t: string, keep: seq<string>)
    requires EndsWithNewline(t)
    requires keep == Split(t, '\n')[..|Split(t, '\n')| - 1]
    ensures ParseText(t) == ParseLines(keep + [""])
  {
    var prev := Split(t, '\n');
    SplitEndsEmpty(t, '\n');
    assert prev == keep + [""];
  }

  /** The index text after appending separator-free lines: the kept lines,
      the new lines, then the final empty piece. */
  lemma {:induction false} ReadAfter(t: string, lines: seq<string>, keep: seq<string>)
    requires EndsWithNewline(t)
    requires forall i :: 0 <= i < |lines| ==> '\n' !in lines[i]
    requires keep == Split(t, '\n')[..|Split(t, '\n')| - 1]
    ensures ParseText(t + Terminated(lines, '\n')) == ParseLines(keep + lines + [""])
  {
    SplitAppendLines(t, lines, '\n');
  }

  /** Each line written reads back as the resolved path it renders. */
  lemma LinesReadBack(paths: seq<Path>, resolve: Path -> Path)
    requires forall i :: 0 <= i < |paths| ==> WellFormed(resolve(paths[i]))
    ensures forall i :: 0 <= i < |paths| ==> Parse(IndexLines(paths, resolve)[i]) == resolve(paths[i])
  {
    forall i | 0 <= i < |paths| ensures Parse(IndexLines(paths, resolve)[i]) == resolve(paths[i]) {
      ParseRender(resolve(paths[i]));
    }
  }

  /** `Extends`, at the level of the lines of the file. */
  lemma {:induction false} ExtendsByLines(keep: seq<string>, lines: seq<string>, paths: seq<Path>, resolve: Path -> Path,
                        before: seq<Path>, after: seq<Path>)
    requires |lines| == |paths|
    requires forall i :: 0 <= i < |paths| ==> Parse(lines[i]) == resolve(paths[i])
    requires before == ParseLines(keep + [""]) && after == ParseLines(keep + lines + [""])
    ensures Extends(before, after, paths, resolve)
  {
    var k := ParseLines(keep);
    var l := ParseLines(lines);
    var e := Parse("");
    assert ParseLines(keep + [""]) == k + [e] by {
      ParseLinesAppend(keep, [""]);
    }
    assert ParseLines(keep + lines + [""]) == k + l + [e] by {
      ParseLinesAppend(keep + lines, [""]);
      ParseLinesAppend(keep, lines);
    }
    ExtendsShape(k, l, e, paths, resolve);
  }

  /** `Extends`, for indexes laid out as kept entries, new entries and the
      final entry. */
  lemma ExtendsShape(k: seq<Path>, l: seq<Path>, e: Path, paths: seq<Path>, resolve: Path -> Path)
    requires e == Parse("")
    requires |l| == |paths|
    requires forall i :: 0 <= i < |l| ==> l[i] == resolve(paths[i])
    ensures Extends(k + [e], k + l + [e], paths, resolve)
  {
    var before := k + [e];
    var after := k + l + [e];
    assert after[..|k|] == k == before[..|k|];
    assert forall i :: 0 <= i < |paths| ==> after[|k| + i] == l[i];
  }

  /** A missing index reads as empty; once written, it reads back as the
      sheets' resolved paths and the final `.`. */
  lemma FirstIndex(paths: seq<Path>, resolve: Path -> Path)
    requires forall i :: 0 <= i < |paths| ==> WellFormed(resolve(paths[i])) && OneLine(Render(resolve(paths[i])))
    ensures ReadIndex(None) == []
    ensures Extends([Parse("")], ReadIndex(Some(AppendIndex(None, paths, resolve))), paths, resolve)
  {
    assert Prior(None) == "";
    assert ReadIndex(Some("")) == [Parse("")] by {
      assert Split("", '\n') == [""];
    }
    IndexReadBack(None, paths, resolve);
  }

  /** An index file without a final newline, as `"\n".join` writes one:
      the first appended path is glued onto its last line. With `a\nb` on
      file and the sheet `/c` appended, the index reads back as `a`, `b/c`
      and `.`, so `/c` itself is not in it. */
  lemma GluedLine()
    ensures ReadIndex(Some(AppendIndex(Some("a\nb"), [Path(true, ["c"])], p => p)))
         == [Path(false, ["a"]), Path(false, ["b", "c"]), WorkingDir]
  {
    var text := AppendIndex(Some("a\nb"), [Path(true, ["c"])], p => p);
    assert ReadIndex(Some(text)) == ParseLines(["a", "b/c", ""]) by {
      GluedWritten();
      GluedText();
    }
    ThreeLines("a", "b/c", "");
    GluedParts();
    EmptyIsWorkingDir();
  }

  /** Three lines parse one by one. */
  lemma ThreeLines(a: string, b: string, c: string)
    ensures ParseLines([a, b, c]) == [Parse(a), Parse(b), Parse(c)]
  {
    var r := ParseLines([a, b, c]);
    assert r[0] == Parse(a) && r[1] == Parse(b) && r[2] == Parse(c);
  }

  /** The glued file as written. */
  lemma GluedWritten()
    ensures AppendIndex(Some("a\nb"), [Path(true, ["c"])], p => p) == "a\nb/c\n"
  {
    assert IndexLines([Path(true, ["c"])], p => p) == ["/c"] by {
      assert Render(Path(true, ["c"])) == "/c";
    }
    assert Terminated(["/c"], '\n') == "/c\n" by {
      assert ["/c"][..0] == [];
    }
  }

  /** The lines of the glued file. */
  lemma GluedText()
    ensures Newlines("a\nb/c\n") == "a\nb/c\n"
    ensures Split("a\nb/c\n", '\n') == ["a", "b/c", ""]
  {
    NewlinesFree("a\nb/c\n");
    GluedSplit();
  }

  lemma GluedSplit()
    ensures Split("a\nb/c\n", '\n') == ["a", "b/c", ""]
  {
    assert "a\nb/c\n" == JoinOn(["a", "b/c", ""], '\n');
    SplitJoin(["a", "b/c", ""], '\n');
  }

  /** A resolved path whose text holds a `\r` is not read back as itself:
      universal newlines end the line there, so `/a\rb` comes back as `/a`,
      `b` and the final `.`. */
  lemma CarriageReturnSplits()
    ensures ReadIndex(Some(AppendIndex(None, [Path(true, ["a\rb"])], p => p)))
         == [Path(true, ["a"]), Path(false, ["b"]), WorkingDir]
  {
    var text := AppendIndex(None, [Path(true, ["a\rb"])], p => p);
    assert ReadIndex(Some(text)) == ParseLines(["/a", "b", ""]) by {
      CarriageReturnWritten();
      CarriageReturnText();
    }
    ThreeLines("/a", "b", "");
    CarriageReturnParts();
    EmptyIsWorkingDir();
  }

  /** The lines the `\r` file reads as. */
  lemma CarriageReturnText()
    ensures Split(Newlines("/a\rb\n"), '\n') == ["/a", "b", ""]
  {
    CarriageReturnTranslated();
    assert "/a\nb\n" == JoinOn(["/a", "b", ""], '\n');
    SplitJoin(["/a", "b", ""], '\n');
  }

  /** Universal newlines turn the `\r` into a line end. */
  lemma CarriageReturnTranslated()
    ensures Newlines("/a\rb\n") == "/a\nb\n"
  {
    var tail := "\rb\n";
    assert "/a\rb\n" == "/a" + tail;
    NewlinesAppend("/a", tail);
    NewlinesFree("/a");
    assert tail[1..] == "b\n";
    NewlinesFree("b\n");
  }

  /** The `\r` file as written. */
  lemma CarriageReturnWritten()
    ensures AppendIndex(None, [Path(true, ["a\rb"])], p => p) == "/a\rb\n"
  {
    assert Render(Path(true, ["a\rb"])) == "/a\rb";
    assert Terminated(["/a\rb"], '\n') == "/a\rb\n" by {
      assert ["/a\rb"][..0] == [];
    }
  }

  lemma CarriageReturnParts()
    ensures Parse("/a") == Path(true, ["a"])
    ensures Parse("b") == Path(false, ["b"])
  {
    assert Parse("/a") == Path(true, ["a"]) by {
      assert JoinOn(["", "a"], '/') == "/a";
      SplitJoin(["", "a"], '/');
    }
    assert Split("b", '/') == ["b"];
  }

  /** Windows line endings read like plain ones. */
  lemma CrlfIndex()
    ensures ReadIndex(Some("a\r\nb\r\n")) == ReadIndex(Some("a\nb\n"))
  {
    assert Newlines("a\r\nb\r\n") == "a\nb\n" by {
      var crlf := "\r\n";
      assert Newlines(crlf) == "\n" by {
        assert crlf[2..] == "";
      }
      NewlinesAppend("b", crlf);
      NewlinesFree("b");
      var tail := crlf + "b" + crlf;
      assert tail[2..] == "b" + crlf;
      assert Newlines(tail) == "\nb\n";
      assert "a\r\nb\r\n" == "a" + tail;
      NewlinesAppend("a", tail);
      NewlinesFree("a");
    }
    NewlinesFree("a\nb\n");
  }

  /** How the glued file's first two lines read as paths. */
  lemma GluedParts()
    ensures Parse("a") == Path(false, ["a"])
    ensures Parse("b/c") == Path(false, ["b", "c"])
  {
    assert Parse("a") == Path(false, ["a"]) by {
      assert Split("a", '/') == ["a"];
      ComponentsKeepsGood(["a"]);
    }
    assert JoinOn(["b", "c"], '/') == "b/c";
    SplitJoin(["b", "c"], '/');
    ComponentsKeepsGood(["b", "c"]);
  }
}
