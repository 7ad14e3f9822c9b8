/** Event streams on which the rebuilt patch and the filter surprise: edits that the filter drops or cuts, and a file
    that gets two sections. */
module EditReplayWitness {
  import opened Wrappers
  import opened PyText
  import opened SpanPrinter
  import opened DiffFilter
  import opened DiffFilterLaws
  import opened EditReplay
  import opened EditReplayLaws

  // ---------------------------------------------------------------- edits that the filter drops

  /** A single `write_file` event. */
  function Written(path: string): seq<Event> {
    [ToolStarted("write_file", map["path" := path, "content" := "y"])]
  }

  lemma WrittenOnce(path: string)
    requires TargetPath(path) == Some(path)
    ensures EditedPaths(Written(path)) == [path] && Latest(Written(path), path) == Some(Edit(path, "", "y"))
  {
    hide TargetPath;
    var events := Written(path);
    assert path != "" by { EmptyTarget(); }
    assert FirstArg(events[0].args, ["path"]) == path;
    assert FirstArg(events[0].args, ["content", "text", "new_text"]) == "y";
    assert EffectiveEdit(events[0]) == Some(Edit(path, "", "y"));
    assert events[..0] == [];
    assert EditedPaths(events[..0]) == [];
  }

  lemma WrittenPrintable(path: string)
    requires Latest(Written(path), path) == Some(Edit(path, "", "y"))
    ensures PrintableEdit(Written(path), path)
  {
    hide Latest, Written, SplitLines, Printable;
    NewFileOfOneLine();
  }

  lemma EmptyTarget()
    ensures TargetPath("").None?
  {}

  /** An edit whose path is noise only as printed is in the rebuilt patch, and the filter drops it. */
  lemma DroppedEdit(path: string)
    requires TargetPath(path) == Some(path) && Plain(LStripDots(path)) && PrintedNoise(path)
    ensures Replay(Written(path)) != "" && FilterText(Replay(Written(path))) == ""
  {
    hide *;
    var events := Written(path);
    WrittenOnce(path);
    WrittenPrintable(path);
    PlainIsRelative(LStripDots(path));
    UnbrokenSection(events, path);
    PlainPrintedNoise(path);
    FilterReplay(events);
    VoiceOfPath(events, path);
    OnlyPath(events, path);
  }

  lemma VoiceOfPath(events: seq<Event>, path: string)
    requires Latest(events, path).Some?
    ensures AllOneVoice(events, [path]) <==> SectionOf(events, path) == "" || OneVoice(path)
  {
    hide Latest, SectionOf, OneVoice;
    assert path in [path];
  }

  lemma OnlyPath(events: seq<Event>, path: string)
    requires EditedPaths(events) == [path]
    ensures Replay(events) == SectionOf(events, path)
    ensures PrintedNoise(path) ==> PatchOf(events, Clean([path])) == ""
  {
    hide SectionOf, PrintedNoise, Latest, EditedPaths;
    assert [path][1..] == [];
    assert PatchOf(events, [path][1..]) == "";
    assert PatchOf(events, [path]) == SectionOf(events, path) + "";
  }

  /** A dot in front of a plain file name: the noise test keeps it, the printer drops it. */
  lemma DotName(rel: string)
    requires Plain(rel) && '/' !in rel
    ensures var p := "." + rel;
            && DropSlashes(DropDotSlashes(ReplaceChar(p, '\\', '/'))) == p
            && LStripDots(p) == rel && Strip(p) == p && '/' !in p
  {
    var p := "." + rel;
    assert ReplaceChar(p, '\\', '/') == p;
    assert p[0] == '.' && p[1] == rel[0] && p[1..] == rel && p[|p| - 1] == rel[|rel| - 1];
    StripTrimmed(p);
  }

  lemma DottedTarget()
    ensures TargetPath(".problem.md") == Some(".problem.md") && LStripDots(".problem.md") == "problem.md"
  {
    hide Find, Strip, SplitOn, DropSlashes, DropDotSlashes, ReplaceChar, LStripDots;
    var p, rel := ".problem.md", "problem.md";
    assert "." + rel == p;
    DotName(rel);
    OnePart(p, '/');
    NoSlash(p);
    assert p[0] == '.' && p[1] == 'p';
    assert p !in NOISE_DIRS && p !in NOISE_FILES by { assert |p| == 11; }
    assert !IsNoisePath(p);
  }

  lemma ProblemIsPlain()
    ensures Plain("problem.md") && Find("problem.md", " b/").None?
  {
    hide Find;
    FindNowhere("problem.md", " b/");
  }

  lemma ProblemIsNoise()
    ensures IsNoisePath("problem.md")
  {
    hide SplitOn;
    PlainName("problem.md");
  }

  /** A recorded path can become noise by being printed: the printer strips leading dots, which the noise test
      takes care not to do. The filter then drops the edit. */
  lemma PrintingCanMakeNoise()
    ensures var path := ".problem.md";
            TargetPath(path) == Some(path) && Replay(Written(path)) != "" && FilterText(Replay(Written(path))) == ""
  {
    hide *;
    DottedTarget();
    ProblemIsPlain();
    PlainIsRelative("problem.md");
    PlainPrintedNoise(".problem.md");
    PrintedHeaderPath("problem.md");
    ProblemIsNoise();
    DroppedEdit(".problem.md");
  }

  lemma SeedIsNoise(path: string)
    requires "sources/seed/" <= path
    ensures IsNoisePath(path)
  {
    var p := ReplaceChar(path, '\\', '/');
    assert path[..13] == "sources/seed/";
    assert p[..13] == "sources/seed/";
    assert p[0] == 's';
  }

  const MARKED: string := "a b/sources/seed/x"

  lemma MarkedParts()
    ensures SplitOn(MARKED, '/') == ["a b", "sources", "seed", "x"]
  {
    hide SplitOn;
    assert MARKED == "a b" + ['/'] + "sources/seed/x";
    SplitAtSep("a b", "sources/seed/x", '/');
    assert "sources/seed/x" == "sources" + ['/'] + "seed/x";
    SplitAtSep("sources", "seed/x", '/');
    assert "seed/x" == "seed" + ['/'] + "x";
    SplitAtSep("seed", "x", '/');
    OnePart("x", '/');
  }

  lemma MarkedPlain()
    ensures Plain(MARKED) && Strip(MARKED) == MARKED && MARKED[0] == 'a'
  {
    StripTrimmed(MARKED);
  }

  lemma MarkedTarget()
    ensures TargetPath(MARKED) == Some(MARKED)
  {
    hide Strip, SplitOn, Find, DropSlashes, DropDotSlashes, ReplaceChar;
    MarkedPlain();
    PlainName(MARKED);
    MarkedParts();
    assert MARKED !in NOISE_FILES by { assert |MARKED| == 18; }
    forall part | part in ["a b", "sources", "seed", "x"]
      ensures part !in NOISE_DIRS
    {}
    assert !IsNoisePath(MARKED);
  }

  lemma MarkedNoise()
    ensures IsNoisePath(ReadBack(MARKED))
  {
    hide Strip, Find, IsNoisePath;
    assert MARKED[1..][..3] == " b/" && MARKED[0] == 'a';
    assert MARKED[0..] == MARKED;
    FindIs(MARKED, " b/", 1);
    var r := MARKED[4..] + " b/" + MARKED;
    assert MARKED[4..] == "sources/seed/x";
    assert r[0] == 's' && r[|r| - 1] == 'x';
    StripTrimmed(r);
    assert r[..13] == "sources/seed/";
    SeedIsNoise(r);
  }

  /** A plain path with ` b/` can be recorded as clean and dropped by the filter. */
  lemma MarkCanMakeNoise()
    ensures Plain(MARKED) && TargetPath(MARKED) == Some(MARKED)
    ensures Replay(Written(MARKED)) != "" && FilterText(Replay(Written(MARKED))) == ""
  {
    hide *;
    MarkedPlain();
    MarkedTarget();
    MarkedNoise();
    PlainIsRelative(MARKED);
    PlainPrintedNoise(MARKED);
    DroppedEdit(MARKED);
  }

  // ---------------------------------------------------------------- an edit that the filter cuts

  const PROBLEM: string := "diff --git a/problem.md b/problem.md"
  const HEADED: string := "x\n" + PROBLEM

  lemma ProblemText()
    ensures PROBLEM[|PROBLEM| - 1] == 'd' && '\\' !in PROBLEM && '@' !in PROBLEM && PROBLEM[0] == 'd'
  {}

  lemma HeadedText()
    ensures HEADED[0] == 'x' && HEADED[1] == '\n' && Trimmed(HEADED) && '\\' !in HEADED && '@' !in HEADED
    ensures LStripDots(HEADED) == HEADED
  {
    ProblemText();
    assert "x" + "\n" == "x\n";
    Relative("x", "\n", PROBLEM);
    assert HEADED[|HEADED| - 1] == PROBLEM[|PROBLEM| - 1];
  }

  lemma TwoHeads(inner: string)
    ensures "diff --git a/" + ("x\n" + inner) + " b/" + ("x\n" + inner) + "\n" ==
            "diff --git a/x" + "\n" + (inner + " b/x" + "\n" + (inner + "\n"))
  {}

  /** The printed header of the path is three header lines. */
  lemma HeadedLines()
    ensures GitLines(HEADED) == ["diff --git a/x" + "\n", PROBLEM + " b/x" + "\n", PROBLEM + "\n"]
  {
    hide SplitKeep, BreakFree, LStripDots, IsHeader;
    var a, b, c := "diff --git a/x", PROBLEM + " b/x", PROBLEM;
    HeadedText();
    GitLinesAre(HEADED);
    HeadedBreakFree();
    TwoHeads(PROBLEM);
    SplitKeepLine(a, b + "\n" + (c + "\n"));
    SplitKeepLine(b, c + "\n");
    SplitKeepLine(c, "");
    assert c + "\n" + "" == c + "\n";
    NothingSplits();
  }

  lemma HeadedBreakFree()
    ensures BreakFree("diff --git a/x") && BreakFree(PROBLEM + " b/x") && BreakFree(PROBLEM)
  {
    assert BreakFree(PROBLEM) && BreakFree(" b/x");
    BreakFreeAppend(PROBLEM, " b/x");
  }

  lemma BreakFreeAppend(a: string, b: string)
    requires BreakFree(a) && BreakFree(b)
    ensures BreakFree(a + b)
  {
    hide IsBreak;
  }

  /** The first line names no path. */
  lemma FirstVoice()
    ensures IsHeader("diff --git a/x" + "\n") && !IsNoiseHeader("diff --git a/x" + "\n")
  {
    hide Find, IsNoisePath, RStripNewlines, Strip;
    HeaderRest("a/x");
    assert GIT + "a/x" + "\n" == "diff --git a/x" + "\n";
    FindNowhere("a/x", " b/");
    FindNowhere("a/x", " ");
    EmptyIsClean();
  }

  /** The last line names the problem statement. */
  lemma LastVoice()
    ensures IsHeader(PROBLEM + "\n") && IsNoiseHeader(PROBLEM + "\n")
  {
    hide Find, IsNoisePath, HeaderPath, Trimmed, BreakFree;
    ProblemIsPlain();
    PlainIsRelative("problem.md");
    PrintedHeaderPath("problem.md");
    assert PROBLEM == "diff --git a/" + "problem.md" + " b/" + "problem.md";
    ProblemIsNoise();
  }

  lemma EmptyIsClean()
    ensures !IsNoisePath("")
  {}

  lemma HeadedMixed()
    ensures !OneVoice(HEADED) && PrintedNoise(HEADED)
  {
    hide IsNoiseHeader, IsHeader, GitLines;
    HeadedLines();
    FirstVoice();
    LastVoice();
    var ls := GitLines(HEADED);
    assert ls[0] == "diff --git a/x" + "\n" && ls[2] == PROBLEM + "\n";
  }

  lemma ProblemParts()
    ensures PROBLEM == "diff --git a" + ['/'] + ("problem.md b" + ['/'] + "problem.md")
  {}

  lemma HeadedParts()
    ensures SplitOn(HEADED, '/') == ["x\n" + "diff --git a", "problem.md b", "problem.md"]
  {
    hide SplitOn;
    var git, b, c := "diff --git a", "problem.md b", "problem.md";
    var a := "x\n" + git;
    ProblemParts();
    assert HEADED == a + ['/'] + (b + ['/'] + c);
    SplitAtSep(a, b + ['/'] + c, '/');
    SplitAtSep(b, c, '/');
    OnePart(c, '/');
  }

  lemma Unslashed(p: string)
    requires p != "" && '\\' !in p && p[0] != '.' && p[0] != '/'
    ensures DropSlashes(DropDotSlashes(ReplaceChar(p, '\\', '/'))) == p
  {
    assert ReplaceChar(p, '\\', '/') == p;
  }

  lemma HeadedTarget()
    ensures TargetPath(HEADED) == Some(HEADED)
  {
    hide Strip, SplitOn, Find, DropSlashes, DropDotSlashes, ReplaceChar, Trimmed;
    HeadedText();
    StripTrimmed(HEADED);
    Unslashed(HEADED);
    HeadedParts();
    assert HEADED !in NOISE_FILES by { assert HEADED[1] == '\n'; }
    forall part | part in ["x\n" + "diff --git a", "problem.md b", "problem.md"]
      ensures part !in NOISE_DIRS
    {
      assert part[0] == 'x' || part[0] == 'p';
    }
    assert !IsNoisePath(HEADED);
  }

  /** The section of a new file with one line. */
  lemma NewFileSection(events: seq<Event>, path: string)
    requires Latest(events, path) == Some(Edit(path, "", "y")) && '@' !in LStripDots(path)
    ensures SectionOf(events, path) != ""
  {
    hide *;
    SectionPrinted(events, path);
    NewFileOfOneLine();
    AtFreeHead(LStripDots(path), 0, 1);
  }

  /** A printable edit of a path without `@` has a section. */
  lemma WrittenSection(path: string)
    requires TargetPath(path) == Some(path) && '@' !in LStripDots(path)
    ensures Latest(Written(path), path).Some? && SectionOf(Written(path), path) != ""
  {
    hide *;
    WrittenOnce(path);
    NewFileSection(Written(path), path);
  }

  /** A recorded path whose printed header lines do not agree: the filter neither keeps nor drops its edit but leaves
      part of the section. */
  lemma FilterCanCut()
    ensures TargetPath(HEADED) == Some(HEADED) && !OneVoice(HEADED)
    ensures var events := Written(HEADED);
            && FilterText(Replay(events)) != PatchOf(events, Clean(EditedPaths(events)))
            && FilterText(Replay(events)) != Replay(events) && FilterText(Replay(events)) != ""
  {
    hide *;
    var events := Written(HEADED);
    HeadedText();
    HeadedTarget();
    HeadedMixed();
    WrittenOnce(HEADED);
    WrittenSection(HEADED);
    FilterReplay(events);
    ReplayFixedIff(events);
    VoiceOfPath(events, HEADED);
    OnlyPath(events, HEADED);
  }

  // ---------------------------------------------------------------- a file with two sections

  /** The same file written under two names. */
  function Twice(): seq<Event> {
    Written("./a") + Written("a")
  }

  lemma TwiceTargets()
    ensures TargetPath("./a") == Some("./a") && TargetPath("a") == Some("a")
    ensures LStripDots("./a") == "a" && LStripDots("a") == "a" && Plain("a")
  {
    hide Find;
    StripTrimmed("./a");
    StripTrimmed("a");
    assert ReplaceChar("./a", '\\', '/') == "./a" && ReplaceChar("a", '\\', '/') == "a";
    assert "./a"[2..] == "a" && "./a"[1..] == "/a" && "/a"[1..] == "a";
    OnePart("a", '/');
  }

  lemma TwiceEdits()
    ensures EditedPaths(Twice()) == ["./a", "a"]
    ensures Latest(Twice(), "./a") == Some(Edit("./a", "", "y")) && Latest(Twice(), "a") == Some(Edit("a", "", "y"))
  {
    hide TargetPath;
    var events := Twice();
    TwiceTargets();
    WrittenOnce("./a");
    WrittenOnce("a");
    assert events[..1] == Written("./a") && events[1] == Written("a")[0];
    assert EffectiveEdit(events[1]) == Some(Edit("a", "", "y"));
  }

  lemma {:induction false} AllWithSection(events: seq<Event>, paths: seq<string>)
    requires forall p :: p in paths ==> Latest(events, p).Some? && SectionOf(events, p) != ""
    ensures WithSection(events, paths) == paths
  {
    hide Latest, SectionOf;
    if paths == [] {
    } else {
      AllWithSection(events, paths[1..]);
      assert paths == [paths[0]] + paths[1..];
    }
  }

  lemma SharedName(p: string, q: string)
    requires LStripDots(p) == LStripDots(q) && Plain(LStripDots(p))
    ensures NamesOf([p, q]) == {LStripDots(p)}
  {
    hide LStripDots, Plain, NamesOf;
    assert [p] + [q] == [p, q] && [q] + [] == [q];
    NamesNext(p, [q]);
    NamesNext(q, []);
    assert NamesOf([]) == {} by { NoNames(); }
  }

  lemma NoNames()
    ensures NamesOf([]) == {}
  {}

  /** The rebuilt patch has two sections for one file, so the later edit does not supersede the earlier one. */
  lemma FileCanHaveTwoSections()
    ensures FilesFrom(Replay(Twice())) == {"a"}
    ensures var ls := SplitKeep(Replay(Twice())); ls != [] && IsHeader(ls[0]) && |Sections(ls)| == 2
  {
    hide *;
    var events, paths := Twice(), ["./a", "a"];
    TwiceTargets();
    TwiceEdits();
    PlainUnbroken("a");
    forall p | p in paths
      ensures OneHeader(p) && NewlineFree(LStripDots(p)) && SectionOf(events, p) != ""
    {
      PlainOneHeader(p);
      NewFileSection(events, p);
    }
    ReplayMeans(events);
    AllWithSection(events, paths);
    SectionsOfPatch(events, paths);
    FilesOfPatch(events, paths);
    SharedName("./a", "a");
    NothingSplitsToSections();
  }

  lemma NothingSplitsToSections()
    ensures |Sections([])| == 0
  {}
}
