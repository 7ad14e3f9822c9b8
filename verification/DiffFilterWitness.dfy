/** Concrete diffs that `filter_unified_diff_noise` turns from complete into incomplete, because the last kept line
    ends with a form feed inside a hunk: in the first one the section behind it is dropped, in the second one
    nothing is. */
module DiffFilterWitness {
  import opened PyText
  import opened Hunks
  import opened SpanPrinter
  import opened DiffFilter
  import opened DiffFilterLaws

  const GIT_X: string := "diff --git a/x b/x"
  const GIT_VENV: string := "diff --git a/venv b/venv"
  const FORM_FEED: string := "\U{0C}"

  /** The four lines of the diff: a section that adds one line, and one header of a virtual environment. */
  function Lines(): seq<string> {
    [GIT_X + "\n", HunkLine('0', 0, 1) + "\n", "+y" + FORM_FEED, GIT_VENV + "\n"]
  }

  function Diff(): string {
    Concat(Lines())
  }

  // ---------------------------------------------------------------- reading the lines

  lemma TerminatedBy(l: string, b: string)
    requires BreakFree(l) && |b| == 1 && IsBreak(b[0])
    ensures Terminated(l + b) && Body(l + b) == l
  {
    var s := l + b;
    assert s[..|l|] == l;
    FirstBreakUnique(s, |l|);
  }

  lemma FourLines(a: string, b: string, c: string, d: string)
    requires Terminated(a) && Terminated(b) && Terminated(c) && Terminated(d)
    requires b[0] != '\n' && c[0] != '\n' && d[0] != '\n'
    ensures WellCut([a, b, c, d]) && SplitKeep(Concat([a, b, c, d])) == [a, b, c, d]
  {
    hide Terminated, WellCut, SplitKeep, Concat;
    WellCutNil();
    WellCutCons(d, []);
    assert [d] == [d] + [];
    WellCutCons(c, [d]);
    assert [c, d] == [c] + [d];
    WellCutCons(b, [c, d]);
    assert [b, c, d] == [b] + [c, d];
    WellCutCons(a, [b, c, d]);
    assert [a, b, c, d] == [a] + [b, c, d];
    Recut([a, b, c, d]);
  }

  lemma LinesCut()
    ensures SplitKeep(Diff()) == Lines() && Normalized(Diff()) == Diff()
    ensures Bodies(Lines()) == [GIT_X, HunkLine('0', 0, 1), "+y", GIT_VENV]
  {
    hide Terminated, HunkLine, Body, Concat, SplitKeep, WellCut, BreakFree, Normalized;
    HunkLineBreakFree('0', 0, 1);
    LiteralsBreakFree();
    TerminatedBy(GIT_X, "\n");
    TerminatedBy(HunkLine('0', 0, 1), "\n");
    TerminatedBy("+y", FORM_FEED);
    TerminatedBy(GIT_VENV, "\n");
    HunkLineStart('0', 0, 1);
    FourLines(GIT_X + "\n", HunkLine('0', 0, 1) + "\n", "+y" + FORM_FEED, GIT_VENV + "\n");
    DiffNormalized();
  }

  lemma LiteralsBreakFree()
    ensures BreakFree(GIT_X) && BreakFree("+y") && BreakFree(GIT_VENV) && IsBreak(FORM_FEED[0])
  {}

  lemma DiffNormalized()
    ensures Normalized(Diff()) == Diff()
  {}

  // ---------------------------------------------------------------- which section is noise

  lemma NoiseNames()
    ensures !IsNoisePath("x") && IsNoisePath("venv")
  {
    PlainName("x");
    PlainName("venv");
    assert "venv" in SplitOn("venv", '/') && "venv" in NOISE_DIRS;
    assert |"x"| == 1;
    forall f | f in NOISE_FILES || f in NOISE_DIRS
      ensures f != "x"
    {}
  }

  lemma PlainName(p: string)
    requires p == "x" || p == "venv"
    ensures DropSlashes(DropDotSlashes(ReplaceChar(p, '\\', '/'))) == p && SplitOn(p, '/') == [p]
  {
    assert ReplaceChar(p, '\\', '/') == p;
    assert p[0] != '.' && p[0] != '/';
    OnePart(p, '/');
  }

  lemma HeadersOf()
    ensures IsHeader(GIT_X + "\n") && !IsNoiseHeader(GIT_X + "\n")
    ensures IsHeader(GIT_VENV + "\n") && IsNoiseHeader(GIT_VENV + "\n")
  {
    hide IsNoisePath, HeaderPath, Find;
    NoiseNames();
    FindNowhere("x", " b/");
    FindNowhere("venv", " b/");
    PrintedHeaderPath("x");
    PrintedHeaderPath("venv");
    assert GIT_X == "diff --git a/" + "x" + " b/" + "x";
    assert GIT_VENV == "diff --git a/" + "venv" + " b/" + "venv";
  }

  lemma BodyLines()
    ensures !IsHeader(Lines()[1]) && !IsHeader(Lines()[2])
  {
    hide HunkLine;
    HunkLineStart('0', 0, 1);
    assert Lines()[1][0] == '@' && Lines()[2][0] == '+';
  }

  lemma KeptPart()
    ensures RawKept(Diff()) == Lines()[..3] && DropNewlines(Diff()) == Diff() && EndsLine(Diff())
  {
    hide IsHeader, IsNoiseHeader, HunkLine, WellCut, SplitKeep, Keep, Normalized, DropNewlines;
    LinesCut();
    NormalizedStart(Diff());
    HeadersOf();
    BodyLines();
    var ls := Lines();
    var section := ls[..3];
    assert ls == section + ls[3..] && ls[3..] == [ls[3]] + [];
    KeepOneSection(section, ls[3..]);
    KeepHeader(ls[3], [], true);
    KeepNone(false);
  }

  // ---------------------------------------------------------------- the verdicts

  /** A patch with one hunk, whose body is the added line behind it. */
  lemma OneHunk(lines: seq<string>, k: nat)
    requires k + 1 < |lines| && lines[k] == HunkLine('0', 0, 1) && lines[k + 1] == "+y"
    requires forall h :: 0 <= h < |lines| && h != k ==> !("@@" <= lines[h])
    requires k + 2 < |lines| ==> IsBreaker(lines[k + 2])
    ensures !Incomplete(lines)
    ensures IsHunk(lines, k) && HunkEnd(lines, k + 1) == k + 2
  {
    hide ReadHeader, IsBreaker, OldSide, NewSide, HunkEnd, HunkLine;
    ReadHeaderPrinted('0', 0, 1);
    SidesOfOne();
    HunkEndIs(lines, k + 1, k + 2);
    assert HunkBody(lines, k) == ["+y"];
    assert !BadHunk(lines, k);
  }

  lemma SidesOfOne()
    ensures OldSide(["+y"]) == [] && NewSide(["+y"]) == ["y"] && !IsBreaker("+y")
  {
    PlusLine("y");
    assert "+" + "y" == "+y";
    var body := ["+y"];
    assert body[..0] == [];
  }

  /** The diff is complete, and filtering makes it incomplete. */
  lemma FilterCanBreak()
    ensures !Incomplete(SplitLines(Diff())) && Incomplete(SplitLines(FilterText(Diff())))
  {
    hide Incomplete, WellCut, SplitKeep, SplitLines, Normalized, FilterText, HunkLine, Bodies, HunkEnd, RawKept;
    hide ReadHeader, IsBreaker, DropNewlines;
    LinesCut();
    SplitBodies(Diff());
    var all := Bodies(Lines());
    HunkLineStart('0', 0, 1);
    VenvBreaks();
    OneHunk(all, 1);
    KeptPart();
    var kept := Lines()[..3];
    BodiesAppend(kept, Lines()[3..]);
    assert kept + Lines()[3..] == Lines();
    BodiesLength(kept);
    assert Bodies(kept) == all[..3];
    OneHunk(Bodies(kept), 1);
    assert OpenAtEnd(Bodies(kept));
    ConcatLast(kept);
    FilterComplete(Diff());
  }

  // ---------------------------------------------------------------- a diff without sections

  /** The two lines of the second diff: one hunk and nothing else. */
  function Bare(): seq<string> {
    [HunkLine('0', 0, 1) + "\n", "+y" + FORM_FEED]
  }

  lemma TwoLines(a: string, b: string)
    requires Terminated(a) && Terminated(b) && b[0] != '\n'
    ensures SplitKeep(Concat([a, b])) == [a, b]
  {
    hide Terminated, WellCut, SplitKeep, Concat;
    WellCutNil();
    WellCutCons(b, []);
    assert [b] == [b] + [];
    WellCutCons(a, [b]);
    assert [a, b] == [a] + [b];
    Recut([a, b]);
  }

  lemma BareCut()
    ensures SplitKeep(Concat(Bare())) == Bare() && Bodies(Bare()) == [HunkLine('0', 0, 1), "+y"]
    ensures Concat(Bare()) != "" && Concat(Bare())[0] == '@'
  {
    hide Terminated, HunkLine, Body, Concat, SplitKeep, WellCut, BreakFree;
    HunkLineBreakFree('0', 0, 1);
    LiteralsBreakFree();
    TerminatedBy(HunkLine('0', 0, 1), "\n");
    TerminatedBy("+y", FORM_FEED);
    TwoLines(HunkLine('0', 0, 1) + "\n", "+y" + FORM_FEED);
    HunkLineStart('0', 0, 1);
    ConcatFirst(Bare());
  }

  lemma BareKept()
    ensures RawKept(Concat(Bare())) == Bare()
  {
    hide HunkLine, SplitKeep, Concat, Keep;
    BareCut();
    DropNothing(Concat(Bare()));
    HunkLineStart('0', 0, 1);
    var ls := Bare();
    assert ls[0][0] == '@' && ls[1][0] == '+';
    KeepBlock(ls, [], true);
    KeepNone(true);
    assert ls + [] == ls;
  }

  /** The filter can break a complete diff of which it keeps every line. */
  lemma NewlineCanBreak()
    ensures var diff := HunkLine('0', 0, 1) + "\n+y" + FORM_FEED;
            && RawKept(diff) == SplitKeep(diff)
            && !Incomplete(SplitLines(diff)) && Incomplete(SplitLines(FilterText(diff)))
  {
    hide Incomplete, SplitKeep, SplitLines, FilterText, HunkLine, Bodies, HunkEnd, RawKept, ReadHeader, IsBreaker;
    var diff := Concat(Bare());
    assert Bare()[1..] == ["+y" + FORM_FEED] && Bare()[1..][1..] == [];
    assert diff == HunkLine('0', 0, 1) + "\n+y" + FORM_FEED;
    BareCut();
    BareKept();
    SplitBodies(diff);
    HunkLineStart('0', 0, 1);
    OneHunk(Bodies(Bare()), 0);
    assert OpenAtEnd(Bodies(Bare()));
    ConcatLast(Bare());
    FilterComplete(diff);
  }

  // ---------------------------------------------------------------- two diffs that do not join

  lemma HeaderKept()
    ensures RawKept(GIT_X + "\n") == [GIT_X + "\n"]
  {
    hide IsHeader, IsNoiseHeader, SplitKeep, Terminated, BreakFree, Keep;
    var l := GIT_X + "\n";
    LiteralsBreakFree();
    TerminatedBy(GIT_X, "\n");
    TerminatedWhole(l);
    DropNothing(l);
    HeadersOf();
    KeepHeader(l, [], true);
    KeepNone(true);
    assert [l] + [] == [l];
  }

  lemma TerminatedWhole(l: string)
    requires Terminated(l)
    ensures SplitKeep(l) == [l]
  {
    OneLine(l);
  }

  /** Filtering does not distribute over these two: a `\n` is added behind the kept part of the first. */
  lemma FilterCanSplit()
    ensures var a, b := Diff(), GIT_X + "\n";
            EndsLine(a) && GIT <= b && FilterText(a + b) != FilterText(a) + FilterText(b)
  {
    hide RawKept, FilterText, Concat, HunkLine, Diff, EndsLine;
    KeptPart();
    HeaderKept();
    ConcatLast(Lines()[..3]);
    FormFeedTail(Concat(Lines()[..3]));
    FilterAppend(Diff(), GIT_X + "\n");
  }

  lemma FormFeedTail(t: string)
    requires t != "" && t[|t| - 1] == FORM_FEED[0]
    ensures !EndsLine(t)
  {}

  lemma VenvBreaks()
    ensures IsBreaker(GIT_VENV)
  {}

  lemma BodiesLength(ls: seq<string>)
    ensures |Bodies(ls)| == |ls|
  {}
}
