/** How `patch_from_edit_events` and `filter_unified_diff_noise` fit together: when the filter leaves a rebuilt patch
    alone, and which edits it drops when it does not. */
module EditReplayLaws {
  import opened Wrappers
  import opened PyText
  import opened Hunks
  import opened SpanPrinter
  import opened DiffFilter
  import opened DiffFilterLaws
  import opened EditReplay

  // ---------------------------------------------------------------- lines of joined texts

  function WithNewlines(ls: seq<string>): (r: seq<string>)
    ensures |r| == |ls| && forall i :: 0 <= i < |ls| ==> r[i] == ls[i] + "\n"
  {
    seq(|ls|, i requires 0 <= i < |ls| => ls[i] + "\n")
  }

  lemma SplitKeepLine(l: string, rest: string)
    requires BreakFree(l)
    ensures SplitKeep(l + "\n" + rest) == [l + "\n"] + SplitKeep(rest)
  {
    hide FirstBreak, BreakFree;
    var s := l + "\n" + rest;
    assert s[..|l|] == l && s[|l| + 1..] == rest && s[..|l| + 1] == l + "\n";
    FirstBreakUnique(s, |l|);
  }

  lemma {:induction false} SplitKeepUnlines(ls: seq<string>)
    requires AllBreakFree(ls)
    ensures SplitKeep(Unlines(ls)) == WithNewlines(ls)
  {
    if ls == [] {
      assert Unlines(ls) == "";
    } else {
      hide SplitKeep, BreakFree;
      SplitKeepLine(ls[0], Unlines(ls[1..]));
      SplitKeepUnlines(ls[1..]);
    }
  }

  lemma LineEndBehind(x: string, y: string)
    requires BreakFree(x) && y != ""
    ensures LineEnd(x + y) == |x| + LineEnd(y)
  {
    hide IsBreak;
    var s, i := x + y, FirstBreak(y);
    assert s[..|x| + i] == x + y[..i];
    FirstBreakUnique(s, |x| + i);
  }

  lemma SliceBehind(x: string, y: string, n: nat)
    requires n <= |y|
    ensures (x + y)[..|x| + n] == x + y[..n] && (x + y)[|x| + n..] == y[n..]
  {}

  lemma CutFirst(s: string, n: nat)
    requires s != "" && LineEnd(s) == n
    ensures SplitKeep(s) == [s[..n]] + SplitKeep(s[n..])
  {
    hide LineEnd;
  }

  /** Text without line breaks joins the first line of what follows. */
  lemma JoinFirst(x: string, y: string)
    requires BreakFree(x) && y != ""
    ensures SplitKeep(x + y) == [x + SplitKeep(y)[0]] + SplitKeep(y)[1..]
  {
    hide LineEnd, BreakFree, SplitKeep;
    var n := LineEnd(y);
    LineEndBehind(x, y);
    SliceBehind(x, y, n);
    CutFirst(x + y, |x| + n);
    CutFirst(y, n);
    assert ([y[..n]] + SplitKeep(y[n..]))[1..] == SplitKeep(y[n..]);
  }

  lemma LineEndInside(x: string, y: string)
    requires !BreakFree(x) && y != "" && y[0] != '\n'
    ensures x != "" && LineEnd(x + y) <= |x| && LineEnd(x + y) == LineEnd(x)
  {
    hide IsBreak;
    var i := FirstBreak(x);
    assert x[..|x|] == x;
    assert (x + y)[..i] == x[..i];
    FirstBreakUnique(x + y, i);
  }

  /** The lines behind the first one are also later lines when more text stands in front. */
  lemma {:induction false} LaterLines(x: string, y: string)
    requires y != "" && y[0] != '\n'
    ensures forall l :: l in SplitKeep(y)[1..] ==> l in SplitKeep(x + y)[1..]
    decreases |x|
  {
    hide LineEnd, BreakFree;
    if BreakFree(x) {
      JoinFirst(x, y);
    } else {
      LineEndInside(x, y);
      var n := LineEnd(x);
      assert (x + y)[n..] == x[n..] + y;
      LaterLines(x[n..], y);
      assert SplitKeep(x + y)[1..] == SplitKeep(x[n..] + y);
    }
  }

  // ---------------------------------------------------------------- one printed section

  /** The `diff --git` text that the printer writes for a path; a path with line breaks makes it several lines. */
  function GitText(path: string): string {
    var rel := LStripDots(path);
    "diff --git a/" + rel + " b/" + rel + "\n"
  }

  function GitLines(path: string): (r: seq<string>)
    ensures r != [] && IsHeader(r[0])
  {
    hide IsHeader, LStripDots;
    StartsWithGitText(path);
    StartsWithHeader(GitText(path));
    SplitKeep(GitText(path))
  }

  lemma StartsWithGitText(path: string)
    ensures GIT <= GitText(path)
  {}

  /** A path of which some printed header line is noise to the filter. */
  predicate PrintedNoise(path: string) {
    !NoNoise(GitLines(path))
  }

  /** The printed header lines of a path are all noise or all not; so it is for a path without line breaks, and for
      any path of which no later line starts with `diff --git `. */
  predicate OneVoice(path: string) {
    var ls := GitLines(path);
    forall i :: 0 <= i < |ls| && IsHeader(ls[i]) ==> IsNoiseHeader(ls[i]) == IsNoiseHeader(ls[0])
  }

  lemma OneVoiceNoise(path: string)
    requires OneVoice(path)
    ensures PrintedNoise(path) == IsNoiseHeader(GitLines(path)[0])
  {
    hide IsNoisePath, HeaderPath, IsHeader;
  }

  /** A path whose printed form has a single header line: so for every path without line breaks. */
  predicate OneHeader(path: string) {
    NoHeader(GitLines(path)[1..])
  }

  lemma OneHeaderOneVoice(path: string)
    requires OneHeader(path)
    ensures OneVoice(path)
  {
    hide IsHeader, IsNoiseHeader;
    var ls := GitLines(path);
    assert forall i :: 1 <= i < |ls| ==> ls[i] == ls[1..][i - 1];
  }

  /** Lines whose headers, if any, are among the later header lines of the path. */
  predicate Covered(ls: seq<string>, path: string) {
    forall l :: l in ls && IsHeader(l) ==> l in GitLines(path)[1..]
  }

  lemma StartDecides(l: string, c: char)
    requires l != "" && l[0] == c && c != 'd'
    ensures !IsHeader(l)
  {}

  /** A `---` or `+++` line repeats the path, and with it only lines that the `diff --git` text has too. */
  lemma NameCovered(path: string, start: string)
    requires start == "--- a/" || start == "+++ b/"
    ensures Covered(SplitKeep(start + LStripDots(path) + "\n"), path)
  {
    hide SplitKeep, LStripDots, IsHeader, BreakFree, GitLines;
    var rel := LStripDots(path);
    var named := rel + "\n";
    MarksBreakFree();
    assert start + rel + "\n" == start + named;
    SplitKeepFirst(named);
    JoinFirst(start, named);
    JoinFirst(" b/", named);
    LaterLines("diff --git a/" + rel, " b/" + named);
    assert GitText(path) == "diff --git a/" + rel + (" b/" + named);
    GitLinesAre(path);
    StartDecides(start + SplitKeep(named)[0], start[0]);
  }

  lemma GitLinesAre(path: string)
    ensures GitLines(path) == SplitKeep(GitText(path))
  {}

  lemma MarksBreakFree()
    ensures BreakFree("--- a/") && BreakFree("+++ b/") && BreakFree(" b/") && BreakFree("--- /dev/null")
  {}

  lemma FreshCovered(path: string)
    ensures Covered(SplitKeep("--- /dev/null\n"), path)
  {
    hide SplitKeep, GitLines, BreakFree, IsHeader;
    MarksBreakFree();
    SplitKeepLine("--- /dev/null", "");
    var l := "--- /dev/null\n";
    assert "--- /dev/null" + "\n" + "" == l && [l] + [] == [l];
    NothingSplits();
    assert "--- /dev/null" + "\n" == l && SplitKeep(l) == [l];
    StartDecides(l, '-');
  }

  lemma BodyCovered(path: string, old': seq<string>, new': seq<string>)
    requires new' != []
    ensures Covered(WithNewlines(SectionLines(LStripDots(path), old', new')[3..]), path)
  {
    hide GitLines, IsHeader, LStripDots, HunkLine;
    var ls := SectionLines(LStripDots(path), old', new');
    HunkLineStart(if old' == [] then '0' else '1', |old'|, |new'|);
    forall i | 3 <= i < |ls|
      ensures !IsHeader(ls[i] + "\n")
    {
      StartDecides(ls[i] + "\n", ls[i][0]);
    }
  }

  /** The lines of a printed section: the header lines of the path, and lines that bring no other header. */
  lemma SectionHeaders(events: seq<Event>, path: string) returns (more: seq<string>)
    requires Latest(events, path).Some?
    ensures SectionOf(events, path) != "" ==>
              SplitKeep(SectionOf(events, path)) == GitLines(path) + more && Covered(more, path)
  {
    hide *;
    if SectionOf(events, path) == "" {
      return [];
    }
    var e := Latest(events, path).value;
    SectionTexts(events, path);
    var old', new' := SplitLines(e.oldT), SplitLines(e.newT);
    var minus := if old' == [] then "--- /dev/null\n" else "--- a/" + LStripDots(path) + "\n";
    var plus := "+++ b/" + LStripDots(path) + "\n";
    var body := SectionLines(LStripDots(path), old', new')[3..];
    SectionPieces(path, old', new');
    NameCovered(path, "--- a/");
    NameCovered(path, "+++ b/");
    FreshCovered(path);
    BodyCovered(path, old', new');
    GitLinesAre(path);
    more := SplitKeep(minus) + (SplitKeep(plus) + WithNewlines(body));
    CoveredAppend(SplitKeep(plus), WithNewlines(body), path);
    CoveredAppend(SplitKeep(minus), SplitKeep(plus) + WithNewlines(body), path);
  }

  lemma CoveredAppend(a: seq<string>, b: seq<string>, path: string)
    requires Covered(a, path) && Covered(b, path)
    ensures Covered(a + b, path)
  {
    hide IsHeader, GitLines;
  }

  /** The text of a section, cut behind the three lines that name the path. */
  lemma SectionPieces(path: string, old': seq<string>, new': seq<string>)
    requires AllBreakFree(old') && AllBreakFree(new') && new' != []
    ensures var rel := LStripDots(path);
            var ls := SectionLines(rel, old', new');
            var minus := if old' == [] then "--- /dev/null\n" else "--- a/" + rel + "\n";
            SplitKeep(Unlines(ls)) ==
            SplitKeep(GitText(path)) + (SplitKeep(minus) + (SplitKeep("+++ b/" + rel + "\n") + WithNewlines(ls[3..])))
  {
    hide SplitKeep, LStripDots, Unlines, BreakFree, WithNewlines, SectionHead, GitText;
    var rel := LStripDots(path);
    var ls := SectionLines(rel, old', new');
    assert ls == [ls[0]] + ([ls[1]] + ([ls[2]] + ls[3..]));
    SectionNamesPath(path, |old'|, |new'|);
    OneBroken(ls[0], [ls[1]] + ([ls[2]] + ls[3..]));
    OneBroken(ls[1], [ls[2]] + ls[3..]);
    OneBroken(ls[2], ls[3..]);
    BodyBreakFree(rel, old', new');
    SplitKeepUnlines(ls[3..]);
  }

  lemma SectionNamesPath(path: string, oldN: nat, newN: nat)
    requires newN > 0
    ensures var rel := LStripDots(path);
            var head := SectionHead(rel, oldN, newN);
            && head[0] + "\n" == GitText(path)
            && head[1] + "\n" == (if oldN == 0 then "--- /dev/null\n" else "--- a/" + rel + "\n")
            && head[2] + "\n" == "+++ b/" + rel + "\n"
  {
    hide HunkLine, LStripDots;
  }

  lemma OneBroken(l: string, rest: seq<string>)
    ensures SplitKeep(Unlines([l] + rest)) == SplitKeep(l + "\n") + SplitKeep(Unlines(rest))
  {
    hide SplitKeep;
    assert ([l] + rest)[1..] == rest;
    SplitKeepAppend(l + "\n", Unlines(rest));
  }

  lemma NothingSplits()
    ensures SplitKeep("") == [] && Concat(Keep([], true)) == ""
  {}

  // ---------------------------------------------------------------- sections that the filter takes whole

  /** Lines whose headers agree are kept or dropped together. */
  lemma {:induction false} KeepTogether(s: seq<string>, rest: seq<string>, on: bool)
    requires forall l :: l in s && IsHeader(l) ==> IsNoiseHeader(l) == !on
    requires rest == [] || IsHeader(rest[0])
    ensures Keep(s + rest, on) == (if on then s else []) + Keep(rest, true)
    decreases |s|
  {
    if s == [] {
      assert s + rest == rest;
      KeepAtHeader(rest, on);
    } else {
      hide IsHeader, IsNoiseHeader, Keep, KeepsLine;
      KeepTogether(s[1..], rest, on);
      KeepOneMore(s[0], s[1..], rest, on);
      assert s == [s[0]] + s[1..];
    }
  }

  lemma KeepOneMore(l: string, s: seq<string>, rest: seq<string>, on: bool)
    requires IsHeader(l) ==> IsNoiseHeader(l) == !on
    requires Keep(s + rest, on) == (if on then s else []) + Keep(rest, true)
    ensures Keep([l] + s + rest, on) == (if on then [l] + s else []) + Keep(rest, true)
  {
    hide IsHeader, IsNoiseHeader, Keep;
    Assoc([l], s, rest);
    KeepCons(l, s + rest, on);
    Assoc([l], s, Keep(rest, true));
  }

  /** A header that is not noise is kept, wherever it stands. */
  lemma {:induction false} KeepsHeader(ls: seq<string>, i: nat, on: bool)
    requires i < |ls| && IsHeader(ls[i]) && !IsNoiseHeader(ls[i])
    ensures Concat(Keep(ls, on)) != ""
    decreases |ls|
  {
    hide IsHeader, IsNoiseHeader, Keep, Concat;
    var l, rest := ls[0], ls[1..];
    assert ls == [l] + rest;
    KeepCons(l, rest, on);
    ConcatAppend([l], Keep(rest, true));
    ConcatOne(l);
    if i == 0 {
      HeaderFirst(l);
    } else {
      KeepsHeader(rest, i - 1, KeepsLine(l, on));
    }
  }

  /** What the filter keeps of a section: all or nothing when the headers agree, and otherwise some of it. */
  lemma KeepPrinted(events: seq<Event>, path: string)
    requires Latest(events, path).Some?
    ensures var s := SectionOf(events, path);
            var k := Concat(Keep(SplitKeep(s), true));
            if s == "" || OneVoice(path) then k == if PrintedNoise(path) then "" else s
            else PrintedNoise(path) && k != ""
  {
    hide Latest, SectionOf, SplitKeep, Keep, GitLines, IsNoiseHeader, Concat, IsHeader, OneVoice, PrintedNoise;
    var s := SectionOf(events, path);
    NothingSplits();
    NoText();
    if s != "" {
      var more := SectionHeaders(events, path);
      SplitKeepConcat(s);
      if OneVoice(path) {
        SectionWhole(path, more);
      } else {
        var i := MixedVoice(path);
        KeepsHeader(SplitKeep(s), i, true);
      }
    }
  }

  lemma SectionWhole(path: string, more: seq<string>)
    requires OneVoice(path) && Covered(more, path)
    ensures Keep(GitLines(path) + more, true) == if PrintedNoise(path) then [] else GitLines(path) + more
  {
    hide GitLines, IsNoiseHeader, Keep, IsHeader, PrintedNoise;
    var ls := GitLines(path) + more;
    OneVoiceNoise(path);
    forall l | l in ls && IsHeader(l)
      ensures IsNoiseHeader(l) == PrintedNoise(path)
    {
      assert l in GitLines(path);
    }
    KeepAtHeader(ls, !PrintedNoise(path));
    KeepTogether(ls, [], !PrintedNoise(path));
    KeepNone(true);
    assert ls + [] == ls;
  }

  /** Headers that do not agree: one is noise and one is not. */
  lemma MixedVoice(path: string) returns (i: nat)
    ensures !OneVoice(path) ==> PrintedNoise(path)
    ensures !OneVoice(path) ==>
              i < |GitLines(path)| && IsHeader(GitLines(path)[i]) && !IsNoiseHeader(GitLines(path)[i])
  {
    hide IsNoisePath, HeaderPath, IsHeader, GitLines;
    if OneVoice(path) {
      return 0;
    }
    var ls := GitLines(path);
    i :| 0 <= i < |ls| && IsHeader(ls[i]) && IsNoiseHeader(ls[i]) != IsNoiseHeader(ls[0]);
    if IsNoiseHeader(ls[i]) {
      i := 0;
    }
  }

  /** The paths whose printed form is not noise, in order. */
  function Clean(paths: seq<string>): (r: seq<string>)
    ensures forall p :: p in r <==> p in paths && !PrintedNoise(p)
  {
    if paths == [] then []
    else if PrintedNoise(paths[0]) then Clean(paths[1..])
    else [paths[0]] + Clean(paths[1..])
  }

  /** Every section of the patch is one whose headers agree. */
  ghost predicate AllOneVoice(events: seq<Event>, paths: seq<string>)
    requires forall p :: p in paths ==> Latest(events, p).Some?
  {
    forall p :: p in paths && SectionOf(events, p) != "" ==> OneVoice(p)
  }

  lemma {:induction false} KeepPatch(events: seq<Event>, paths: seq<string>)
    requires forall p :: p in paths ==> Latest(events, p).Some?
    ensures var k, c := Concat(Keep(SplitKeep(PatchOf(events, paths)), true)), PatchOf(events, Clean(paths));
            if AllOneVoice(events, paths) then k == c else |k| > |c|
  {
    hide Latest, SectionOf, SplitKeep, Keep, PrintedNoise, Concat, OneVoice, Incomplete, SplitLines;
    if paths == [] {
      NothingSplits();
    } else {
      var s, rest := SectionOf(events, paths[0]), PatchOf(events, paths[1..]);
      KeepPatch(events, paths[1..]);
      KeepPrinted(events, paths[0]);
      assert paths == [paths[0]] + paths[1..];
      assert AllOneVoice(events, paths) <==> (s == "" || OneVoice(paths[0])) && AllOneVoice(events, paths[1..]);
      SectionAlone(events, paths[0]);
      PatchAccepted(events, paths[1..]);
      KeepJoined(s, rest);
    }
  }

  lemma KeepJoined(s: string, rest: string)
    requires EndsLine(s) && (rest != "" ==> GIT <= rest)
    ensures Concat(Keep(SplitKeep(s + rest), true)) ==
            Concat(Keep(SplitKeep(s), true)) + Concat(Keep(SplitKeep(rest), true))
  {
    hide SplitKeep, Keep, Concat, IsHeader;
    SplitKeepAppend(s, rest);
    NothingSplits();
    if rest != "" {
      StartsWithHeader(rest);
    }
    KeepAppend(SplitKeep(s), SplitKeep(rest), true);
    ConcatAppend(Keep(SplitKeep(s), true), Keep(SplitKeep(rest), true));
  }

  /** The filter on a rebuilt patch: what is left are exactly the sections, unchanged and in order, of the edited paths
      whose printed form is not noise, exactly when the header lines of each printed path agree. */
  lemma FilterReplay(events: seq<Event>)
    ensures FilterText(Replay(events)) == PatchOf(events, Clean(EditedPaths(events))) <==>
            AllOneVoice(events, EditedPaths(events))
  {
    hide Latest, SectionOf, SplitKeep, Keep, PrintedNoise, Concat, OneVoice, Normalized, EditedPaths, DropNewlines;
    hide FilterText, AllOneVoice;
    var paths := EditedPaths(events);
    KeepPatch(events, paths);
    PatchNormalized(events, paths);
    NormalizedStart(PatchOf(events, paths));
    FilterMeans(Replay(events));
    RawWellCut(Replay(events));
    NormalizedOf(Concat(RawKept(Replay(events))));
    PatchNormalized(events, Clean(paths));
  }

  lemma {:induction false} PatchEnds(events: seq<Event>, paths: seq<string>)
    requires forall p :: p in paths ==> Latest(events, p).Some?
    ensures EndsLine(PatchOf(events, paths))
  {
    hide Latest, SectionOf, Incomplete, SplitLines;
    if paths == [] {
    } else {
      SectionAlone(events, paths[0]);
      PatchEnds(events, paths[1..]);
    }
  }

  lemma PatchNormalized(events: seq<Event>, paths: seq<string>)
    requires forall p :: p in paths ==> Latest(events, p).Some?
    ensures Normalized(PatchOf(events, paths)) == PatchOf(events, paths)
  {
    hide Latest, PatchOf, Incomplete, SplitLines;
    PatchEnds(events, paths);
    PatchAccepted(events, paths);
    NormalizedFixed(PatchOf(events, paths));
  }

  // ---------------------------------------------------------------- when the filter changes nothing

  lemma NoNoiseAppend(a: seq<string>, b: seq<string>)
    ensures NoNoise(a + b) <==> NoNoise(a) && NoNoise(b)
  {
    hide IsNoiseHeader;
    var s := a + b;
    assert forall i :: 0 <= i < |a| ==> s[i] == a[i];
    assert forall i :: 0 <= i < |b| ==> s[|a| + i] == b[i];
  }

  lemma CoveredNoNoise(ls: seq<string>, path: string)
    ensures Covered(ls, path) && NoNoise(GitLines(path)) ==> NoNoise(ls)
  {
    hide GitLines, IsNoisePath, HeaderPath, IsHeader;
  }

  lemma SectionNoNoise(events: seq<Event>, path: string)
    requires Latest(events, path).Some?
    ensures NoNoise(SplitKeep(SectionOf(events, path))) <==> SectionOf(events, path) == "" || !PrintedNoise(path)
  {
    hide Latest, SectionOf, SplitKeep, GitLines, NoNoise, Covered;
    if SectionOf(events, path) == "" {
      NothingSplits();
      EmptyNoNoise();
    } else {
      var more := SectionHeaders(events, path);
      NoNoiseAppend(GitLines(path), more);
      if NoNoise(GitLines(path)) {
        CoveredNoNoise(more, path);
      }
    }
  }

  lemma EmptyNoNoise()
    ensures NoNoise([])
  {}

  lemma {:induction false} PatchNoNoise(events: seq<Event>, paths: seq<string>)
    requires forall p :: p in paths ==> Latest(events, p).Some?
    ensures NoNoise(SplitKeep(PatchOf(events, paths))) <==>
            forall p :: p in paths && SectionOf(events, p) != "" ==> !PrintedNoise(p)
  {
    hide Latest, SectionOf, SplitKeep, NoNoise, PrintedNoise, Incomplete, SplitLines;
    if paths == [] {
      NothingSplits();
      EmptyNoNoise();
    } else {
      var s, rest := SectionOf(events, paths[0]), PatchOf(events, paths[1..]);
      PatchNoNoise(events, paths[1..]);
      SectionAlone(events, paths[0]);
      SplitKeepAppend(s, rest);
      NoNoiseAppend(SplitKeep(s), SplitKeep(rest));
      SectionNoNoise(events, paths[0]);
      assert paths == [paths[0]] + paths[1..];
    }
  }

  /** For every event stream, the filter leaves the rebuilt patch as it is exactly when no path with a section is
      noise as printed. */
  lemma ReplayFixedIff(events: seq<Event>)
    ensures FilterText(Replay(events)) == Replay(events) <==>
            forall p :: p in EditedPaths(events) && SectionOf(events, p) != "" ==> !PrintedNoise(p)
  {
    hide Latest, SectionOf, PrintedNoise, FilterText, PatchOf, Normalized, SplitKeep, NoNoise;
    FilterFixedIff(Replay(events));
    PatchNormalized(events, EditedPaths(events));
    PatchNoNoise(events, EditedPaths(events));
  }

  // ---------------------------------------------------------------- plain paths

  /** A printed name without line breaks is noise exactly when the path read back from its header is. */
  lemma PlainPrintedNoise(path: string)
    requires Trimmed(LStripDots(path)) && BreakFree(LStripDots(path))
    ensures PrintedNoise(path) <==> IsNoisePath(ReadBack(LStripDots(path)))
    ensures OneVoice(path) && OneHeader(path)
  {
    hide HeaderPath, IsNoisePath, ReadBack, LStripDots, Trimmed, BreakFree, SplitKeep, IsHeader;
    var rel := LStripDots(path);
    GitBreakFree(rel);
    SplitKeepLine("diff --git a/" + rel + " b/" + rel, "");
    NothingSplits();
    assert GitText(path) == "diff --git a/" + rel + " b/" + rel + "\n" + "";
    assert GitLines(path) == [GitText(path)];
    PrintedHeaderPath(rel);
  }

  lemma GitBreakFree(rel: string)
    requires BreakFree(rel)
    ensures BreakFree("diff --git a/" + rel + " b/" + rel)
  {}

  lemma {:induction false} LastPart(s: string, sep: char)
    ensures var parts := SplitOn(s, sep); sep !in parts[|parts| - 1]
  {
    if s == "" {
    } else {
      LastPart(s[1..], sep);
    }
  }

  lemma PlainName(p: string)
    requires Plain(p)
    ensures DropSlashes(DropDotSlashes(ReplaceChar(p, '\\', '/'))) == p
  {
    assert ReplaceChar(p, '\\', '/') == p;
  }

  lemma SuffixEnds(p: string, x: string)
    requires HasSuffix(p, x) && |x| >= 2
    ensures |p| >= 2 && p[|p| - 1] == x[|x| - 1] && p[|p| - 2] == x[|x| - 2]
  {
    assert p[|p| - |x|..][|x| - 1] == p[|p| - 1] && p[|p| - |x|..][|x| - 2] == p[|p| - 2];
  }

  /** The last two characters tell the names of noise from those of source files. */
  lemma NoiseEnds(p: string)
    requires p in NOISE_FILES || p in NOISE_DIRS
    ensures |p| >= 2 && p[|p| - 1] in "dnlvs_et" && (p[|p| - 1] == 's' ==> p[|p| - 2] == 'e')
  {}

  lemma SourceEnds(i: nat)
    requires i < |SOURCE_SUFFIXES|
    ensures var x := SOURCE_SUFFIXES[i];
            |x| >= 2 && (x[|x| - 1] !in "dnlvs_et" || (x[|x| - 1] == 's' && x[|x| - 2] != 'e'))
  {}

  lemma NoiseEndings(p: string)
    requires p in NOISE_FILES || p in NOISE_DIRS
    ensures forall i :: 0 <= i < |SOURCE_SUFFIXES| ==> !HasSuffix(p, SOURCE_SUFFIXES[i])
  {
    hide HasSuffix;
    NoiseEnds(p);
    forall i | 0 <= i < |SOURCE_SUFFIXES|
      ensures !HasSuffix(p, SOURCE_SUFFIXES[i])
    {
      SourceEnds(i);
      if HasSuffix(p, SOURCE_SUFFIXES[i]) {
        SuffixEnds(p, SOURCE_SUFFIXES[i]);
        assert false;
      }
    }
  }

  lemma NoSlash(p: string)
    requires '/' !in p
    ensures !("sources/seed/" <= p)
  {
    assert "sources/seed/"[7] == '/';
  }

  /** A path is recorded as it was given, and then it is no noise, or as the name of a source file. */
  lemma RecordedPath(raw: string, p: string)
    requires TargetPath(raw) == Some(p)
    ensures IsNoisePath(p) ==> '/' !in p && p !in NOISE_FILES && p !in NOISE_DIRS
  {
    hide Strip, Find, SplitOn, HasSuffix, IsNoisePath;
    if p != Strip(raw) {
      LastPart(Strip(raw), '/');
      assert exists i :: 0 <= i < |SOURCE_SUFFIXES| && HasSuffix(p, SOURCE_SUFFIXES[i]);
      if p in NOISE_FILES || p in NOISE_DIRS {
        NoiseEndings(p);
      }
    }
  }

  lemma FileNameIsClean(p: string)
    requires Plain(p) && '/' !in p && p !in NOISE_FILES && p !in NOISE_DIRS
    ensures !IsNoisePath(p)
  {
    hide SplitOn, DropSlashes, DropDotSlashes, ReplaceChar;
    OnePart(p, '/');
    PlainName(p);
    NoSlash(p);
  }

  /** The paths recorded from an event stream are the targets of its events. */
  lemma {:induction false} EditedIsTarget(events: seq<Event>, path: string)
    requires Latest(events, path).Some?
    ensures exists raw :: TargetPath(raw) == Some(path)
  {
    hide TargetPath;
    var n := |events| - 1;
    var last := EffectiveEdit(events[n]);
    if last.Some? && last.value.path == path {
      assert TargetPath(FirstArg(events[n].args, ["path"])) == Some(path);
    } else {
      EditedIsTarget(events[..n], path);
    }
  }

  lemma PlainIsRelative(path: string)
    requires Plain(path)
    ensures LStripDots(path) == path && Trimmed(path) && BreakFree(path)
  {}

  /** For plain paths the filter leaves the rebuilt patch as it is exactly when no path with a section has a ` b/`
      behind which its header reads as noise: other noise was already turned away when the edits were recorded. */
  lemma ReplayUnfiltered(events: seq<Event>)
    requires forall p :: p in EditedPaths(events) ==> Plain(p)
    ensures FilterText(Replay(events)) == Replay(events) <==>
            forall p :: p in EditedPaths(events) && SectionOf(events, p) != "" ==>
              Find(p, " b/").None? || !IsNoisePath(ReadBack(p))
  {
    hide *;
    forall p | p in EditedPaths(events)
      ensures PrintedNoise(p) <==> Find(p, " b/").Some? && IsNoisePath(ReadBack(p))
    {
      EditedIsTarget(events, p);
      var raw :| TargetPath(raw) == Some(p);
      RecordedPath(raw, p);
      if IsNoisePath(p) {
        FileNameIsClean(p);
      }
      PlainIsRelative(p);
      PlainPrintedNoise(p);
      PrintedHeaderPath(p);
    }
    ReplayFixedIff(events);
  }

  // ---------------------------------------------------------------- one section for each file

  lemma SectionsCons(section: seq<string>, rest: seq<string>)
    requires IsSection(section) && (rest == [] || IsHeader(rest[0]))
    ensures Sections(section + rest) == [section] + Sections(rest)
  {
    hide IsHeader;
    var all, n := section + rest, |section|;
    NextHeaderIs(all, 1, n);
    assert all[..n] == section && all[n..] == rest;
  }

  lemma NextHeaderIs(lines: seq<string>, i: nat, r: nat)
    requires i <= r <= |lines| && (forall j :: i <= j < r ==> !IsHeader(lines[j]))
    requires r < |lines| ==> IsHeader(lines[r])
    ensures NextHeader(lines, i) == r
    decreases r - i
  {
    hide IsHeader;
    if i == r {
    } else {
      NextHeaderIs(lines, i + 1, r);
    }
  }

  lemma OneHeaderSection(path: string, more: seq<string>)
    requires OneHeader(path) && Covered(more, path)
    ensures IsSection(GitLines(path) + more)
  {
    hide IsHeader, GitLines;
    var git := GitLines(path);
    var ls := git + more;
    forall i | 1 <= i < |ls|
      ensures !IsHeader(ls[i])
    {
      if i < |git| {
        assert ls[i] == git[1..][i - 1];
      } else {
        assert ls[i] == more[i - |git|];
      }
    }
  }

  /** The rebuilt patch starts with a section header, unless it is empty. */
  lemma PatchStart(events: seq<Event>, paths: seq<string>)
    requires forall p :: p in paths ==> Latest(events, p).Some?
    ensures var ls := SplitKeep(PatchOf(events, paths)); ls == [] || IsHeader(ls[0])
  {
    hide Latest, PatchOf, Incomplete, SplitLines, SplitKeep, IsHeader;
    PatchAccepted(events, paths);
    NothingSplits();
    if PatchOf(events, paths) != "" {
      StartsWithHeader(PatchOf(events, paths));
    }
  }

  /** When the printed paths have one header line each, the rebuilt patch has one section for each path with one. */
  lemma {:induction false} SectionsOfPatch(events: seq<Event>, paths: seq<string>)
    requires forall p :: p in paths ==> Latest(events, p).Some? && OneHeader(p)
    ensures var ls := SplitKeep(PatchOf(events, paths));
            (ls == [] || IsHeader(ls[0])) && |Sections(ls)| == |WithSection(events, paths)|
  {
    PatchStart(events, paths);
    if paths == [] {
      NothingSplits();
    } else {
      hide Latest, SectionOf, SplitKeep, IsHeader, OneHeader, Sections, Incomplete, SplitLines, IsSection, GitLines;
      hide Covered;
      var s, rest := SectionOf(events, paths[0]), PatchOf(events, paths[1..]);
      SectionsOfPatch(events, paths[1..]);
      SectionAlone(events, paths[0]);
      SplitKeepAppend(s, rest);
      NothingSplits();
      if s != "" {
        var more := SectionHeaders(events, paths[0]);
        OneHeaderSection(paths[0], more);
        SectionsCons(SplitKeep(s), SplitKeep(rest));
      } else {
        assert [] + SplitKeep(rest) == SplitKeep(rest);
      }
    }
  }

  lemma PlainOneHeader(path: string)
    requires Plain(LStripDots(path))
    ensures OneHeader(path)
  {
    hide LStripDots, Trimmed, BreakFree, GitLines;
    PlainPrintedNoise(path);
  }

  /** For plain paths, the rebuilt patch has as many sections as files exactly when no two paths with a section differ
      only in leading dots and slashes. */
  lemma OneSectionPerFile(events: seq<Event>)
    requires forall p :: p in EditedPaths(events) ==> Plain(LStripDots(p))
    ensures var ls := SplitKeep(Replay(events));
            && (ls == [] || IsHeader(ls[0]))
            && (|Sections(ls)| == |FilesFrom(Replay(events))| <==>
                NoSharedName(WithSection(events, EditedPaths(events))))
  {
    hide *;
    forall p | p in EditedPaths(events)
      ensures OneHeader(p)
    {
      PlainOneHeader(p);
    }
    SectionsOfPatch(events, EditedPaths(events));
    ReplayMeans(events);
    FilesCount(events);
  }

  lemma ReplayMeans(events: seq<Event>)
    ensures Replay(events) == PatchOf(events, EditedPaths(events))
  {}
}
