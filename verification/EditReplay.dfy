/** `patch_from_edit_events` and `files_from_patch` of `agent_path_extract.py`: a patch rebuilt from the
    edits that a run made, and the files that a patch names. */
module EditReplay {
  import opened Wrappers
  import opened PyText
  import opened Hunks
  import opened SpanPrinter
  import opened DiffFilter
  import opened DiffFilterLaws

  // ---------------------------------------------------------------- events

  /** A `tool.started` event with its string arguments, or any other event. */
  datatype Event = ToolStarted(tool: string, args: map<string, string>) | Other

  datatype Edit = Edit(path: string, oldT: string, newT: string)

  /** `args.get(k1) or args.get(k2) or ...`, with the empty string when none is set. */
  function FirstArg(args: map<string, string>, keys: seq<string>): string {
    if keys == [] then ""
    else if keys[0] in args && args[keys[0]] != "" then args[keys[0]]
    else FirstArg(args, keys[1..])
  }

  const SOURCE_SUFFIXES: seq<string> := [".py", ".c", ".h", ".js", ".ts", ".java", ".go", ".rs"]

  /** The path under which an edit is recorded; none for noise and for scaffolding outside the repository. */
  function TargetPath(raw: string): Option<string> {
    var path := Strip(raw);
    if path == "" || IsNoisePath(path) then None
    else if "/" <= path && Find(ReplaceChar(path, '\\', '/'), "/ops-l1/").Some? then
      var parts := SplitOn(path, '/');
      var rel := parts[|parts| - 1];
      if exists i :: 0 <= i < |SOURCE_SUFFIXES| && HasSuffix(rel, SOURCE_SUFFIXES[i]) then Some(rel) else None
    else
      Some(path)
  }

  /** What one event contributes: the texts of a span edit, or the content of a written file. */
  function EffectiveEdit(ev: Event): Option<Edit> {
    if ev.Other? then None else
      match TargetPath(FirstArg(ev.args, ["path"]))
      case None => None
      case Some(path) =>
        if ev.tool == "edit_file" then
          var oldT := FirstArg(ev.args, ["old_text", "old_string"]);
          var newT := FirstArg(ev.args, ["new_text", "new_string"]);
          if newT != "" && newT != oldT then Some(Edit(path, oldT, newT)) else None
        else if ev.tool == "write_file" then
          var content := FirstArg(ev.args, ["content", "text", "new_text"]);
          if content != "" then Some(Edit(path, "", content)) else None
        else None
  }

  /** The last effective edit of a path. */
  function Latest(events: seq<Event>, path: string): Option<Edit> {
    if events == [] then None else
      var last := EffectiveEdit(events[|events| - 1]);
      if last.Some? && last.value.path == path then last else Latest(events[..|events| - 1], path)
  }

  /** The edited paths, in the order of their first effective edit: the order of the dictionary's keys. */
  function EditedPaths(events: seq<Event>): (r: seq<string>)
    ensures forall i, j :: 0 <= i < j < |r| ==> r[i] != r[j]
    ensures forall p :: p in r <==> Latest(events, p).Some?
  {
    if events == [] then [] else
      var front := EditedPaths(events[..|events| - 1]);
      var last := EffectiveEdit(events[|events| - 1]);
      if last.Some? && last.value.path !in front then front + [last.value.path] else front
  }

  predicate Edits(ev: Event, path: string) {
    EffectiveEdit(ev).Some? && EffectiveEdit(ev).value.path == path
  }

  predicate IsLastEdit(events: seq<Event>, path: string, e: Edit, k: nat)
    requires k < |events|
  {
    && EffectiveEdit(events[k]) == Some(e) && e.path == path
    && forall i :: k < i < |events| ==> !Edits(events[i], path)
  }

  /** The recorded edit is an effective edit of its path, and no later event edits the path. */
  lemma {:induction false} LatestIsLast(events: seq<Event>, path: string)
    ensures Latest(events, path).None? <==> forall i :: 0 <= i < |events| ==> !Edits(events[i], path)
    ensures Latest(events, path).Some? ==>
              exists k :: 0 <= k < |events| && IsLastEdit(events, path, Latest(events, path).value, k)
  {
    hide EffectiveEdit;
    if events == [] {
    } else {
      var front, n := events[..|events| - 1], |events| - 1;
      var last := EffectiveEdit(events[n]);
      LatestIsLast(front, path);
      assert forall i :: 0 <= i < n ==> events[i] == front[i];
      if last.Some? && last.value.path == path {
        assert IsLastEdit(events, path, Latest(events, path).value, n);
      } else if Latest(front, path).Some? {
        var e := Latest(front, path).value;
        var k :| 0 <= k < |front| && IsLastEdit(front, path, e, k);
        assert IsLastEdit(events, path, e, k);
      }
    }
  }

  // ---------------------------------------------------------------- the patch

  /** The section printed for a path; empty when its last edit does not survive the validator. */
  ghost function SectionOf(events: seq<Event>, path: string): string
    requires Latest(events, path).Some?
  {
    var e := Latest(events, path).value;
    var synth := SpanToDiff(path, e.oldT, e.newT);
    if Incomplete(SplitLines(synth)) then "" else synth
  }

  ghost function PatchOf(events: seq<Event>, paths: seq<string>): string
    requires forall p :: p in paths ==> Latest(events, p).Some?
  {
    if paths == [] then "" else SectionOf(events, paths[0]) + PatchOf(events, paths[1..])
  }

  /** The rebuilt patch: one section per edited path, from its last effective edit. */
  ghost function Replay(events: seq<Event>): string {
    PatchOf(events, EditedPaths(events))
  }

  lemma {:induction false} PatchOfSnoc(events: seq<Event>, paths: seq<string>, p: string)
    requires forall q :: q in paths + [p] ==> Latest(events, q).Some?
    ensures PatchOf(events, paths + [p]) == PatchOf(events, paths) + SectionOf(events, p)
  {
    hide Latest, SectionOf;
    if paths == [] {
      assert (paths + [p])[1..] == [];
    } else {
      assert (paths + [p])[1..] == paths[1..] + [p];
      PatchOfSnoc(events, paths[1..], p);
    }
  }

  /** A printed section ends with exactly one `\n`, so `rstrip("\n")` removes just that. */
  lemma SectionChunk(path: string, oldT: string, newT: string)
    requires newT != "" && newT != oldT
    ensures var s := SpanToDiff(path, oldT, newT); RStripNewlines(s) + "\n" == s
  {
    hide SplitLines, SectionHead, SpanToDiff, LStripDots, Unlines, RStripNewlines, BreakFree;
    var old', new' := SplitLines(oldT), SplitLines(newT);
    SpanEmits(path, oldT, newT);
    SpanText(path, oldT, newT);
    SplitLinesBreakFree(newT);
    var ls := SectionLines(LStripDots(path), old', new');
    assert ls[|ls| - 1] == ['+'] + new'[|new'| - 1];
    ChunkOfLines(ls[..|ls| - 1], new'[|new'| - 1]);
    assert ls == ls[..|ls| - 1] + [['+'] + new'[|new'| - 1]];
  }

  lemma ChunkOfLines(front: seq<string>, l: string)
    requires BreakFree(l)
    ensures var s := Unlines(front + [['+'] + l]); RStripNewlines(s) + "\n" == s
  {
    hide BreakFree;
    var last := ['+'] + l;
    UnlinesAppend(front, [last]);
    assert Unlines([last]) == last + "\n";
    var t := Unlines(front) + last;
    PlainLastChar(l);
    assert Unlines(front + [last]) == t + "\n";
    assert t[|t| - 1] == last[|l|];
    assert (t + "\n")[..|t|] == t;
  }

  lemma PlainLastChar(l: string)
    requires BreakFree(l)
    ensures (['+'] + l)[|l|] != '\n'
  {}

  /** `patch_from_edit_events` */
  method PatchFromEditEvents(events: seq<Event>) returns (patch: string)
    ensures patch == Replay(events)
  {
    var order, last := RecordEdits(events);
    var chunks: seq<string> := [];
    hide Latest, EditedPaths, SpanToDiff, Incomplete, SplitLines, RStripNewlines;
    for i := 0 to |order|
      invariant Unlines(chunks) == PatchOf(events, order[..i])
      invariant chunks == [] ==> PatchOf(events, order[..i]) == ""
      invariant chunks != [] ==> "diff --git a/" <= Unlines(chunks)
    {
      var path := order[i];
      var e := last[path];
      var synth := SpanToDiff(path, e.oldT, e.newT);
      assert order[..i + 1] == order[..i] + [path];
      PatchOfSnoc(events, order[..i], path);
      EmptyComplete();
      if synth != "" {
        var incomplete := PatchHunksIncomplete(synth);
        if !incomplete {
          SpanEmits(path, e.oldT, e.newT);
          SectionChunk(path, e.oldT, e.newT);
          SpanText(path, e.oldT, e.newT);
          AddChunk(chunks, RStripNewlines(synth));
          chunks := chunks + [RStripNewlines(synth)];
        }
      }
    }
    assert order[..|order|] == order;
    if chunks == [] {
      return "";
    }
    UnlinesEnds(chunks);
    NormalizedFixed(Unlines(chunks));
    patch := NormalizeUnifiedDiff(Unlines(chunks));
  }

  lemma EmptyComplete()
    ensures !Incomplete(SplitLines(""))
  {}

  lemma AddChunk(chunks: seq<string>, chunk: string)
    requires chunks != [] ==> "diff --git a/" <= Unlines(chunks)
    ensures Unlines(chunks + [chunk]) == Unlines(chunks) + (chunk + "\n")
    ensures chunks == [] && "diff --git a/" <= chunk + "\n" ==> "diff --git a/" <= Unlines(chunks + [chunk])
    ensures chunks != [] ==> "diff --git a/" <= Unlines(chunks + [chunk])
  {
    UnlinesAppend(chunks, [chunk]);
    assert Unlines([chunk]) == chunk + "\n";
  }

  /** The first loop: the last effective edit of every path, in dictionary order. */
  method RecordEdits(events: seq<Event>) returns (order: seq<string>, last: map<string, Edit>)
    ensures order == EditedPaths(events)
    ensures forall p :: p in last <==> p in order
    ensures forall p :: p in last ==> Latest(events, p) == Some(last[p])
  {
    hide EffectiveEdit;
    order, last := [], map[];
    for i := 0 to |events|
      invariant order == EditedPaths(events[..i])
      invariant forall p :: p in last <==> p in order
      invariant forall p :: p in last ==> Latest(events[..i], p) == Some(last[p])
    {
      assert events[..i + 1][..i] == events[..i];
      var e := EffectiveEdit(events[i]);
      if e.Some? {
        if e.value.path !in last {
          order := order + [e.value.path];
        }
        last := last[e.value.path := e.value];
      }
    }
    assert events[..|events|] == events;
  }

  // ---------------------------------------------------------------- acceptance

  lemma GitBreaks(s: string)
    requires "diff --git a/" <= s
    ensures SplitLines(s) != [] && IsBreaker(SplitLines(s)[0])
  {
    assert GIT <= s;
    StartsWithHeader(s);
    HeaderBreaks(SplitKeep(s)[0]);
    SplitBodies(s);
  }

  lemma SectionAlone(events: seq<Event>, path: string)
    requires Latest(events, path).Some?
    ensures var s := SectionOf(events, path);
            !Incomplete(SplitLines(s)) && EndsLine(s) && (s != "" ==> "diff --git a/" <= s)
  {
    hide Incomplete, Latest, SpanToDiff;
    EmptyComplete();
    var e := Latest(events, path).value;
    SpanEmits(path, e.oldT, e.newT);
    if SpanToDiff(path, e.oldT, e.newT) != "" {
      SpanText(path, e.oldT, e.newT);
    }
  }

  lemma {:induction false} PatchAccepted(events: seq<Event>, paths: seq<string>)
    requires forall p :: p in paths ==> Latest(events, p).Some?
    ensures var t := PatchOf(events, paths);
            !Incomplete(SplitLines(t)) && (t != "" ==> "diff --git a/" <= t)
  {
    hide Incomplete, SplitLines, Latest, SectionOf;
    if paths == [] {
      EmptyComplete();
    } else {
      var s, t := SectionOf(events, paths[0]), PatchOf(events, paths[1..]);
      SectionAlone(events, paths[0]);
      PatchAccepted(events, paths[1..]);
      SplitLinesAppend(s, t);
      if t != "" {
        GitBreaks(t);
      } else {
        assert s + t == s;
      }
      IncompleteAppend(SplitLines(s), SplitLines(t));
    }
  }

  /** For every event stream, the rebuilt patch is accepted by the hunk validator. */
  lemma ReplayAccepted(events: seq<Event>)
    ensures !Incomplete(SplitLines(Replay(events)))
  {
    PatchAccepted(events, EditedPaths(events));
  }

  /** Which paths have a section: those whose last effective edit is printable and whose name opens no hunk of its
      own. */
  lemma SectionPrinted(events: seq<Event>, path: string)
    requires Latest(events, path).Some?
    ensures var e := Latest(events, path).value;
            var old', new' := SplitLines(e.oldT), SplitLines(e.newT);
            SectionOf(events, path) ==
            if Printable(old', new') && !Incomplete(HeadLines(LStripDots(path), |old'|, |new'|))
            then SpanToDiff(path, e.oldT, e.newT) else ""
    ensures var e := Latest(events, path).value; SpanToDiff(path, e.oldT, e.newT) != ""
  {
    hide Incomplete, SpanToDiff, SplitLines, Printable, HeadLines;
    var e := Latest(events, path).value;
    LatestIsLast(events, path);
    EffectiveEmits(events, path);
    SpanEmits(path, e.oldT, e.newT);
    SpanAccepted(path, e.oldT, e.newT);
  }

  lemma EffectiveEmits(events: seq<Event>, path: string)
    requires Latest(events, path).Some?
    ensures var e := Latest(events, path).value; SpanToDiff(path, e.oldT, e.newT) != ""
  {}

  // ---------------------------------------------------------------- files named by a patch

  /** Index of the first `\n`, or the length. */
  function Eol(s: string): (r: nat)
    ensures r <= |s| && (r < |s| ==> s[r] == '\n') && forall i :: 0 <= i < r ==> s[i] != '\n'
  {
    if s == "" || s[0] == '\n' then 0 else 1 + Eol(s[1..])
  }

  /** The largest index from 1 below `w` that does not hold `\n`; 0 when there is none. */
  function BackTrack(t: string, w: nat): (j: nat)
    requires w <= |t|
    ensures j < w || j == 0
    ensures j != 0 ==> t[j] != '\n'
    ensures forall i :: 1 <= i < w && j < i ==> t[i] == '\n'
  {
    if w <= 1 then 0 else if t[w - 1] != '\n' then w - 1 else BackTrack(t, w - 1)
  }

  /** A match of `^\+\+\+\s+(?:b/)?(.+)$` in multi-line mode, at the line start where `s` begins: where the
      group starts. Both `\s+` and `b/` are greedy and give back only when the group would be empty. */
  function GroupStart(s: string): Option<nat>
  {
    if !("+++" <= s) then None else
      var t := s[3..];
      var w := SpaceSpan(t);
      if w == 0 then None
      else if w < |t| then
        Some(3 + w + if "b/" <= t[w..] && |t| > w + 2 && t[w + 2] != '\n' then 2 else 0)
      else
        var j := BackTrack(t, w);
        if j == 0 then None else Some(3 + j)
  }

  lemma GroupStartInside(s: string)
    ensures GroupStart(s).Some? ==> 3 < GroupStart(s).value < |s|
  {}

  /** The text behind the first `\n` at or after `i`. */
  function LineAfter(s: string, i: nat): (r: string)
    requires i <= |s|
    ensures |r| < |s| || s == ""
  {
    var e := i + Eol(s[i..]);
    if e < |s| then s[e + 1..] else ""
  }

  /** The files that one match contributes. */
  function NameOf(s: string, g: nat): set<string>
    requires g <= |s|
  {
    var name := Strip(s[g..g + Eol(s[g..])]);
    if name == "/dev/null" then {} else {ReplaceChar(name, '\\', '/')}
  }

  /** The files named by the text from a line start on. */
  function FilesFrom(s: string): set<string>
    decreases |s|
  {
    if s == "" then {} else
      match GroupStart(s)
      case None => FilesFrom(LineAfter(s, 0))
      case Some(g) =>
        GroupStartInside(s);
        NameOf(s, g) + FilesFrom(LineAfter(s, g))
  }

  /** `files_from_patch` */
  method FilesFromPatch(patch: string) returns (files: set<string>)
    ensures files == FilesFrom(patch)
  {
    hide GroupStart, NameOf, LineAfter;
    files := {};
    var s := patch;
    while s != ""
      invariant files + FilesFrom(s) == FilesFrom(patch)
      decreases |s|
    {
      GroupStartInside(s);
      match GroupStart(s) {
        case None =>
          s := LineAfter(s, 0);
        case Some(g) =>
          files := files + NameOf(s, g);
          s := LineAfter(s, g);
      }
    }
  }

  /** A path that is its own name in a patch. */
  predicate Plain(path: string) {
    && Trimmed(path) && BreakFree(path) && path[0] != '.' && path[0] != '/'
    && forall i :: 0 <= i < |path| ==> path[i] != '\\'
  }

  predicate NewlineFree(l: string) {
    forall i :: 0 <= i < |l| ==> l[i] != '\n'
  }

  lemma BreakFreeNoNewline(l: string)
    requires BreakFree(l)
    ensures NewlineFree(l)
  {}

  lemma LineAfterLine(l: string, rest: string, i: nat)
    requires i <= |l| && NewlineFree(l)
    ensures LineAfter(l + "\n" + rest, i) == rest
    ensures Eol((l + "\n" + rest)[i..]) == |l| - i
  {
    var s := l + "\n" + rest;
    assert s[i..][|l| - i] == '\n';
    assert forall j :: 0 <= j < |l| - i ==> s[i..][j] == l[i + j];
  }

  /** A line that does not start with `+++` names no file. */
  lemma FilesSkip(l: string, rest: string)
    requires NewlineFree(l) && !("+++" <= l)
    ensures FilesFrom(l + "\n" + rest) == FilesFrom(rest)
  {
    var s := l + "\n" + rest;
    LineAfterLine(l, rest, 0);
    assert |l| < 3 ==> s[|l|] == '\n';
    assert |l| >= 3 ==> s[..3] == l[..3];
    assert !("+++" <= s);
  }

  /** What the `+++` line of a printed path names: the path without blanks at its ends and with `/` for `\\`. An empty
      path gives the `b/` itself, and `/dev/null` names no file. */
  function NamedBy(rel: string): set<string> {
    var name := if rel == "" then "b/" else Strip(rel);
    if name == "/dev/null" then {} else {ReplaceChar(name, '\\', '/')}
  }

  lemma BareName()
    ensures Strip("b/") == "b/"
  {
    StripTrimmed("b/");
  }

  /** A `+++ b/` line names its path. */
  lemma FilesName(rel: string, rest: string)
    requires NewlineFree(rel)
    ensures FilesFrom("+++ b/" + rel + "\n" + rest) == NamedBy(rel) + FilesFrom(rest)
  {
    hide Eol, LineAfter, FilesFrom, Strip;
    var l := "+++ b/" + rel;
    var s := l + "\n" + rest;
    var g := if rel == "" then 4 else 6;
    HeaderGroup(rel, rest);
    LineAfterLine(l, rest, g);
    assert s[6..6 + |rel|] == rel;
    assert rel == "" ==> s[4..6] == "b/";
    BareName();
    FilesStep(s, g);
  }

  lemma FilesStep(s: string, g: nat)
    requires g <= |s| && s != "" && GroupStart(s) == Some(g)
    ensures FilesFrom(s) == NameOf(s, g) + FilesFrom(LineAfter(s, g))
  {}

  lemma HeaderGroup(rel: string, rest: string)
    requires NewlineFree(rel)
    ensures GroupStart("+++ b/" + rel + "\n" + rest) == Some(if rel == "" then 4 else 6)
  {
    hide BackTrack;
    var s := "+++ b/" + rel + "\n" + rest;
    var t := s[3..];
    assert t[0] == ' ' && t[1] == 'b' && t[2] == '/' && t[3] == if rel == "" then '\n' else rel[0];
    assert SpaceSpan(t) == 1 by { assert SpaceSpan(t[1..]) == 0; }
    assert "b/" <= t[1..];
  }

  lemma PlainNames(rel: string)
    requires Plain(rel)
    ensures NamedBy(rel) == {rel}
  {
    StripTrimmed(rel);
    assert ReplaceChar(rel, '\\', '/') == rel;
  }

  /** Lines that are the `+++` header of `path` or do not start with `+++`. */
  predicate NamesOnly(ls: seq<string>, path: string) {
    forall i :: 0 <= i < |ls| ==> NewlineFree(ls[i]) && ("+++" <= ls[i] ==> ls[i] == "+++ b/" + path)
  }

  lemma {:induction false} FilesOfLines(ls: seq<string>, path: string, rest: string)
    requires NewlineFree(path) && NamesOnly(ls, path)
    ensures FilesFrom(Unlines(ls) + rest) ==
            (if "+++ b/" + path in ls then NamedBy(path) else {}) + FilesFrom(rest)
  {
    hide FilesFrom, NamedBy, NewlineFree;
    if ls == [] {
      assert Unlines(ls) + rest == rest;
    } else {
      var more := Unlines(ls[1..]) + rest;
      FilesOfLines(ls[1..], path, rest);
      assert Unlines(ls) + rest == ls[0] + "\n" + more;
      assert ls == [ls[0]] + ls[1..];
      HeaderIsPlus(path);
      if "+++" <= ls[0] {
        FilesName(path, more);
      } else {
        FilesSkip(ls[0], more);
      }
    }
  }

  lemma HeaderIsPlus(path: string)
    ensures "+++" <= "+++ b/" + path
  {}

  lemma BodyNames(c: char, l: string)
    requires c == '-' || (c == '+' && !("++" <= l))
    ensures !("+++" <= [c] + l)
  {
    var m := [c] + l;
    assert m[0] == c && (|l| >= 2 ==> m[1] == l[0] && m[2] == l[1]);
    assert "++" <= l <==> |l| >= 2 && l[0] == '+' && l[1] == '+';
  }

  lemma HeadNames(path: string, oldN: nat, newN: nat)
    requires newN > 0
    ensures var head := SectionHead(path, oldN, newN);
            head[2] == "+++ b/" + path && forall i :: 0 <= i < 4 && i != 2 ==> !("+++" <= head[i])
  {
    hide Decimal;
    var head := SectionHead(path, oldN, newN);
    assert head[0][0] == 'd' && head[1][0] == '-' && head[3][0] == '@';
  }

  lemma HeadNewlineFree(path: string, oldN: nat, newN: nat)
    requires NewlineFree(path)
    ensures forall i :: 0 <= i < 3 ==> NewlineFree(SectionHead(path, oldN, newN)[i])
  {
    hide HunkLine, Decimal;
  }

  lemma SectionNewlineFree(path: string, old': seq<string>, new': seq<string>)
    requires NewlineFree(path) && AllBreakFree(old') && AllBreakFree(new') && new' != []
    ensures var ls := SectionLines(path, old', new'); forall i :: 0 <= i < |ls| ==> NewlineFree(ls[i])
  {
    hide BreakFree, SectionHead, NewlineFree;
    var ls := SectionLines(path, old', new');
    HeadNewlineFree(path, |old'|, |new'|);
    BodyBreakFree(path, old', new');
    forall i | 0 <= i < |ls|
      ensures NewlineFree(ls[i])
    {
      if i < 3 {
        assert ls[i] == SectionHead(path, |old'|, |new'|)[i];
      } else {
        assert ls[i] == ls[3..][i - 3];
        BreakFreeNoNewline(ls[i]);
      }
    }
  }

  lemma SectionNames(path: string, old': seq<string>, new': seq<string>)
    requires NewlineFree(path) && AllBreakFree(old') && AllBreakFree(new') && new' != [] && Printable(old', new')
    ensures NamesOnly(SectionLines(path, old', new'), path)
    ensures "+++ b/" + path in SectionLines(path, old', new')
  {
    hide BreakFree, SectionHead, NewlineFree;
    var ls := SectionLines(path, old', new');
    SectionNewlineFree(path, old', new');
    HeadNames(path, |old'|, |new'|);
    assert ls[2] == "+++ b/" + path;
    forall i | 0 <= i < |ls| && i != 2
      ensures !("+++" <= ls[i])
    {
      if 4 <= i < 4 + |old'| {
        BodyNames('-', old'[i - 4]);
      } else if 4 <= i {
        BodyNames('+', new'[i - 4 - |old'|]);
      }
    }
  }

  /** The last effective edit of the path is printable. */
  ghost predicate PrintableEdit(events: seq<Event>, path: string)
    requires Latest(events, path).Some?
  {
    var e := Latest(events, path).value;
    Printable(SplitLines(e.oldT), SplitLines(e.newT))
  }

  lemma UnbrokenSection(events: seq<Event>, path: string)
    requires Latest(events, path).Some? && BreakFree(LStripDots(path))
    ensures SectionOf(events, path) != "" <==> PrintableEdit(events, path)
  {
    hide Latest, Incomplete, SpanToDiff, SplitLines, Printable, HeadLines, SectionOf, LStripDots, BreakFree;
    var e := Latest(events, path).value;
    SectionPrinted(events, path);
    PlainHead(LStripDots(path), |SplitLines(e.oldT)|, |SplitLines(e.newT)|);
  }

  lemma FilesOfSection(rel: string, old': seq<string>, new': seq<string>, rest: string)
    requires NewlineFree(rel) && AllBreakFree(old') && AllBreakFree(new') && new' != [] && Printable(old', new')
    ensures FilesFrom(Unlines(SectionLines(rel, old', new')) + rest) == NamedBy(rel) + FilesFrom(rest)
  {
    hide FilesFrom, SectionLines, Printable, BreakFree, NamedBy, NewlineFree;
    SectionNames(rel, old', new');
    FilesOfLines(SectionLines(rel, old', new'), rel, rest);
  }

  /** The text of the section of a path, if it has one. */
  lemma SectionTexts(events: seq<Event>, path: string)
    requires Latest(events, path).Some?
    ensures var e := Latest(events, path).value;
            var old', new' := SplitLines(e.oldT), SplitLines(e.newT);
            SectionOf(events, path) != "" ==>
            && SectionOf(events, path) == Unlines(SectionLines(LStripDots(path), old', new'))
            && AllBreakFree(old') && AllBreakFree(new') && new' != [] && Printable(old', new')
  {
    hide Latest, SplitLines, SpanToDiff, SectionLines, Incomplete, LStripDots, BreakFree, Printable, HeadLines;
    if SectionOf(events, path) != "" {
      var e := Latest(events, path).value;
      SectionPrinted(events, path);
      SpanEmits(path, e.oldT, e.newT);
      SpanText(path, e.oldT, e.newT);
      SplitLinesBreakFree(e.oldT);
      SplitLinesBreakFree(e.newT);
    }
  }

  /** The paths that have a section, in order. */
  ghost function WithSection(events: seq<Event>, paths: seq<string>): seq<string>
    requires forall p :: p in paths ==> Latest(events, p).Some?
  {
    if paths == [] then []
    else (if SectionOf(events, paths[0]) != "" then [paths[0]] else []) + WithSection(events, paths[1..])
  }

  lemma {:induction false} WithSectionExact(events: seq<Event>, paths: seq<string>, p: string)
    requires forall q :: q in paths ==> Latest(events, q).Some?
    ensures p in WithSection(events, paths) <==> p in paths && SectionOf(events, p) != ""
  {
    hide Latest, SectionOf;
    if paths == [] {
    } else {
      WithSectionExact(events, paths[1..], p);
      assert paths == [paths[0]] + paths[1..];
    }
  }

  /** What the `+++` lines of these paths name. */
  function NamesOf(paths: seq<string>): set<string> {
    if paths == [] then {} else NamedBy(LStripDots(paths[0])) + NamesOf(paths[1..])
  }

  lemma {:induction false} NamesExact(paths: seq<string>, f: string)
    ensures f in NamesOf(paths) <==> exists p :: p in paths && f in NamedBy(LStripDots(p))
  {
    hide LStripDots, NamedBy;
    if paths == [] {
    } else {
      NamesExact(paths[1..], f);
      assert paths[0] in paths && forall p :: p in paths[1..] ==> p in paths;
      if p :| p in paths && f in NamedBy(LStripDots(p)) {
        assert p == paths[0] || p in paths[1..];
      }
    }
  }

  lemma {:induction false} FilesOfPatch(events: seq<Event>, paths: seq<string>)
    requires forall p :: p in paths ==> Latest(events, p).Some? && NewlineFree(LStripDots(p))
    ensures FilesFrom(PatchOf(events, paths)) == NamesOf(WithSection(events, paths))
  {
    hide Latest, FilesFrom, SectionOf, BreakFree, LStripDots, NamedBy, SplitLines, SectionLines, Printable, Unlines;
    hide NewlineFree;
    if paths == [] {
      NoFiles();
    } else {
      FilesOfPatch(events, paths[1..]);
      var path, rest, more := paths[0], PatchOf(events, paths[1..]), WithSection(events, paths[1..]);
      SectionTexts(events, path);
      if SectionOf(events, path) != "" {
        var e := Latest(events, path).value;
        FilesOfSection(LStripDots(path), SplitLines(e.oldT), SplitLines(e.newT), rest);
        assert ([path] + more)[1..] == more;
      } else {
        assert "" + rest == rest && [] + more == more;
      }
    }
  }

  lemma NoFiles()
    ensures FilesFrom("") == {}
  {}

  /** When no edited path has a newline, the files of the rebuilt patch are exactly the names that the `+++` lines give
      to the paths with a section. */
  lemma ReplayFiles(events: seq<Event>, f: string)
    requires forall p :: p in EditedPaths(events) ==> NewlineFree(LStripDots(p))
    ensures f in FilesFrom(Replay(events)) <==>
            exists p :: p in EditedPaths(events) && f in NamedBy(LStripDots(p)) && SectionOf(events, p) != ""
  {
    hide Latest, FilesFrom, SectionOf, PatchOf, LStripDots, NamedBy, NewlineFree, NamesOf, WithSection;
    var paths := EditedPaths(events);
    FilesOfPatch(events, paths);
    NamesExact(WithSection(events, paths), f);
    forall p
      ensures p in WithSection(events, paths) <==> p in paths && SectionOf(events, p) != ""
    {
      WithSectionExact(events, paths, p);
    }
  }

  lemma PlainUnbroken(path: string)
    requires Plain(path)
    ensures BreakFree(path) && NewlineFree(path)
  {
    BreakFreeNoNewline(path);
  }

  /** When every edited path is plain behind its leading dots and slashes, these names are the paths without those, and
      the paths with a section are those with a printable last edit. */
  lemma ReplayPlainFiles(events: seq<Event>, f: string)
    requires forall p :: p in EditedPaths(events) ==> Plain(LStripDots(p))
    ensures f in FilesFrom(Replay(events)) <==>
            exists p :: p in EditedPaths(events) && f == LStripDots(p) && PrintableEdit(events, p)
  {
    hide Latest, FilesFrom, Replay, LStripDots, EditedPaths, NamedBy, PrintableEdit, SectionOf, NewlineFree, BreakFree;
    forall p | p in EditedPaths(events)
      ensures NamedBy(LStripDots(p)) == {LStripDots(p)} && NewlineFree(LStripDots(p))
      ensures SectionOf(events, p) != "" <==> PrintableEdit(events, p)
    {
      PlainNames(LStripDots(p));
      PlainUnbroken(LStripDots(p));
      UnbrokenSection(events, p);
    }
    ReplayFiles(events, f);
  }

  // ---------------------------------------------------------------- one section for each file

  /** No two of these paths differ only in leading dots and slashes. */
  predicate NoSharedName(paths: seq<string>) {
    forall p, q :: p in paths && q in paths && LStripDots(p) == LStripDots(q) ==> p == q
  }

  /** A further path shares its name with a path of the list, or leaves the names as shared as they were. */
  lemma SharedNext(path: string, rest: seq<string>, shared: bool)
    requires path !in rest
    requires shared <==> exists p :: p in rest && LStripDots(path) == LStripDots(p)
    ensures NoSharedName([path] + rest) <==> !shared && NoSharedName(rest)
  {
    hide LStripDots;
    var all := [path] + rest;
    assert forall p :: p in all <==> p == path || p in rest;
    if shared {
      var p :| p in rest && LStripDots(path) == LStripDots(p);
      assert path in all && p in all;
    }
  }

  lemma {:induction false} PlainNamesOf(paths: seq<string>, f: string)
    requires forall p :: p in paths ==> Plain(LStripDots(p))
    ensures f in NamesOf(paths) <==> exists p :: p in paths && f == LStripDots(p)
  {
    hide LStripDots, Plain, NamedBy, NamesOf;
    NamesExact(paths, f);
    forall p | p in paths
      ensures NamedBy(LStripDots(p)) == {LStripDots(p)}
    {
      PlainNames(LStripDots(p));
    }
  }

  lemma AddName(names: set<string>, name: string)
    ensures |{name} + names| == |names| + if name in names then 0 else 1
  {
    assert name in names ==> {name} + names == names;
  }

  lemma NamesNext(path: string, rest: seq<string>)
    requires Plain(LStripDots(path))
    ensures NamesOf([path] + rest) == {LStripDots(path)} + NamesOf(rest)
  {
    hide LStripDots, Plain, NamedBy;
    PlainNames(LStripDots(path));
    assert ([path] + rest)[1..] == rest;
  }

  lemma DistinctRest(paths: seq<string>)
    requires paths != [] && forall i, j :: 0 <= i < j < |paths| ==> paths[i] != paths[j]
    ensures paths == [paths[0]] + paths[1..] && paths[0] !in paths[1..]
    ensures forall i, j :: 0 <= i < j < |paths[1..]| ==> paths[1..][i] != paths[1..][j]
  {}

  /** Distinct plain paths have as many names as paths exactly when no two share one. */
  lemma {:induction false} NamesCount(paths: seq<string>)
    requires forall i, j :: 0 <= i < j < |paths| ==> paths[i] != paths[j]
    requires forall p :: p in paths ==> Plain(LStripDots(p))
    ensures |NamesOf(paths)| <= |paths|
    ensures |NamesOf(paths)| == |paths| <==> NoSharedName(paths)
  {
    if paths == [] {
    } else {
      hide LStripDots, Plain, NoSharedName, NamesOf;
      var path, rest := paths[0], paths[1..];
      var name := LStripDots(path);
      DistinctRest(paths);
      NamesCount(rest);
      NamesNext(path, rest);
      AddName(NamesOf(rest), name);
      PlainNamesOf(rest, name);
      SharedNext(path, rest, name in NamesOf(rest));
    }
  }

  lemma {:induction false} WithSectionDistinct(events: seq<Event>, paths: seq<string>)
    requires forall p :: p in paths ==> Latest(events, p).Some?
    requires forall i, j :: 0 <= i < j < |paths| ==> paths[i] != paths[j]
    ensures var r := WithSection(events, paths);
            (forall i, j :: 0 <= i < j < |r| ==> r[i] != r[j]) && forall p :: p in r ==> p in paths
  {
    hide Latest, SectionOf;
    if paths == [] {
    } else {
      WithSectionDistinct(events, paths[1..]);
      assert paths[0] !in paths[1..];
    }
  }

  /** For plain paths, the files of the rebuilt patch are as many as the paths with a section exactly when no two of
      these share a name. */
  lemma FilesCount(events: seq<Event>)
    requires forall p :: p in EditedPaths(events) ==> Plain(LStripDots(p))
    ensures var paths := WithSection(events, EditedPaths(events));
            |FilesFrom(Replay(events))| == |paths| <==> NoSharedName(paths)
  {
    hide Latest, FilesFrom, SectionOf, PatchOf, LStripDots, NamesOf, WithSection, NoSharedName, Plain;
    var paths := EditedPaths(events);
    forall p | p in paths
      ensures NewlineFree(LStripDots(p))
    {
      PlainUnbroken(LStripDots(p));
    }
    FilesOfPatch(events, paths);
    WithSectionDistinct(events, paths);
    NamesCount(WithSection(events, paths));
  }
}
