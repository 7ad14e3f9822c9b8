/** What a rebuilt patch says about the events it was rebuilt from: which arguments of which events are the old and the
    new text, under which path an edit is recorded, and that the section of a path reads back as both texts. */
module EditMeaning {
  import opened Wrappers
  import opened PyText
  import opened PyTextLaws
  import opened Hunks
  import opened SpanPrinter
  import opened DiffFilter
  import opened EditReplay

  // ---------------------------------------------------------------- arguments

  predicate Has(args: map<string, string>, key: string) {
    key in args && args[key] != ""
  }

  /** The argument `first`, or `second` when `first` is missing or empty. */
  function Either(args: map<string, string>, first: string, second: string): string {
    if Has(args, first) then args[first] else if second in args then args[second] else ""
  }

  // ---------------------------------------------------------------- recorded paths

  const EXTENSIONS: seq<string> := [".c", ".go", ".h", ".java", ".js", ".py", ".rs", ".ts"]

  predicate IsSourceName(name: string) {
    exists i :: 0 <= i < |EXTENSIONS| && HasSuffix(name, EXTENSIONS[i])
  }

  predicate IsScaffolding(s: string) {
    "/" <= s && Occurs("/ops-l1/", ReplaceChar(s, '\\', '/'))
  }

  /** An edit of `raw` is recorded under `path`: `raw` without white space around it, which is not noise. From an
      absolute path with `/ops-l1/` in it, only the name of a source file behind the last slash. */
  ghost predicate RecordedAs(raw: string, path: string) {
    var s := Strip(raw);
    && s != "" && !IsNoisePath(s)
    && if IsScaffolding(s) then IsSourceName(path) && '/' !in path && exists dir :: s == dir + "/" + path
       else path == s
  }

  lemma {:induction false} LastPart(s: string)
    requires '/' in s
    ensures var parts := SplitOn(s, '/');
            var name := parts[|parts| - 1];
            '/' !in name && exists dir :: s == dir + "/" + name
  {
    var n :| 0 <= n < |s| && s[n] == '/' && '/' !in s[n + 1..] by { LastSlash(s); }
    var dir, name := s[..n], s[n + 1..];
    assert s == dir + ['/'] + name && s == dir + "/" + name;
    SplitAtLast(dir, name);
  }

  lemma {:induction false} LastSlash(s: string)
    requires '/' in s
    ensures exists n :: 0 <= n < |s| && s[n] == '/' && '/' !in s[n + 1..]
  {
    var n := |s| - 1;
    if s[n] == '/' {
      assert s[n + 1..] == "";
    } else {
      LastSlash(s[..n]);
      var k :| 0 <= k < n && s[..n][k] == '/' && '/' !in s[..n][k + 1..];
      assert s[k + 1..] == s[..n][k + 1..] + [s[n]];
      assert s[k] == '/';
    }
  }

  lemma {:induction false} SplitAtLast(dir: string, name: string)
    requires '/' !in name
    ensures var parts := SplitOn(dir + ['/'] + name, '/'); parts[|parts| - 1] == name
  {
    var s := dir + ['/'] + name;
    if dir == "" {
      assert s[1..] == name;
      OnePart(name, '/');
    } else {
      SplitAtLast(dir[1..], name);
      assert s[1..] == dir[1..] + ['/'] + name;
      var parts, more := SplitOn(s, '/'), SplitOn(s[1..], '/');
      OneMore(dir[1..], name);
      assert |more| > 1;
    }
  }

  lemma OneMore(dir: string, name: string)
    ensures |SplitOn(dir + ['/'] + name, '/')| > 1
  {
    var s := dir + ['/'] + name;
    if dir == "" {
      assert s[1..] == name;
    } else {
      assert s[1..] == dir[1..] + ['/'] + name;
      OneMore(dir[1..], name);
    }
  }

  lemma LastNameUnique(dir: string, name: string, dir': string, name': string)
    requires '/' !in name && '/' !in name' && dir + "/" + name == dir' + "/" + name'
    ensures name == name'
  {
    assert dir + "/" + name == dir + ['/'] + name && dir' + "/" + name' == dir' + ['/'] + name';
    SplitAtLast(dir, name);
    SplitAtLast(dir', name');
  }

  lemma ExtensionsSame(name: string)
    ensures IsSourceName(name) <==>
            exists i :: 0 <= i < |SOURCE_SUFFIXES| && HasSuffix(name, SOURCE_SUFFIXES[i])
  {
    hide HasSuffix;
    assert forall e :: e in EXTENSIONS <==> e in SOURCE_SUFFIXES;
    if i :| 0 <= i < |EXTENSIONS| && HasSuffix(name, EXTENSIONS[i]) {
      assert EXTENSIONS[i] in SOURCE_SUFFIXES;
    }
    if i :| 0 <= i < |SOURCE_SUFFIXES| && HasSuffix(name, SOURCE_SUFFIXES[i]) {
      assert SOURCE_SUFFIXES[i] in EXTENSIONS;
    }
  }

  lemma TargetExact(raw: string, path: string)
    ensures TargetPath(raw) == Some(path) <==> RecordedAs(raw, path)
  {
    hide Strip, IsNoisePath, SplitOn, HasSuffix, IsSourceName;
    var s := Strip(raw);
    FindOccurs(ReplaceChar(s, '\\', '/'), "/ops-l1/");
    if s != "" && !IsNoisePath(s) && IsScaffolding(s) {
      assert s[0] == '/';
      LastPart(s);
      var parts := SplitOn(s, '/');
      var name := parts[|parts| - 1];
      var dir :| s == dir + "/" + name;
      ExtensionsSame(name);
      forall dir', path | s == dir' + "/" + path && '/' !in path
        ensures path == name
      {
        LastNameUnique(dir, name, dir', path);
      }
    }
  }

  // ---------------------------------------------------------------- what an event does

  /** The event replaces the text `o` of the file by `n`: a span edit with new text that differs from the old, or a
      written file, which replaces nothing. */
  predicate Replaces(ev: Event, o: string, n: string) {
    && ev.ToolStarted? && n != "" && n != o
    && if ev.tool == "edit_file" then
         o == Either(ev.args, "old_text", "old_string") && n == Either(ev.args, "new_text", "new_string")
       else
         && ev.tool == "write_file" && o == ""
         && n == (if Has(ev.args, "content") then ev.args["content"] else Either(ev.args, "text", "new_text"))
  }

  /** And the edit is recorded under the path. */
  ghost predicate Makes(ev: Event, path: string, o: string, n: string) {
    Replaces(ev, o, n) && RecordedAs(if "path" in ev.args then ev.args["path"] else "", path)
  }

  lemma ArgumentsRead(args: map<string, string>, first: string, second: string, third: string)
    ensures FirstArg(args, [first]) == if first in args then args[first] else ""
    ensures FirstArg(args, [first, second]) == Either(args, first, second)
    ensures FirstArg(args, [first, second, third]) ==
            if Has(args, first) then args[first] else Either(args, second, third)
  {
    assert [first, second, third][1..] == [second, third] && [first, second][1..] == [second];
    assert [second, third][1..] == [third] && [first][1..] == [] && [second][1..] == [] && [third][1..] == [];
    assert FirstArg(args, [third]) == if third in args then args[third] else "";
    assert FirstArg(args, [second]) == if second in args then args[second] else "";
    assert FirstArg(args, [second, third]) == Either(args, second, third);
  }

  /** The effective edit of an event, on its raw arguments. */
  lemma EffectExact(ev: Event, path: string, o: string, n: string)
    ensures EffectiveEdit(ev) == Some(Edit(path, o, n)) <==> Makes(ev, path, o, n)
  {
    hide TargetPath, FirstArg, Either, Has, RecordedAs;
    if ev.ToolStarted? {
      ArgumentsRead(ev.args, "path", "", "");
      ArgumentsRead(ev.args, "old_text", "old_string", "");
      ArgumentsRead(ev.args, "new_text", "new_string", "");
      ArgumentsRead(ev.args, "content", "text", "new_text");
      TargetExact(if "path" in ev.args then ev.args["path"] else "", path);
    }
  }

  /** The event at `k` makes an edit of the path, and no later one does. */
  ghost predicate MakesLast(events: seq<Event>, k: nat, path: string, o: string, n: string) {
    && k < |events| && Makes(events[k], path, o, n)
    && forall i, o', n' :: k < i < |events| ==> !Makes(events[i], path, o', n')
  }

  lemma {:induction false} LatestMade(events: seq<Event>, k: nat, path: string, o: string, n: string)
    requires MakesLast(events, k, path, o, n)
    ensures Latest(events, path) == Some(Edit(path, o, n))
  {
    hide EffectiveEdit, Makes;
    var m := |events| - 1;
    var last := EffectiveEdit(events[m]);
    if k == m {
      EffectExact(events[m], path, o, n);
    } else {
      if last.Some? {
        EffectExact(events[m], last.value.path, last.value.oldT, last.value.newT);
        assert last.value.path != path;
      }
      LatestMade(events[..m], k, path, o, n);
    }
  }

  /** The paths with a section or a rejected one are those that some event edits. */
  lemma EditedExact(events: seq<Event>, path: string)
    ensures path in EditedPaths(events) <==> exists k, o, n :: 0 <= k < |events| && Makes(events[k], path, o, n)
  {
    hide EffectiveEdit, Makes, Latest;
    LatestIsLast(events, path);
    if path in EditedPaths(events) {
      var k :| 0 <= k < |events| && IsLastEdit(events, path, Latest(events, path).value, k);
      var e := Latest(events, path).value;
      EffectExact(events[k], path, e.oldT, e.newT);
    }
    if k, o, n :| 0 <= k < |events| && Makes(events[k], path, o, n) {
      EffectExact(events[k], path, o, n);
      assert Edits(events[k], path);
    }
  }

  // ---------------------------------------------------------------- the section of a path

  /** `rel` is the path without the dots and slashes at its start. */
  predicate Relativized(path: string, rel: string) {
    && |rel| <= |path| && path[|path| - |rel|..] == rel
    && (rel != "" ==> rel[0] !in "./") && forall i :: 0 <= i < |path| - |rel| ==> path[i] in "./"
  }

  lemma {:induction false} RelativeExact(path: string)
    ensures Relativized(path, LStripDots(path))
  {
    if path != "" && path[0] in "./" {
      RelativeExact(path[1..]);
      var rel := LStripDots(path);
      assert path[|path| - |rel|..] == path[1..][|path| - 1 - |rel|..];
    } else {
      assert path[0..] == path;
    }
  }

  /** Four lines name the file and announce one hunk, and the hunk turns the old lines into the new ones. */
  ghost predicate SaysEdit(lines: seq<string>, rel: string, old': seq<string>, new': seq<string>) {
    && |lines| > 4
    && lines[0] == "diff --git a/" + rel + " b/" + rel
    && lines[1] == (if old' == [] then "--- /dev/null" else "--- a/" + rel)
    && lines[2] == "+++ b/" + rel
    && ReadHeader(lines[3]) == Some((|old'|, |new'|))
    && OldSide(lines[4..]) == old' && NewSide(lines[4..]) == new'
  }

  lemma SectionSays(rel: string, old': seq<string>, new': seq<string>)
    requires new' != [] && Printable(old', new')
    ensures SaysEdit(SectionLines(rel, old', new'), rel, old', new')
  {
    hide ReadHeader, HunkLine, OldSide, NewSide, Printable;
    var lines := SectionLines(rel, old', new');
    OnlyHunk(rel, old', new');
    BodySides(old', new');
    assert lines[4..] == Prefixed('-', old') + Prefixed('+', new');
  }

  lemma {:induction false} PatchOfSplit(events: seq<Event>, a: seq<string>, p: string, b: seq<string>)
    requires forall q :: q in a + [p] + b ==> Latest(events, q).Some?
    ensures PatchOf(events, a + [p] + b) == PatchOf(events, a) + SectionOf(events, p) + PatchOf(events, b)
  {
    hide Latest, SectionOf;
    if a == [] {
      assert a + [p] + b == [p] + b && ([p] + b)[1..] == b;
    } else {
      assert (a + [p] + b)[1..] == a[1..] + [p] + b && (a + [p] + b)[0] == a[0];
      PatchOfSplit(events, a[1..], p, b);
      Assoc(SectionOf(events, a[0]), PatchOf(events, a[1..]), SectionOf(events, p));
      Assoc(SectionOf(events, a[0]), PatchOf(events, a[1..]) + SectionOf(events, p), PatchOf(events, b));
    }
  }

  lemma {:induction false} PatchOfEnds(events: seq<Event>, paths: seq<string>)
    requires forall p :: p in paths ==> Latest(events, p).Some?
    ensures var t := PatchOf(events, paths); EndsLine(t) && (t != "" ==> "diff --git a/" <= t)
  {
    if paths == [] {
    } else {
      hide Latest, SectionOf, EndsLine;
      SectionAlone(events, paths[0]);
      PatchOfEnds(events, paths[1..]);
      PartsEnd(SectionOf(events, paths[0]), PatchOf(events, paths[1..]));
    }
  }

  lemma PartsEnd(s: string, t: string)
    requires EndsLine(s) && (s != "" ==> "diff --git a/" <= s) && EndsLine(t) && (t != "" ==> "diff --git a/" <= t)
    ensures EndsLine(s + t) && (s + t != "" ==> "diff --git a/" <= s + t)
  {
    if t == "" {
      assert s + t == s;
    } else if s == "" {
      assert s + t == t;
    } else {
      assert (s + t)[|s + t| - 1] == t[|t| - 1];
    }
  }

  /** The patch holds these lines, between whole sections. */
  ghost predicate HoldsLines(patch: string, lines: seq<string>) {
    exists before, after ::
      && patch == before + Unlines(lines) + after
      && EndsLine(before) && (after != "" ==> "diff --git a/" <= after)
  }

  /** The last edit of a path, whose texts are printable, has a section in the rebuilt patch that turns the old lines
      into the new ones, unless the lines that name the path open a hunk of their own. */
  lemma LastEditHeld(events: seq<Event>, k: nat, path: string, o: string, n: string)
    requires MakesLast(events, k, path, o, n)
    requires Printable(SplitLines(o), SplitLines(n))
    requires !Incomplete(HeadLines(LStripDots(path), |SplitLines(o)|, |SplitLines(n)|))
    ensures exists rel, lines ::
              && Relativized(path, rel) && SaysEdit(lines, rel, SplitLines(o), SplitLines(n))
              && HoldsLines(Replay(events), lines)
  {
    hide Latest, Printable, HeadLines, SplitLines, Incomplete, SectionOf, LStripDots, SaysEdit, Relativized, SpanToDiff;
    hide Makes, SectionLines;
    var rel, old', new' := LStripDots(path), SplitLines(o), SplitLines(n);
    var lines := SectionLines(rel, old', new');
    RelativeExact(path);
    LatestMade(events, k, path, o, n);
    SectionPrinted(events, path);
    MadeDiffers(events[k], path, o, n);
    SpanEmits(path, o, n);
    SpanText(path, o, n);
    SectionSays(rel, old', new');
    var paths := EditedPaths(events);
    var i :| 0 <= i < |paths| && paths[i] == path;
    assert paths == paths[..i] + [path] + paths[i + 1..];
    PatchOfSplit(events, paths[..i], path, paths[i + 1..]);
    PatchOfEnds(events, paths[..i]);
    PatchOfEnds(events, paths[i + 1..]);
    assert HoldsLines(Replay(events), lines);
  }

  lemma MadeDiffers(ev: Event, path: string, o: string, n: string)
    requires Makes(ev, path, o, n)
    ensures n != "" && n != o
  {}
}
