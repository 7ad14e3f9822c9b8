/** What `filter_unified_diff_noise` promises: it keeps exactly the sections that are not noise, it is
    idempotent, and when it can make a complete patch incomplete. */
module DiffFilterLaws {
  import opened Wrappers
  import opened PyText
  import opened Hunks
  import opened SpanPrinter
  import opened DiffFilter

  // ---------------------------------------------------------------- sections

  /** A `diff --git` line and the lines up to the next one. */
  predicate IsSection(s: seq<string>) {
    s != [] && IsHeader(s[0]) && forall i :: 1 <= i < |s| ==> !IsHeader(s[i])
  }

  predicate AllSections(secs: seq<seq<string>>) {
    forall i :: 0 <= i < |secs| ==> IsSection(secs[i])
  }

  predicate NoHeader(lines: seq<string>) {
    forall i :: 0 <= i < |lines| ==> !IsHeader(lines[i])
  }

  function Flatten(secs: seq<seq<string>>): seq<string> {
    if secs == [] then [] else secs[0] + Flatten(secs[1..])
  }

  /** The sections whose path is not noise, in order. */
  function Wanted(secs: seq<seq<string>>): (r: seq<seq<string>>)
    requires AllSections(secs)
    ensures AllSections(r)
  {
    if secs == [] then []
    else if IsNoiseHeader(secs[0][0]) then Wanted(secs[1..])
    else [secs[0]] + Wanted(secs[1..])
  }

  lemma {:induction false} WantedExact(secs: seq<seq<string>>, s: seq<string>)
    requires AllSections(secs)
    ensures s in Wanted(secs) <==> s in secs && !IsNoiseHeader(s[0])
  {
    hide IsSection, IsNoiseHeader;
    if secs == [] {
    } else {
      WantedExact(secs[1..], s);
      assert s in secs <==> s == secs[0] || s in secs[1..];
    }
  }

  function Preamble(lines: seq<string>): seq<string> {
    lines[..NextHeader(lines, 0)]
  }

  function Sections(lines: seq<string>): (r: seq<seq<string>>)
    requires lines == [] || IsHeader(lines[0])
    ensures AllSections(r) && Flatten(r) == lines
  {
    if lines == [] then [] else
      var e := NextHeader(lines, 1);
      var r := [lines[..e]] + Sections(lines[e..]);
      assert lines == lines[..e] + lines[e..];
      r
  }

  lemma {:induction false} FlattenStartsWithHeader(secs: seq<seq<string>>)
    requires AllSections(secs)
    ensures Flatten(secs) == [] || IsHeader(Flatten(secs)[0])
  {}

  lemma FlattenCons(s: seq<string>, secs: seq<seq<string>>)
    ensures Flatten([s] + secs) == s + Flatten(secs)
  {}

  lemma {:induction false} KeepSections(secs: seq<seq<string>>)
    requires AllSections(secs)
    ensures Keep(Flatten(secs), true) == Flatten(Wanted(secs))
  {
    if secs == [] {
    } else {
      hide IsHeader, IsNoiseHeader, Keep, IsSection;
      FlattenStartsWithHeader(secs[1..]);
      KeepSections(secs[1..]);
      KeepOneSection(secs[0], Flatten(secs[1..]));
      FlattenCons(secs[0], Wanted(secs[1..]));
    }
  }

  /** Section filtering is exact: the kept lines are the preamble and then, in order and unchanged,
      exactly the sections whose path is not noise. */
  lemma KeepExact(lines: seq<string>)
    ensures var rest := lines[|Preamble(lines)|..];
            && NoHeader(Preamble(lines)) && (rest == [] || IsHeader(rest[0]))
            && lines == Preamble(lines) + Flatten(Sections(rest))
            && Keep(lines, true) == Preamble(lines) + Flatten(Wanted(Sections(rest)))
  {
    hide IsHeader, IsNoiseHeader, Sections, Flatten, Wanted;
    var pre := Preamble(lines);
    var rest := lines[|pre|..];
    assert lines == pre + rest;
    KeepBlock(pre, rest, true);
    KeepSections(Sections(rest));
  }

  // ---------------------------------------------------------------- printed headers

  /** The path that the filter reads from the line printed for `path`: what follows the first ` b/`. */
  function ReadBack(path: string): string {
    match Find(path, " b/")
    case None => path
    case Some(i) => Strip(path[i + 3..] + " b/" + path)
  }

  /** The line that the printer writes for a path names the path exactly when the path has no ` b/` itself. */
  lemma PrintedHeaderPath(path: string)
    requires Trimmed(path) && BreakFree(path)
    ensures var line := "diff --git a/" + path + " b/" + path + "\n";
            IsHeader(line) && HeaderPath(line) == ReadBack(path)
    ensures ReadBack(path) == path <==> Find(path, " b/").None?
  {
    hide Strip, IsBreak, Find, RStripNewlines, ReadBack;
    var line := "diff --git a/" + path + " b/" + path + "\n";
    var rest := "a/" + path + " b/" + path;
    assert line == GIT + rest + "\n";
    LastIsPlain(path);
    HeaderRest(rest);
    FirstMark(path);
    BehindMark(path);
  }

  lemma BehindMark(path: string)
    requires Trimmed(path)
    ensures var i := match Find(path, " b/") case None => |path| case Some(i) => i;
            Strip(("a/" + path + " b/" + path)[i + 5..]) == ReadBack(path)
    ensures ReadBack(path) == path <==> Find(path, " b/").None?
  {
    hide Strip, Find, Trimmed;
    match Find(path, " b/") {
      case None =>
        StripTrimmed(path);
        Suffix("a/" + path + " b/", path);
      case Some(i) =>
        var front, tail := path[..i + 3], path[i + 3..];
        assert path == front + tail;
        assert "a/" + path + " b/" + path == "a/" + front + (tail + " b/" + path);
        Suffix("a/" + front, tail + " b/" + path);
        LongerThan(tail, path);
    }
  }

  lemma Suffix(front: string, tail: string)
    ensures (front + tail)[|front|..] == tail
  {}

  lemma LongerThan(tail: string, path: string)
    requires Trimmed(path)
    ensures |Strip(tail + " b/" + path)| > |path|
  {
    hide Strip;
    var last := "b/" + path;
    assert Trimmed(last) by { assert last[0] == 'b' && last[|last| - 1] == path[|path| - 1]; }
    assert tail + " b/" + path == tail + " " + last;
    StripKeeps(tail + " ", last);
  }

  lemma HeaderRest(rest: string)
    requires rest != "" && rest[|rest| - 1] != '\n'
    ensures RStripNewlines((GIT + rest + "\n")[|GIT|..]) == rest
  {}

  /** Stripping leaves what stands from the first to the last character that is not blank. */
  lemma {:induction false} StripKeeps(front: string, t: string)
    requires Trimmed(t)
    ensures |Strip(front + t)| >= |t|
  {
    var s := front + t;
    assert s[|s| - 1] == t[|t| - 1] && RStrip(s) == s;
    LStripKeeps(front, t);
  }

  lemma {:induction false} LStripKeeps(front: string, t: string)
    requires Trimmed(t)
    ensures |LStrip(front + t)| >= |t|
  {
    if front == "" {
    } else {
      assert (front + t)[1..] == front[1..] + t;
      LStripKeeps(front[1..], t);
    }
  }

  lemma FirstMark(path: string)
    requires Trimmed(path)
    ensures Find("a/" + path + " b/" + path, " b/") ==
            match Find(path, " b/") case None => Some(|path| + 2) case Some(i) => Some(i + 2)
  {
    hide Find, Trimmed;
    FindFirst(path, " b/");
    var k := match Find(path, " b/") case None => |path| case Some(i) => i;
    NoMarkBefore(path, k);
    SameMark(path, k);
    FindIs("a/" + path + " b/" + path, " b/", k + 2);
  }

  lemma NoMarkBefore(path: string, k: nat)
    requires Trimmed(path) && k <= |path| && forall i :: 0 <= i < k ==> !(" b/" <= path[i..])
    ensures var s := "a/" + path + " b/" + path; forall i :: 0 <= i < k + 2 ==> !(" b/" <= s[i..])
  {
    hide Trimmed;
    var s := "a/" + path + " b/" + path;
    forall i | 0 <= i < k + 2
      ensures !(" b/" <= s[i..])
    {
      if i < 2 {
        assert s[i..][0] == "a/"[i];
      } else {
        SameMark(path, i - 2);
      }
    }
  }

  lemma SameMark(path: string, i: nat)
    requires Trimmed(path) && i <= |path|
    ensures var s := "a/" + path + " b/" + path; " b/" <= s[i + 2..] <==> i == |path| || " b/" <= path[i..]
  {
    var s := "a/" + path + " b/" + path;
    if i + 3 <= |path| {
      assert s[i + 2..][..3] == path[i..][..3];
    } else if i < |path| {
      assert path[|path| - 1] != ' ';
      assert s[i + 2..][0] == path[i];
      assert i + 2 == |path| ==> s[i + 2..][2] == ' ';
    } else {
      assert s[i + 2..] == " b/" + path;
    }
  }

  lemma LastIsPlain(path: string)
    requires Trimmed(path) && BreakFree(path)
    ensures path[|path| - 1] != '\n'
  {}

  // ---------------------------------------------------------------- completeness, line by line

  lemma BodiesAppend(a: seq<string>, b: seq<string>)
    ensures Bodies(a + b) == Bodies(a) + Bodies(b)
  {}

  lemma HeaderBreaks(l: string)
    requires IsHeader(l)
    ensures IsBreaker(Body(l))
  {}

  /** A patch is incomplete exactly when its preamble or one of its sections is. */
  lemma {:induction false} IncompleteSections(pre: seq<string>, secs: seq<seq<string>>)
    requires AllSections(secs)
    ensures Incomplete(Bodies(pre + Flatten(secs))) <==>
            Incomplete(Bodies(pre)) || exists i :: 0 <= i < |secs| && Incomplete(Bodies(secs[i]))
    decreases |secs|
  {
    hide IsHeader, Incomplete, Bodies;
    if secs == [] {
      assert pre + Flatten(secs) == pre;
    } else {
      var s, rest := secs[0], Flatten(secs[1..]);
      assert pre + Flatten(secs) == pre + (s + rest);
      BodiesAppend(pre, s + rest);
      HeaderBreaks(s[0]);
      IncompleteAppend(Bodies(pre), Bodies(s + rest));
      IncompleteSections(s, secs[1..]);
      assert forall i :: 1 <= i < |secs| ==> secs[i] == secs[1..][i - 1];
    }
  }

  /** On lines, filtering never makes a complete patch incomplete. */
  lemma KeepComplete(lines: seq<string>)
    requires !Incomplete(Bodies(lines))
    ensures !Incomplete(Bodies(Keep(lines, true)))
  {
    hide Incomplete, Bodies, IsHeader, IsNoiseHeader, Sections, Keep, Preamble;
    KeepExact(lines);
    var pre := Preamble(lines);
    var secs := Sections(lines[|pre|..]);
    IncompleteSections(pre, secs);
    IncompleteSections(pre, Wanted(secs));
    forall i | 0 <= i < |Wanted(secs)|
      ensures Wanted(secs)[i] in secs
    {
      WantedExact(secs, Wanted(secs)[i]);
    }
  }

  // ---------------------------------------------------------------- back to text

  lemma {:induction false} KeepFirst(lines: seq<string>, on: bool)
    ensures var k := Keep(lines, on);
            k == [] || IsHeader(k[0]) || (on && k[0] == lines[0])
  {
    hide IsHeader, IsNoiseHeader;
    if lines == [] {
    } else {
      KeepFirst(lines[1..], KeepsLine(lines[0], on));
    }
  }

  /** Dropping sections leaves lines cut as `splitlines` would cut them. */
  lemma {:induction false} KeepWellCut(lines: seq<string>, on: bool)
    requires WellCut(lines)
    ensures WellCut(Keep(lines, on))
  {
    if lines == [] {
      WellCutNil();
    } else if |lines| == 1 {
      assert lines[1..] == [] && lines == [lines[0]];
      WellCutNil();
    } else {
      hide Terminated, IsHeader, IsNoiseHeader, WellCut, SplitReturn;
      WellCutHead(lines);
      var on' := KeepsLine(lines[0], on);
      var kept := Keep(lines[1..], on');
      KeepWellCut(lines[1..], on');
      KeepFirst(lines[1..], on');
      if on' {
        if kept != [] && IsHeader(kept[0]) {
          HeaderStart(lines[0], kept[0]);
        }
        WellCutCons(lines[0], kept);
        assert Keep(lines, on) == [lines[0]] + kept;
      } else {
        assert Keep(lines, on) == kept;
      }
    }
  }

  lemma HeaderStart(l: string, header: string)
    requires IsHeader(header)
    ensures !SplitReturn(l, header)
  {}

  /** Text that ends with a line break other than `\n` and `\r`. */
  predicate OddTail(s: string) {
    s != "" && IsBreak(s[|s| - 1]) && s[|s| - 1] != '\n' && s[|s| - 1] != '\r'
  }

  /** The lines of a text after a `\n` is added to it where it does not end with one: that `\n` joins the last
      line, unless another line break ends it. */
  function Rejoined(ls: seq<string>): seq<string> {
    if ls == [] then [] else
      var front, l := ls[..|ls| - 1], ls[|ls| - 1];
      if EndsLine(l) then ls else if OddTail(l) then ls + ["\n"] else front + [l + "\n"]
  }

  lemma RejoinedLast(front: seq<string>, l: string)
    ensures Rejoined(front + [l]) ==
            if EndsLine(l) then front + [l] else if OddTail(l) then front + [l] + ["\n"] else front + [l + "\n"]
  {
    var ls := front + [l];
    assert ls[..|ls| - 1] == front;
  }

  lemma {:induction false} ConcatLast(ls: seq<string>)
    requires ls != [] && ls[|ls| - 1] != ""
    ensures var t, l := Concat(ls), ls[|ls| - 1]; t != "" && t[|t| - 1] == l[|l| - 1]
  {
    var front := ls[..|ls| - 1];
    assert ls == front + [ls[|ls| - 1]];
    ConcatAppend(front, [ls[|ls| - 1]]);
    assert Concat([ls[|ls| - 1]]) == ls[|ls| - 1];
  }

  lemma ConcatOne(l: string)
    ensures Concat([l]) == l
  {}

  lemma {:induction false} LastNonEmpty(ls: seq<string>)
    requires WellCut(ls) && ls != []
    ensures ls[|ls| - 1] != ""
  {
    hide Terminated, SplitReturn;
    if |ls| > 1 {
      LastNonEmpty(ls[1..]);
    }
  }

  lemma ConcatSnoc(front: seq<string>, l: string)
    ensures Concat(front + [l]) == Concat(front) + l
  {
    ConcatAppend(front, [l]);
    ConcatOne(l);
  }

  lemma RejoinedTwice(front: seq<string>, l: string)
    ensures Rejoined(Rejoined(front + [l])) == Rejoined(front + [l])
  {
    hide OddTail, Rejoined;
    RejoinedLast(front, l);
    if !EndsLine(l) && OddTail(l) {
      RejoinedLast(front + [l], "\n");
    } else if !EndsLine(l) {
      RejoinedLast(front, l + "\n");
    }
  }

  lemma RejoinedTextAt(front: seq<string>, l: string)
    requires l != ""
    ensures var t := Concat(front + [l]); Concat(Rejoined(front + [l])) == if EndsLine(t) then t else t + "\n"
  {
    hide Concat, OddTail, Rejoined;
    RejoinedLast(front, l);
    ConcatSnoc(front, l);
    ConcatLast(front + [l]);
    if !EndsLine(l) && OddTail(l) {
      ConcatSnoc(front + [l], "\n");
    } else if !EndsLine(l) {
      ConcatSnoc(front, l + "\n");
      Assoc(Concat(front), l, "\n");
    }
  }

  lemma RejoinedText(ls: seq<string>)
    requires ls != [] ==> ls[|ls| - 1] != ""
    ensures var t := Concat(ls); Concat(Rejoined(ls)) == if EndsLine(t) then t else t + "\n"
    ensures Rejoined(Rejoined(ls)) == Rejoined(ls)
  {
    hide *;
    if ls == [] {
      NoText();
    } else {
      LastApart(ls);
      RejoinedTextAt(ls[..|ls| - 1], ls[|ls| - 1]);
      RejoinedTwice(ls[..|ls| - 1], ls[|ls| - 1]);
    }
  }

  lemma LastApart(ls: seq<string>)
    requires ls != []
    ensures ls[..|ls| - 1] + [ls[|ls| - 1]] == ls
  {}

  lemma NoText()
    ensures Concat([]) == "" && Rejoined([]) == [] && Bodies([]) == [] && !OddTail("") && EndsLine("")
  {}

  lemma RejoinedCons(l: string, ls: seq<string>)
    requires ls != []
    ensures Rejoined([l] + ls) == [l] + Rejoined(ls)
  {
    hide OddTail;
    var all := [l] + ls;
    assert all[..|all| - 1] == [l] + ls[..|ls| - 1];
  }

  lemma OneLine(t: string)
    requires t != "" && LineEnd(t) == |t|
    ensures SplitKeep(t) == [t]
  {
    hide LineEnd;
    assert t[..|t|] == t && t[|t|..] == "";
  }

  lemma NewlineJoins(t: string)
    requires !EndsLine(t) && !OddTail(t) && LineEnd(t) == |t|
    ensures LineEnd(t + "\n") == |t| + 1
  {
    hide BreakFree;
    var s, i := t + "\n", FirstBreak(t);
    assert s[..i] == t[..i];
    FirstBreakUnique(s, i);
  }

  lemma OddTerminated(t: string)
    requires OddTail(t) && LineEnd(t) == |t|
    ensures Terminated(t) && !SplitReturn(t, "\n")
  {
    assert t[..|t|] == t;
  }

  lemma OneLineRejoined(t: string)
    requires !EndsLine(t) && LineEnd(t) == |t|
    ensures SplitKeep(t) == [t] && SplitKeep(t + "\n") == Rejoined([t])
  {
    hide LineEnd, SplitKeep, Terminated, OddTail;
    OneLine(t);
    if OddTail(t) {
      OddTerminated(t);
      RecutFirst(t, "\n");
      assert LineEnd("\n") == 1;
      OneLine("\n");
    } else {
      NewlineJoins(t);
      OneLine(t + "\n");
    }
  }

  /** Adding a `\n` to a text that does not end with one. */
  lemma {:induction false} RejoinedSplit(t: string)
    ensures SplitKeep(if EndsLine(t) then t else t + "\n") == Rejoined(SplitKeep(t))
    decreases |t|
  {
    if EndsLine(t) {
      LinesEnd(t);
    } else {
      var n := LineEnd(t);
      if n == |t| {
        OneLineRejoined(t);
      } else {
        hide FirstBreak, BreakFree, Rejoined, LineEnd;
        var rest := t[n..];
        RejoinedSplit(rest);
        RejoinedCons(t[..n], SplitKeep(rest));
        LineEndGrown(t);
        assert (t + "\n")[..n] == t[..n] && (t + "\n")[n..] == rest + "\n";
      }
    }
  }

  lemma LinesEnd(t: string)
    requires EndsLine(t)
    ensures Rejoined(SplitKeep(t)) == SplitKeep(t)
  {
    hide WellCut, SplitKeep, Rejoined, Concat, OddTail;
    var ls := SplitKeep(t);
    if ls != [] {
      SplitKeepWellCut(t);
      LastNonEmpty(ls);
      SplitKeepConcat(t);
      ConcatLast(ls);
      LastApart(ls);
      RejoinedLast(ls[..|ls| - 1], ls[|ls| - 1]);
    } else {
      NoText();
    }
  }

  lemma LineEndGrown(t: string)
    requires t != "" && LineEnd(t) < |t|
    ensures LineEnd(t + "\n") == LineEnd(t)
  {
    hide BreakFree;
    var i := FirstBreak(t);
    assert (t + "\n")[..i] == t[..i];
    FirstBreakUnique(t + "\n", i);
  }

  // ---------------------------------------------------------------- keeping the line that a newline joins

  lemma HeaderGrown(l: string)
    requires l != "" && l[|l| - 1] != '\n'
    ensures IsHeader(l + "\n") == IsHeader(l) && IsNoiseHeader(l + "\n") == IsNoiseHeader(l)
  {
    var m := l + "\n";
    assert m[|m| - 1] == '\n';
    assert IsHeader(m) ==> m[|GIT| - 1] == ' ';
    assert |l| >= |GIT| ==> l[..|GIT|] == m[..|GIT|];
    if IsHeader(l) {
      hide IsNoisePath, RStripNewlines, Find, Strip;
      HeaderRestGrown(l);
    }
  }

  lemma HeaderRestGrown(l: string)
    requires IsHeader(l)
    ensures RStripNewlines((l + "\n")[|GIT|..]) == RStripNewlines(l[|GIT|..])
  {
    var rest := l[|GIT|..];
    assert (l + "\n")[|GIT|..] == rest + "\n";
    assert (rest + "\n")[..|rest|] == rest;
  }

  /** Whether a line put behind `front` is kept. */
  predicate KeepsNext(front: seq<string>, l: string, on: bool)
    decreases |front|
  {
    if front == [] then KeepsLine(l, on) else KeepsNext(front[1..], l, KeepsLine(front[0], on))
  }

  lemma {:induction false} KeepSnoc(front: seq<string>, l: string, on: bool)
    ensures Keep(front + [l], on) == Keep(front, on) + if KeepsNext(front, l, on) then [l] else []
    ensures |Keep(front, on)| <= |front|
    decreases |front|
  {
    hide KeepsLine;
    if front == [] {
      assert front + [l] == [l] + [];
      KeepCons(l, [], on);
    } else {
      assert front + [l] == [front[0]] + (front[1..] + [l]);
      KeepCons(front[0], front[1..] + [l], on);
      KeepSnoc(front[1..], l, KeepsLine(front[0], on));
    }
  }

  lemma {:induction false} KeepsNextSame(front: seq<string>, l: string, l': string, on: bool)
    requires IsHeader(l) == IsHeader(l') && IsNoiseHeader(l) == IsNoiseHeader(l')
    ensures KeepsNext(front, l, on) == KeepsNext(front, l', on)
    decreases |front|
  {
    hide IsHeader, IsNoiseHeader;
    if front == [] {
    } else {
      KeepsNextSame(front[1..], l, l', KeepsLine(front[0], on));
    }
  }

  /** A line that is no header goes with the line before it. */
  lemma {:induction false} KeepsNextFollows(front: seq<string>, l: string, m: string, on: bool)
    requires !IsHeader(m)
    ensures KeepsNext(front + [l], m, on) == KeepsNext(front, l, on)
    decreases |front|
  {
    hide IsHeader, IsNoiseHeader;
    var all := front + [l];
    if front == [] {
      assert all[1..] == [];
    } else {
      assert all[1..] == front[1..] + [l];
      KeepsNextFollows(front[1..], l, m, KeepsLine(front[0], on));
    }
  }

  /** Filtering lines to which a `\n` was added: the `\n` is kept exactly when the last line is. */
  lemma KeepRejoined(ls: seq<string>)
    ensures var k, r := Keep(ls, true), Keep(Rejoined(ls), true); r == Rejoined(k) || (r == k && k != ls)
  {
    hide Keep, OddTail;
    if ls == [] {
      KeepNone(true);
    } else {
      var front, l := ls[..|ls| - 1], ls[|ls| - 1];
      assert ls == front + [l];
      if !EndsLine(l) && OddTail(l) {
        KeepOdd(front, l);
      } else if !EndsLine(l) {
        KeepGrown(front, l);
      }
    }
  }

  /** The `\n` stands as a line of its own. */
  lemma KeepOdd(front: seq<string>, l: string)
    requires !EndsLine(l) && OddTail(l)
    ensures var ls := front + [l];
            var k, r := Keep(ls, true), Keep(Rejoined(ls), true); r == Rejoined(k) || (r == k && k != ls)
  {
    hide IsHeader, Keep, KeepsNext, Rejoined, OddTail;
    var ls := front + [l];
    NewlineNoHeader();
    KeepSnoc(front, l, true);
    KeepSnoc(ls, "\n", true);
    KeepsNextFollows(front, l, "\n", true);
    RejoinedLast(Keep(front, true), l);
    RejoinedLast(front, l);
    if !KeepsNext(front, l, true) {
      assert Keep(ls, true) + [] == Keep(ls, true);
    }
  }

  /** The `\n` joins the last line. */
  lemma KeepGrown(front: seq<string>, l: string)
    requires !EndsLine(l) && !OddTail(l)
    ensures var ls := front + [l];
            var k, r := Keep(ls, true), Keep(Rejoined(ls), true); r == Rejoined(k) || (r == k && k != ls)
  {
    hide IsHeader, IsNoiseHeader, Keep, KeepsNext, Rejoined, OddTail;
    HeaderGrown(l);
    KeepSnoc(front, l, true);
    KeepSnoc(front, l + "\n", true);
    KeepsNextSame(front, l, l + "\n", true);
    RejoinedLast(Keep(front, true), l);
    RejoinedLast(front, l);
  }

  lemma NewlineNoHeader()
    ensures !IsHeader("\n")
  {}

  // ---------------------------------------------------------------- the laws on text

  /** The kept lines of the diff as it stands, before any `\n` is added. */
  function RawKept(diff: string): seq<string> {
    Keep(SplitKeep(DropNewlines(diff)), true)
  }

  lemma RawWellCut(diff: string)
    ensures WellCut(RawKept(diff)) && SplitKeep(Concat(RawKept(diff))) == RawKept(diff)
    ensures var t := Concat(RawKept(diff)); t == "" || t[0] != '\n'
  {
    hide WellCut, Keep, SplitKeep, DropNewlines, Concat;
    var t := DropNewlines(diff);
    SplitKeepWellCut(t);
    KeepWellCut(SplitKeep(t), true);
    Recut(RawKept(diff));
    KeptStart(t);
  }

  lemma KeptStart(t: string)
    requires t == "" || t[0] != '\n'
    ensures var k := Concat(Keep(SplitKeep(t), true)); k == "" || k[0] != '\n'
  {
    hide Keep, SplitKeep, IsHeader, IsNoiseHeader, WellCut, Concat;
    var lines := SplitKeep(t);
    var kept := Keep(lines, true);
    SplitKeepFirst(t);
    SplitKeepWellCut(t);
    KeepWellCut(lines, true);
    KeepFirst(lines, true);
    NoText();
    if kept != [] {
      WellCutHead(kept);
      ConcatFirst(kept);
      if IsHeader(kept[0]) {
        HeaderFirst(kept[0]);
      } else if t == "" {
        KeepNone(true);
      }
    }
  }

  lemma ConcatFirst(ls: seq<string>)
    requires ls != [] && ls[0] != ""
    ensures Concat(ls) != "" && Concat(ls)[0] == ls[0][0]
  {}

  lemma HeaderFirst(l: string)
    requires IsHeader(l)
    ensures l != "" && l[0] == 'd'
  {}

  lemma NormalizedOf(t: string)
    requires t == "" || t[0] != '\n'
    ensures Normalized(t) == if EndsLine(t) then t else t + "\n"
  {}

  lemma NormalizedDrops(t: string)
    ensures var d := DropNewlines(t); Normalized(t) == if EndsLine(d) then d else d + "\n"
  {}

  /** The `\n` added to the diff before filtering makes no difference, and the lines of the filtered text are the
      kept lines, up to the `\n` added behind them. */
  lemma FilterMeans(diff: string)
    ensures FilterText(diff) == Normalized(Concat(RawKept(diff)))
    ensures SplitKeep(FilterText(diff)) == Rejoined(RawKept(diff))
    ensures Normalized(FilterText(diff)) == FilterText(diff)
  {
    hide WellCut, Keep, SplitKeep, DropNewlines, Concat, Rejoined, Normalized;
    var t := DropNewlines(diff);
    var ls, k, r := SplitKeep(t), RawKept(diff), KeptLines(diff);
    RawWellCut(diff);
    RejoinedSplit(t);
    NormalizedDrops(diff);
    KeepRejoined(ls);
    if k != [] {
      LastNonEmpty(k);
    }
    RejoinedText(k);
    NormalizedOf(Concat(k));
    RejoinedSplit(Concat(k));
    RejoinedStart(Concat(k));
    NormalizedOf(Concat(Rejoined(k)));
  }

  lemma RejoinedStart(t: string)
    requires t == "" || t[0] != '\n'
    ensures var s := if EndsLine(t) then t else t + "\n"; (s == "" || s[0] != '\n') && EndsLine(s)
  {}

  lemma DropNothing(t: string)
    requires t == "" || t[0] != '\n'
    ensures DropNewlines(t) == t
  {}

  lemma NormalizedStart(t: string)
    requires Normalized(t) == t
    ensures DropNewlines(t) == t && EndsLine(t)
  {
    DropNothing(t);
  }

  /** `filter_unified_diff_noise` applied twice gives what it gives once, on every text. */
  lemma FilterIdempotent(diff: string)
    ensures FilterText(FilterText(diff)) == FilterText(diff)
  {
    hide WellCut, Keep, SplitKeep, DropNewlines, Concat, Rejoined, Normalized, FilterText;
    var k, once := RawKept(diff), FilterText(diff);
    FilterMeans(diff);
    FilterMeans(once);
    NormalizedStart(once);
    KeepTwice(diff);
    KeepRejoined(k);
    SplitKeepConcat(once);
  }

  lemma KeepTwice(diff: string)
    ensures Keep(RawKept(diff), true) == RawKept(diff)
  {
    hide Keep, SplitKeep, DropNewlines;
    var lines := SplitKeep(DropNewlines(diff));
    KeepKept(lines, [], true);
    assert Keep(lines, true) + [] == Keep(lines, true);
  }

  /** For a text that ends with `\n` and one that starts with a `diff --git` line, filtering distributes over
      concatenation exactly when no `\n` has to be added between the two kept parts. */
  lemma FilterAppend(a: string, b: string)
    requires EndsLine(a) && GIT <= b
    ensures FilterText(a + b) == FilterText(a) + FilterText(b) <==>
            EndsLine(Concat(RawKept(a))) || RawKept(b) == []
  {
    hide *;
    KeptAppend(a, b);
    RawWellCut(a);
    RawWellCut(b);
    RawWellCut(a + b);
    NormalizedOf(Concat(RawKept(a)));
    NormalizedOf(Concat(RawKept(b)));
    NormalizedOf(Concat(RawKept(a + b)));
    KeptEmpty(b);
    FilterMeans(a);
    FilterMeans(b);
    FilterMeans(a + b);
    Glue(Concat(RawKept(a)), Concat(RawKept(b)));
  }

  lemma {:induction false} DropAppend(a: string, b: string)
    requires EndsLine(a) && GIT <= b
    ensures DropNewlines(a + b) == DropNewlines(a) + b && EndsLine(DropNewlines(a)) && DropNewlines(b) == b
  {
    if a == "" {
      assert a + b == b;
    } else if a[0] == '\n' {
      assert (a + b)[1..] == a[1..] + b;
      DropAppend(a[1..], b);
    }
  }

  lemma KeptAppend(a: string, b: string)
    requires EndsLine(a) && GIT <= b
    ensures Concat(RawKept(a + b)) == Concat(RawKept(a)) + Concat(RawKept(b))
  {
    hide Keep, SplitKeep, Concat, IsHeader, DropNewlines;
    var front := DropNewlines(a);
    DropAppend(a, b);
    SplitKeepAppend(front, b);
    StartsWithHeader(b);
    KeepAppend(SplitKeep(front), SplitKeep(b), true);
    ConcatAppend(RawKept(a), RawKept(b));
  }

  lemma Glue(x: string, y: string)
    ensures (if EndsLine(x + y) then x + y else x + y + "\n") ==
            (if EndsLine(x) then x else x + "\n") + (if EndsLine(y) then y else y + "\n")
            <==> EndsLine(x) || y == ""
  {}

  lemma StartsWithHeader(t: string)
    requires GIT <= t
    ensures SplitKeep(t) != [] && IsHeader(SplitKeep(t)[0])
  {
    var r := FirstBreak(t);
    assert forall i :: 0 <= i < |GIT| ==> t[i] == GIT[i] && !IsBreak(GIT[i]);
    assert r >= |GIT|;
    assert GIT <= t[..LineEnd(t)];
  }

  lemma KeptEmpty(b: string)
    ensures RawKept(b) == [] <==> Concat(RawKept(b)) == ""
  {
    hide RawKept, WellCut;
    var kept := RawKept(b);
    RawWellCut(b);
    if kept != [] {
      LastNonEmpty(kept);
      ConcatLast(kept);
    }
  }

  // ---------------------------------------------------------------- texts that the filter leaves alone

  predicate NoNoise(lines: seq<string>) {
    forall i :: 0 <= i < |lines| ==> !IsNoiseHeader(lines[i])
  }

  /** Without a noise header everything is kept; with one, at least its line is lost. */
  lemma {:induction false} KeepAll(lines: seq<string>, on: bool)
    ensures on && NoNoise(lines) ==> Keep(lines, on) == lines
    ensures |Concat(Keep(lines, on))| <= |Concat(lines)|
    ensures !NoNoise(lines) ==> |Concat(Keep(lines, on))| + |GIT| <= |Concat(lines)|
    decreases |lines|
  {
    if lines == [] {
    } else {
      hide HeaderPath, IsNoisePath, IsHeader, IsNoiseHeader, Concat, Keep;
      var l, rest := lines[0], lines[1..];
      assert lines == [l] + rest;
      KeepCons(l, rest, on);
      KeepAll(rest, KeepsLine(l, on));
      ConcatAppend([l], rest);
      ConcatAppend([l], Keep(rest, true));
      ConcatOne(l);
      NoiseIsLong(l);
    }
  }

  lemma NoiseIsLong(l: string)
    ensures IsNoiseHeader(l) ==> |GIT| <= |l| && IsHeader(l)
  {}

  /** The filter leaves a diff as it is exactly when the diff is normalized and has no noise header. */
  lemma FilterFixedIff(diff: string)
    ensures FilterText(diff) == diff <==> Normalized(diff) == diff && NoNoise(SplitKeep(diff))
  {
    hide NoNoise, Keep, SplitKeep, Concat, Normalized, FilterText, DropNewlines;
    FilterMeans(diff);
    if Normalized(diff) == diff {
      NormalizedStart(diff);
      KeepAll(SplitKeep(diff), true);
      SplitKeepConcat(diff);
      RawWellCut(diff);
      NormalizedOf(Concat(RawKept(diff)));
      assert |GIT| == 11;
    }
  }

  // ---------------------------------------------------------------- completeness of the filtered text

  /** The last hunk runs to the end of the patch. */
  ghost predicate OpenAtEnd(lines: seq<string>) {
    exists h: nat :: IsHunk(lines, h) && HunkEnd(lines, h + 1) == |lines|
  }

  lemma BlankAppended(lines: seq<string>, h: nat)
    requires h < |lines|
    ensures IsHunk(lines + [""], h) == IsHunk(lines, h)
    ensures Balanced(lines, h) ==> (Balanced(lines + [""], h) <==> HunkEnd(lines, h + 1) < |lines|)
  {
    hide ReadHeader, OldLine, NewLine, OldSide, NewSide, IsBreaker;
    var more, e := lines + [""], HunkEnd(lines, h + 1);
    BlankIsBoth();
    if e < |lines| {
      HunkEndIs(more, h + 1, e);
      assert HunkBody(more, h) == HunkBody(lines, h);
    } else {
      HunkEndIs(more, h + 1, |more|);
      assert more[h + 1..|lines|] == HunkBody(lines, h);
      assert more[h + 1..|lines| + 1] == HunkBody(more, h);
      SidesSnoc(more, h + 1, |lines|);
    }
  }

  lemma BlankIsBoth()
    ensures OldLine("") && NewLine("") && !IsBreaker("")
  {}

  lemma NoHunkInBlank(lines: seq<string>)
    ensures !IsHunk(lines + [""], |lines|)
  {}

  /** An empty line at the end breaks a complete patch exactly when a hunk is still open there. */
  lemma AppendBlank(lines: seq<string>)
    requires !Incomplete(lines)
    ensures Incomplete(lines + [""]) <==> OpenAtEnd(lines)
  {
    hide ReadHeader, HunkEnd, Balanced;
    var more := lines + [""];
    NoHunkInBlank(lines);
    assert forall h: nat :: h < |lines| ==> more[h] == lines[h];
    if Incomplete(more) {
      var h: nat :| BadHunk(more, h);
      assert IsHunk(lines, h) && !BadHunk(lines, h);
      BlankAppended(lines, h);
      assert HunkEnd(lines, h + 1) <= |lines|;
    }
    if OpenAtEnd(lines) {
      var h: nat :| IsHunk(lines, h) && HunkEnd(lines, h + 1) == |lines|;
      assert !BadHunk(lines, h);
      BlankAppended(lines, h);
      assert BadHunk(more, h);
    }
  }

  lemma BodyGrown(l: string)
    ensures Body(l + "\n") == Body(l)
  {
    hide BreakFree;
    var i, m := FirstBreak(l), l + "\n";
    assert m[..i] == l[..i];
    FirstBreakUnique(m, i);
  }

  lemma BodiesRejoinedAt(front: seq<string>, l: string)
    ensures Bodies(Rejoined(front + [l])) ==
            Bodies(front + [l]) + if !EndsLine(l) && OddTail(l) then [""] else []
  {
    hide Body, Bodies, OddTail, Rejoined;
    RejoinedLast(front, l);
    if !EndsLine(l) && OddTail(l) {
      BodiesAppend(front + [l], ["\n"]);
      NewlineBody();
    } else if !EndsLine(l) {
      BodyGrown(l);
      BodiesAppend(front, [l + "\n"]);
      BodiesAppend(front, [l]);
      OneBody(l);
      OneBody(l + "\n");
    }
  }

  lemma BodiesRejoined(ls: seq<string>)
    requires ls != [] ==> ls[|ls| - 1] != ""
    ensures Bodies(Rejoined(ls)) == Bodies(ls) + if OddTail(Concat(ls)) then [""] else []
  {
    hide *;
    if ls == [] {
      NoText();
    } else {
      LastApart(ls);
      BodiesRejoinedText(ls[..|ls| - 1], ls[|ls| - 1]);
    }
  }

  lemma BodiesRejoinedText(front: seq<string>, l: string)
    requires l != ""
    ensures var ls := front + [l];
            Bodies(Rejoined(ls)) == Bodies(ls) + if OddTail(Concat(ls)) then [""] else []
  {
    hide *;
    ConcatLast(front + [l]);
    SameTail(Concat(front + [l]), l);
    BodiesRejoinedAt(front, l);
  }

  lemma SameTail(t: string, l: string)
    requires t != "" && l != "" && t[|t| - 1] == l[|l| - 1]
    ensures OddTail(t) == OddTail(l) && (OddTail(l) ==> !EndsLine(l))
  {}

  lemma NewlineBody()
    ensures Bodies(["\n"]) == [""]
  {}

  lemma OneBody(l: string)
    ensures Bodies([l]) == [Body(l)]
  {}

  /** The lines of the filtered text are those of the kept lines, and one empty line more when the
      kept text ends with a line break other than `\n` and `\r`. */
  lemma FilterTextLines(diff: string)
    ensures var kept := RawKept(diff);
            SplitLines(FilterText(diff)) == Bodies(kept) + if OddTail(Concat(kept)) then [""] else []
  {
    hide Concat, SplitKeep, SplitLines, Bodies, RawKept, FilterText, WellCut;
    RawWellCut(diff);
    if RawKept(diff) != [] {
      LastNonEmpty(RawKept(diff));
    }
    FilterMeans(diff);
    SplitBodies(FilterText(diff));
    BodiesRejoined(RawKept(diff));
  }

  lemma BlankBefore(lines: seq<string>)
    ensures Incomplete([""] + lines) <==> Incomplete(lines)
  {
    hide ReadHeader, Balanced;
    var all := [""] + lines;
    if Incomplete(all) {
      var h: nat :| BadHunk(all, h);
      assert h != 0;
      BadHunkSecond([""], lines, h - 1);
    }
    if Incomplete(lines) {
      var h: nat :| BadHunk(lines, h);
      BadHunkSecond([""], lines, h);
    }
  }

  /** Leading newlines do not matter to the validator. */
  lemma {:induction false} LeadingNewlines(t: string)
    ensures Incomplete(SplitLines(DropNewlines(t))) <==> Incomplete(SplitLines(t))
  {
    hide Incomplete, SplitLines;
    if t != "" && t[0] == '\n' {
      LeadingNewlines(t[1..]);
      assert t == "" + "\n" + t[1..];
      SplitFirst("", t[1..]);
      BlankBefore(SplitLines(t[1..]));
    }
  }

  /** When the filter breaks a complete patch: exactly when the kept text ends with a line break other
      than `\n` and `\r` inside a hunk, because the `\n` added there reads as an empty context line. */
  lemma FilterComplete(diff: string)
    ensures var kept := RawKept(diff);
            !Incomplete(SplitLines(diff)) ==>
              (Incomplete(SplitLines(FilterText(diff))) <==> OddTail(Concat(kept)) && OpenAtEnd(Bodies(kept)))
  {
    hide Keep, SplitKeep, SplitLines, Incomplete, OpenAtEnd, DropNewlines, Bodies, FilterText;
    if !Incomplete(SplitLines(diff)) {
      var kept := RawKept(diff);
      LeadingNewlines(diff);
      SplitBodies(DropNewlines(diff));
      KeepComplete(SplitKeep(DropNewlines(diff)));
      FilterTextLines(diff);
      assert Bodies(kept) + [] == Bodies(kept);
      AppendBlank(Bodies(kept));
    }
  }
}
