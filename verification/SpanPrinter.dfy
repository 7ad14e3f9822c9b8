/** `_span_to_diff` and `_normalize_unified_diff` of `agent_path_extract.py`, and the agreement between
    this printer and the hunk validator. */
module SpanPrinter {
  import opened PyText
  import opened Hunks

  function DropNewlines(s: string): (r: string)
    ensures r == "" || r[0] != '\n'
  {
    if s != "" && s[0] == '\n' then DropNewlines(s[1..]) else s
  }

  /** The diff without leading `\n`s and with a `\n` at its end; its body is untouched. */
  function Normalized(text: string): (r: string)
    ensures EndsLine(r)
    ensures r == "" || r[0] != '\n'
  {
    var t := DropNewlines(text);
    if EndsLine(t) then t else t + "\n"
  }

  lemma NormalizedFixed(text: string)
    requires EndsLine(text) && (text == "" || text[0] != '\n')
    ensures Normalized(text) == text
  {}

  /** `_normalize_unified_diff` */
  method NormalizeUnifiedDiff(text: string) returns (r: string)
    ensures r == Normalized(text)
  {
    if text == "" {
      return "";
    }
    var i := 0;
    while i < |text| && text[i] == '\n'
      invariant 0 <= i <= |text|
      invariant DropNewlines(text) == DropNewlines(text[i..])
    {
      i := i + 1;
    }
    var t := text[i..];
    if t == "" {
      return "";
    }
    if t[|t| - 1] != '\n' {
      t := t + "\n";
    }
    return t;
  }

  function NewlineRun(n: nat): (r: string)
    ensures |r| == n && forall i :: 0 <= i < n ==> r[i] == '\n'
  {
    seq(n, i => '\n')
  }

  /** Only newlines at the start are dropped, and at most one is added at the end. */
  lemma {:induction false} NormalizedExact(n: nat, body: string)
    requires body == "" || body[0] != '\n'
    ensures Normalized(NewlineRun(n) + body) == if body == "" || body[|body| - 1] == '\n' then body else body + "\n"
  {
    var s := NewlineRun(n) + body;
    if n == 0 {
      assert s == body;
    } else {
      NormalizedExact(n - 1, body);
      assert s[1..] == NewlineRun(n - 1) + body;
    }
  }

  /** `path.lstrip("./")` */
  function LStripDots(path: string): string {
    if path != "" && (path[0] == '.' || path[0] == '/') then LStripDots(path[1..]) else path
  }

  function Prefixed(c: char, ls: seq<string>): (r: seq<string>)
    ensures |r| == |ls| && forall i :: 0 <= i < |ls| ==> r[i] == [c] + ls[i]
  {
    seq(|ls|, i requires 0 <= i < |ls| => [c] + ls[i])
  }

  /** The four header lines of a section. */
  function SectionHead(rel: string, oldN: nat, newN: nat): (r: seq<string>)
    ensures |r| == 4
  {
    var git := "diff --git a/" + rel + " b/" + rel;
    if oldN == 0 then
      [git, "--- /dev/null", "+++ b/" + rel, HunkLine('0', 0, newN)]
    else if newN == 0 then
      [git, "--- a/" + rel, "+++ /dev/null", "@@ -1," + Decimal(oldN) + " +0,0 @@"]
    else
      [git, "--- a/" + rel, "+++ b/" + rel, HunkLine('1', oldN, newN)]
  }

  function SectionLines(rel: string, old': seq<string>, new': seq<string>): (r: seq<string>)
    ensures |r| == 4 + |old'| + |new'|
  {
    SectionHead(rel, |old'|, |new'|) + (Prefixed('-', old') + Prefixed('+', new'))
  }

  /** `_span_to_diff` */
  function SpanToDiff(path: string, oldT: string, newT: string): string {
    if newT == "" || newT == oldT then "" else
      var old', new' := SplitLines(oldT), SplitLines(newT);
      if old' == [] && new' == [] then "" else
        Normalized(Unlines(SectionLines(LStripDots(path), old', new')))
  }

  /** What the printer needs for its output to be read back: no removed line starts with `--` and no
      added line starts with `++`. */
  predicate Printable(old': seq<string>, new': seq<string>) {
    && (forall i :: 0 <= i < |old'| ==> !("--" <= old'[i]))
    && (forall i :: 0 <= i < |new'| ==> !("++" <= new'[i]))
  }

  // ---------------------------------------------------------------- sides of a body

  lemma {:induction false} SidesAppend(a: seq<string>, b: seq<string>)
    ensures OldSide(a + b) == OldSide(a) + OldSide(b)
    ensures NewSide(a + b) == NewSide(a) + NewSide(b)
    decreases |b|
  {
    hide OldLine, NewLine, Text;
    if b == [] {
      assert a + b == a;
    } else {
      var s, last := a + b, b[|b| - 1];
      assert s[..|s| - 1] == a + b[..|b| - 1];
      SidesAppend(a, b[..|b| - 1]);
    }
  }

  lemma MinusLine(l: string)
    ensures OldLine("-" + l) <==> !("--" <= l)
    ensures !NewLine("-" + l) && Text("-" + l) == l
    ensures IsBreaker("-" + l) ==> "--" <= l
  {
    var m := "-" + l;
    assert m[0] == '-' && m[1..] == l;
    assert "--" <= l <==> |l| >= 2 && l[0] == '-' && l[1] == '-';
    assert "---" <= m <==> |m| >= 3 && m[1] == '-' && m[2] == '-';
  }

  lemma PlusLine(l: string)
    ensures NewLine("+" + l) <==> !("++" <= l)
    ensures !OldLine("+" + l) && Text("+" + l) == l
    ensures IsBreaker("+" + l) ==> "++" <= l
  {
    var m := "+" + l;
    assert m[0] == '+' && m[1..] == l;
    assert "++" <= l <==> |l| >= 2 && l[0] == '+' && l[1] == '+';
    assert "+++" <= m <==> |m| >= 3 && m[1] == '+' && m[2] == '+';
  }

  /** The removed lines of a printed body: none of them counts as new, and they give back the old
      text, unless one starts with `--`, which is not counted. */
  lemma {:induction false} MinusSides(ls: seq<string>)
    ensures NewSide(Prefixed('-', ls)) == []
    ensures (forall i :: 0 <= i < |ls| ==> !("--" <= ls[i])) ==> OldSide(Prefixed('-', ls)) == ls
    ensures !(forall i :: 0 <= i < |ls| ==> !("--" <= ls[i])) ==> |OldSide(Prefixed('-', ls))| < |ls|
  {
    hide OldLine, NewLine, Text, IsBreaker;
    if ls == [] {
    } else {
      var p, front := Prefixed('-', ls), ls[..|ls| - 1];
      assert p[..|p| - 1] == Prefixed('-', front);
      MinusSides(front);
      MinusLine(ls[|ls| - 1]);
      assert ls == front + [ls[|ls| - 1]];
    }
  }

  lemma {:induction false} PlusSides(ls: seq<string>)
    ensures OldSide(Prefixed('+', ls)) == []
    ensures (forall i :: 0 <= i < |ls| ==> !("++" <= ls[i])) ==> NewSide(Prefixed('+', ls)) == ls
    ensures !(forall i :: 0 <= i < |ls| ==> !("++" <= ls[i])) ==> |NewSide(Prefixed('+', ls))| < |ls|
  {
    hide OldLine, NewLine, Text, IsBreaker;
    if ls == [] {
    } else {
      var p, front := Prefixed('+', ls), ls[..|ls| - 1];
      assert p[..|p| - 1] == Prefixed('+', front);
      PlusSides(front);
      PlusLine(ls[|ls| - 1]);
      assert ls == front + [ls[|ls| - 1]];
    }
  }

  /** A prefix of a printed body never counts more lines than the whole body. */
  lemma PrefixSides(body: seq<string>, e: nat)
    requires e <= |body|
    ensures |OldSide(body[..e])| <= |OldSide(body)| && |NewSide(body[..e])| <= |NewSide(body)|
  {
    assert body == body[..e] + body[e..];
    SidesAppend(body[..e], body[e..]);
  }

  /** The counts of a printed body are those of its texts exactly when the texts are printable. */
  lemma BodySides(old': seq<string>, new': seq<string>)
    ensures var body := Prefixed('-', old') + Prefixed('+', new');
            if Printable(old', new') then OldSide(body) == old' && NewSide(body) == new'
            else |OldSide(body)| < |old'| || |NewSide(body)| < |new'|
  {
    SidesAppend(Prefixed('-', old'), Prefixed('+', new'));
    MinusSides(old');
    PlusSides(new');
  }

  lemma PrintableNoBreaker(old': seq<string>, new': seq<string>)
    requires Printable(old', new')
    ensures var body := Prefixed('-', old') + Prefixed('+', new');
            forall i :: 0 <= i < |body| ==> !IsBreaker(body[i])
  {
    hide IsBreaker;
    var body := Prefixed('-', old') + Prefixed('+', new');
    forall i | 0 <= i < |body|
      ensures !IsBreaker(body[i])
    {
      if i < |old'| {
        MinusLine(old'[i]);
        assert body[i] == "-" + old'[i];
      } else {
        PlusLine(new'[i - |old'|]);
        assert body[i] == "+" + new'[i - |old'|];
      }
    }
  }

  /** The hunk header stands at line 3 and nowhere else. */
  lemma OnlyHunk(rel: string, old': seq<string>, new': seq<string>)
    requires new' != []
    ensures var s := SectionLines(rel, old', new');
            && IsHunk(s, 3) && ReadHeader(s[3]).value == (|old'|, |new'|)
            && forall h: nat :: h != 3 ==> !IsHunk(s, h)
  {
    hide ReadHeader, HunkLine;
    var s := SectionLines(rel, old', new');
    ReadHeaderPrinted(if old' == [] then '0' else '1', |old'|, |new'|);
    forall h: nat | h != 3 && h < |s|
      ensures ReadHeader(s[h]).None?
    {
      assert s[h][0] in "d-+";
    }
  }

  /** Printer and validator agree: the validator accepts a printed section exactly when its texts are
      printable, and what it counted is then exactly the old and the new text. */
  lemma SectionAccepted(rel: string, old': seq<string>, new': seq<string>)
    requires new' != []
    ensures var s := SectionLines(rel, old', new');
            && (Incomplete(s) <==> !Printable(old', new'))
            && (!Incomplete(s) ==> OldSide(HunkBody(s, 3)) == old' && NewSide(HunkBody(s, 3)) == new')
  {
    hide OldSide, NewSide, IsBreaker, ReadHeader, HunkEnd, Prefixed, SectionHead, Printable;
    var s := SectionLines(rel, old', new');
    var body := Prefixed('-', old') + Prefixed('+', new');
    OnlyHunk(rel, old', new');
    BodySides(old', new');
    assert s[4..] == body;
    var e := HunkEnd(s, 4);
    assert HunkBody(s, 3) == body[..e - 4];
    PrefixSides(body, e - 4);
    if Printable(old', new') {
      PrintableNoBreaker(old', new');
      HunkEndIs(s, 4, |s|);
      assert body[..e - 4] == body;
    }
    assert BadHunk(s, 3) <==> !Printable(old', new');
  }

  lemma HunkLineBreakFree(oldStart: char, oldN: nat, newN: nat)
    requires IsDigit(oldStart)
    ensures BreakFree(HunkLine(oldStart, oldN, newN))
  {}

  /** Without the three lines that name the path, a section is free of other line breaks. */
  lemma BodyBreakFree(rel: string, old': seq<string>, new': seq<string>)
    requires AllBreakFree(old') && AllBreakFree(new') && new' != []
    ensures AllBreakFree(SectionLines(rel, old', new')[3..])
  {
    hide HunkLine;
    HunkLineBreakFree(if old' == [] then '0' else '1', |old'|, |new'|);
    hide IsBreak;
    var ls := SectionLines(rel, old', new');
    forall i | 4 <= i < |ls|
      ensures BreakFree(ls[i])
    {
      var l := if i < 4 + |old'| then old'[i - 4] else new'[i - 4 - |old'|];
      assert ls[i] == [ls[i][0]] + l;
    }
  }

  lemma HeadBreakFree(rel: string, oldN: nat, newN: nat)
    requires BreakFree(rel)
    ensures AllBreakFree(SectionHead(rel, oldN, newN)[..3])
  {
    hide HunkLine;
  }

  /** A patch is emitted exactly when there is new text that differs from the old. */
  lemma SpanEmits(path: string, oldT: string, newT: string)
    ensures SpanToDiff(path, oldT, newT) != "" <==> newT != "" && newT != oldT
    ensures newT != "" ==> SplitLines(newT) != []
  {}

  /** The text of an emitted patch is its section, line by line. */
  lemma SpanText(path: string, oldT: string, newT: string)
    requires newT != "" && newT != oldT
    ensures SpanToDiff(path, oldT, newT) ==
            Unlines(SectionLines(LStripDots(path), SplitLines(oldT), SplitLines(newT)))
    ensures "diff --git a/" <= SpanToDiff(path, oldT, newT) && EndsLine(SpanToDiff(path, oldT, newT))
  {
    hide SplitLines, LStripDots, Prefixed, HunkLine;
    SpanEmits(path, oldT, newT);
    var ls := SectionLines(LStripDots(path), SplitLines(oldT), SplitLines(newT));
    var t := Unlines(ls);
    UnlinesEnds(ls);
    assert ls[0] <= t;
    assert "diff --git a/" <= ls[0];
    NormalizedFixed(t);
  }

  lemma {:induction false} UnlinesEnds(ls: seq<string>)
    ensures EndsLine(Unlines(ls))
  {
    if ls == [] {
    } else {
      UnlinesEnds(ls[1..]);
    }
  }

  /** The three lines of a section that name the path, cut where the validator cuts them. */
  function HeadLines(rel: string, oldN: nat, newN: nat): seq<string> {
    SplitLines(Unlines(SectionHead(rel, oldN, newN)[..3]))
  }

  /** A path without line breaks gives three header lines, which open no hunk. */
  lemma PlainHead(rel: string, oldN: nat, newN: nat)
    requires BreakFree(rel)
    ensures |HeadLines(rel, oldN, newN)| == 3 && !Incomplete(HeadLines(rel, oldN, newN))
  {
    hide SplitLines, BreakFree, ReadHeader, HunkLine;
    HeadBreakFree(rel, oldN, newN);
    SplitUnlines(SectionHead(rel, oldN, newN)[..3]);
    HeadOpensNoHunk(rel, oldN, newN);
  }

  lemma {:induction false} LinesWithin(s: string, c: char)
    requires c !in s
    ensures forall i :: 0 <= i < |SplitLines(s)| ==> c !in SplitLines(s)[i]
    decreases |s|
  {
    if s == "" {
    } else {
      hide FirstBreak, LineEnd, BreakFree;
      LinesWithin(s[LineEnd(s)..], c);
    }
  }

  /** A path without `@` opens no hunk either, whatever its line breaks. */
  lemma AtFreeHead(rel: string, oldN: nat, newN: nat)
    requires '@' !in rel
    ensures !Incomplete(HeadLines(rel, oldN, newN))
  {
    hide SplitLines, HunkLine;
    var head := SectionHead(rel, oldN, newN);
    assert forall i :: 0 <= i < 3 ==> '@' !in head[i];
    AtFreeLines(head[0], head[1], head[2]);
    assert head[..3] == [head[0], head[1], head[2]];
    LinesWithin(Unlines(head[..3]), '@');
    var ls := HeadLines(rel, oldN, newN);
    forall h: nat | h < |ls|
      ensures !IsHunk(ls, h)
    {
      assert "@@"[0] == '@';
    }
  }

  lemma AtFreeLines(a: string, b: string, c: string)
    requires '@' !in a && '@' !in b && '@' !in c
    ensures '@' !in Unlines([a, b, c])
  {
    assert [a, b, c][1..] == [b, c] && [b, c][1..] == [c] && [c][1..] == [];
    assert Unlines([c]) == c + "\n";
    assert Unlines([b, c]) == b + "\n" + Unlines([c]);
    assert Unlines([a, b, c]) == a + "\n" + Unlines([b, c]);
  }

  lemma HeadOpensNoHunk(rel: string, oldN: nat, newN: nat)
    ensures !Incomplete(SectionHead(rel, oldN, newN)[..3])
  {
    hide ReadHeader, HunkLine, Decimal, Balanced;
    var head := SectionHead(rel, oldN, newN);
    assert head[0][0] == 'd' && head[1][0] == '-' && head[2][0] == '+';
    assert !("@@" <= head[0]) && !("@@" <= head[1]) && !("@@" <= head[2]);
  }

  /** The lines of a printed section: only the three that name the path can be cut further. */
  lemma SectionCut(rel: string, old': seq<string>, new': seq<string>)
    requires AllBreakFree(old') && AllBreakFree(new') && new' != []
    ensures var ls := SectionLines(rel, old', new');
            SplitLines(Unlines(ls)) == HeadLines(rel, |old'|, |new'|) + ls[3..]
  {
    hide SplitLines, SectionHead, BreakFree;
    var ls := SectionLines(rel, old', new');
    assert ls == ls[..3] + ls[3..] && ls[..3] == SectionHead(rel, |old'|, |new'|)[..3];
    UnlinesAppend(ls[..3], ls[3..]);
    UnlinesEnds(ls[..3]);
    SplitLinesAppend(Unlines(ls[..3]), Unlines(ls[3..]));
    BodyBreakFree(rel, old', new');
    SplitUnlines(ls[3..]);
  }

  /** The hunk of a section on its own. */
  lemma HunkAlone(rel: string, old': seq<string>, new': seq<string>)
    requires new' != []
    ensures var t := SectionLines(rel, old', new')[3..];
            && IsHunk(t, 0) && IsBreaker(t[0])
            && (Incomplete(t) <==> !Printable(old', new'))
            && (Printable(old', new') ==> OldSide(HunkBody(t, 0)) == old' && NewSide(HunkBody(t, 0)) == new')
  {
    hide OldSide, NewSide, ReadHeader, HunkEnd, Printable, SectionHead, Incomplete;
    var s := SectionLines(rel, old', new');
    OnlyHunk(rel, old', new');
    SectionAccepted(rel, old', new');
    HeadOpensNoHunk(rel, |old'|, |new'|);
    assert s == s[..3] + s[3..] && s[..3] == SectionHead(rel, |old'|, |new'|)[..3];
    IncompleteAppend(s[..3], s[3..]);
    HunkEndSecond(s[..3], s[3..], 1);
    assert HunkBody(s[3..], 0) == HunkBody(s, 3);
  }

  /** `_span_to_diff` against `patch_hunks_incomplete`, on the text and for every path: the patch is accepted
      exactly when the lines that name the path are complete on their own, no removed line starts with `--` and
      no added line with `++`. Behind the lines that name the path, the `-` and `+` lines of printable texts read
      back as exactly the old and the new lines. */
  lemma SpanAccepted(path: string, oldT: string, newT: string)
    requires newT != "" && newT != oldT
    ensures var lines, old', new' := SplitLines(SpanToDiff(path, oldT, newT)), SplitLines(oldT), SplitLines(newT);
            var head := HeadLines(LStripDots(path), |old'|, |new'|);
            && (Incomplete(lines) <==> Incomplete(head) || !Printable(old', new'))
            && (Printable(old', new') ==>
                  && IsHunk(lines, |head|)
                  && OldSide(HunkBody(lines, |head|)) == old'
                  && NewSide(HunkBody(lines, |head|)) == new')
  {
    hide SplitLines, LStripDots, SpanToDiff, Incomplete, SectionLines, Printable, HeadLines, HunkEnd, ReadHeader;
    hide IsBreaker, OldSide, NewSide;
    var rel, old', new' := LStripDots(path), SplitLines(oldT), SplitLines(newT);
    SpanEmits(path, oldT, newT);
    SpanText(path, oldT, newT);
    SplitLinesBreakFree(oldT);
    SplitLinesBreakFree(newT);
    SectionCut(rel, old', new');
    HunkAlone(rel, old', new');
    var head, t := HeadLines(rel, |old'|, |new'|), SectionLines(rel, old', new')[3..];
    IncompleteAppend(head, t);
    HunkEndSecond(head, t, 1);
    assert HunkBody(head + t, |head|) == HunkBody(t, 0);
  }

  lemma LastOpensHunk(lines: seq<string>, start: char, m: nat, n: nat)
    requires IsDigit(start) && (m, n) != (0, 0)
    ensures Incomplete(lines + [HunkLine(start, m, n)])
  {
    hide ReadHeader, HunkLine;
    var all := lines + [HunkLine(start, m, n)];
    ReadHeaderPrinted(start, m, n);
    assert HunkBody(all, |lines|) == [];
    assert BadHunk(all, |lines|);
  }

  lemma SplitsToItself(l: string)
    requires l != "" && BreakFree(l)
    ensures SplitLines(l) == [l]
  {
    assert l[..|l|] == l;
    FirstBreakUnique(l, |l|);
  }

  /** A path that ends with a line like a hunk header opens a hunk that the section cannot close. */
  lemma PathOpensHunk(front: string, start: char, m: nat, n: nat, oldN: nat, newN: nat)
    requires IsDigit(start) && (m, n) != (0, 0) && newN > 0
    ensures Incomplete(HeadLines(front + "\n" + HunkLine(start, m, n), oldN, newN))
  {
    hide HunkLine, SplitLines, Incomplete, BreakFree;
    var hunk := HunkLine(start, m, n);
    var head := SectionHead(front + "\n" + hunk, oldN, newN)[..3];
    var plus := "+++ b/" + front + "\n";
    assert head[2] + "\n" == plus + (hunk + "\n");
    assert head == head[..2] + [head[2]];
    UnlinesAppend(head[..2], [head[2]]);
    assert Unlines([head[2]]) == head[2] + "\n";
    Assoc(Unlines(head[..2]), plus, hunk + "\n");
    HunkLineBreakFree(start, m, n);
    SplitUnlines([hunk]);
    assert Unlines([hunk]) == hunk + "\n";
    SplitLinesAppend(Unlines(head[..2]) + plus, hunk + "\n");
    LastOpensHunk(SplitLines(Unlines(head[..2]) + plus), start, m, n);
  }

  /** A printable edit whose patch the validator rejects, because of its path alone. */
  lemma PathCanBreakPatch()
    ensures var path := "x\n" + HunkLine('5', 2, 1);
            Printable(SplitLines(""), SplitLines("y")) && Incomplete(SplitLines(SpanToDiff(path, "", "y")))
  {
    hide *;
    assert "x" + "\n" == "x\n";
    NewFileOfOneLine();
    Relative("x", "\n", HunkLine('5', 2, 1));
    SpanEmits("x\n" + HunkLine('5', 2, 1), "", "y");
    PathOpensHunk("x", '5', 2, 1, 0, 1);
    SpanAccepted("x\n" + HunkLine('5', 2, 1), "", "y");
  }

  lemma NewFileOfOneLine()
    ensures SplitLines("") == [] && SplitLines("y") == ["y"] && Printable([], ["y"]) && IsDigit('5')
  {
    SplitsToItself("y");
  }

  lemma Relative(front: string, mid: string, rest: string)
    requires front != "" && front[0] != '.' && front[0] != '/'
    ensures LStripDots(front + mid + rest) == front + mid + rest
  {
    assert (front + mid + rest)[0] == front[0];
  }
}
