/** The unified-diff hunk validator of `agent_path_extract.py`. */
module Hunks {
  import opened Wrappers
  import opened PyText

  // ---------------------------------------------------------------- hunk headers

  function DigitSpan(s: string): (r: nat)
    ensures r <= |s| && AllDigits(s[..r])
    ensures r < |s| ==> !IsDigit(s[r])
  {
    if s == "" || !IsDigit(s[0]) then 0
    else
      var r := DigitSpan(s[1..]);
      assert s[..r + 1] == [s[0]] + s[1..][..r];
      r + 1
  }

  function SpaceSpan(s: string): (r: nat)
    ensures r <= |s|
    ensures forall i :: 0 <= i < r ==> IsSpace(s[i])
    ensures r < |s| ==> !IsSpace(s[r])
  {
    if s == "" || !IsSpace(s[0]) then 0 else 1 + SpaceSpan(s[1..])
  }

  /** `\s+`: the text after a non-empty run of white space. */
  function SkipSpaces(s: string): Option<string> {
    if SpaceSpan(s) == 0 then None else Some(s[SpaceSpan(s)..])
  }

  /** `(?:,(\d+))?`: the count, 1 when left out, and the text after it. */
  function ReadCount(s: string): (nat, string) {
    if s != "" && s[0] == ',' && DigitSpan(s[1..]) > 0 then
      var v := s[1..];
      var e := DigitSpan(v);
      (ReadDecimal(v[..e]), v[e..])
    else
      (1, s)
  }

  /** `-(\d+)(?:,(\d+))?`, or the same with `+`: the count and the text after it. */
  function ReadRange(s: string, sign: char): Option<(nat, string)> {
    if s == "" || s[0] != sign || DigitSpan(s[1..]) == 0 then None
    else Some(ReadCount(s[1..][DigitSpan(s[1..])..]))
  }

  /** `\s+\+(\d+)(?:,(\d+))?\s@@`: the new line count. */
  function ReadNewCount(s: string): Option<nat> {
    match SkipSpaces(s)
    case None => None
    case Some(t) =>
      match ReadRange(t, '+')
      case None => None
      case Some((newN, v)) =>
        if |v| >= 3 && IsSpace(v[0]) && v[1] == '@' && v[2] == '@' then Some(newN) else None
  }

  /** The old and new line counts of a hunk header, `^@@\s+-(\d+)(?:,(\d+))?\s+\+(\d+)(?:,(\d+))?\s@@`. */
  function ReadHeader(line: string): (r: Option<(nat, nat)>)
    ensures r.Some? ==> "@@" <= line
  {
    if !("@@" <= line) then None else
      match SkipSpaces(line[2..])
      case None => None
      case Some(t) =>
        match ReadRange(t, '-')
        case None => None
        case Some((oldN, u)) =>
          match ReadNewCount(u)
          case None => None
          case Some(newN) => Some((oldN, newN))
  }

  lemma DigitSpanIs(s: string, k: nat)
    requires k <= |s| && (forall i :: 0 <= i < k ==> IsDigit(s[i]))
    requires k < |s| ==> !IsDigit(s[k])
    ensures DigitSpan(s) == k
  {}

  lemma SpaceSpanIs(s: string, k: nat)
    requires k < |s| && (forall i :: 0 <= i < k ==> IsSpace(s[i])) && !IsSpace(s[k])
    ensures SpaceSpan(s) == k
  {}

  lemma ReadCountPrinted(n: nat, rest: string)
    requires rest == "" || !IsDigit(rest[0])
    ensures ReadCount("," + Decimal(n) + rest) == (n, rest)
  {
    hide DigitSpan, Decimal, ReadDecimal;
    var s, d := "," + Decimal(n) + rest, Decimal(n);
    assert s[1..] == d + rest;
    DigitSpanIs(s[1..], |d|);
    assert s[1..][..|d|] == d && s[1..][|d|..] == rest;
    ReadDecimalInverts(n);
  }

  /** A printed range reads back as its count. */
  lemma ReadRangePrinted(sign: char, start: char, n: nat, rest: string)
    requires IsDigit(start) && (rest == "" || !IsDigit(rest[0]))
    ensures ReadRange([sign, start] + "," + Decimal(n) + rest, sign) == Some((n, rest))
  {
    hide DigitSpan, Decimal, ReadCount;
    var s := [sign, start] + "," + Decimal(n) + rest;
    DigitSpanIs(s[1..], 1);
    assert s[1..][1..] == "," + Decimal(n) + rest;
    ReadCountPrinted(n, rest);
  }

  lemma SkipOneBlank(s: string)
    requires s != "" && !IsSpace(s[0])
    ensures SkipSpaces(" " + s) == Some(s)
  {}

  function HunkLine(oldStart: char, oldN: nat, newN: nat): string {
    "@@ -" + [oldStart] + "," + Decimal(oldN) + " +1," + Decimal(newN) + " @@"
  }

  lemma HunkLineStart(oldStart: char, oldN: nat, newN: nat)
    ensures HunkLine(oldStart, oldN, newN) != "" && HunkLine(oldStart, oldN, newN)[0] == '@'
  {}

  lemma ReadNewCountPrinted(n: nat)
    ensures ReadNewCount(" " + (['+', '1'] + "," + Decimal(n) + " @@")) == Some(n)
  {
    hide ReadRange, Decimal, SkipSpaces;
    var t := ['+', '1'] + "," + Decimal(n) + " @@";
    SkipOneBlank(t);
    ReadRangePrinted('+', '1', n, " @@");
  }

  /** The validator reads exactly the counts that the printer wrote. */
  lemma ReadHeaderPrinted(oldStart: char, oldN: nat, newN: nat)
    requires IsDigit(oldStart)
    ensures ReadHeader(HunkLine(oldStart, oldN, newN)) == Some((oldN, newN))
  {
    hide ReadRange, Decimal, SkipSpaces, ReadNewCount;
    var line := HunkLine(oldStart, oldN, newN);
    var u := " " + (['+', '1'] + "," + Decimal(newN) + " @@");
    var t := ['-', oldStart] + "," + Decimal(oldN) + u;
    assert line == "@@" + (" " + t);
    assert line[2..] == " " + t;
    SkipOneBlank(t);
    ReadRangePrinted('-', oldStart, oldN, u);
    ReadNewCountPrinted(newN);
  }

  // ---------------------------------------------------------------- hunk bodies

  /** Lines that end a hunk body. */
  predicate IsBreaker(line: string) {
    "diff --git" <= line || "--- " <= line || "+++ " <= line || "@@" <= line
  }

  /** A body line that belongs to the new text. */
  predicate NewLine(line: string) {
    ("+" <= line && !("+++" <= line)) || " " <= line || line == ""
  }

  /** A body line that belongs to the old text. */
  predicate OldLine(line: string) {
    ("-" <= line && !("---" <= line)) || " " <= line || line == ""
  }

  /** A body line without its `+`, `-` or blank. */
  function Text(line: string): string {
    if line == "" then "" else line[1..]
  }

  /** The old text that a hunk body stands for. */
  function OldSide(body: seq<string>): (r: seq<string>)
    ensures |r| <= |body|
  {
    if body == [] then [] else
      var last := body[|body| - 1];
      OldSide(body[..|body| - 1]) + if OldLine(last) then [Text(last)] else []
  }

  /** The new text that a hunk body stands for. */
  function NewSide(body: seq<string>): (r: seq<string>)
    ensures |r| <= |body|
  {
    if body == [] then [] else
      var last := body[|body| - 1];
      NewSide(body[..|body| - 1]) + if NewLine(last) then [Text(last)] else []
  }

  /** Where a body that starts at `i` ends. */
  function HunkEnd(lines: seq<string>, i: nat): (r: nat)
    requires i <= |lines|
    ensures i <= r <= |lines|
    ensures forall j :: i <= j < r ==> !IsBreaker(lines[j])
    ensures r < |lines| ==> IsBreaker(lines[r])
    decreases |lines| - i
  {
    if i == |lines| || IsBreaker(lines[i]) then i else HunkEnd(lines, i + 1)
  }

  lemma HunkEndIs(lines: seq<string>, i: nat, r: nat)
    requires i <= r <= |lines| && (forall j :: i <= j < r ==> !IsBreaker(lines[j]))
    requires r < |lines| ==> IsBreaker(lines[r])
    ensures HunkEnd(lines, i) == r
  {}

  predicate IsHunk(lines: seq<string>, h: nat) {
    h < |lines| && ReadHeader(lines[h]).Some?
  }

  function HunkBody(lines: seq<string>, h: nat): seq<string>
    requires h < |lines|
  {
    lines[h + 1..HunkEnd(lines, h + 1)]
  }

  /** The counts in the header at `h` are the lengths of the two sides of its body. */
  predicate Balanced(lines: seq<string>, h: nat)
    requires h < |lines|
  {
    ReadHeader(lines[h]) == Some((|OldSide(HunkBody(lines, h))|, |NewSide(HunkBody(lines, h))|))
  }

  predicate BadHunk(lines: seq<string>, h: nat): (bad: bool)
    ensures bad ==> h < |lines|
  {
    IsHunk(lines, h) && !Balanced(lines, h)
  }

  /** Some hunk does not have the lines that its header announces. */
  ghost predicate Incomplete(lines: seq<string>) {
    exists h: nat :: BadHunk(lines, h)
  }

  predicate Blank(s: string) {
    forall i :: 0 <= i < |s| ==> IsSpace(s[i])
  }

  lemma StripBlank(s: string)
    requires Strip(s) == ""
    ensures Blank(s)
  {
    LStripBlank(RStrip(s));
    RStripBlank(s);
  }

  lemma {:induction false} LStripBlank(s: string)
    requires LStrip(s) == ""
    ensures Blank(s)
  {
    if s == "" {
    } else {
      LStripBlank(s[1..]);
      assert s == [s[0]] + s[1..];
    }
  }

  lemma {:induction false} RStripBlank(s: string)
    requires Blank(RStrip(s))
    ensures Blank(s)
  {
    if s != "" && IsSpace(s[|s| - 1]) {
      RStripBlank(s[..|s| - 1]);
      assert s == s[..|s| - 1] + [s[|s| - 1]];
    }
  }

  /** White space has no hunk at all. */
  lemma BlankIsComplete(s: string)
    requires Strip(s) == ""
    ensures !Incomplete(SplitLines(s))
  {
    StripBlank(s);
    BlankLines(s);
  }

  lemma {:induction false} BlankLines(s: string)
    requires Blank(s)
    ensures forall i :: 0 <= i < |SplitLines(s)| ==> !("@@" <= SplitLines(s)[i])
    decreases |s|
  {
    if s == "" {
    } else {
      hide FirstBreak, LineEnd;
      BlankLines(s[LineEnd(s)..]);
    }
  }

  lemma SidesSnoc(lines: seq<string>, start: nat, i: nat)
    requires start <= i < |lines|
    ensures |OldSide(lines[start..i + 1])| == |OldSide(lines[start..i])| + if OldLine(lines[i]) then 1 else 0
    ensures |NewSide(lines[start..i + 1])| == |NewSide(lines[start..i])| + if NewLine(lines[i]) then 1 else 0
  {
    var body := lines[start..i + 1];
    assert body[..|body| - 1] == lines[start..i];
  }

  /** The branches of the inner loop: what one body line adds to the two counts. */
  method CountLine(line: string) returns (oldSeen: nat, newSeen: nat)
    ensures oldSeen == if OldLine(line) then 1 else 0
    ensures newSeen == if NewLine(line) then 1 else 0
  {
    oldSeen, newSeen := 0, 0;
    if "\\" <= line {
      assert line[0] == '\\';
    } else if "+" <= line && !("+++" <= line) {
      assert line[0] == '+';
      newSeen := 1;
    } else if "-" <= line && !("---" <= line) {
      assert line[0] == '-';
      oldSeen := 1;
    } else if " " <= line || line == "" {
      oldSeen, newSeen := 1, 1;
    }
  }

  /** The inner loop: counts the body that starts at `start`, up to the first breaker. */
  method CountBody(lines: seq<string>, start: nat) returns (i: nat, oldSeen: nat, newSeen: nat)
    requires start <= |lines|
    ensures i == HunkEnd(lines, start)
    ensures oldSeen == |OldSide(lines[start..i])| && newSeen == |NewSide(lines[start..i])|
  {
    i, oldSeen, newSeen := start, 0, 0;
    while i < |lines| && !IsBreaker(lines[i])
      invariant start <= i <= |lines|
      invariant forall j :: start <= j < i ==> !IsBreaker(lines[j])
      invariant oldSeen == |OldSide(lines[start..i])| && newSeen == |NewSide(lines[start..i])|
    {
      SidesSnoc(lines, start, i);
      var o, n := CountLine(lines[i]);
      oldSeen, newSeen, i := oldSeen + o, newSeen + n, i + 1;
    }
    HunkEndIs(lines, start, i);
  }

  /** `patch_hunks_incomplete`: true exactly when some hunk body does not match its header. */
  method PatchHunksIncomplete(patch: string) returns (incomplete: bool)
    ensures incomplete <==> Incomplete(SplitLines(patch))
  {
    hide BadHunk, ReadHeader, HunkEnd, OldSide, NewSide, SplitLines, Strip, Blank;
    var lines := SplitLines(patch);
    if Strip(patch) == "" {
      BlankIsComplete(patch);
      return false;
    }
    var i := 0;
    while i < |lines|
      invariant i <= |lines|
      invariant forall h: nat :: h < i ==> !BadHunk(lines, h)
    {
      ghost var h := i;
      var m := ReadHeader(lines[i]);
      i := i + 1;
      BadHunkMeans(lines, h);
      if m.Some? {
        var (oldN, newN) := m.value;
        var end, oldSeen, newSeen := CountBody(lines, i);
        if oldSeen != oldN || newSeen != newN {
          return true;
        }
        BodyHasNoHunk(lines, i);
        i := end;
      }
    }
    return false;
  }

  lemma BadHunkMeans(lines: seq<string>, h: nat)
    requires h < |lines|
    ensures var m := ReadHeader(lines[h]);
            var end := HunkEnd(lines, h + 1);
            BadHunk(lines, h) <==>
            m.Some? && m.value != (|OldSide(lines[h + 1..end])|, |NewSide(lines[h + 1..end])|)
  {}

  /** A header line is a breaker, so no hunk is hidden in the body of another. */
  lemma BodyHasNoHunk(lines: seq<string>, start: nat)
    requires start <= |lines|
    ensures forall h: nat :: start <= h < HunkEnd(lines, start) ==> !BadHunk(lines, h)
  {}

  // ---------------------------------------------------------------- concatenation

  /** A hunk of the first part keeps its body when the part that follows starts with a breaker. */
  lemma HunkEndFirst(a: seq<string>, b: seq<string>, i: nat)
    requires i <= |a| && (b == [] || IsBreaker(b[0]))
    ensures HunkEnd(a + b, i) == HunkEnd(a, i)
  {
    HunkEndIs(a + b, i, HunkEnd(a, i));
  }

  lemma HunkEndSecond(a: seq<string>, b: seq<string>, i: nat)
    requires i <= |b|
    ensures HunkEnd(a + b, |a| + i) == |a| + HunkEnd(b, i)
  {
    var s, r := a + b, |a| + HunkEnd(b, i);
    assert forall j :: |a| <= j < |s| ==> s[j] == b[j - |a|];
    HunkEndIs(s, |a| + i, r);
  }

  lemma BadHunkFirst(a: seq<string>, b: seq<string>, h: nat)
    requires h < |a| && (b == [] || IsBreaker(b[0]))
    ensures BadHunk(a + b, h) == BadHunk(a, h)
  {
    HunkEndFirst(a, b, h + 1);
    assert HunkBody(a + b, h) == HunkBody(a, h);
  }

  lemma BadHunkSecond(a: seq<string>, b: seq<string>, h: nat)
    requires h < |b|
    ensures BadHunk(a + b, |a| + h) == BadHunk(b, h)
  {
    HunkEndSecond(a, b, h + 1);
    assert HunkBody(a + b, |a| + h) == HunkBody(b, h);
  }

  /** When the second part starts with a breaker, incompleteness is the disjunction of the parts'. */
  lemma IncompleteAppend(a: seq<string>, b: seq<string>)
    requires b == [] || IsBreaker(b[0])
    ensures Incomplete(a + b) <==> Incomplete(a) || Incomplete(b)
  {
    hide BadHunk;
    var s := a + b;
    if Incomplete(s) {
      var h: nat :| BadHunk(s, h);
      if h < |a| {
        BadHunkFirst(a, b, h);
      } else {
        BadHunkSecond(a, b, h - |a|);
      }
    }
    if Incomplete(a) {
      var h: nat :| BadHunk(a, h);
      BadHunkFirst(a, b, h);
    }
    if Incomplete(b) {
      var h: nat :| BadHunk(b, h);
      BadHunkSecond(a, b, h);
    }
  }
}
