/** The hunk headers and hunk bodies that the validator of `agent_path_extract.py` reads, as text: every header that
    the pattern admits, with or without its counts, and every kind of body line. */
module HunkGrammar {
  import opened Wrappers
  import opened PyText
  import opened Hunks

  // ---------------------------------------------------------------- headers as text

  /** A line count: left out, or digits behind a comma. */
  datatype Count = Omitted | Given(digits: string)

  /** `@@`, white space, `-` and the old range, white space, `+` and the new range, one white-space character, `@@`
      and anything. A range is a start line and a count. */
  datatype Header = Header(gap: string, oldStart: string, oldCount: Count, gap': string, newStart: string,
                           newCount: Count, last: char, tail: string)

  predicate Digits(s: string) {
    s != "" && forall i :: 0 <= i < |s| ==> s[i] in "0123456789"
  }

  predicate Gap(s: string) {
    s != "" && Blank(s)
  }

  predicate CountFormed(c: Count) {
    c.Given? ==> Digits(c.digits)
  }

  predicate Formed(h: Header) {
    && Gap(h.gap) && Gap(h.gap') && IsSpace(h.last)
    && Digits(h.oldStart) && Digits(h.newStart) && CountFormed(h.oldCount) && CountFormed(h.newCount)
  }

  function CountText(c: Count): string {
    match c
    case Omitted => ""
    case Given(digits) => "," + digits
  }

  function HeaderText(h: Header): string {
    "@@" + (h.gap + ("-" + (h.oldStart + (CountText(h.oldCount) + NewText(h)))))
  }

  /** The header from the white space behind the old range on. */
  function NewText(h: Header): string {
    h.gap' + ("+" + (h.newStart + (CountText(h.newCount) + ([h.last] + ("@@" + h.tail)))))
  }

  lemma DigitsRead(s: string)
    requires Digits(s)
    ensures AllDigits(s)
  {}

  /** A count that is left out means one line. */
  function CountValue(c: Count): nat
    requires CountFormed(c)
  {
    match c
    case Omitted => 1
    case Given(digits) =>
      DigitsRead(digits);
      ReadDecimal(digits)
  }

  /** Leading zeros do not change a number. */
  lemma {:induction false} LeadingZero(d: string)
    requires AllDigits(d)
    ensures AllDigits("0" + d) && ReadDecimal("0" + d) == ReadDecimal(d)
  {
    var s := "0" + d;
    if d == "" {
      assert s[..|s| - 1] == "";
    } else {
      LeadingZero(d[..|d| - 1]);
      assert s[..|s| - 1] == "0" + d[..|d| - 1];
    }
  }

  // ---------------------------------------------------------------- written headers are read

  lemma GapSkipped(gap: string, rest: string)
    requires Gap(gap) && rest != "" && !IsSpace(rest[0])
    ensures SkipSpaces(gap + rest) == Some(rest)
  {
    var s := gap + rest;
    SpaceSpanIs(s, |gap|);
    assert s[|gap|..] == rest;
  }

  lemma GivenRead(digits: string, rest: string)
    requires Digits(digits) && rest != "" && !IsDigit(rest[0])
    ensures AllDigits(digits) && ReadCount("," + digits + rest) == (ReadDecimal(digits), rest)
  {
    hide DigitSpan, ReadDecimal;
    DigitsRead(digits);
    var s := "," + digits + rest;
    assert s[1..] == digits + rest;
    DigitSpanIs(s[1..], |digits|);
    assert s[1..][..|digits|] == digits && s[1..][|digits|..] == rest;
  }

  lemma CountRead(c: Count, rest: string)
    requires CountFormed(c) && rest != "" && IsSpace(rest[0])
    ensures ReadCount(CountText(c) + rest) == (CountValue(c), rest)
  {
    match c
    case Omitted =>
      assert "" + rest == rest;
    case Given(digits) =>
      hide ReadCount, ReadDecimal, Digits;
      GivenRead(digits, rest);
  }

  lemma RangeRead(sign: char, start: string, c: Count, rest: string)
    requires Digits(start) && CountFormed(c) && rest != "" && IsSpace(rest[0])
    ensures ReadRange([sign] + (start + (CountText(c) + rest)), sign) == Some((CountValue(c), rest))
  {
    hide DigitSpan, ReadCount, CountText, CountValue;
    var more := CountText(c) + rest;
    var s := [sign] + (start + more);
    DigitsRead(start);
    assert s[1..] == start + more;
    CountStart(c, rest);
    DigitSpanIs(s[1..], |start|);
    assert s[1..][|start|..] == more;
    CountRead(c, rest);
  }

  lemma CountStart(c: Count, rest: string)
    requires rest != "" && IsSpace(rest[0])
    ensures var s := CountText(c) + rest; s != "" && !IsDigit(s[0])
  {}

  lemma NewRead(h: Header)
    requires Formed(h)
    ensures ReadNewCount(NewText(h)) == Some(CountValue(h.newCount))
    ensures NewText(h) != "" && IsSpace(NewText(h)[0])
  {
    hide ReadRange, SkipSpaces, CountText, CountValue;
    var last := [h.last] + ("@@" + h.tail);
    var range := "+" + (h.newStart + (CountText(h.newCount) + last));
    GapSkipped(h.gap', range);
    RangeRead('+', h.newStart, h.newCount, last);
  }

  /** Whatever the starts, the counts, the white space and the tail: a header that the pattern admits reads as its two
      counts, where one that is left out is 1. */
  lemma HeaderRead(h: Header)
    requires Formed(h)
    ensures ReadHeader(HeaderText(h)) == Some((CountValue(h.oldCount), CountValue(h.newCount)))
  {
    hide ReadRange, SkipSpaces, CountText, CountValue, NewText, ReadNewCount;
    var range := "-" + (h.oldStart + (CountText(h.oldCount) + NewText(h)));
    var line := HeaderText(h);
    assert line[..2] == "@@" && line[2..] == h.gap + range;
    NewRead(h);
    GapSkipped(h.gap, range);
    RangeRead('-', h.oldStart, h.oldCount, NewText(h));
  }

  // ---------------------------------------------------------------- nothing else is read

  lemma SkippedGap(s: string)
    requires SkipSpaces(s).Some?
    ensures var n := SpaceSpan(s); Gap(s[..n]) && s == s[..n] + SkipSpaces(s).value
  {}

  lemma ReadDigits(s: string)
    requires AllDigits(s) && s != ""
    ensures Digits(s)
  {}

  lemma ReadCountForm(s: string) returns (c: Count)
    ensures CountFormed(c) && s == CountText(c) + ReadCount(s).1
  {
    if s != "" && s[0] == ',' && DigitSpan(s[1..]) > 0 {
      var n := DigitSpan(s[1..]);
      ReadDigits(s[1..][..n]);
      c := Given(s[1..][..n]);
    } else {
      c := Omitted;
    }
  }

  lemma ReadRangeForm(s: string, sign: char) returns (start: string, c: Count)
    requires ReadRange(s, sign).Some?
    ensures Digits(start) && CountFormed(c)
    ensures s == [sign] + (start + (CountText(c) + ReadRange(s, sign).value.1))
  {
    hide ReadCount, CountText;
    var n := DigitSpan(s[1..]);
    start := s[1..][..n];
    ReadDigits(start);
    c := ReadCountForm(s[1..][n..]);
  }

  /** The pattern admits no other line. */
  lemma OnlyHeadersRead(line: string) returns (h: Header)
    requires ReadHeader(line).Some?
    ensures Formed(h) && HeaderText(h) == line
  {
    hide SkipSpaces, ReadRange, CountText, SpaceSpan;
    var s := line[2..];
    SkippedGap(s);
    var t := SkipSpaces(s).value;
    var oldStart, oldCount := ReadRangeForm(t, '-');
    var u := ReadRange(t, '-').value.1;
    SkippedGap(u);
    var v := SkipSpaces(u).value;
    var newStart, newCount := ReadRangeForm(v, '+');
    var w := ReadRange(v, '+').value.1;
    assert w == [w[0]] + ("@@" + w[3..]);
    h := Header(s[..SpaceSpan(s)], oldStart, oldCount, u[..SpaceSpan(u)], newStart, newCount, w[0], w[3..]);
    assert line == "@@" + s;
  }

  /** The validator takes exactly the lines of this form for hunk headers. */
  lemma HeadersExact(line: string)
    ensures ReadHeader(line).Some? <==> exists h :: Formed(h) && HeaderText(h) == line
  {
    hide Formed, HeaderText, ReadHeader;
    if ReadHeader(line).Some? {
      var h := OnlyHeadersRead(line);
    }
    if h :| Formed(h) && HeaderText(h) == line {
      HeaderRead(h);
    }
  }

  // ---------------------------------------------------------------- body lines

  /** A line of a hunk body: common to both texts (also as an empty line), removed, added, a remark such as the one on
      a missing newline, or anything else. */
  datatype BodyLine = Context(text: string) | Bare | Removed(text: string) | Added(text: string) | Remark(text: string)
                    | Stray(line: string)

  function Printed(l: BodyLine): string {
    match l
    case Context(t) => " " + t
    case Bare => ""
    case Removed(t) => "-" + t
    case Added(t) => "+" + t
    case Remark(t) => "\\" + t
    case Stray(line) => line
  }

  function PrintedAll(body: seq<BodyLine>): (r: seq<string>)
    ensures |r| == |body| && forall i :: 0 <= i < |r| ==> r[i] == Printed(body[i])
  {
    seq(|body|, i requires 0 <= i < |body| => Printed(body[i]))
  }

  const ENDINGS: seq<string> := ["diff --git", "--- ", "+++ ", "@@"]

  /** Lines that end a hunk: the next section, a file name, the next hunk. */
  predicate Ends(line: string) {
    exists i :: 0 <= i < 4 && ENDINGS[i] <= line
  }

  /** A body line that does not look like one of those. */
  predicate Inside(l: BodyLine) {
    match l
    case Removed(t) => !("-- " <= t)
    case Added(t) => !("++ " <= t)
    case Stray(line) => line != "" && line[0] !in " -+\\" && !("@@" <= line) && !("diff --git" <= line)
    case _ => true
  }

  /** What a body line contributes to the old text; a removed line that starts with `--` is taken for a file name. */
  function OldOf(l: BodyLine): seq<string> {
    match l
    case Context(t) => [t]
    case Bare => [""]
    case Removed(t) => if "--" <= t then [] else [t]
    case _ => []
  }

  function NewOf(l: BodyLine): seq<string> {
    match l
    case Context(t) => [t]
    case Bare => [""]
    case Added(t) => if "++" <= t then [] else [t]
    case _ => []
  }

  function OldTexts(body: seq<BodyLine>): seq<string> {
    if body == [] then [] else OldTexts(body[..|body| - 1]) + OldOf(body[|body| - 1])
  }

  function NewTexts(body: seq<BodyLine>): seq<string> {
    if body == [] then [] else NewTexts(body[..|body| - 1]) + NewOf(body[|body| - 1])
  }

  lemma Signed(c: char, t: string, pat: string)
    requires pat != ""
    ensures pat <= [c] + t <==> pat[0] == c && pat[1..] <= t
  {
    var s := [c] + t;
    if pat <= s {
      assert pat == s[..|pat|] && s[..|pat|][1..] == t[..|pat| - 1];
    }
    if pat[0] == c && pat[1..] <= t {
      assert pat == [c] + t[..|pat| - 1] == s[..|pat|];
    }
  }

  lemma Starts(c: char, t: string)
    ensures forall pat :: pat in {"diff --git", "--- ", "+++ ", "@@", "---", "+++", "-", "+", " "} ==>
              (pat <= [c] + t <==> pat[0] == c && pat[1..] <= t)
    ensures "--- "[1..] == "-- " && "+++ "[1..] == "++ " && "---"[1..] == "--" && "+++"[1..] == "++"
    ensures "-"[1..] == "+"[1..] == " "[1..] == "" <= t
  {
    forall pat | pat in {"diff --git", "--- ", "+++ ", "@@", "---", "+++", "-", "+", " "}
      ensures pat <= [c] + t <==> pat[0] == c && pat[1..] <= t
    {
      Signed(c, t, pat);
    }
  }

  /** A body line is read as what it was printed for. */
  lemma LineRead(l: BodyLine)
    requires Inside(l)
    ensures !IsBreaker(Printed(l))
    ensures OldOf(l) == if OldLine(Printed(l)) then [Text(Printed(l))] else []
    ensures NewOf(l) == if NewLine(Printed(l)) then [Text(Printed(l))] else []
  {
    var line := Printed(l);
    if line != "" {
      assert line == [line[0]] + line[1..];
      Starts(line[0], line[1..]);
    }
    match l
    case Context(t) => assert line[1..] == t;
    case Removed(t) => assert line[1..] == t;
    case Added(t) => assert line[1..] == t;
    case _ =>
  }

  lemma {:induction false} SidesRead(body: seq<BodyLine>)
    requires forall i :: 0 <= i < |body| ==> Inside(body[i])
    ensures OldSide(PrintedAll(body)) == OldTexts(body) && NewSide(PrintedAll(body)) == NewTexts(body)
  {
    if body == [] {
    } else {
      hide OldLine, NewLine, Text, Printed, OldOf, NewOf, Inside;
      var front := body[..|body| - 1];
      SidesRead(front);
      LineRead(body[|body| - 1]);
      assert PrintedAll(body)[..|body| - 1] == PrintedAll(front);
    }
  }

  lemma EndsBreaks(line: string)
    ensures Ends(line) <==> IsBreaker(line)
  {
    assert IsBreaker(line) <==> ENDINGS[0] <= line || ENDINGS[1] <= line || ENDINGS[2] <= line || ENDINGS[3] <= line;
  }

  /** Any hunk whose body ends at the end of the text or at a line that ends it: both texts are read back from the body,
      and the hunk is complete exactly when they have as many lines as the header says. */
  lemma HunkRead(h: Header, body: seq<BodyLine>, rest: seq<string>)
    requires Formed(h) && (forall i :: 0 <= i < |body| ==> Inside(body[i])) && (rest == [] || Ends(rest[0]))
    ensures var lines := [HeaderText(h)] + PrintedAll(body) + rest;
            && IsHunk(lines, 0) && HunkBody(lines, 0) == PrintedAll(body)
            && OldSide(HunkBody(lines, 0)) == OldTexts(body) && NewSide(HunkBody(lines, 0)) == NewTexts(body)
            && (BadHunk(lines, 0) <==>
                CountValue(h.oldCount) != |OldTexts(body)| || CountValue(h.newCount) != |NewTexts(body)|)
  {
    hide ReadHeader, HeaderText, Inside, Formed, CountValue, OldSide, NewSide, OldTexts, NewTexts;
    var lines := [HeaderText(h)] + PrintedAll(body) + rest;
    HeaderRead(h);
    SidesRead(body);
    BodyUpToEnd(HeaderText(h), body, rest);
  }

  lemma BodyUpToEnd(head: string, body: seq<BodyLine>, rest: seq<string>)
    requires (forall i :: 0 <= i < |body| ==> Inside(body[i])) && (rest == [] || Ends(rest[0]))
    ensures HunkBody([head] + PrintedAll(body) + rest, 0) == PrintedAll(body)
  {
    hide Inside, IsBreaker, Ends, Printed;
    var lines := [head] + PrintedAll(body) + rest;
    forall k | 1 <= k < 1 + |body|
      ensures !IsBreaker(lines[k])
    {
      LineRead(body[k - 1]);
      assert lines[k] == PrintedAll(body)[k - 1];
    }
    if rest != [] {
      EndsBreaks(rest[0]);
    }
    HunkEndIs(lines, 1, 1 + |body|);
    assert lines[1..1 + |body|] == PrintedAll(body);
  }

  /** One hunk alone is accepted exactly when its counts are right. */
  lemma OneHunkAccepted(h: Header, body: seq<BodyLine>)
    requires Formed(h) && forall i :: 0 <= i < |body| ==> Inside(body[i])
    ensures Incomplete([HeaderText(h)] + PrintedAll(body)) <==>
            CountValue(h.oldCount) != |OldTexts(body)| || CountValue(h.newCount) != |NewTexts(body)|
  {
    hide ReadHeader, HeaderText, Inside, IsBreaker, Formed, CountValue, Printed, BadHunk, HunkBody;
    var lines := [HeaderText(h)] + PrintedAll(body);
    HunkRead(h, body, []);
    assert lines + [] == lines;
    forall k: nat | 1 <= k < |lines|
      ensures !BadHunk(lines, k)
    {
      LineRead(body[k - 1]);
      NoHunkInside(lines, k);
    }
    assert BadHunk(lines, 0) <==> Incomplete(lines) by {
      if Incomplete(lines) {
        var k: nat :| BadHunk(lines, k);
        assert k < |lines|;
      }
    }
  }

  lemma NoHunkInside(lines: seq<string>, k: nat)
    requires k < |lines| && !IsBreaker(lines[k])
    ensures !BadHunk(lines, k)
  {}

  /** A header without counts stands for one line on each side. */
  lemma ShortHunkAccepted(a: string, c: string, x: string, y: string)
    requires Digits(a) && Digits(c) && !("--" <= x) && !("++" <= y)
    ensures !Incomplete(["@@ -" + a + " +" + c + " @@", "-" + x, "+" + y])
  {
    hide Incomplete, HeaderText;
    var h := Header(" ", a, Omitted, " ", c, Omitted, ' ', "");
    var body := [Removed(x), Added(y)];
    ShortHeader(a, c);
    assert PrintedAll(body) == ["-" + x, "+" + y];
    assert [HeaderText(h)] + PrintedAll(body) == ["@@ -" + a + " +" + c + " @@", "-" + x, "+" + y];
    assert body[..1] == [Removed(x)];
    SidesSnocTexts([], Removed(x));
    SidesSnocTexts([Removed(x)], Added(y));
    Shorter("--", x);
    Shorter("++", y);
    OneHunkAccepted(h, body);
  }

  lemma SidesSnocTexts(body: seq<BodyLine>, l: BodyLine)
    ensures OldTexts(body + [l]) == OldTexts(body) + OldOf(l) && NewTexts(body + [l]) == NewTexts(body) + NewOf(l)
  {
    assert (body + [l])[..|body|] == body;
  }

  lemma ShortHeader(a: string, c: string)
    ensures HeaderText(Header(" ", a, Omitted, " ", c, Omitted, ' ', "")) == "@@ -" + a + " +" + c + " @@"
  {}

  lemma Shorter(sign: string, t: string)
    ensures sign + " " <= t ==> sign <= t
  {
    assert (sign + " ")[..|sign|] == sign;
  }
}
