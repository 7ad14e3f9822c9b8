/** The Python string operations that the modelled scripts rely on: `isspace`, `strip`, `splitlines`,
    printing and reading decimal numbers. */
module PyText {
  import opened Wrappers

  /** `str.isspace` on one character; also the class `\s` of Python's `re`. */
  predicate IsSpace(c: char) {
    var n := c as int;
    || 9 <= n <= 13 || 28 <= n <= 32 || n == 0x85 || n == 0xA0 || n == 0x1680
    || 0x2000 <= n <= 0x200A || n == 0x2028 || n == 0x2029 || n == 0x202F || n == 0x205F || n == 0x3000
  }

  /** The characters at which `str.splitlines` ends a line. */
  predicate IsBreak(c: char) {
    var n := c as int;
    10 <= n <= 13 || 28 <= n <= 30 || n == 0x85 || n == 0x2028 || n == 0x2029
  }

  predicate BreakFree(s: string) {
    forall i :: 0 <= i < |s| ==> !IsBreak(s[i])
  }

  predicate AllBreakFree(ls: seq<string>) {
    forall i :: 0 <= i < |ls| ==> BreakFree(ls[i])
  }

  function LStrip(s: string): string {
    if s != "" && IsSpace(s[0]) then LStrip(s[1..]) else s
  }

  function RStrip(s: string): string {
    if s != "" && IsSpace(s[|s| - 1]) then RStrip(s[..|s| - 1]) else s
  }

  /** `str.strip()` */
  function Strip(s: string): string {
    LStrip(RStrip(s))
  }

  /** `s.replace(a, b)` for single characters. */
  function ReplaceChar(s: string, a: char, b: char): (r: string)
    ensures |r| == |s| && forall i :: 0 <= i < |s| ==> r[i] == if s[i] == a then b else s[i]
  {
    seq(|s|, i requires 0 <= i < |s| => if s[i] == a then b else s[i])
  }

  /** `s.split(sep)` for a single character; never empty. */
  function SplitOn(s: string, sep: char): (r: seq<string>)
    ensures r != []
  {
    if s == "" then [""]
    else if s[0] == sep then [""] + SplitOn(s[1..], sep)
    else
      var r := SplitOn(s[1..], sep);
      [[s[0]] + r[0]] + r[1..]
  }

  /** Index of the first occurrence of `pat`, if any. */
  function Find(s: string, pat: string): (r: Option<nat>)
    ensures r.Some? ==> r.value + |pat| <= |s|
  {
    if pat <= s then Some(0)
    else if s == "" then None
    else match Find(s[1..], pat) case None => None case Some(i) => Some(i + 1)
  }

  /** `Find` gives the first place where the pattern stands, or says that there is none. */
  lemma {:induction false} FindFirst(s: string, pat: string)
    ensures match Find(s, pat)
            case Some(k) => pat <= s[k..] && forall i :: 0 <= i < k ==> !(pat <= s[i..])
            case None => forall i :: 0 <= i <= |s| ==> !(pat <= s[i..])
  {
    assert s[0..] == s;
    if !(pat <= s) && s != "" {
      FindFirst(s[1..], pat);
      assert forall i :: 1 <= i <= |s| ==> s[i..] == s[1..][i - 1..];
    }
  }

  lemma FindIs(s: string, pat: string, k: nat)
    requires k <= |s| && pat <= s[k..] && forall i :: 0 <= i < k ==> !(pat <= s[i..])
    ensures Find(s, pat) == Some(k)
  {
    hide Find;
    FindFirst(s, pat);
  }

  /** A pattern is nowhere in text without its first character. */
  lemma {:induction false} FindNowhere(s: string, pat: string)
    requires pat != "" && pat[0] !in s
    ensures Find(s, pat).None?
  {
    if s == "" {
    } else {
      FindNowhere(s[1..], pat);
    }
  }

  lemma {:induction false} OnePart(p: string, sep: char)
    requires sep !in p
    ensures SplitOn(p, sep) == [p]
  {
    if p == "" {
    } else {
      OnePart(p[1..], sep);
      assert [p[0]] + p[1..] == p;
    }
  }

  lemma {:induction false} SplitAtSep(a: string, rest: string, sep: char)
    requires sep !in a
    ensures SplitOn(a + [sep] + rest, sep) == [a] + SplitOn(rest, sep)
  {
    var s := a + [sep] + rest;
    if a == "" {
      assert s[1..] == rest;
    } else {
      assert s[1..] == a[1..] + [sep] + rest;
      SplitAtSep(a[1..], rest, sep);
      assert [a[0]] + a[1..] == a;
    }
  }

  /** `part in whole` */
  predicate Occurs(part: string, whole: string) {
    exists i :: 0 <= i <= |whole| && part <= whole[i..]
  }

  /** `s.endswith(suffix)` */
  predicate HasSuffix(s: string, suffix: string) {
    |suffix| <= |s| && s[|s| - |suffix|..] == suffix
  }

  /** No white space at either end, and not empty: what a non-empty `strip()` returns. */
  predicate Trimmed(s: string) {
    s != "" && !IsSpace(s[0]) && !IsSpace(s[|s| - 1])
  }

  lemma StripTrimmed(s: string)
    requires Trimmed(s)
    ensures Strip(s) == s
  {}

  /** Index of the first line break, or the length when there is none. */
  function FirstBreak(s: string): (r: nat)
    ensures r <= |s|
    ensures BreakFree(s[..r])
    ensures r < |s| ==> IsBreak(s[r])
  {
    if s == "" || IsBreak(s[0]) then 0
    else
      var r := FirstBreak(s[1..]);
      assert s[..r + 1] == [s[0]] + s[1..][..r];
      r + 1
  }

  lemma FirstBreakUnique(s: string, k: nat)
    requires k <= |s| && BreakFree(s[..k])
    requires k < |s| ==> IsBreak(s[k])
    ensures FirstBreak(s) == k
  {
    var r := FirstBreak(s);
    assert forall j :: 0 <= j < k ==> s[..k][j] == s[j];
    assert forall j :: 0 <= j < r ==> s[..r][j] == s[j];
  }

  /** How many characters the first line takes, with its break: `\r\n` is one break. */
  function LineEnd(s: string): (r: nat)
    requires s != ""
    ensures FirstBreak(s) <= r <= |s| && 0 < r
  {
    var i := FirstBreak(s);
    if i == |s| then i else if s[i] == '\r' && i + 1 < |s| && s[i + 1] == '\n' then i + 2 else i + 1
  }

  /** `str.splitlines()` */
  function SplitLines(s: string): seq<string> {
    if s == "" then [] else [s[..FirstBreak(s)]] + SplitLines(s[LineEnd(s)..])
  }

  /** `str.splitlines(keepends=True)` */
  function SplitKeep(s: string): seq<string> {
    if s == "" then [] else [s[..LineEnd(s)]] + SplitKeep(s[LineEnd(s)..])
  }

  /** Every line followed by `\n`: `"\n".join(ls) + "\n"` for a non-empty list. */
  function Unlines(ls: seq<string>): string {
    if ls == [] then "" else ls[0] + "\n" + Unlines(ls[1..])
  }

  /** `"".join(ls)` */
  function Concat(ls: seq<string>): string {
    if ls == [] then "" else ls[0] + Concat(ls[1..])
  }

  /** A line without its line break. */
  function Body(l: string): string {
    l[..FirstBreak(l)]
  }

  function Bodies(ls: seq<string>): (r: seq<string>)
    ensures |r| == |ls| && forall i :: 0 <= i < |ls| ==> r[i] == Body(ls[i])
  {
    seq(|ls|, i requires 0 <= i < |ls| => Body(ls[i]))
  }

  lemma Assoc<T>(x: seq<T>, y: seq<T>, z: seq<T>)
    ensures x + y + z == x + (y + z)
  {}

  /** Text that is empty or whose last character is `\n`. */
  predicate EndsLine(s: string) {
    s == "" || s[|s| - 1] == '\n'
  }

  lemma SplitFirst(l: string, rest: string)
    requires BreakFree(l)
    ensures SplitLines(l + "\n" + rest) == [l] + SplitLines(rest)
  {
    hide FirstBreak, BreakFree;
    var s := l + "\n" + rest;
    assert s[..|l|] == l && s[|l| + 1..] == rest;
    FirstBreakUnique(s, |l|);
  }

  /** `str.splitlines` undoes writing out break-free lines. */
  lemma {:induction false} SplitUnlines(ls: seq<string>)
    requires AllBreakFree(ls)
    ensures SplitLines(Unlines(ls)) == ls
  {
    if ls == [] {
      assert Unlines(ls) == "";
    } else {
      hide SplitLines, BreakFree;
      SplitFirst(ls[0], Unlines(ls[1..]));
      SplitUnlines(ls[1..]);
    }
  }

  lemma {:induction false} UnlinesAppend(a: seq<string>, b: seq<string>)
    ensures Unlines(a + b) == Unlines(a) + Unlines(b)
  {
    if a == [] {
      assert a + b == b;
    } else {
      assert (a + b)[1..] == a[1..] + b;
      UnlinesAppend(a[1..], b);
    }
  }

  lemma {:induction false} ConcatAppend(a: seq<string>, b: seq<string>)
    ensures Concat(a + b) == Concat(a) + Concat(b)
  {
    if a == [] {
      assert a + b == b;
    } else {
      assert (a + b)[1..] == a[1..] + b;
      ConcatAppend(a[1..], b);
    }
  }

  lemma LineEndAppend(a: string, b: string)
    requires a != "" && EndsLine(a)
    ensures FirstBreak(a + b) == FirstBreak(a) && LineEnd(a + b) == LineEnd(a)
  {
    var i := FirstBreak(a);
    assert i == |a| ==> IsBreak(a[..i][|a| - 1]);
    assert (a + b)[..i] == a[..i];
    FirstBreakUnique(a + b, i);
  }

  /** Splitting distributes over concatenation at a `\n`. */
  lemma {:induction false} SplitLinesAppend(a: string, b: string)
    requires EndsLine(a)
    ensures SplitLines(a + b) == SplitLines(a) + SplitLines(b)
    decreases |a|
  {
    if a == "" {
      assert a + b == b;
    } else {
      hide FirstBreak, BreakFree, LineEnd;
      LineEndAppend(a, b);
      var i, n := FirstBreak(a), LineEnd(a);
      assert (a + b)[..i] == a[..i];
      assert (a + b)[n..] == a[n..] + b;
      SplitLinesAppend(a[n..], b);
    }
  }

  lemma {:induction false} SplitKeepAppend(a: string, b: string)
    requires EndsLine(a)
    ensures SplitKeep(a + b) == SplitKeep(a) + SplitKeep(b)
    decreases |a|
  {
    if a == "" {
      assert a + b == b;
    } else {
      hide FirstBreak, BreakFree, LineEnd;
      LineEndAppend(a, b);
      var n := LineEnd(a);
      assert (a + b)[..n] == a[..n];
      assert (a + b)[n..] == a[n..] + b;
      SplitKeepAppend(a[n..], b);
    }
  }

  lemma {:induction false} SplitKeepConcat(s: string)
    ensures Concat(SplitKeep(s)) == s
    decreases |s|
  {
    if s == "" {
    } else {
      hide FirstBreak, BreakFree, LineEnd;
      var n := LineEnd(s);
      SplitKeepConcat(s[n..]);
      assert SplitKeep(s)[1..] == SplitKeep(s[n..]);
      assert s == s[..n] + s[n..];
    }
  }

  lemma {:induction false} SplitLinesBreakFree(s: string)
    ensures AllBreakFree(SplitLines(s))
    decreases |s|
  {
    if s == "" {
    } else {
      hide BreakFree, LineEnd;
      SplitLinesBreakFree(s[LineEnd(s)..]);
    }
  }

  lemma FirstBreakCut(s: string, n: nat)
    requires FirstBreak(s) <= n <= |s|
    ensures FirstBreak(s[..n]) == FirstBreak(s)
  {
    hide FirstBreak, BreakFree;
    var i := FirstBreak(s);
    assert s[..n][..i] == s[..i];
    FirstBreakUnique(s[..n], i);
  }

  lemma BodiesCons(l: string, ls: seq<string>)
    ensures Bodies([l] + ls) == [Body(l)] + Bodies(ls)
  {}

  lemma FirstBody(s: string)
    requires s != ""
    ensures Body(s[..LineEnd(s)]) == s[..FirstBreak(s)]
  {
    hide FirstBreak, LineEnd;
    FirstBreakCut(s, LineEnd(s));
  }

  lemma {:induction false} SplitBodies(s: string)
    ensures SplitLines(s) == Bodies(SplitKeep(s))
    decreases |s|
  {
    if s == "" {
    } else {
      hide FirstBreak, LineEnd, Body, Bodies;
      var n := LineEnd(s);
      SplitBodies(s[n..]);
      FirstBody(s);
      BodiesCons(s[..n], SplitKeep(s[n..]));
    }
  }

  /** A line with exactly one line break, at its end. */
  predicate Terminated(l: string) {
    l != "" && FirstBreak(l) < |l| && LineEnd(l) == |l|
  }

  /** A `\r\n` cut in two. */
  predicate SplitReturn(l: string, next: string) {
    l != "" && next != "" && l[|l| - 1] == '\r' && next[0] == '\n'
  }

  /** Lines as `splitlines(keepends=True)` cuts them: all but perhaps the last are terminated, and no
      `\r` is cut off from a `\n` that follows it. */
  predicate WellCut(ls: seq<string>) {
    ls != [] ==>
      && ls[0] != ""
      && (Terminated(ls[0]) || (|ls| == 1 && BreakFree(ls[0])))
      && (|ls| > 1 ==> !SplitReturn(ls[0], ls[1]))
      && WellCut(ls[1..])
  }

  lemma WellCutNil()
    ensures WellCut([])
  {}

  lemma WellCutHead(ls: seq<string>)
    requires WellCut(ls) && ls != []
    ensures ls[0] != "" && WellCut(ls[1..])
    ensures |ls| > 1 ==> !SplitReturn(ls[0], ls[1]) && ls[1] != ""
  {}

  lemma WellCutCons(l: string, ls: seq<string>)
    requires Terminated(l) && WellCut(ls)
    requires ls != [] ==> !SplitReturn(l, ls[0])
    ensures WellCut([l] + ls)
  {}

  /** The first line that is cut off a text, with its break. */
  lemma FirstLineTerminated(s: string)
    requires FirstBreak(s) < |s|
    ensures Terminated(s[..LineEnd(s)]) && !SplitReturn(s[..LineEnd(s)], s[LineEnd(s)..])
  {
    hide FirstBreak;
    FirstBreakCut(s, LineEnd(s));
  }

  lemma SplitKeepFirst(s: string)
    ensures s == "" <==> SplitKeep(s) == []
    ensures s != "" ==> SplitKeep(s)[0] != "" && SplitKeep(s)[0][0] == s[0]
  {}

  lemma {:induction false} SplitKeepWellCut(s: string)
    ensures WellCut(SplitKeep(s))
    decreases |s|
  {
    if s == "" {
      WellCutNil();
    } else {
      var i, n := FirstBreak(s), LineEnd(s);
      if i < |s| {
        hide FirstBreak, LineEnd, WellCut, Terminated;
        SplitKeepWellCut(s[n..]);
        SplitKeepFirst(s[n..]);
        FirstLineTerminated(s);
        WellCutCons(s[..n], SplitKeep(s[n..]));
      } else {
        assert s[..n] == s && s[n..] == "";
      }
    }
  }

  /** Well-cut lines are what splitting their concatenation gives back. */
  lemma {:induction false} Recut(ls: seq<string>)
    requires WellCut(ls)
    ensures SplitKeep(Concat(ls)) == ls
  {
    if ls == [] {
    } else {
      hide FirstBreak, LineEnd;
      Recut(ls[1..]);
      if Terminated(ls[0]) {
        var rest := Concat(ls[1..]);
        assert |ls| > 1 ==> rest != "" && rest[0] == ls[1][0];
        RecutFirst(ls[0], rest);
      } else {
        var l := ls[0];
        assert ls[1..] == [] && Concat(ls) == l && ls == [l];
        RecutLast(l);
      }
    }
  }

  lemma RecutLast(l: string)
    requires l != "" && BreakFree(l)
    ensures SplitKeep(l) == [l]
  {
    assert l[..|l|] == l;
    FirstBreakUnique(l, |l|);
  }

  lemma RecutFirst(l: string, rest: string)
    requires Terminated(l) && (rest == "" || !SplitReturn(l, rest))
    ensures SplitKeep(l + rest) == [l] + SplitKeep(rest)
  {
    hide FirstBreak, IsBreak, BreakFree;
    var s, i := l + rest, FirstBreak(l);
    assert s[..i] == l[..i];
    FirstBreakUnique(s, i);
    assert s[..|l|] == l && s[|l|..] == rest;
  }

  // ---------------------------------------------------------------- decimal numbers

  predicate IsDigit(c: char) {
    '0' <= c <= '9'
  }

  predicate AllDigits(s: string) {
    forall i :: 0 <= i < |s| ==> IsDigit(s[i])
  }

  /** `str(n)` */
  function Decimal(n: nat): (s: string)
    ensures s != "" && AllDigits(s)
  {
    var last := [('0' as int + n % 10) as char];
    if n < 10 then last else Decimal(n / 10) + last
  }

  /** `int(s)` for a string of ASCII digits. */
  function ReadDecimal(s: string): nat
    requires AllDigits(s)
  {
    if s == "" then 0 else
      var d := s[|s| - 1] as int - '0' as int;
      10 * ReadDecimal(s[..|s| - 1]) + d
  }

  lemma {:induction false} ReadDecimalInverts(n: nat)
    ensures ReadDecimal(Decimal(n)) == n
  {
    var s := Decimal(n);
    if n >= 10 {
      ReadDecimalInverts(n / 10);
      assert s[..|s| - 1] == Decimal(n / 10);
    } else {
      assert s[..|s| - 1] == "";
    }
  }
}
