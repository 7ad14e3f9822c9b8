/** `_path_is_diff_noise` and `filter_unified_diff_noise` of `agent_path_extract.py`. */
module DiffFilter {
  import opened PyText
  import opened SpanPrinter

  // ---------------------------------------------------------------- noise paths

  function DropDotSlashes(p: string): string {
    if "./" <= p then DropDotSlashes(p[2..]) else p
  }

  function DropSlashes(p: string): string {
    if "/" <= p then DropSlashes(p[1..]) else p
  }

  const NOISE_FILES: set<string> := {
    "problem.md", "sources/seed", ".agent_swe_instance.json", ".agent_swe_sync_state.json",
    ".agent_swe_probe.json"
  }

  const NOISE_DIRS: set<string> := {
    ".local", ".venv", "venv", "site-packages", "__pycache__", ".pytest_cache", "node_modules", ".agent"
  }

  predicate IsNoisePath(path: string) {
    var p := DropSlashes(DropDotSlashes(ReplaceChar(path, '\\', '/')));
    && p != ""
    && (p in NOISE_FILES || "sources/seed/" <= p || exists part :: part in SplitOn(p, '/') && part in NOISE_DIRS)
  }

  /** `_path_is_diff_noise` */
  method PathIsDiffNoise(path: string) returns (noise: bool)
    ensures noise <==> IsNoisePath(path)
  {
    var p := ReplaceChar(path, '\\', '/');
    while "./" <= p
      invariant DropDotSlashes(p) == DropDotSlashes(ReplaceChar(path, '\\', '/'))
      decreases |p|
    {
      p := p[2..];
    }
    while "/" <= p
      invariant DropSlashes(p) == DropSlashes(DropDotSlashes(ReplaceChar(path, '\\', '/')))
      decreases |p|
    {
      p := p[1..];
    }
    if p == "" {
      return false;
    }
    if p in NOISE_FILES || "sources/seed/" <= p {
      return true;
    }
    var parts := SplitOn(p, '/');
    return exists part :: part in parts && part in NOISE_DIRS;
  }

  // ---------------------------------------------------------------- section headers

  const GIT: string := "diff --git "

  predicate IsHeader(line: string) {
    GIT <= line
  }

  function RStripNewlines(s: string): string {
    if s != "" && s[|s| - 1] == '\n' then RStripNewlines(s[..|s| - 1]) else s
  }

  /** The path in a `diff --git` line: after ` b/` when present, else the `a/` path, else empty. */
  function HeaderPath(line: string): string
    requires IsHeader(line)
  {
    var rest := RStripNewlines(line[|GIT|..]);
    match Find(rest, " b/")
    case Some(i) => Strip(rest[i + 3..])
    case None =>
      match Find(rest, " ")
      case Some(i) => if "a/" <= rest && i >= 2 then rest[..i][2..] else ""
      case None => ""
  }

  predicate IsNoiseHeader(line: string) {
    IsHeader(line) && IsNoisePath(HeaderPath(line))
  }

  // ---------------------------------------------------------------- filtering lines

  /** Whether a line is kept: a header decides for its section, other lines follow. */
  predicate KeepsLine(line: string, on: bool) {
    if IsHeader(line) then !IsNoiseHeader(line) else on
  }

  /** The lines kept when reading starts inside (`on`) or behind a dropped section header. */
  function Keep(lines: seq<string>, on: bool): seq<string> {
    if lines == [] then []
    else if KeepsLine(lines[0], on) then [lines[0]] + Keep(lines[1..], true)
    else Keep(lines[1..], false)
  }

  lemma KeepCons(l: string, x: seq<string>, on: bool)
    ensures Keep([l] + x, on) == if KeepsLine(l, on) then [l] + Keep(x, true) else Keep(x, false)
  {}

  /** Where the section that starts before `i` ends. */
  function NextHeader(lines: seq<string>, i: nat): (r: nat)
    requires i <= |lines|
    ensures i <= r <= |lines|
    ensures forall j :: i <= j < r ==> !IsHeader(lines[j])
    ensures r < |lines| ==> IsHeader(lines[r])
    decreases |lines| - i
  {
    if i == |lines| || IsHeader(lines[i]) then i else NextHeader(lines, i + 1)
  }

  /** Reading on inside a section keeps or drops it as a whole. */
  lemma {:induction false} KeepBlock(block: seq<string>, rest: seq<string>, on: bool)
    requires forall i :: 0 <= i < |block| ==> !IsHeader(block[i])
    ensures Keep(block + rest, on) == (if on then block else []) + Keep(rest, on)
  {
    hide IsHeader, IsNoiseHeader;
    if block == [] {
      assert block + rest == rest;
    } else {
      assert block + rest == [block[0]] + (block[1..] + rest);
      KeepCons(block[0], block[1..] + rest, on);
      KeepBlock(block[1..], rest, on);
    }
  }

  lemma KeepAppendCons(l: string, t: seq<string>, b: seq<string>, on: bool)
    requires var on' := KeepsLine(l, on); Keep(t + b, on') == Keep(t, on') + Keep(b, true)
    ensures Keep([l] + t + b, on) == Keep([l] + t, on) + Keep(b, true)
  {
    hide KeepsLine, Keep;
    Assoc([l], t, b);
    KeepCons(l, t + b, on);
    KeepCons(l, t, on);
    Assoc([l], Keep(t, true), Keep(b, true));
  }

  /** Filtering distributes over concatenation at a section header. */
  lemma {:induction false} KeepAppend(a: seq<string>, b: seq<string>, on: bool)
    requires b == [] || IsHeader(b[0])
    ensures Keep(a + b, on) == Keep(a, on) + Keep(b, true)
    decreases |a|
  {
    if a == [] {
      assert a + b == b;
      KeepAtHeader(b, on);
    } else {
      hide IsHeader, KeepsLine, Keep;
      KeepAppend(a[1..], b, KeepsLine(a[0], on));
      KeepAppendCons(a[0], a[1..], b, on);
      assert a == [a[0]] + a[1..];
    }
  }

  lemma KeepKeptCons(l: string, t: seq<string>, more: seq<string>, on: bool)
    requires var kept := Keep(t, KeepsLine(l, on)); Keep(kept + more, true) == kept + more
    ensures var kept := Keep([l] + t, on); Keep(kept + more, true) == kept + more
  {
    hide KeepsLine, Keep;
    KeepCons(l, t, on);
    if KeepsLine(l, on) {
      var kept := Keep(t, true);
      KeptStaysKept(l, on);
      Assoc([l], kept, more);
      KeepCons(l, kept + more, true);
    }
  }

  /** Filtering twice is filtering once, also with more section lines behind. */
  lemma {:induction false} KeepKept(lines: seq<string>, more: seq<string>, on: bool)
    requires forall i :: 0 <= i < |more| ==> !IsHeader(more[i])
    ensures Keep(Keep(lines, on) + more, true) == Keep(lines, on) + more
    decreases |lines|
  {
    if lines == [] {
      assert Keep(lines, on) + more == more + [];
      KeepBlock(more, [], true);
      assert more + [] == more;
    } else {
      hide IsHeader, KeepsLine, Keep;
      KeepKept(lines[1..], more, KeepsLine(lines[0], on));
      KeepKeptCons(lines[0], lines[1..], more, on);
      assert lines == [lines[0]] + lines[1..];
    }
  }

  lemma KeptStaysKept(l: string, on: bool)
    requires KeepsLine(l, on)
    ensures KeepsLine(l, true)
  {}

  lemma KeepAtHeader(lines: seq<string>, on: bool)
    requires lines == [] || IsHeader(lines[0])
    ensures Keep(lines, on) == Keep(lines, true)
  {}

  lemma KeepHeader(h: string, x: seq<string>, on: bool)
    requires IsHeader(h)
    ensures Keep([h] + x, on) == (if IsNoiseHeader(h) then [] else [h]) + Keep(x, !IsNoiseHeader(h))
  {}

  /** A section, up to the next header, is kept or dropped as a whole. */
  lemma KeepOneSection(s: seq<string>, rest: seq<string>)
    requires s != [] && IsHeader(s[0]) && forall i :: 1 <= i < |s| ==> !IsHeader(s[i])
    requires rest == [] || IsHeader(rest[0])
    ensures Keep(s + rest, true) == (if IsNoiseHeader(s[0]) then [] else s) + Keep(rest, true)
  {
    hide IsHeader, IsNoiseHeader, Keep;
    var on := !IsNoiseHeader(s[0]);
    assert s + rest == [s[0]] + (s[1..] + rest);
    KeepHeader(s[0], s[1..] + rest, true);
    KeepBlock(s[1..], rest, on);
    KeepAtHeader(rest, on);
    assert s == [s[0]] + s[1..];
  }

  lemma KeepSection(lines: seq<string>, i: nat)
    requires i < |lines| && IsHeader(lines[i])
    ensures var end := NextHeader(lines, i + 1);
            Keep(lines[i..], true) ==
            (if IsNoiseHeader(lines[i]) then [] else lines[i..end]) + Keep(lines[end..], true)
  {
    hide IsHeader, IsNoiseHeader, NextHeader, Keep;
    var end := NextHeader(lines, i + 1);
    assert lines[i..] == lines[i..end] + lines[end..];
    KeepOneSection(lines[i..end], lines[end..]);
  }

  /** The inner loop: the section that starts at `start`. */
  method TakeBlock(lines: seq<string>, start: nat) returns (block: seq<string>, i: nat)
    requires start < |lines|
    ensures i == NextHeader(lines, start + 1) && block == lines[start..i]
  {
    hide IsHeader;
    block, i := [lines[start]], start + 1;
    while i < |lines| && !IsHeader(lines[i])
      invariant start < i <= |lines|
      invariant block == lines[start..i]
      invariant NextHeader(lines, start + 1) == NextHeader(lines, i)
    {
      block := block + [lines[i]];
      i := i + 1;
    }
  }

  /** The outer loop over the lines of the diff. */
  method FilterLines(lines: seq<string>) returns (out: seq<string>)
    ensures out == Keep(lines, true)
  {
    hide IsHeader, IsNoiseHeader, IsNoisePath, HeaderPath, NextHeader, Keep;
    KeepNone(true);
    out := [];
    var i := 0;
    assert lines[0..] == lines;
    while i < |lines|
      invariant i <= |lines|
      invariant out + Keep(lines[i..], true) == Keep(lines, true)
    {
      if IsHeader(lines[i]) {
        KeepSection(lines, i);
        NoiseHeaderMeans(lines[i]);
        var skip := PathIsDiffNoise(HeaderPath(lines[i]));
        var block, end := TakeBlock(lines, i);
        if !skip {
          out := out + block;
        }
        i := end;
      } else {
        KeepPlain(lines, i);
        out := out + [lines[i]];
        i := i + 1;
      }
    }
    assert lines[i..] == [];
  }

  lemma KeepPlain(lines: seq<string>, i: nat)
    requires i < |lines| && !IsHeader(lines[i])
    ensures Keep(lines[i..], true) == [lines[i]] + Keep(lines[i + 1..], true)
  {}

  lemma KeepNone(on: bool)
    ensures Keep([], on) == []
  {}

  function KeptLines(diff: string): seq<string> {
    Keep(SplitKeep(Normalized(diff)), true)
  }

  function FilterText(diff: string): string {
    Normalized(Concat(KeptLines(diff)))
  }

  /** `filter_unified_diff_noise` */
  method FilterUnifiedDiffNoise(diff: string) returns (r: string)
    ensures r == FilterText(diff)
  {
    hide IsHeader, IsNoiseHeader, Normalized;
    var text := NormalizeUnifiedDiff(diff);
    if text == "" {
      EmptyNormalized();
      return "";
    }
    var out := FilterLines(SplitKeep(text));
    r := NormalizeUnifiedDiff(Concat(out));
  }

  lemma EmptyNormalized()
    ensures Normalized("") == ""
  {}

  lemma NoiseHeaderMeans(line: string)
    requires IsHeader(line)
    ensures IsNoiseHeader(line) == IsNoisePath(HeaderPath(line))
  {}
}
