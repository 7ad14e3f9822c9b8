/** What the noise test and the header reader of `filter_unified_diff_noise` say about the text of a path and of a
    `diff --git` line. */
module NoisePaths {
  import opened Wrappers
  import opened PyText
  import opened PyTextLaws
  import opened SpanPrinter
  import opened DiffFilter

  // ---------------------------------------------------------------- directories

  /** A directory is among the parts of a path exactly when the path, put between slashes, has it between slashes. */
  lemma {:induction false} PartOnText(p: string, d: string)
    requires '/' !in d
    ensures d in SplitOn(p, '/') <==> Occurs("/" + d + "/", "/" + p + "/")
    decreases |p|
  {
    hide SplitOn, Occurs;
    if '/' in p {
      var n :| 0 <= n < |p| && p[n] == '/' && '/' !in p[..n] by { FirstSlash(p); }
      var q, r := p[..n], p[n + 1..];
      assert p == q + ['/'] + r;
      SplitAtSep(q, r, '/');
      PartOnText(r, d);
      OccursBehind(q, r, d);
    } else {
      OnePart(p, '/');
      OnlyPart(p, d);
    }
  }

  lemma {:induction false} FirstSlash(p: string)
    requires '/' in p
    ensures exists n :: 0 <= n < |p| && p[n] == '/' && '/' !in p[..n]
  {
    if p[0] == '/' {
      assert p[..0] == "";
    } else {
      FirstSlash(p[1..]);
      var n :| 0 <= n < |p[1..]| && p[1..][n] == '/' && '/' !in p[1..][..n];
      assert p[..n + 1] == [p[0]] + p[1..][..n];
      assert p[n + 1] == '/';
    }
  }

  /** Slash-free texts between slashes are the same where they start at the same place. */
  lemma SamePart(d: string, q: string, rest: string)
    requires '/' !in d && '/' !in q
    ensures "/" + d + "/" <= "/" + q + "/" + rest <==> d == q
  {
    var a, b := "/" + d + "/", "/" + q + "/" + rest;
    if |d| < |q| {
      assert a[|d| + 1] == '/' && b[|d| + 1] == q[|d|];
    } else if |d| > |q| {
      assert b[|q| + 1] == '/' && a[|q| + 1] == d[|q|];
    } else {
      assert a[1..|d| + 1] == d && b[1..|d| + 1] == q;
      assert a <= b ==> b[..|a|][1..|d| + 1] == a[1..|d| + 1];
      assert d == q ==> b == a + rest;
    }
  }

  lemma OnlyPart(q: string, d: string)
    requires '/' !in d && '/' !in q
    ensures d == q <==> Occurs("/" + d + "/", "/" + q + "/")
  {
    var a, b := "/" + d + "/", "/" + q + "/";
    SamePart(d, q, "");
    assert b + "" == b && b[0..] == b;
    if d != q {
      forall i | 0 < i <= |b|
        ensures !(a <= b[i..])
      {
        assert i < |q| + 1 ==> b[i..][0] == q[i - 1];
      }
    }
  }

  lemma OccursBehind(q: string, r: string, d: string)
    requires '/' !in d && '/' !in q
    ensures Occurs("/" + d + "/", "/" + (q + ['/'] + r) + "/") <==> d == q || Occurs("/" + d + "/", "/" + r + "/")
  {
    var a, b, c := "/" + d + "/", "/" + (q + ['/'] + r) + "/", "/" + r + "/";
    var n := |q| + 1;
    assert b == "/" + q + "/" + (r + "/") && b[n..] == c && b[0..] == b;
    SamePart(d, q, r + "/");
    assert forall i :: 0 <= i <= |c| ==> c[i..] == b[n + i..];
    forall i | 0 < i < n
      ensures !(a <= b[i..])
    {
      assert b[i..][0] == q[i - 1];
    }
    if Occurs(a, b) {
      var i :| 0 <= i <= |b| && a <= b[i..];
      if n <= i {
        assert a <= c[i - n..];
      }
    }
    if Occurs(a, c) {
      var i :| 0 <= i <= |c| && a <= c[i..];
      assert a <= b[n + i..];
    }
  }

  // ---------------------------------------------------------------- noise

  const DIRECTORIES: seq<string> := [
    ".agent", ".local", ".pytest_cache", ".venv", "__pycache__", "node_modules", "site-packages", "venv"
  ]

  const OVERLAYS: seq<string> := [
    ".agent_swe_instance.json", ".agent_swe_probe.json", ".agent_swe_sync_state.json", "problem.md", "sources/seed"
  ]

  /** A path without `./` and `/` at its start is noise when it is an overlay of the platform, lies below its seed
      directory, or has one of the directories somewhere between two slashes or at an end. */
  predicate NoiseText(p: string) {
    || p in OVERLAYS || "sources/seed/" <= p
    || exists i :: 0 <= i < |DIRECTORIES| && Occurs("/" + DIRECTORIES[i] + "/", "/" + p + "/")
  }

  lemma NamesSame()
    ensures forall f :: f in OVERLAYS <==> f in NOISE_FILES
    ensures forall d :: d in DIRECTORIES <==> d in NOISE_DIRS
    ensures forall i :: 0 <= i < |DIRECTORIES| ==> '/' !in DIRECTORIES[i]
  {}

  function Repeated(s: string, n: nat): string {
    if n == 0 then "" else s + Repeated(s, n - 1)
  }

  /** What is left of a path whose start is `./` a number of times and then `/` a number of times. */
  predicate Rooted(path: string, dots: nat, slashes: nat, p: string) {
    && ReplaceChar(path, '\\', '/') == Repeated("./", dots) + (Repeated("/", slashes) + p)
    && !("/" <= p) && (slashes == 0 ==> !("./" <= p))
  }

  lemma {:induction false} DotsDropped(dots: nat, rest: string)
    requires !("./" <= rest)
    ensures DropDotSlashes(Repeated("./", dots) + rest) == rest
  {
    if dots == 0 {
      assert "" + rest == rest;
    } else {
      var more := Repeated("./", dots - 1) + rest;
      DotsDropped(dots - 1, rest);
      Assoc("./", Repeated("./", dots - 1), rest);
      OneDotSlash(more);
    }
  }

  lemma OneDotSlash(more: string)
    ensures DropDotSlashes("./" + more) == DropDotSlashes(more)
  {
    var s := "./" + more;
    assert s[..2] == "./" && s[2..] == more;
  }

  lemma {:induction false} SlashesDropped(slashes: nat, rest: string)
    requires !("/" <= rest)
    ensures DropSlashes(Repeated("/", slashes) + rest) == rest
  {
    if slashes == 0 {
      assert "" + rest == rest;
    } else {
      var s := Repeated("/", slashes) + rest;
      SlashesDropped(slashes - 1, rest);
      assert s == "/" + (Repeated("/", slashes - 1) + rest);
      assert s[..1] == "/";
      assert s[1..] == Repeated("/", slashes - 1) + rest;
    }
  }

  lemma {:induction false} SlashMoved(n: nat, p: string)
    requires "/" <= p
    ensures Repeated("/", n) + p == Repeated("/", n + 1) + p[1..]
  {
    if n == 0 {
      assert p == "/" + p[1..];
    } else {
      SlashMoved(n - 1, p);
      Assoc("/", Repeated("/", n - 1), p);
      Assoc("/", Repeated("/", n), p[1..]);
    }
  }

  /** Every path is of that form. */
  lemma {:induction false} RootedExists(s: string) returns (dots: nat, slashes: nat, p: string)
    ensures s == Repeated("./", dots) + (Repeated("/", slashes) + p)
    ensures !("/" <= p) && (slashes == 0 ==> !("./" <= p))
    decreases |s|
  {
    if "./" <= s {
      assert s == "./" + s[2..];
      dots, slashes, p := RootedExists(s[2..]);
      dots := dots + 1;
    } else {
      dots, p := 0, s;
      slashes := 0;
      while "/" <= p
        invariant s == Repeated("/", slashes) + p
        invariant slashes == 0 ==> p == s
        decreases |p|
      {
        SlashMoved(slashes, p);
        slashes, p := slashes + 1, p[1..];
      }
    }
  }

  lemma NoiseParts(p: string)
    ensures (exists d :: d in SplitOn(p, '/') && d in NOISE_DIRS) <==>
            exists i :: 0 <= i < |DIRECTORIES| && Occurs("/" + DIRECTORIES[i] + "/", "/" + p + "/")
  {
    hide SplitOn, Occurs;
    NamesSame();
    forall i | 0 <= i < |DIRECTORIES|
      ensures DIRECTORIES[i] in SplitOn(p, '/') <==> Occurs("/" + DIRECTORIES[i] + "/", "/" + p + "/")
    {
      PartOnText(p, DIRECTORIES[i]);
    }
  }

  /** The noise test on the text of any path: backslashes count as slashes, then every leading `./` and every leading
      `/` is dropped, and what is left must be noise text. Leading dots of a name stay. */
  lemma NoiseOnText(path: string) returns (dots: nat, slashes: nat, p: string)
    ensures Rooted(path, dots, slashes, p)
    ensures IsNoisePath(path) <==> p != "" && NoiseText(p)
  {
    hide SplitOn, Occurs;
    dots, slashes, p := RootedExists(ReplaceChar(path, '\\', '/'));
    var rest := Repeated("/", slashes) + p;
    RootedRest(slashes, p);
    DotsDropped(dots, rest);
    SlashesDropped(slashes, p);
    NamesSame();
    NoiseParts(p);
  }

  lemma RootedRest(slashes: nat, p: string)
    requires slashes == 0 ==> !("./" <= p)
    ensures !("./" <= Repeated("/", slashes) + p)
  {
    var rest := Repeated("/", slashes) + p;
    if slashes > 0 {
      assert rest[0] == '/';
    } else {
      assert rest == p;
    }
  }

  // ---------------------------------------------------------------- header lines

  lemma {:induction false} RunDropped(rest: string, n: nat)
    requires rest == "" || rest[|rest| - 1] != '\n'
    ensures RStripNewlines(rest + NewlineRun(n)) == rest
  {
    var s := rest + NewlineRun(n);
    if n > 0 {
      RunDropped(rest, n - 1);
      assert s[..|s| - 1] == rest + NewlineRun(n - 1);
    } else {
      assert s == rest;
    }
  }

  /** How the filter reads the rest of a `diff --git` line, up to the line breaks at its end: what follows the first
      ` b/`, stripped. */
  lemma NewNameRead(u: string, v: string, n: nat)
    requires !Occurs(" b/", u + " b") && (v == "" || v[|v| - 1] != '\n')
    ensures var line := "diff --git " + u + " b/" + v + NewlineRun(n);
            IsHeader(line) && HeaderPath(line) == Strip(v)
  {
    hide Strip, Find, Occurs, RStripNewlines;
    var rest := u + " b/" + v;
    var line := "diff --git " + u + " b/" + v + NewlineRun(n);
    assert line == GIT + (rest + NewlineRun(n));
    RunDropped(rest, n);
    assert line[|GIT|..] == rest + NewlineRun(n);
    MarkFirst(u, v);
    assert rest[|u| + 3..] == v;
  }

  lemma MarkFirst(u: string, v: string)
    requires !Occurs(" b/", u + " b")
    ensures Find(u + " b/" + v, " b/") == Some(|u|)
  {
    var s := u + " b/" + v;
    assert s[|u|..] == " b/" + v;
    forall i | 0 <= i < |u|
      ensures !(" b/" <= s[i..])
    {
      assert !(" b/" <= (u + " b")[i..]);
      assert s[..|u| + 2] == u + " b";
      assert i + 3 <= |u| + 2;
      assert s[i..][..3] == (u + " b")[i..][..3];
    }
    FindIs(s, " b/", |u|);
  }

  lemma NoMark(rest: string, n: nat)
    requires !Occurs(" b/", rest) && (rest == "" || rest[|rest| - 1] != '\n')
    ensures var line := "diff --git " + rest + NewlineRun(n);
            && IsHeader(line)
            && HeaderPath(line) == match Find(rest, " ")
                                   case Some(i) => if "a/" <= rest && i >= 2 then rest[..i][2..] else ""
                                   case None => ""
  {
    hide Strip, Find, Occurs, RStripNewlines;
    var line := "diff --git " + rest + NewlineRun(n);
    assert line == GIT + (rest + NewlineRun(n));
    RunDropped(rest, n);
    assert line[|GIT|..] == rest + NewlineRun(n);
    FindOccurs(rest, " b/");
  }

  /** Without one: the `a/` path up to the first blank. */
  lemma OldNameRead(u: string, v: string, n: nat)
    requires ' ' !in u && !Occurs(" b/", "a/" + u + " " + v) && (v == "" || v[|v| - 1] != '\n')
    ensures var line := "diff --git a/" + u + " " + v + NewlineRun(n); IsHeader(line) && HeaderPath(line) == u
  {
    hide Find, Occurs, HeaderPath;
    var rest := "a/" + u + " " + v;
    assert "diff --git a/" + u + " " + v + NewlineRun(n) == "diff --git " + rest + NewlineRun(n);
    NoMark(rest, n);
    assert rest[0] == 'a' && rest[1] == '/' && (forall j :: 2 <= j < |u| + 2 ==> rest[j] == u[j - 2]);
    assert rest[|u| + 2..] == " " + v;
    assert forall j :: 0 <= j < |u| + 2 ==> rest[j..][0] == rest[j];
    FindIs(rest, " ", |u| + 2);
    assert rest[..|u| + 2][2..] == u && "a/" <= rest;
  }

  /** And no path at all when there is no blank or no `a/`. */
  lemma NoNameRead(rest: string, n: nat)
    requires !Occurs(" b/", rest) && (rest == "" || rest[|rest| - 1] != '\n') && (' ' !in rest || !("a/" <= rest))
    ensures var line := "diff --git " + rest + NewlineRun(n); IsHeader(line) && HeaderPath(line) == ""
  {
    hide Occurs, HeaderPath, IsHeader;
    NoMark(rest, n);
    if ' ' !in rest {
      FindNowhere(rest, " ");
    }
  }
}
