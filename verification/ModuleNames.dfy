/** The worklist of `build_writing_core.py` on the dotted text of module names and the text of paths: what is skipped,
    where it starts, and which files stand for a module and its packages. */
module ModuleNames {
  import opened Wrappers
  import opened PyText
  import opened PyTextLaws
  import opened ImportClosure

  // ---------------------------------------------------------------- dotted names

  const SKIPPED: seq<string> := [
    "app.db", "app.controller", "app.adapters", "app.retrieval", "app.structural.adapters", "app.structural.client",
    "app.structural.pool", "app.main", "app.graph", "app.tools.bootstrap", "app.tools.core.tools",
    "app.tools.core.memory", "app.tools.core.lsp_tools", "app.tools.core.codebase_search",
    "app.tools.core.sources_search"
  ]

  const STARTS: seq<string> := [
    "app.writing_host.cli", "app.writing_host.runner", "app.writing_host.loader", "app.tools.writing_registry"
  ]

  lemma TwoParts(b: string)
    ensures Dotted(["app", b]) == "app." + b
  {
    assert ["app", b][1..] == [b];
    assert "app" + "." == "app.";
  }

  lemma ThreeParts(b: string, c: string)
    ensures Dotted(["app", b, c]) == "app." + (b + "." + c)
  {
    assert ["app", b, c][1..] == [b, c] && [b, c][1..] == [c];
    assert Dotted([b, c]) == b + "." + c;
    assert "app" + "." == "app.";
  }

  lemma FourParts(b: string, c: string, d: string)
    ensures Dotted(["app", b, c, d]) == "app." + (b + "." + (c + "." + d))
  {
    assert ["app", b, c, d][1..] == [b, c, d] && [b, c, d][1..] == [c, d] && [c, d][1..] == [d];
    assert Dotted([c, d]) == c + "." + d;
    assert Dotted([b, c, d]) == b + "." + Dotted([c, d]);
    assert "app" + "." == "app.";
  }

  lemma FirstTexts()
    ensures forall i :: 0 <= i < 4 ==> Dotted(SKIP_PREFIXES[i]) == SKIPPED[i]
  {
    hide Dotted;
    TwoParts("db");
    TwoParts("controller");
    TwoParts("adapters");
    TwoParts("retrieval");
  }

  lemma StructuralTexts()
    ensures forall i :: 4 <= i < 7 ==> Dotted(SKIP_PREFIXES[i]) == SKIPPED[i]
  {
    hide Dotted;
    ThreeParts("structural", "adapters");
    ThreeParts("structural", "client");
    ThreeParts("structural", "pool");
  }

  lemma MiddleTexts()
    ensures forall i :: 7 <= i < 10 ==> Dotted(SKIP_PREFIXES[i]) == SKIPPED[i]
  {
    hide Dotted;
    TwoParts("main");
    TwoParts("graph");
    ThreeParts("tools", "bootstrap");
  }

  lemma CoreTexts()
    ensures forall i :: 10 <= i < 12 ==> Dotted(SKIP_PREFIXES[i]) == SKIPPED[i]
  {
    hide Dotted;
    FourParts("tools", "core", "tools");
    FourParts("tools", "core", "memory");
  }

  lemma LastTexts()
    ensures forall i :: 12 <= i < 14 ==> Dotted(SKIP_PREFIXES[i]) == SKIPPED[i]
  {
    hide Dotted;
    FourParts("tools", "core", "lsp_tools");
    FourParts("tools", "core", "codebase_search");
  }

  lemma SourcesText()
    ensures Dotted(SKIP_PREFIXES[14]) == SKIPPED[14]
  {
    hide Dotted;
    FourParts("tools", "core", "sources_search");
  }

  lemma SkippedTexts()
    ensures forall i :: 0 <= i < 15 ==> Dotted(SKIP_PREFIXES[i]) == SKIPPED[i]
  {
    hide Dotted;
    FirstTexts();
    StructuralTexts();
    MiddleTexts();
    CoreTexts();
    LastTexts();
    SourcesText();
  }

  lemma SkippedDotFree(i: nat)
    requires i < 15
    ensures DotFree(SKIP_PREFIXES[i]) && SKIP_PREFIXES[i] != []
  {}

  /** A module is skipped when its dotted name is one of fifteen or starts with one of them and a dot. */
  lemma SkippedOnText(m: Name)
    requires m != [] && DotFree(m)
    ensures Skipped(m) <==>
            exists i :: 0 <= i < |SKIPPED| && (Dotted(m) == SKIPPED[i] || SKIPPED[i] + "." <= Dotted(m))
  {
    hide Dotted;
    SkippedTexts();
    forall i | 0 <= i < |SKIPPED|
      ensures SKIP_PREFIXES[i] <= m <==> Dotted(m) == SKIPPED[i] || SKIPPED[i] + "." <= Dotted(m)
    {
      SkippedDotFree(i);
      SkipTestOnText(SKIP_PREFIXES[i], m);
    }
  }

  /** Only names that start with `app.` are followed. */
  lemma AppOnText(m: Name)
    requires m != [] && DotFree(m)
    ensures IsApp(m) <==> "app." <= Dotted(m)
  {
    assert "app" + "." == "app." && "app." + "" == "app.";
    if |m| == 1 {
      NoDotPrefix("app", m[0]);
    } else {
      FirstPart("app", m[0], "", Dotted(m[1..]));
    }
  }

  lemma HostTexts()
    ensures forall i :: 0 <= i < 3 ==> Dotted(SEEDS[i]) == STARTS[i]
  {
    hide Dotted;
    ThreeParts("writing_host", "cli");
    ThreeParts("writing_host", "runner");
    ThreeParts("writing_host", "loader");
  }

  /** The four modules that the worklist starts with. */
  lemma StartsOnText()
    ensures |SEEDS| == |STARTS| && forall i :: 0 <= i < |STARTS| ==> Dotted(SEEDS[i]) == STARTS[i]
  {
    hide Dotted;
    HostTexts();
    ThreeParts("tools", "writing_registry");
  }

  // ---------------------------------------------------------------- files

  lemma {:induction false} SlashedName(m: Name)
    requires m != [] && DotFree(m)
    ensures Join(m, '/') == ReplaceChar(Dotted(m), '.', '/')
  {
    if |m| == 1 {
    } else {
      SlashedName(m[1..]);
      assert forall i :: 0 <= i < |m[0]| ==> m[0][i] != '.';
    }
  }

  lemma {:induction false} JoinSnoc(path: Path, last: string)
    requires path != []
    ensures Join(path + [last], '/') == Join(path, '/') + "/" + last
  {
    if |path| == 1 {
      assert (path + [last])[1..] == [last];
    } else {
      assert (path + [last])[1..] == path[1..] + [last];
      JoinSnoc(path[1..], last);
    }
  }

  lemma {:induction false} JoinLast(m: Name)
    requires m != []
    ensures Join(AsModule(m), '/') == Join(m, '/') + ".py"
  {
    if |m| == 1 {
    } else {
      JoinLast(m[1..]);
      assert AsModule(m)[1..] == AsModule(m[1..]);
    }
  }

  /** Below the source directory, a module is the file with its name, slashes for dots and `.py`, or the file
      `__init__.py` in the directory of its name; the former when both exist. */
  lemma ResolveOnText(tree: Tree, m: Name, p: Path)
    requires m != [] && DotFree(m)
    ensures Resolve(tree, m) == Some(p) <==>
            p in tree.files && (p == AsModule(m) || (p == m + ["__init__.py"] && AsModule(m) !in tree.files))
    ensures Join(AsModule(m), '/') == ReplaceChar(Dotted(m), '.', '/') + ".py"
    ensures Join(m + ["__init__.py"], '/') == ReplaceChar(Dotted(m), '.', '/') + "/__init__.py"
  {
    hide Dotted, Join, AsModule;
    SlashedName(m);
    JoinLast(m);
    JoinSnoc(m, "__init__.py");
    Assoc(Join(m, '/'), "/", "__init__.py");
  }

  /** Besides its own file, a module brings in the `__init__.py` of every directory from its own up to the topmost one,
      if that file exists and imports nothing at its top level that is skipped. */
  lemma PackageFilesExact(tree: Tree, m: Name, f: Path)
    requires Good(tree, m)
    ensures BringsIn(tree, m, f) <==>
            || Resolve(tree, m) == Some(f)
            || (&& f in tree.files
                && (exists dir: Path :: dir != [] && dir < Resolve(tree, m).value && f == dir + ["__init__.py"])
                && forall n :: n in tree.topImports(f) ==> !Skipped(n))
  {
    hide Skipped, Resolve;
    var path := Resolve(tree, m).value;
    if k :| 1 <= k < |path| && f == InitOf(path, k) {
      assert path[..k] < path;
    }
    if dir: Path :| dir != [] && dir < path && f == dir + ["__init__.py"] {
      assert dir == path[..|dir|];
      assert f == InitOf(path, |dir|);
    }
  }
}
