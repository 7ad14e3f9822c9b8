/** `_imported_app_files` of `build_writing_core.py`: the files of all modules that the seeds import, over
    an arbitrary finite source tree. A module name is the list of its dotted components, a path the list of
    its parts below the runtime directory. */
module ImportClosure {
  import opened Wrappers

  type Name = seq<string>
  type Path = seq<string>

  /** The source tree: which files exist, the names a file imports anywhere (resolved against the module
      that it is), and the names it imports at its top level. */
  datatype Tree = Tree(files: set<Path>, imports: (Path, Name) -> seq<Name>, topImports: Path -> seq<Name>)

  const SKIP_PREFIXES: seq<Name> := [
    ["app", "db"], ["app", "controller"], ["app", "adapters"], ["app", "retrieval"],
    ["app", "structural", "adapters"], ["app", "structural", "client"], ["app", "structural", "pool"],
    ["app", "main"], ["app", "graph"], ["app", "tools", "bootstrap"], ["app", "tools", "core", "tools"],
    ["app", "tools", "core", "memory"], ["app", "tools", "core", "lsp_tools"],
    ["app", "tools", "core", "codebase_search"], ["app", "tools", "core", "sources_search"]
  ]

  const SEEDS: seq<Name> := [
    ["app", "writing_host", "cli"], ["app", "writing_host", "runner"], ["app", "writing_host", "loader"],
    ["app", "tools", "writing_registry"]
  ]

  const INIT: string := "__init__.py"

  // ---------------------------------------------------------------- names

  /** `_skipped`: the name of a skipped package or of something inside one. */
  predicate Skipped(m: Name) {
    exists i :: 0 <= i < |SKIP_PREFIXES| && SKIP_PREFIXES[i] <= m
  }

  /** `module.startswith("app.")` */
  predicate IsApp(m: Name) {
    |m| >= 2 && m[0] == "app"
  }

  /** `_resolve_module`: the module's own file, else its package file. */
  function Resolve(tree: Tree, m: Name): Option<Path> {
    if m == [] then None
    else if AsModule(m) in tree.files then Some(AsModule(m))
    else if m + [INIT] in tree.files then Some(m + [INIT])
    else None
  }

  function AsModule(m: Name): Path
    requires m != []
  {
    m[..|m| - 1] + [m[|m| - 1] + ".py"]
  }

  predicate InitIsSafe(tree: Tree, init: Path) {
    forall i :: 0 <= i < |tree.topImports(init)| ==> !Skipped(tree.topImports(init)[i])
  }

  /** Skipping is inherited by everything inside a package. */
  lemma SkippedInherited(package: Name, m: Name)
    requires package <= m && Skipped(package)
    ensures Skipped(m)
  {}

  // ---------------------------------------------------------------- names as text

  /** The dotted text of a name. */
  function Dotted(m: Name): string {
    if m == [] then "" else if |m| == 1 then m[0] else m[0] + "." + Dotted(m[1..])
  }

  predicate DotFree(m: Name) {
    forall i :: 0 <= i < |m| ==> '.' !in m[i]
  }

  lemma PrefixCancel(h: string, x: string, y: string)
    ensures h + x <= h + y <==> x <= y
  {
    var s, t := h + x, h + y;
    assert s[|h|..] == x && t[|h|..] == y;
    if s <= t {
      assert t[..|s|][|h|..] == x;
      assert y[..|x|] == t[..|s|][|h|..];
    }
    if x <= y {
      assert y == x + y[|x|..];
      assert t == s + y[|x|..];
    }
  }

  lemma SameFirst(a: string, b: string, x: string, y: string)
    requires '.' !in a && '.' !in b && a + "." + x <= b + "." + y
    ensures a == b
  {
    var s, t := a + "." + x, b + "." + y;
    assert s == t[..|s|];
    assert t[|a|] == '.' && t[|b|] == '.';
    forall i | 0 <= i < |a|
      ensures t[i] == a[i] && t[i] != '.'
    {
      assert t[i] == s[i] && a[i] in a;
    }
    forall i | 0 <= i < |b|
      ensures t[i] == b[i] && t[i] != '.'
    {
      assert b[i] in b;
    }
  }

  /** Texts whose first components end at a dot: prefixes go component by component. */
  lemma FirstPart(a: string, b: string, x: string, y: string)
    requires '.' !in a && '.' !in b
    ensures a + "." + x <= b + "." + y <==> a == b && x <= y
    ensures !(a + "." + x <= b)
  {
    if a + "." + x <= b + "." + y {
      SameFirst(a, b, x, y);
    }
    PrefixCancel(a + ".", x, y);
    NoDotPrefix(a, b);
    assert a + "." <= a + "." + x;
  }

  /** The test on the text, `module == prefix or module.startswith(prefix + ".")`, is the test whether the
      prefix's components begin the module's. */
  lemma {:induction false} SkipTestOnText(prefix: Name, m: Name)
    requires DotFree(prefix) && DotFree(m) && prefix != [] && m != []
    ensures Dotted(m) == Dotted(prefix) || Dotted(prefix) + "." <= Dotted(m) <==> prefix <= m
  {
    var p, q := Dotted(prefix), Dotted(m);
    if |prefix| == 1 && |m| == 1 {
      NoDotPrefix(p, q);
      assert prefix == [p] && m == [q];
    } else if |prefix| == 1 {
      FirstPart(prefix[0], m[0], "", Dotted(m[1..]));
      assert p + "." == prefix[0] + "." + "";
      HasDot(m[0], Dotted(m[1..]));
      assert prefix <= m <==> prefix[0] == m[0];
    } else if |m| == 1 {
      FirstPart(prefix[0], m[0], Dotted(prefix[1..]) + ".", "");
      assert p + "." == prefix[0] + "." + (Dotted(prefix[1..]) + ".");
      HasDot(prefix[0], Dotted(prefix[1..]));
    } else {
      var p', q' := Dotted(prefix[1..]), Dotted(m[1..]);
      SkipTestOnText(prefix[1..], m[1..]);
      FirstPart(prefix[0], m[0], p' + ".", q');
      assert p + "." == prefix[0] + "." + (p' + ".");
      FirstPart(prefix[0], m[0], p', q');
      FirstPart(m[0], prefix[0], q', p');
      assert p == q <==> p <= q && q <= p;
      assert p' == q' <==> p' <= q' && q' <= p';
      assert prefix == [prefix[0]] + prefix[1..] && m == [m[0]] + m[1..];
      assert prefix <= m <==> prefix[0] == m[0] && prefix[1..] <= m[1..];
    }
  }

  lemma NoDotPrefix(p: string, q: string)
    requires '.' !in q
    ensures !(p + "." <= q)
  {
    assert (p + ".")[|p|] == '.';
  }

  lemma HasDot(a: string, x: string)
    ensures '.' in a + "." + x
  {}

  // ---------------------------------------------------------------- reachability

  /** A module that is collected when it is reached. */
  predicate Good(tree: Tree, m: Name) {
    !Skipped(m) && IsApp(m) && Resolve(tree, m).Some?
  }

  function Imports(tree: Tree, m: Name): seq<Name>
    requires Good(tree, m)
  {
    tree.imports(Resolve(tree, m).value, m)
  }

  /** A chain of imports from a seed, through collected modules only. */
  predicate IsChain(tree: Tree, chain: seq<Name>) {
    && chain != [] && chain[0] in SEEDS
    && (forall i :: 0 <= i < |chain| ==> Good(tree, chain[i]))
    && forall i :: 0 < i < |chain| ==> chain[i] in Imports(tree, chain[i - 1])
  }

  ghost predicate Reachable(tree: Tree, m: Name) {
    exists chain :: IsChain(tree, chain) && chain[|chain| - 1] == m
  }

  lemma SeedReachable(tree: Tree, m: Name)
    requires m in SEEDS && Good(tree, m)
    ensures Reachable(tree, m)
  {
    assert IsChain(tree, [m]);
    assert [m][|[m]| - 1] == m;
  }

  lemma ImportReachable(tree: Tree, m: Name, n: Name)
    requires Reachable(tree, m) && Good(tree, m) && n in Imports(tree, m) && Good(tree, n)
    ensures Reachable(tree, n)
  {
    hide Good;
    var chain :| IsChain(tree, chain) && chain[|chain| - 1] == m;
    var longer := chain + [n];
    assert forall i :: 0 <= i < |chain| ==> longer[i] == chain[i];
    assert IsChain(tree, longer);
    assert longer[|longer| - 1] == n;
  }

  /** A set that holds the seeds and everything its members import holds every reachable module. */
  ghost predicate Closed(tree: Tree, s: set<Name>) {
    && (forall m :: m in SEEDS && Good(tree, m) ==> m in s)
    && (forall m :: m in s ==> Good(tree, m))
    && (forall m, n :: m in s && n in Imports(tree, m) && Good(tree, n) ==> n in s)
  }

  lemma {:induction false} ChainInside(tree: Tree, s: set<Name>, chain: seq<Name>)
    requires Closed(tree, s) && IsChain(tree, chain)
    ensures chain[|chain| - 1] in s
    decreases |chain|
  {
    hide Good;
    var n := |chain| - 1;
    if n > 0 {
      var front := chain[..n];
      assert forall i :: 0 <= i < n ==> front[i] == chain[i];
      assert IsChain(tree, front);
      ChainInside(tree, s, front);
      assert chain[n] in Imports(tree, chain[n - 1]);
    }
  }

  // ---------------------------------------------------------------- files

  function InitOf(path: Path, k: nat): Path
    requires k < |path|
  {
    path[..k] + [INIT]
  }

  /** The package file of a directory on the way from `path` up to `app`, if it exists and is safe. */
  predicate IsSafeInit(tree: Tree, path: Path, f: Path) {
    exists k :: 1 <= k < |path| && f == InitOf(path, k) && f in tree.files && InitIsSafe(tree, f)
  }

  /** The files that a module brings in. */
  predicate BringsIn(tree: Tree, m: Name, f: Path)
    requires Good(tree, m)
  {
    f == Resolve(tree, m).value || IsSafeInit(tree, Resolve(tree, m).value, f)
  }

  /** The walk over the parents of a module's file. */
  method AddInits(tree: Tree, path: Path, files: seq<Path>) returns (files': seq<Path>)
    ensures files <= files'
    ensures forall f :: f in files' <==> f in files || IsSafeInit(tree, path, f)
  {
    hide InitIsSafe;
    files' := files;
    var k := |path|;
    while k > 1
      invariant 0 <= k <= |path|
      invariant files <= files'
      invariant forall f :: f in files' <==>
                  f in files ||
                  exists j :: k <= j < |path| && 1 <= j && f == InitOf(path, j) && f in tree.files &&
                    InitIsSafe(tree, f)
    {
      k := k - 1;
      var init := InitOf(path, k);
      if init in tree.files && init !in files' && InitIsSafe(tree, init) {
        files' := files' + [init];
      }
    }
  }

  /** The names of the modules that the files can be; every resolvable name is among them. */
  function Modules(tree: Tree): set<Name> {
    (set f | f in tree.files && f != [] && |f[|f| - 1]| >= 3 :: f[..|f| - 1] + [f[|f| - 1][..|f[|f| - 1]| - 3]]) +
    (set f | f in tree.files && f != [] :: f[..|f| - 1])
  }

  lemma ResolvableIsModule(tree: Tree, m: Name)
    requires Resolve(tree, m).Some?
    ensures m in Modules(tree)
  {
    var f := Resolve(tree, m).value;
    if f == AsModule(m) {
      var last := m[|m| - 1];
      assert f[|f| - 1][..|f[|f| - 1]| - 3] == last;
      assert f[..|f| - 1] + [last] == m;
    } else {
      assert f[..|f| - 1] == m;
    }
  }

  // ---------------------------------------------------------------- the worklist

  /** The names that a module pushes: imported, in `app`, not seen and not skipped. */
  method Pushed(names: seq<Name>, seen: set<Name>, queue: seq<Name>) returns (queue': seq<Name>)
    ensures queue <= queue'
    ensures forall n :: n in queue' <==> n in queue || (n in names && IsApp(n) && n !in seen && !Skipped(n))
  {
    hide Skipped, IsApp;
    queue' := queue;
    for i := 0 to |names|
      invariant queue <= queue'
      invariant forall n :: n in queue' <==> n in queue || (n in names[..i] && IsApp(n) && n !in seen && !Skipped(n))
    {
      assert names[..i + 1] == names[..i] + [names[i]];
      if IsApp(names[i]) && names[i] !in seen && !Skipped(names[i]) {
        queue' := queue' + [names[i]];
      }
    }
    assert names[..|names|] == names;
  }

  /** What holds before every round: everything seen or waiting is reachable, and every seed and every
      import of a seen module is seen or waiting. */
  ghost predicate Invariant(tree: Tree, seen: set<Name>, queue: seq<Name>) {
    && (forall m :: m in seen ==> Good(tree, m) && Reachable(tree, m))
    && (forall m :: m in queue && Good(tree, m) ==> Reachable(tree, m))
    && (forall m :: m in SEEDS && Good(tree, m) ==> m in seen || m in queue)
    && (forall m, n :: m in seen && n in Imports(tree, m) && Good(tree, n) ==> n in seen || n in queue)
  }

  lemma StartInvariant(tree: Tree)
    ensures Invariant(tree, {}, SEEDS)
  {
    hide Good;
    forall m | m in SEEDS && Good(tree, m)
      ensures Reachable(tree, m)
    {
      SeedReachable(tree, m);
    }
  }

  /** Dropping a name that is seen already or not collected keeps the invariant. */
  lemma SkipKeeps(tree: Tree, seen: set<Name>, queue: seq<Name>)
    requires Invariant(tree, seen, queue) && queue != []
    requires queue[|queue| - 1] in seen || !Good(tree, queue[|queue| - 1])
    ensures Invariant(tree, seen, queue[..|queue| - 1])
  {
    hide Good, Reachable;
    var m, rest := queue[|queue| - 1], queue[..|queue| - 1];
    assert queue == rest + [m];
  }

  /** Seeing a module and pushing its imports keeps the invariant. */
  lemma SeeKeeps(tree: Tree, seen: set<Name>, queue: seq<Name>, queue': seq<Name>)
    requires Invariant(tree, seen, queue) && queue != [] && Good(tree, queue[|queue| - 1])
    requires var m := queue[|queue| - 1];
             forall n :: n in queue' <==>
               n in queue[..|queue| - 1] || (n in Imports(tree, m) && IsApp(n) && n !in seen + {m} && !Skipped(n))
    ensures Invariant(tree, seen + {queue[|queue| - 1]}, queue')
  {
    hide Reachable, Skipped, Resolve;
    var m, rest := queue[|queue| - 1], queue[..|queue| - 1];
    assert queue == rest + [m];
    forall n | n in queue' && Good(tree, n)
      ensures Reachable(tree, n)
    {
      if n !in rest {
        ImportReachable(tree, m, n);
      }
    }
  }

  /** When the worklist is empty, exactly the reachable modules have been seen. */
  lemma EmptyMeansExact(tree: Tree, seen: set<Name>)
    requires Invariant(tree, seen, [])
    ensures forall m :: m in seen <==> Reachable(tree, m)
  {
    hide Good;
    assert Closed(tree, seen);
    forall m | Reachable(tree, m)
      ensures m in seen
    {
      var chain :| IsChain(tree, chain) && chain[|chain| - 1] == m;
      ChainInside(tree, seen, chain);
    }
  }

  /** `_imported_app_files`: it terminates on every tree, cycles and unresolvable names included; the
      modules seen are exactly the reachable ones, and the files exactly those that they bring in. */
  method ImportedAppFiles(tree: Tree) returns (seen: set<Name>, files: seq<Path>)
    ensures forall m :: m in seen <==> Reachable(tree, m)
    ensures forall m :: m in seen ==> Good(tree, m)
    ensures forall f :: f in files <==> exists m :: m in seen && BringsIn(tree, m, f)
  {
    hide Reachable, Skipped, IsApp, Modules, IsSafeInit, Resolve, IsChain;
    var queue := SEEDS;
    seen, files := {}, [];
    StartInvariant(tree);
    while queue != []
      invariant Invariant(tree, seen, queue)
      invariant forall f :: f in files <==> exists m :: m in seen && BringsIn(tree, m, f)
      decreases Modules(tree) - seen, |queue|
    {
      var m := queue[|queue| - 1];
      if m in seen || Skipped(m) || !IsApp(m) || Resolve(tree, m) == None {
        SkipKeeps(tree, seen, queue);
        queue := queue[..|queue| - 1];
        continue;
      }
      ghost var before, waiting := seen, queue;
      var path := Resolve(tree, m).value;
      ResolvableIsModule(tree, m);
      queue := queue[..|queue| - 1];
      seen := seen + {m};
      var more := files + [path];
      FilesGrow(tree, before, m, files);
      files := AddInits(tree, path, more);
      queue := Pushed(tree.imports(path, m), seen, queue);
      SeeKeeps(tree, before, waiting, queue);
    }
    EmptyMeansExact(tree, seen);
  }

  lemma FilesGrow(tree: Tree, seen: set<Name>, m: Name, files: seq<Path>)
    requires Good(tree, m) && forall n :: n in seen ==> Good(tree, n)
    requires forall f :: f in files <==> exists n :: n in seen && BringsIn(tree, n, f)
    ensures forall f :: (exists n :: n in seen + {m} && BringsIn(tree, n, f)) <==> f in files || BringsIn(tree, m, f)
  {}

  // ---------------------------------------------------------------- nothing skipped is collected

  /** The package or module that a collected file belongs to, given the module that brought it in. */
  lemma NothingSkipped(tree: Tree, m: Name, f: Path)
    requires Good(tree, m) && BringsIn(tree, m, f)
    ensures f == AsModule(m) || exists k :: 1 <= k <= |m| && f == m[..k] + [INIT]
    ensures forall k :: 1 <= k <= |m| ==> !Skipped(m[..k])
    ensures f != Resolve(tree, m).value ==> InitIsSafe(tree, f)
  {
    hide Skipped, InitIsSafe;
    var path := Resolve(tree, m).value;
    forall k | 1 <= k <= |m|
      ensures !Skipped(m[..k])
    {
      if Skipped(m[..k]) {
        SkippedInherited(m[..k], m);
      }
    }
    if f != path {
      var k :| 1 <= k < |path| && f == InitOf(path, k) && f in tree.files && InitIsSafe(tree, f);
      assert path[..k] == m[..k];
    } else if f != AsModule(m) {
      assert m[..|m|] == m;
    }
  }
}
