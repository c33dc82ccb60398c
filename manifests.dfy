// The manifests written after compilation: the `_pb2.py` modules below
// `envoyproto` are grouped by directory, each directory gets an
// `__init__.py` importing its modules under their stems and listing them
// in `__all__`, and a root manifest imports every module.

module Manifests {
  import opened Paths
  import opened Finder
  import opened Seqs
  import opened Endings
  import opened Lines
  import opened Namespaces

  const InitName: string := "__init__.py"

  /** The modules the grouping walk yields. */
  function Artifacts(basedir: string, tree: seq<Entry>): seq<string> {
    Find("_pb2.py", Join(basedir, "envoyproto"), tree)
  }

  /** `os.path.basename(path).removesuffix('_pb2.py')`. */
  function Stem(path: string): string {
    RemoveSuffix(Basename(path), "_pb2.py")
  }

  // ---------------------------------------------------------------------
  // Grouping by directory
  // ---------------------------------------------------------------------

  /** The keys of `modules`, in the order they are first inserted. */
  function Dirs(paths: seq<string>): seq<string>
    decreases |paths|
  {
    if paths == [] then []
    else
      var ds := Dirs(paths[..|paths| - 1]);
      var d := Dirname(paths[|paths| - 1]);
      if d in ds then ds else ds + [d]
  }

  /** `modules[dir]`: the stems of the modules directly in `dir`, in walk
      order. */
  function Stems(paths: seq<string>, dir: string): seq<string> {
    FlatMap(paths, p => if Dirname(p) == dir then [Stem(p)] else [])
  }

  lemma DirsStep(paths: seq<string>, i: nat)
    requires i < |paths|
    ensures Dirs(paths[..i + 1]) ==
      if Dirname(paths[i]) in Dirs(paths[..i]) then Dirs(paths[..i]) else Dirs(paths[..i]) + [Dirname(paths[i])]
  {
    assert paths[..i + 1][..i] == paths[..i];
  }

  lemma StemsStep(paths: seq<string>, i: nat, dir: string)
    requires i < |paths|
    ensures Stems(paths[..i + 1], dir) ==
      Stems(paths[..i], dir) + (if Dirname(paths[i]) == dir then [Stem(paths[i])] else [])
  {
    assert paths[..i + 1][..i] == paths[..i];
  }

  /** A directory is a key exactly when some module lies directly in it. */
  lemma {:induction false} DirsIff(paths: seq<string>, dir: string)
    ensures dir in Dirs(paths) <==> exists p :: p in paths && Dirname(p) == dir
    decreases |paths|
  {
    if paths != [] {
      var n := |paths| - 1;
      DirsIff(paths[..n], dir);
      assert paths == paths[..n] + [paths[n]];
      if dir in Dirs(paths) && dir !in Dirs(paths[..n]) {
        assert Dirname(paths[n]) == dir;
      }
      if exists p :: p in paths && Dirname(p) == dir {
        var p :| p in paths && Dirname(p) == dir;
        if p != paths[n] {
          assert p in paths[..n];
        }
      }
    }
  }

  /** No directory is a key twice. */
  lemma {:induction false} DirsDistinct(paths: seq<string>)
    ensures Distinct(Dirs(paths))
    decreases |paths|
  {
    if paths != [] {
      DirsDistinct(paths[..|paths| - 1]);
    }
  }

  /** A stem is listed for a directory exactly when a module with that stem
      lies directly in it. */
  lemma StemsIff(paths: seq<string>, dir: string, m: string)
    ensures m in Stems(paths, dir) <==> exists p :: p in paths && Dirname(p) == dir && Stem(p) == m
  {
    var f := p => if Dirname(p) == dir then [Stem(p)] else [];
    FlatMapIff(paths, f, m);
    assert forall p :: m in f(p) <==> Dirname(p) == dir && Stem(p) == m;
  }

  /** Every key has at least one module, and nothing else has any. */
  lemma GroupNonEmpty(paths: seq<string>, dir: string)
    ensures Stems(paths, dir) != [] <==> dir in Dirs(paths)
  {
    DirsIff(paths, dir);
    if dir in Dirs(paths) {
      var p :| p in paths && Dirname(p) == dir;
      StemsIff(paths, dir, Stem(p));
    }
    var stems := Stems(paths, dir);
    if stems != [] {
      StemsIff(paths, dir, stems[0]);
    }
  }

  /** The stems of every group, group after group. */
  function AllStems(paths: seq<string>): seq<string> {
    FlatMap(Dirs(paths), d => Stems(paths, d))
  }

  /** The groups partition the walk: every module is listed in exactly one
      group, so there are as many listed stems as modules. */
  lemma {:induction false} AllStemsCount(paths: seq<string>)
    ensures |AllStems(paths)| == |paths|
    decreases |paths|
  {
    if paths != [] {
      var n := |paths| - 1;
      var xs := paths[..n];
      var d0 := Dirname(paths[n]);
      AllStemsCount(xs);
      assert paths[..n + 1] == paths;
      DirsStep(paths, n);
      var f := d => Stems(xs, d);
      var g := d => Stems(paths, d);
      forall d
        ensures g(d) == f(d) + (if d == d0 then [Stem(paths[n])] else [])
      {
        StemsStep(paths, n, d);
      }
      if d0 in Dirs(xs) {
        DirsDistinct(xs);
        FlatMapBump(Dirs(xs), f, g, d0);
      } else {
        GroupNonEmpty(xs, d0);
        FlatMapAgree(Dirs(xs), f, g);
        FlatMapSnoc(Dirs(xs), d0, g);
      }
    }
  }

  /** `modules` has the keys `keys`, and lists each key's stems in
      `paths`. */
  ghost predicate Grouped(paths: seq<string>, keys: seq<string>, modules: map<string, seq<string>>) {
    (forall d :: d in modules <==> d in keys) &&
    (forall d :: d in modules ==> modules[d] == Stems(paths, d))
  }

  lemma StemsSnoc(xs: seq<string>, p: string, dir: string)
    ensures Stems(xs + [p], dir) == Stems(xs, dir) + (if Dirname(p) == dir then [Stem(p)] else [])
  {
    FlatMapSnoc(xs, p, q => if Dirname(q) == dir then [Stem(q)] else []);
  }

  /** One turn of the grouping loop keeps the grouping: a new directory is
      appended to the keys and given an empty list (`modules1`), then the
      module's stem is appended to its directory's list. */
  lemma GroupStep(xs: seq<string>, p: string, keys: seq<string>, modules: map<string, seq<string>>,
                  keys': seq<string>, modules1: map<string, seq<string>>, modules': map<string, seq<string>>)
    requires keys == Dirs(xs) && Grouped(xs, keys, modules)
    requires Dirname(p) in modules ==> keys' == keys && modules1 == modules
    requires Dirname(p) !in modules ==> keys' == keys + [Dirname(p)] && modules1 == modules[Dirname(p) := []]
    requires Dirname(p) in modules1 && modules' == modules1[Dirname(p) := modules1[Dirname(p)] + [Stem(p)]]
    ensures keys' == Dirs(xs + [p]) && Grouped(xs + [p], keys', modules')
  {
    assert (xs + [p])[..|xs|] == xs;
    if Dirname(p) !in modules {
      GroupNonEmpty(xs, Dirname(p));
    }
    forall e | e in modules'
      ensures modules'[e] == Stems(xs + [p], e)
    {
      StemsSnoc(xs, p, e);
    }
  }

  /** The grouping loop: `modules` as a map beside its keys in insertion
      order. A new directory gets an empty list, then the stem is
      appended. */
  method GroupModules(paths: seq<string>) returns (keys: seq<string>, modules: map<string, seq<string>>)
    ensures keys == Dirs(paths)
    ensures forall d :: d in modules <==> d in keys
    ensures forall d :: d in modules ==> modules[d] == Stems(paths, d)
  {
    keys := [];
    modules := map[];
    var i := 0;
    while i < |paths|
      invariant 0 <= i <= |paths|
      invariant keys == Dirs(paths[..i])
      invariant Grouped(paths[..i], keys, modules)
    {
      var path := paths[i];
      var modulepath := Dirname(path);
      ghost var keys0, modules0 := keys, modules;
      if modulepath !in modules {
        keys := keys + [modulepath];
        modules := modules[modulepath := []];
      }
      ghost var modules1 := modules;
      modules := modules[modulepath := modules[modulepath] + [Stem(path)]];
      GroupStep(paths[..i], path, keys0, modules0, keys, modules1, modules);
      PrefixSnoc(paths, i);
      i := i + 1;
    }
    assert paths[..i] == paths;
  }

  // ---------------------------------------------------------------------
  // Dotted package names
  // ---------------------------------------------------------------------

  /** `path.removeprefix(basedir + os.path.sep).replace(os.path.sep, '.')`. */
  function Fq(basedir: string, dir: string): string {
    DotsForSeps(RemovePrefix(dir, basedir + [Sep]))
  }

  /** A directory joined below the base directory is named by its relative
      path with dots for separators. */
  lemma FqOfJoin(basedir: string, rel: string)
    requires rel != [] && rel[0] != Sep
    requires basedir == [] || basedir[|basedir| - 1] != Sep
    ensures Fq(basedir, Join(basedir, rel)) == DotsForSeps(rel)
  {
    if basedir == [] {
      assert !StartsWith(rel, [Sep]);
    } else {
      JoinAddsSep(basedir, rel);
      PrefixOfConcat(basedir + [Sep], rel);
    }
  }

  lemma FqNoNewline(basedir: string, dir: string)
    requires '\n' !in dir
    ensures '\n' !in Fq(basedir, dir)
  {
    var r := RemovePrefix(dir, basedir + [Sep]);
    assert '\n' !in r by {
      if StartsWith(dir, basedir + [Sep]) {
        assert dir == basedir + [Sep] + r;
      }
    }
    var f := Fq(basedir, dir);
    forall i | 0 <= i < |f|
      ensures f[i] != '\n'
    {
      assert r[i] in r;
    }
  }

  lemma DirnameNoNewline(p: string)
    requires '\n' !in p
    ensures '\n' !in Dirname(p)
  {
    var d := Dirname(p);
    assert d == p[..|d|];
    forall i | 0 <= i < |d|
      ensures d[i] != '\n'
    {
      assert p[i] in p;
    }
  }

  lemma StemNoNewline(p: string)
    requires '\n' !in p
    ensures '\n' !in Stem(p)
  {
    var b := Basename(p);
    assert b == p[|p| - |b|..];
    assert '\n' !in b by {
      forall i | 0 <= i < |b|
        ensures b[i] != '\n'
      {
        assert p[|p| - |b| + i] in p;
      }
    }
    var s := Stem(p);
    if EndsWith(b, "_pb2.py") {
      assert b == s + "_pb2.py";
    }
  }

  // ---------------------------------------------------------------------
  // The per-directory manifest
  // ---------------------------------------------------------------------

  /** `f"import {fq}.{module}_pb2 as {module}\n"`. */
  function ImportAs(fq: string, m: string): string {
    ("import " + fq + "." + m + "_pb2 as " + m) + "\n"
  }

  /** `sep.join(xs)`. */
  function JoinStrings(sep: string, xs: seq<string>): string
    decreases |xs|
  {
    if xs == [] then []
    else if |xs| == 1 then xs[0]
    else xs[0] + sep + JoinStrings(sep, xs[1..])
  }

  /** `"__all__ = ['" + "', '".join(protos) + "']\n"`. */
  function AllLine(stems: seq<string>): string {
    ("__all__ = ['" + JoinStrings("', '", stems) + "']") + "\n"
  }

  /** Each name in single quotes, as Python writes a string literal
      without quotes or backslashes inside. */
  function Quoted(xs: seq<string>): (r: seq<string>)
    ensures |r| == |xs|
  {
    seq(|xs|, i requires 0 <= i < |xs| => "'" + xs[i] + "'")
  }

  lemma QuoteRegroup(x: string, q: string, c: string, rest: string)
    requires |q| == 1
    ensures q + (x + (q + c + q) + rest) + q == (q + x + q) + c + (q + rest + q)
  {
  }

  lemma {:induction false} QuotedJoin(xs: seq<string>)
    requires xs != []
    ensures "'" + JoinStrings("', '", xs) + "'" == JoinStrings(", ", Quoted(xs))
    decreases |xs|
  {
    if |xs| > 1 {
      QuotedJoin(xs[1..]);
      assert Quoted(xs)[1..] == Quoted(xs[1..]);
      assert "', '" == "'" + ", " + "'";
      QuoteRegroup(xs[0], "'", ", ", JoinStrings("', '", xs[1..]));
    }
  }

  /** The `__all__` line is a Python list literal of the stems. */
  lemma AllLineIsListLiteral(stems: seq<string>)
    requires stems != []
    ensures AllLine(stems) == "__all__ = [" + JoinStrings(", ", Quoted(stems)) + "]\n"
  {
    var j := JoinStrings("', '", stems);
    QuotedJoin(stems);
    assert "__all__ = ['" == "__all__ = [" + "'";
    assert "']" + "\n" == "'" + "]\n";
  }

  lemma {:induction false} JoinNoNewline(sep: string, xs: seq<string>)
    requires '\n' !in sep && forall x :: x in xs ==> '\n' !in x
    ensures '\n' !in JoinStrings(sep, xs)
    decreases |xs|
  {
    if |xs| > 1 {
      JoinNoNewline(sep, xs[1..]);
    }
  }

  /** The import lines of a directory's modules, in order. */
  function ImportLines(fq: string, stems: seq<string>): seq<string> {
    FlatMap(stems, m => [ImportAs(fq, m)])
  }

  /** The lines of a directory's `__init__.py`: one import per module, a
      blank line, then the `__all__` list. */
  function InitLines(fq: string, stems: seq<string>): seq<string> {
    ImportLines(fq, stems) + ["\n", AllLine(stems)]
  }

  function InitText(fq: string, stems: seq<string>): string {
    Concat(InitLines(fq, stems))
  }

  lemma ConcatSnoc(ls: seq<string>, l: string)
    ensures Concat(ls + [l]) == Concat(ls) + l
  {
    ConcatAppend(ls, [l]);
    assert Concat([l]) == l + Concat([]);
  }

  lemma ImportLinesStep(fq: string, stems: seq<string>, j: nat)
    requires j < |stems|
    ensures Concat(ImportLines(fq, stems[..j + 1])) == Concat(ImportLines(fq, stems[..j])) + ImportAs(fq, stems[j])
  {
    assert stems[..j + 1][..j] == stems[..j];
    ConcatSnoc(ImportLines(fq, stems[..j]), ImportAs(fq, stems[j]));
  }

  lemma InitTextSplit(fq: string, stems: seq<string>)
    ensures InitText(fq, stems) == Concat(ImportLines(fq, stems)) + "\n" + AllLine(stems)
  {
    var imports := ImportLines(fq, stems);
    assert InitLines(fq, stems) == imports + ["\n"] + [AllLine(stems)];
    ConcatSnoc(imports + ["\n"], AllLine(stems));
    ConcatSnoc(imports, "\n");
  }

  /** Writing one directory's `__init__.py`. */
  method RenderInit(basedir: string, path: string, protos: seq<string>) returns (text: string)
    ensures text == InitText(Fq(basedir, path), protos)
  {
    text := [];
    var j := 0;
    while j < |protos|
      invariant 0 <= j <= |protos|
      invariant text == Concat(ImportLines(Fq(basedir, path), protos[..j]))
    {
      var fq := Fq(basedir, path);
      ImportLinesStep(fq, protos, j);
      text := text + ImportAs(fq, protos[j]);
      j := j + 1;
    }
    assert protos[..j] == protos;
    InitTextSplit(Fq(basedir, path), protos);
    text := text + "\n";
    text := text + AllLine(protos);
  }

  /** A line body without newline, followed by one, is a terminated line. */
  lemma TerminatedLine(body: string)
    requires '\n' !in body
    ensures Terminated(body + "\n")
  {
    assert (body + "\n")[..|body|] == body;
  }

  lemma {:induction false} LinesOfConcat(ls: seq<string>)
    requires forall i :: 0 <= i < |ls| ==> Terminated(ls[i])
    ensures Lines.Lines(Concat(ls)) == ls
    decreases |ls|
  {
    if ls != [] {
      LinesOfConcat(ls[1..]);
      LinesCons(ls[0], Concat(ls[1..]));
    }
  }

  lemma ImportAsTerminated(fq: string, m: string)
    requires '\n' !in fq && '\n' !in m
    ensures Terminated(ImportAs(fq, m))
  {
    TerminatedLine("import " + fq + "." + m + "_pb2 as " + m);
  }

  /** With no newline in the package name or the stems, the manifest's
      lines are the import lines, a blank line and the `__all__` line. */
  lemma InitTextLines(fq: string, stems: seq<string>)
    requires '\n' !in fq && forall m :: m in stems ==> '\n' !in m
    ensures Lines.Lines(InitText(fq, stems)) == InitLines(fq, stems)
  {
    var ls := InitLines(fq, stems);
    var imports := ImportLines(fq, stems);
    forall i | 0 <= i < |ls|
      ensures Terminated(ls[i])
    {
      if i < |imports| {
        FlatMapIff(stems, m => [ImportAs(fq, m)], ls[i]);
        var m :| m in stems && ls[i] in [ImportAs(fq, m)];
        ImportAsTerminated(fq, m);
      } else if i == |imports| + 1 {
        JoinNoNewline("', '", stems);
        TerminatedLine("__all__ = ['" + JoinStrings("', '", stems) + "']");
      }
    }
    LinesOfConcat(ls);
  }

  // ---------------------------------------------------------------------
  // The root manifest
  // ---------------------------------------------------------------------

  /** `f"import {fq}.{module}_pb2\n"`. */
  function RootImport(fq: string, m: string): string {
    ("import " + fq + "." + m + "_pb2") + "\n"
  }

  function DirImports(fq: string, stems: seq<string>): seq<string>
    decreases |stems|
  {
    if stems == [] then []
    else DirImports(fq, stems[..|stems| - 1]) + [RootImport(fq, stems[|stems| - 1])]
  }

  /** The root manifest's imports for the modules in `dir`. */
  function DirLines(basedir: string, paths: seq<string>, dir: string): seq<string> {
    DirImports(Fq(basedir, dir), Stems(paths, dir))
  }

  /** The root manifest's imports for the directories `ds`, directory
      after directory. */
  function ImportsOver(basedir: string, paths: seq<string>, ds: seq<string>): seq<string>
    decreases |ds|
  {
    if ds == [] then []
    else ImportsOver(basedir, paths, ds[..|ds| - 1]) + DirLines(basedir, paths, ds[|ds| - 1])
  }

  function RootLines(basedir: string, paths: seq<string>): seq<string> {
    ImportsOver(basedir, paths, Dirs(paths))
  }

  function RootText(basedir: string, paths: seq<string>): string {
    Concat(RootLines(basedir, paths))
  }

  lemma {:induction false} DirImportsLength(fq: string, stems: seq<string>)
    ensures |DirImports(fq, stems)| == |stems|
    decreases |stems|
  {
    if stems != [] {
      DirImportsLength(fq, stems[..|stems| - 1]);
    }
  }

  lemma {:induction false} ImportsOverLength(basedir: string, paths: seq<string>, ds: seq<string>)
    ensures |ImportsOver(basedir, paths, ds)| == |FlatMap(ds, d => Stems(paths, d))|
    decreases |ds|
  {
    if ds != [] {
      var d := ds[|ds| - 1];
      ImportsOverLength(basedir, paths, ds[..|ds| - 1]);
      DirImportsLength(Fq(basedir, d), Stems(paths, d));
    }
  }

  /** The root manifest has one import per module. */
  lemma RootLinesCount(basedir: string, paths: seq<string>)
    ensures |RootLines(basedir, paths)| == |paths|
  {
    ImportsOverLength(basedir, paths, Dirs(paths));
    AllStemsCount(paths);
  }

  lemma {:induction false} DirImportsIff(fq: string, stems: seq<string>, line: string)
    ensures line in DirImports(fq, stems) <==> exists m :: m in stems && line == RootImport(fq, m)
    decreases |stems|
  {
    if stems != [] {
      DirImportsIff(fq, stems[..|stems| - 1], line);
      ExistsInSnoc(stems, m => line == RootImport(fq, m));
    }
  }

  lemma ImportsOverLast(basedir: string, paths: seq<string>, ds: seq<string>, line: string)
    requires ds != []
    ensures line in ImportsOver(basedir, paths, ds) <==>
      line in ImportsOver(basedir, paths, ds[..|ds| - 1]) || line in DirLines(basedir, paths, ds[|ds| - 1])
  {
  }

  lemma {:induction false} ImportsOverIff(basedir: string, paths: seq<string>, ds: seq<string>, line: string)
    ensures line in ImportsOver(basedir, paths, ds) <==>
      exists d :: d in ds && line in DirLines(basedir, paths, d)
    decreases |ds|
  {
    if ds != [] {
      ImportsOverIff(basedir, paths, ds[..|ds| - 1], line);
      ImportsOverLast(basedir, paths, ds, line);
      ExistsInSnoc(ds, d => line in DirLines(basedir, paths, d));
    }
  }

  /** A line of the root manifest is exactly the import of some module. */
  lemma RootLinesIff(basedir: string, paths: seq<string>, line: string)
    ensures line in RootLines(basedir, paths) <==>
      exists p :: p in paths && line == RootImport(Fq(basedir, Dirname(p)), Stem(p))
  {
    ImportsOverIff(basedir, paths, Dirs(paths), line);
    if line in RootLines(basedir, paths) {
      var d :| d in Dirs(paths) && line in DirLines(basedir, paths, d);
      DirImportsIff(Fq(basedir, d), Stems(paths, d), line);
      var m :| m in Stems(paths, d) && line == RootImport(Fq(basedir, d), m);
      StemsIff(paths, d, m);
    }
    if exists p :: p in paths && line == RootImport(Fq(basedir, Dirname(p)), Stem(p)) {
      var p :| p in paths && line == RootImport(Fq(basedir, Dirname(p)), Stem(p));
      DirsIff(paths, Dirname(p));
      StemsIff(paths, Dirname(p), Stem(p));
      DirImportsIff(Fq(basedir, Dirname(p)), Stems(paths, Dirname(p)), line);
    }
  }

  lemma RootImportTerminated(basedir: string, p: string)
    requires '\n' !in p
    ensures Terminated(RootImport(Fq(basedir, Dirname(p)), Stem(p)))
  {
    DirnameNoNewline(p);
    FqNoNewline(basedir, Dirname(p));
    StemNoNewline(p);
    TerminatedLine("import " + Fq(basedir, Dirname(p)) + "." + Stem(p) + "_pb2");
  }

  /** With no newline in any module path, the root manifest's lines are its
      imports. */
  lemma RootTextLines(basedir: string, paths: seq<string>)
    requires forall p :: p in paths ==> '\n' !in p
    ensures Lines.Lines(RootText(basedir, paths)) == RootLines(basedir, paths)
  {
    var ls := RootLines(basedir, paths);
    forall i | 0 <= i < |ls|
      ensures Terminated(ls[i])
    {
      RootLinesIff(basedir, paths, ls[i]);
      var p :| p in paths && ls[i] == RootImport(Fq(basedir, Dirname(p)), Stem(p));
      RootImportTerminated(basedir, p);
    }
    LinesOfConcat(ls);
  }

  lemma DirImportsStep(fq: string, stems: seq<string>, j: nat)
    requires j < |stems|
    ensures Concat(DirImports(fq, stems[..j + 1])) == Concat(DirImports(fq, stems[..j])) + RootImport(fq, stems[j])
  {
    assert stems[..j + 1][..j] == stems[..j];
    assert DirImports(fq, stems[..j + 1]) == DirImports(fq, stems[..j]) + [RootImport(fq, stems[j])];
    ConcatSnoc(DirImports(fq, stems[..j]), RootImport(fq, stems[j]));
  }

  lemma ImportsOverStep(basedir: string, paths: seq<string>, ds: seq<string>, i: nat)
    requires i < |ds|
    ensures Concat(ImportsOver(basedir, paths, ds[..i + 1])) ==
      Concat(ImportsOver(basedir, paths, ds[..i])) + Concat(DirImports(Fq(basedir, ds[i]), Stems(paths, ds[i])))
  {
    assert ds[..i + 1][..i] == ds[..i];
    ConcatAppend(ImportsOver(basedir, paths, ds[..i]), DirImports(Fq(basedir, ds[i]), Stems(paths, ds[i])));
  }

  /** The imports of one directory's modules, appended to `text`. */
  method RenderDirImports(basedir: string, path: string, protos: seq<string>, text: string)
    returns (out: string)
    ensures out == text + Concat(DirImports(Fq(basedir, path), protos))
  {
    out := text;
    var j := 0;
    while j < |protos|
      invariant 0 <= j <= |protos|
      invariant out == text + Concat(DirImports(Fq(basedir, path), protos[..j]))
    {
      var fq := Fq(basedir, path);
      DirImportsStep(fq, protos, j);
      out := out + RootImport(fq, protos[j]);
      j := j + 1;
    }
    assert protos[..j] == protos;
  }

  /** Writing the root manifest: the nested loop over the groups in key
      order and the stems of each. */
  method RenderRoot(basedir: string, keys: seq<string>, modules: map<string, seq<string>>, ghost paths: seq<string>)
    returns (text: string)
    requires forall d :: d in keys ==> d in modules && modules[d] == Stems(paths, d)
    ensures text == Concat(ImportsOver(basedir, paths, keys))
  {
    text := [];
    var i := 0;
    while i < |keys|
      invariant 0 <= i <= |keys|
      invariant text == Concat(ImportsOver(basedir, paths, keys[..i]))
    {
      ImportsOverStep(basedir, paths, keys, i);
      text := RenderDirImports(basedir, keys[i], modules[keys[i]], text);
      i := i + 1;
    }
    assert keys[..i] == keys;
  }

  // ---------------------------------------------------------------------
  // The writes
  // ---------------------------------------------------------------------

  /** `os.path.join(basedir, 'envoyproto', '__init__.py')`. */
  function RootManifestPath(basedir: string): string {
    Join(Join(basedir, "envoyproto"), InitName)
  }

  function InitWrite(basedir: string, paths: seq<string>, dir: string): Write {
    Write(Join(dir, InitName), InitText(Fq(basedir, dir), Stems(paths, dir)))
  }

  function InitWrites(basedir: string, paths: seq<string>, ds: seq<string>): seq<Write> {
    FlatMap(ds, d => [InitWrite(basedir, paths, d)])
  }

  /** Everything the manifest step writes, in order: one `__init__.py` per
      directory in key order, then the root manifest. */
  function ManifestWrites(basedir: string, paths: seq<string>): seq<Write> {
    InitWrites(basedir, paths, Dirs(paths)) + [Write(RootManifestPath(basedir), RootText(basedir, paths))]
  }

  lemma InitWritesStep(basedir: string, paths: seq<string>, ds: seq<string>, i: nat)
    requires i < |ds|
    ensures InitWrites(basedir, paths, ds[..i + 1]) == InitWrites(basedir, paths, ds[..i]) + [InitWrite(basedir, paths, ds[i])]
  {
    assert ds[..i + 1][..i] == ds[..i];
  }

  /** The manifest step: grouping, one `__init__.py` per group, then the
      root manifest. */
  method WriteManifests(basedir: string, tree: seq<Entry>) returns (writes: seq<Write>)
    ensures writes == ManifestWrites(basedir, Artifacts(basedir, tree))
  {
    var paths := Artifacts(basedir, tree);
    var keys, modules := GroupModules(paths);
    writes := [];
    var i := 0;
    while i < |keys|
      invariant 0 <= i <= |keys|
      invariant writes == InitWrites(basedir, paths, keys[..i])
    {
      var path := keys[i];
      var text := RenderInit(basedir, path, modules[path]);
      InitWritesStep(basedir, paths, keys, i);
      writes := writes + [Write(Join(path, InitName), text)];
      i := i + 1;
    }
    assert keys[..i] == keys;
    var root := RenderRoot(basedir, keys, modules, paths);
    writes := writes + [Write(RootManifestPath(basedir), root)];
  }
}
