// The namespace-rewrite phase: every `.proto` file found below each
// namespace root, and admitted by that root's subtree list, is rewritten
// line by line into the unified `envoyproto` tree.

module Namespaces {
  import opened Paths
  import opened Finder
  import opened Selector
  import opened Lines
  import opened Seqs

  /** A namespace root: the directory (ending in a separator) whose files
      are copied, and the subtrees of it that are taken. */
  datatype NamespaceRoot = NamespaceRoot(dir: string, subtrees: seq<string>)

  /** One file written: its path and its whole text. */
  datatype Write = Write(path: string, text: string)

  /** The libraries below `protobuf-libs`, each with the subtrees taken
      from it. */
  const Libraries: seq<(string, seq<string>)> := [
    ("envoy", ["."]),
    ("xds", ["."]),
    ("prometheus-client-model", ["."]),
    ("protoc-gen-validate", ["validate"]),
    ("googleapis", ["google/api", "google/logging", "google/longrunning", "google/rpc"]),
    ("opentelemetry", ["."]),
    ("opencensus/src", ["."]),
    ("cel/proto", ["cel/expr"])]

  /** `(os.path.join(basedir, 'protobuf-libs', d) + os.path.sep, subtrees)`. */
  function RootOf(basedir: string, lib: (string, seq<string>)): NamespaceRoot {
    NamespaceRoot(Join(Join(basedir, "protobuf-libs"), lib.0) + [Sep], lib.1)
  }

  function Roots(basedir: string): seq<NamespaceRoot> {
    seq(|Libraries|, i requires 0 <= i < |Libraries| => RootOf(basedir, Libraries[i]))
  }

  /** Every configured root directory ends in a separator, so a found path
      is the root directory followed by a relative path. */
  lemma RootsEndInSep(basedir: string)
    ensures |Roots(basedir)| == 8
    ensures forall r :: r in Roots(basedir) ==> r.dir != [] && r.dir[|r.dir| - 1] == Sep
  {
  }

  /** The `.proto` files the walk of a root yields. */
  function Found(root: NamespaceRoot, tree: seq<Entry>): seq<string> {
    Find(".proto", root.dir, tree)
  }

  /** The write for one found file: none when its subtree is not taken. */
  function WriteFor(basedir: string, root: NamespaceRoot, p: string, contents: string -> string): seq<Write>
  {
    if Admits(root.subtrees, Subdir(root.dir, p))
    then [Write(OutputPath(basedir, root.dir, p), RewriteText(contents(p)))]
    else []
  }

  /** The writes for the files `paths` of one root, in order. */
  function RootWrites(basedir: string, root: NamespaceRoot, paths: seq<string>, contents: string -> string): seq<Write> {
    FlatMap(paths, p => WriteFor(basedir, root, p, contents))
  }

  /** The files the walk of each root yields. */
  function FoundAll(roots: seq<NamespaceRoot>, trees: seq<seq<Entry>>): (r: seq<seq<string>>)
    requires |roots| == |trees|
    ensures |r| == |roots|
  {
    seq(|roots|, i requires 0 <= i < |roots| => Found(roots[i], trees[i]))
  }

  /** The writes of each root, given the files each root's walk yields. */
  function PerRoot(basedir: string, roots: seq<NamespaceRoot>, founds: seq<seq<string>>,
                   contents: string -> string): (r: seq<seq<Write>>)
    requires |roots| == |founds|
    ensures |r| == |roots|
  {
    seq(|roots|, i requires 0 <= i < |roots| => RootWrites(basedir, roots[i], founds[i], contents))
  }

  /** Everything the phase writes, root after root. */
  function PhaseWrites(basedir: string, roots: seq<NamespaceRoot>, founds: seq<seq<string>>,
                       contents: string -> string): seq<Write>
    requires |roots| == |founds|
  {
    Flatten(PerRoot(basedir, roots, founds, contents))
  }

  /** `w` is the write of found file `p` of `root`. */
  predicate RewritesFile(basedir: string, root: NamespaceRoot, p: string, contents: string -> string, w: Write) {
    Admits(root.subtrees, Subdir(root.dir, p)) &&
    w == Write(OutputPath(basedir, root.dir, p), RewriteText(contents(p)))
  }

  lemma RootWritesIff(basedir: string, root: NamespaceRoot, paths: seq<string>, contents: string -> string, w: Write)
    ensures w in RootWrites(basedir, root, paths, contents) <==>
      exists p :: p in paths && RewritesFile(basedir, root, p, contents, w)
  {
    var f := p => WriteFor(basedir, root, p, contents);
    FlatMapIff(paths, f, w);
    assert forall p :: w in f(p) <==> RewritesFile(basedir, root, p, contents, w);
  }

  /** A file is written exactly for each found file of a root whose
      subtree is taken; its path is the mapped output path and its text is
      the rewritten text of the file. */
  lemma PhaseWritesIff(basedir: string, roots: seq<NamespaceRoot>, founds: seq<seq<string>>,
                       contents: string -> string, w: Write)
    requires |roots| == |founds|
    ensures w in PhaseWrites(basedir, roots, founds, contents) <==>
      exists i, p :: 0 <= i < |roots| && p in founds[i] && RewritesFile(basedir, roots[i], p, contents, w)
  {
    var per := PerRoot(basedir, roots, founds, contents);
    FlattenIff(per, w);
    forall i | 0 <= i < |roots|
      ensures w in per[i] <==> exists p :: p in founds[i] && RewritesFile(basedir, roots[i], p, contents, w)
    {
      RootWritesIff(basedir, roots[i], founds[i], contents, w);
    }
  }

  /** The paths of `writes`, in order. */
  function WrittenPaths(writes: seq<Write>): (r: seq<string>)
    ensures forall p :: p in r <==> exists w :: w in writes && w.path == p
  {
    if writes == [] then [] else [writes[0].path] + WrittenPaths(writes[1..])
  }

  /** Every file the phase writes is a `.proto` file. */
  lemma PhaseWritesProto(basedir: string, roots: seq<NamespaceRoot>, trees: seq<seq<Entry>>,
                         contents: string -> string, w: Write)
    requires |roots| == |trees|
    requires w in PhaseWrites(basedir, roots, FoundAll(roots, trees), contents)
    ensures EndsWith(w.path, ".proto")
  {
    var per := PerRoot(basedir, roots, FoundAll(roots, trees), contents);
    FlattenIff(per, w);
    var i :| 0 <= i < |roots| && w in per[i];
    PerRootAt(basedir, roots, trees, contents, i);
    RootWritesProto(basedir, roots[i], trees[i], contents, w);
  }

  lemma RootWritesProto(basedir: string, root: NamespaceRoot, tree: seq<Entry>, contents: string -> string, w: Write)
    requires w in RootWrites(basedir, root, Found(root, tree), contents)
    ensures EndsWith(w.path, ".proto")
  {
    RootWritesIff(basedir, root, Found(root, tree), contents, w);
    var p :| p in Found(root, tree) && RewritesFile(basedir, root, p, contents, w);
    assert EndsWith(p, ".proto");
    ProtoOutput(basedir, root, p);
  }

  lemma ProtoOutput(basedir: string, root: NamespaceRoot, p: string)
    requires EndsWith(p, ".proto")
    ensures EndsWith(OutputPath(basedir, root.dir, p), ".proto")
  {
    OutputPathKeepsSuffix(basedir, root.dir, p, ".proto");
  }

  lemma RootWritesStep(basedir: string, root: NamespaceRoot, found: seq<string>, contents: string -> string, j: nat)
    requires j < |found|
    ensures RootWrites(basedir, root, found[..j + 1], contents) ==
      RootWrites(basedir, root, found[..j], contents) + WriteFor(basedir, root, found[j], contents)
  {
    assert found[..j + 1] == found[..j] + [found[j]];
    FlatMapSnoc(found[..j], found[j], p => WriteFor(basedir, root, p, contents));
  }

  /** One turn of the inner loop: a file outside the taken subtrees is
      skipped, any other is rewritten and written to its output path. */
  method RewriteFound(basedir: string, root: NamespaceRoot, p: string, contents: string -> string)
    returns (written: seq<Write>)
    ensures written == WriteFor(basedir, root, p, contents)
  {
    written := [];
    var subdir := Subdir(root.dir, p);
    if Admits(root.subtrees, subdir) {
      var text := RewriteFile(contents(p));
      written := [Write(OutputPath(basedir, root.dir, p), text)];
    }
  }

  /** The inner loop over the files one root's walk yields: a file outside
      the taken subtrees is skipped, any other is rewritten and written to
      its output path. */
  method RewriteRoot(basedir: string, root: NamespaceRoot, found: seq<string>, contents: string -> string)
    returns (writes: seq<Write>)
    ensures writes == RootWrites(basedir, root, found, contents)
  {
    writes := [];
    var j := 0;
    while j < |found|
      invariant 0 <= j <= |found|
      invariant writes == RootWrites(basedir, root, found[..j], contents)
    {
      RootWritesStep(basedir, root, found, contents, j);
      var written := RewriteFound(basedir, root, found[j], contents);
      writes := writes + written;
      j := j + 1;
    }
    assert found[..j] == found;
  }

  lemma PerRootAt(basedir: string, roots: seq<NamespaceRoot>, trees: seq<seq<Entry>>,
                  contents: string -> string, i: nat)
    requires |roots| == |trees| && i < |roots|
    ensures PerRoot(basedir, roots, FoundAll(roots, trees), contents)[i] ==
      RootWrites(basedir, roots[i], Found(roots[i], trees[i]), contents)
  {
  }

  /** The outer loop of the rewrite phase, over the namespace roots in
      order. */
  method RewriteNamespaces(basedir: string, roots: seq<NamespaceRoot>, trees: seq<seq<Entry>>,
                           contents: string -> string) returns (writes: seq<Write>)
    requires |roots| == |trees|
    ensures writes == PhaseWrites(basedir, roots, FoundAll(roots, trees), contents)
  {
    ghost var per := PerRoot(basedir, roots, FoundAll(roots, trees), contents);
    writes := [];
    var i := 0;
    while i < |roots|
      invariant 0 <= i <= |roots|
      invariant writes == Flatten(per[..i])
    {
      var found := Found(roots[i], trees[i]);
      var rootWrites := RewriteRoot(basedir, roots[i], found, contents);
      PerRootAt(basedir, roots, trees, contents, i);
      FlattenPrefix(per, i);
      writes := writes + rootWrites;
      i := i + 1;
    }
    assert per[..i] == per;
  }

  /** A written file keeps the found file's path below its namespace root,
      and holds one rewritten line per line of the found file. */
  lemma WrittenFile(basedir: string, root: NamespaceRoot, rel: string, contents: string -> string, w: Write)
    requires root.dir != [] && root.dir[|root.dir| - 1] == Sep && RelativePath(rel)
    requires RewritesFile(basedir, root, root.dir + rel, contents, w)
    ensures w.path == Join(Join(basedir, "envoyproto"), rel)
    ensures Lines.Lines(w.text) == MapRewrite(Lines.Lines(contents(root.dir + rel)))
  {
    OutputPathKeepsRelativePath(basedir, root.dir, rel);
    RewriteTextLines(contents(root.dir + rel));
  }

  /** `w` writes the rewritten text of the found file `p` to
      `rel = p[len(root.dir):]` below the output tree, and `p` is
      `root.dir + rel` with `rel` a relative path. */
  predicate WritesFoundFile(basedir: string, root: NamespaceRoot, tree: seq<Entry>,
                            contents: string -> string, p: string, w: Write) {
    p in Found(root, tree) && StartsWith(p, root.dir) && RelativePath(p[|root.dir|..]) &&
    w == Write(Join(Join(basedir, "envoyproto"), p[|root.dir|..]), RewriteText(contents(p)))
  }

  /** A found file of a well-formed listing is `root.dir + rel` and goes to
      `rel` below the output tree. */
  lemma FoundFilePath(basedir: string, root: NamespaceRoot, tree: seq<Entry>, p: string)
    requires root.dir != [] && root.dir[|root.dir| - 1] == Sep && WellFormed(tree)
    requires p in Found(root, tree)
    ensures StartsWith(p, root.dir) && RelativePath(p[|root.dir|..])
    ensures OutputPath(basedir, root.dir, p) == Join(Join(basedir, "envoyproto"), p[|root.dir|..])
  {
    FoundRelative(".proto", root.dir, tree, p);
    OutputPathKeepsRelativePath(basedir, root.dir, p[|root.dir|..]);
  }

  /** A write of one root, for a well-formed listing, is the write of a
      found file. */
  lemma RootWriteAtRelativePath(basedir: string, root: NamespaceRoot, tree: seq<Entry>,
                                contents: string -> string, w: Write)
    requires root.dir != [] && root.dir[|root.dir| - 1] == Sep && WellFormed(tree)
    requires w in RootWrites(basedir, root, Found(root, tree), contents)
    ensures exists p :: WritesFoundFile(basedir, root, tree, contents, p, w)
  {
    RootWritesIff(basedir, root, Found(root, tree), contents, w);
    var p :| p in Found(root, tree) && RewritesFile(basedir, root, p, contents, w);
    FoundFilePath(basedir, root, tree, p);
    assert WritesFoundFile(basedir, root, tree, contents, p, w);
  }

  /** Every write of the rewrite phase, for well-formed listings, is the
      rewritten text of a file some namespace root found at
      `root.dir + rel`, placed at `rel` below the output tree. */
  lemma PhaseWriteAtRelativePath(basedir: string, trees: seq<seq<Entry>>, contents: string -> string, w: Write)
    requires |trees| == |Roots(basedir)| && forall t :: t in trees ==> WellFormed(t)
    requires w in PhaseWrites(basedir, Roots(basedir), FoundAll(Roots(basedir), trees), contents)
    ensures exists i, p :: 0 <= i < |trees| && WritesFoundFile(basedir, Roots(basedir)[i], trees[i], contents, p, w)
  {
    var roots := Roots(basedir);
    var per := PerRoot(basedir, roots, FoundAll(roots, trees), contents);
    FlattenIff(per, w);
    var i :| 0 <= i < |roots| && w in per[i];
    PerRootAt(basedir, roots, trees, contents, i);
    RootsEndInSep(basedir);
    assert roots[i] in roots && trees[i] in trees;
    RootWriteAtRelativePath(basedir, roots[i], trees[i], contents, w);
  }
}
