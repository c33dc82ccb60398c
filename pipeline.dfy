// `compile_protos` as a whole: the namespace rewrite, the incremental
// compile, then the manifests. The file system is read through snapshots
// taken at each phase; the writes of each phase are returned.

module Pipeline {
  import opened Paths
  import opened Finder
  import opened Namespaces
  import opened Compile
  import opened Manifests

  /** What the rewrite phase writes for the listings `trees` of the
      namespace roots. */
  function Rewrites(basedir: string, trees: seq<seq<Entry>>, contents: string -> string): seq<Write>
    requires |trees| == |Roots(basedir)|
  {
    PhaseWrites(basedir, Roots(basedir), FoundAll(Roots(basedir), trees), contents)
  }

  /** The modification times the compile step reads: those of `before`,
      with every file the rewrite phase wrote stamped `now`. */
  function Clock(basedir: string, trees: seq<seq<Entry>>, contents: string -> string,
                 before: map<string, int>, now: int): map<string, int>
    requires |trees| == |Roots(basedir)|
  {
    Touched(before, WrittenPaths(Rewrites(basedir, trees, contents)), now)
  }

  /** Every file the rewrite phase writes is stale for the compile step
      that follows, so a run rebuilds every file it rewrote. */
  lemma RewrittenAreStale(basedir: string, trees: seq<seq<Entry>>, contents: string -> string,
                          before: map<string, int>, now: int, w: Write)
    requires |trees| == |Roots(basedir)|
    requires forall p :: p in before ==> before[p] < now
    requires w in Rewrites(basedir, trees, contents)
    ensures !Fresh(Clock(basedir, trees, contents, before, now), w.path)
  {
    var written := WrittenPaths(Rewrites(basedir, trees, contents));
    forall p | p in written ensures EndsWith(p, ".proto") {
      var v :| v in Rewrites(basedir, trees, contents) && v.path == p;
      PhaseWritesProto(basedir, Roots(basedir), trees, contents, v);
    }
    WrittenIsStale(before, written, now, w.path);
  }

  /** The three phases in order. `trees` are the listings of the namespace
      roots and `contents` the text of each found file; `before` holds the
      modification times of the files present before the run, all earlier
      than the time `now` at which the rewrite phase writes; `compiled` is
      the listing of `basedir/envoyproto` the compile walk sees; `built` is
      the listing the grouping walk sees. A failing compiler call aborts
      the run before any manifest is written. */
  method CompileProtos(basedir: string, trees: seq<seq<Entry>>, contents: string -> string,
                       compiled: seq<Entry>, before: map<string, int>, now: int, built: seq<Entry>, protoc: Protoc)
    returns (rewrites: seq<Write>, ok: bool, manifests: seq<Write>)
    requires |trees| == |Roots(basedir)|
    requires forall p :: p in before ==> before[p] < now
    requires forall src :: src in Sources(basedir, compiled) ==> src in Clock(basedir, trees, contents, before, now)
    modifies protoc
    ensures rewrites == Rewrites(basedir, trees, contents)
    ensures ok <==> forall c :: c in Commands(basedir, Stale(Clock(basedir, trees, contents, before, now), Sources(basedir, compiled))) ==>
      c !in protoc.failing
    ensures ok ==> protoc.calls == old(protoc.calls) + Commands(basedir, Stale(Clock(basedir, trees, contents, before, now), Sources(basedir, compiled)))
    ensures ok ==> forall w :: w in rewrites && w.path in Sources(basedir, compiled) ==> Command(basedir, w.path) in protoc.calls
    ensures !ok ==> exists i :: (FirstFailure(basedir, Clock(basedir, trees, contents, before, now), Sources(basedir, compiled), protoc.failing, i) &&
      protoc.calls == old(protoc.calls) + Commands(basedir, Stale(Clock(basedir, trees, contents, before, now), Sources(basedir, compiled)[..i + 1])))
    ensures ok ==> manifests == ManifestWrites(basedir, Artifacts(basedir, built))
    ensures !ok ==> manifests == []
  {
    rewrites := RewriteNamespaces(basedir, Roots(basedir), trees, contents);
    var mtimes := Touched(before, WrittenPaths(rewrites), now);
    ok := CompileAll(basedir, compiled, mtimes, protoc);
    if !ok {
      return rewrites, ok, [];
    }
    forall w | w in rewrites && w.path in Sources(basedir, compiled)
      ensures Command(basedir, w.path) in protoc.calls
    {
      RewrittenAreStale(basedir, trees, contents, before, now, w);
      var sources := Sources(basedir, compiled);
      var i :| 0 <= i < |sources| && sources[i] == w.path;
      StaleCommand(basedir, mtimes, sources, i);
    }
    manifests := WriteManifests(basedir, built);
  }
}
