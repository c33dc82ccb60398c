// The incremental compile step: every file below `envoyproto` whose name
// ends in `proto` is handed to `protoc` unless its `_pb2.py` artifact
// exists and is at least as new as it. A failing `protoc` call aborts the
// build.

module Compile {
  import opened Paths
  import opened Finder
  import opened Seqs

  /** The compiler binary every command runs. */
  const ProtocBinary: string := "/usr/bin/protoc"

  /** The files the compile walk yields: every name ending in `proto`
      below `basedir/envoyproto`. */
  function Sources(basedir: string, tree: seq<Entry>): (r: seq<string>)
    ensures forall p :: p in r ==> EndsWith(p, "proto")
  {
    Find("proto", Join(basedir, "envoyproto"), tree)
  }

  /** `proto_file.removesuffix('.proto') + '_pb2.py'`. */
  function ArtifactPath(src: string): string {
    RemoveSuffix(src, ".proto") + "_pb2.py"
  }

  /** A `.proto` file's artifact replaces the suffix. */
  lemma ArtifactOfProto(stem: string)
    ensures ArtifactPath(stem + ".proto") == stem + "_pb2.py"
  {
    assert (stem + ".proto")[|stem|..] == ".proto";
    assert (stem + ".proto")[..|stem|] == stem;
  }

  /** A source without the `.proto` suffix keeps its whole name. */
  lemma ArtifactWithoutSuffix(src: string)
    requires !EndsWith(src, ".proto")
    ensures ArtifactPath(src) == src + "_pb2.py"
  {
  }

  /** `xproto` and `xproto.proto` are both compiled and share one
      artifact. */
  lemma ArtifactShared(dir: string)
    ensures ArtifactPath(dir + "xproto") == ArtifactPath(dir + "xproto.proto") == dir + "xproto_pb2.py"
  {
    var a := dir + "xproto";
    assert !EndsWith(a, ".proto") by {
      if |a| >= 6 { assert a[|a| - 6..][0] == a[|a| - 6] == 'x'; }
    }
    ArtifactOfProto(dir + "xproto");
    assert dir + "xproto" + ".proto" == dir + "xproto.proto";
    assert dir + "xproto" + "_pb2.py" == dir + "xproto_pb2.py";
  }

  /** A source is fresh when its artifact exists and is not older than it. */
  predicate Fresh(mtimes: map<string, int>, src: string) {
    src in mtimes && ArtifactPath(src) in mtimes && mtimes[ArtifactPath(src)] >= mtimes[src]
  }

  /** An artifact is never itself a `.proto` file. */
  lemma ArtifactNotProto(src: string)
    ensures !EndsWith(ArtifactPath(src), ".proto")
  {
    var a := ArtifactPath(src);
    assert a[|a| - 1] == 'y';
  }

  /** The modification times once every path of `written` has been
      written at time `now`: a written path gets `now`, every other path
      keeps its time. */
  function Touched(mtimes: map<string, int>, written: seq<string>, now: int): (r: map<string, int>)
    ensures forall p :: p in r <==> p in mtimes || p in written
    ensures forall p :: p in written ==> r[p] == now
    ensures forall p :: p in mtimes && p !in written ==> r[p] == mtimes[p]
  {
    map p | p in mtimes.Keys + (set q | q in written) :: if p in written then now else mtimes[p]
  }

  /** A `.proto` file written after every file already present is stale,
      whatever artifact a previous run left for it. */
  lemma WrittenIsStale(mtimes: map<string, int>, written: seq<string>, now: int, src: string)
    requires forall p :: p in mtimes ==> mtimes[p] < now
    requires forall p :: p in written ==> EndsWith(p, ".proto")
    requires src in written
    ensures !Fresh(Touched(mtimes, written, now), src)
  {
    ArtifactNotProto(src);
  }

  /** The `should_build` flag: set, then cleared when the artifact exists
      and its modification time is at least the source's. */
  method ShouldBuild(mtimes: map<string, int>, src: string) returns (build: bool)
    requires src in mtimes
    ensures build <==> !Fresh(mtimes, src)
    ensures ArtifactPath(src) !in mtimes ==> build
    ensures ArtifactPath(src) in mtimes && mtimes[ArtifactPath(src)] == mtimes[src] ==> !build
  {
    build := true;
    var out := ArtifactPath(src);
    if out in mtimes {
      if mtimes[out] >= mtimes[src] {
        build := false;
      }
    }
  }

  /** The sources that are not fresh, in walk order. */
  function Stale(mtimes: map<string, int>, sources: seq<string>): seq<string> {
    FlatMap(sources, src => if Fresh(mtimes, src) then [] else [src])
  }

  lemma StaleIff(mtimes: map<string, int>, sources: seq<string>, src: string)
    ensures src in Stale(mtimes, sources) <==> src in sources && !Fresh(mtimes, src)
  {
    var f := s => if Fresh(mtimes, s) then [] else [s];
    FlatMapIff(sources, f, src);
    assert forall s :: src in f(s) <==> s == src && !Fresh(mtimes, s);
  }

  /** No compiler call at all exactly when every source is fresh. */
  lemma NothingStale(mtimes: map<string, int>, sources: seq<string>)
    ensures Stale(mtimes, sources) == [] <==> forall src :: src in sources ==> Fresh(mtimes, src)
  {
    var stale := Stale(mtimes, sources);
    if stale != [] {
      StaleIff(mtimes, sources, stale[0]);
    }
    if exists src :: src in sources && !Fresh(mtimes, src) {
      var src :| src in sources && !Fresh(mtimes, src);
      StaleIff(mtimes, sources, src);
    }
  }

  /** The command line for one source. */
  function Command(basedir: string, src: string): seq<string> {
    [ProtocBinary, "--python_out=" + basedir, "-I" + basedir, src]
  }

  function Commands(basedir: string, sources: seq<string>): (r: seq<seq<string>>)
    ensures |r| == |sources|
    ensures forall i :: 0 <= i < |sources| ==> r[i] == Command(basedir, sources[i])
  {
    seq(|sources|, i requires 0 <= i < |sources| => Command(basedir, sources[i]))
  }

  lemma CommandsAppend(basedir: string, a: seq<string>, b: seq<string>)
    ensures Commands(basedir, a + b) == Commands(basedir, a) + Commands(basedir, b)
  {
  }

  /** The walk's `i + 1`-th source adds its command when it is stale. */
  lemma StaleCommandsStep(basedir: string, mtimes: map<string, int>, sources: seq<string>, i: nat)
    requires i < |sources|
    ensures Commands(basedir, Stale(mtimes, sources[..i + 1])) ==
      Commands(basedir, Stale(mtimes, sources[..i])) +
      (if Fresh(mtimes, sources[i]) then [] else [Command(basedir, sources[i])])
  {
    assert sources[..i + 1][..i] == sources[..i];
    var add := if Fresh(mtimes, sources[i]) then [] else [sources[i]];
    CommandsAppend(basedir, Stale(mtimes, sources[..i]), add);
  }

  /** The compiler: every call is recorded, and a call fails exactly when
      its command is one of `failing`. What it writes is not modelled. */
  class Protoc {
    var calls: seq<seq<string>>
    const failing: set<seq<string>>

    constructor (failing: set<seq<string>>)
      ensures calls == [] && this.failing == failing
    {
      calls := [];
      this.failing := failing;
    }

    /** `subprocess.check_call`: `ok` is false where the call raises. */
    method CheckCall(cmd: seq<string>) returns (ok: bool)
      modifies this
      ensures calls == old(calls) + [cmd]
      ensures ok <==> cmd !in failing
    {
      calls := calls + [cmd];
      ok := cmd !in failing;
    }
  }

  /** A stale source's command is among the commands of the stale
      sources. */
  lemma StaleCommand(basedir: string, mtimes: map<string, int>, sources: seq<string>, i: nat)
    requires i < |sources| && !Fresh(mtimes, sources[i])
    ensures Command(basedir, sources[i]) in Commands(basedir, Stale(mtimes, sources))
  {
    var stale := Stale(mtimes, sources);
    StaleIff(mtimes, sources, sources[i]);
    var k :| 0 <= k < |stale| && stale[k] == sources[i];
    assert Commands(basedir, stale)[k] == Command(basedir, sources[i]);
  }

  /** `sources[i]` is stale and its call fails, while every stale source
      before it compiles. */
  predicate FirstFailure(basedir: string, mtimes: map<string, int>, sources: seq<string>,
                         failing: set<seq<string>>, i: int) {
    0 <= i < |sources| && !Fresh(mtimes, sources[i]) && Command(basedir, sources[i]) in failing &&
    forall c :: c in Commands(basedir, Stale(mtimes, sources[..i])) ==> c !in failing
  }

  /** At most one source is the first failure, so the loop's failure
      clause fixes where it stopped. */
  lemma FirstFailureUnique(basedir: string, mtimes: map<string, int>, sources: seq<string>,
                           failing: set<seq<string>>, i: int, j: int)
    requires FirstFailure(basedir, mtimes, sources, failing, i)
    requires FirstFailure(basedir, mtimes, sources, failing, j)
    ensures i == j
  {
    if i < j {
      assert sources[..j][i] == sources[i];
      StaleCommand(basedir, mtimes, sources[..j], i);
    } else if j < i {
      assert sources[..i][j] == sources[j];
      StaleCommand(basedir, mtimes, sources[..i], j);
    }
  }

  /** The compile loop over the walk's sources. On success protoc has been
      called once for each stale source, in walk order; on failure the loop
      stopped at the first stale source whose call failed. */
  method CompileSources(basedir: string, sources: seq<string>, mtimes: map<string, int>, protoc: Protoc)
    returns (ok: bool)
    requires forall src :: src in sources ==> src in mtimes
    modifies protoc
    ensures ok <==> forall c :: c in Commands(basedir, Stale(mtimes, sources)) ==> c !in protoc.failing
    ensures ok ==> protoc.calls == old(protoc.calls) + Commands(basedir, Stale(mtimes, sources))
    ensures !ok ==> exists i :: (FirstFailure(basedir, mtimes, sources, protoc.failing, i) &&
      protoc.calls == old(protoc.calls) + Commands(basedir, Stale(mtimes, sources[..i + 1])))
  {
    ok := true;
    var i := 0;
    while i < |sources|
      invariant 0 <= i <= |sources|
      invariant protoc.calls == old(protoc.calls) + Commands(basedir, Stale(mtimes, sources[..i]))
      invariant forall c :: c in Commands(basedir, Stale(mtimes, sources[..i])) ==> c !in protoc.failing
    {
      var src := sources[i];
      StaleCommandsStep(basedir, mtimes, sources, i);
      var build := ShouldBuild(mtimes, src);
      if build {
        ok := protoc.CheckCall(Command(basedir, src));
        if !ok {
          StaleCommand(basedir, mtimes, sources, i);
          assert FirstFailure(basedir, mtimes, sources, protoc.failing, i);
          return;
        }
      }
      i := i + 1;
    }
    assert sources[..i] == sources;
  }

  /** The compile step: the walk below `basedir/envoyproto`, then the
      compile loop over what it yields. */
  method CompileAll(basedir: string, tree: seq<Entry>, mtimes: map<string, int>, protoc: Protoc)
    returns (ok: bool)
    requires forall src :: src in Sources(basedir, tree) ==> src in mtimes
    modifies protoc
    ensures ok <==> forall c :: c in Commands(basedir, Stale(mtimes, Sources(basedir, tree))) ==> c !in protoc.failing
    ensures ok ==> protoc.calls == old(protoc.calls) + Commands(basedir, Stale(mtimes, Sources(basedir, tree)))
    ensures !ok ==> exists i :: (FirstFailure(basedir, mtimes, Sources(basedir, tree), protoc.failing, i) &&
      protoc.calls == old(protoc.calls) + Commands(basedir, Stale(mtimes, Sources(basedir, tree)[..i + 1])))
    ensures (forall src :: src in Sources(basedir, tree) ==> Fresh(mtimes, src)) ==> ok && protoc.calls == old(protoc.calls)
  {
    var sources := Sources(basedir, tree);
    ok := CompileSources(basedir, sources, mtimes, protoc);
    NothingStale(mtimes, sources);
  }

  /** When every source is fresh, the compile loop calls nothing. */
  lemma AllFreshNoCalls(basedir: string, tree: seq<Entry>, mtimes: map<string, int>)
    requires forall src :: src in Sources(basedir, tree) ==> Fresh(mtimes, src)
    ensures Commands(basedir, Stale(mtimes, Sources(basedir, tree))) == []
  {
    NothingStale(mtimes, Sources(basedir, tree));
  }
}
