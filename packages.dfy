// The package list handed to the packaging tool: the dotted name of every
// directory below `envoyproto` that holds a `_pb2.py` module, each once.

module Packages {
  import opened Paths
  import opened Finder
  import opened Seqs
  import opened Manifests

  datatype Option<T> = None | Some(value: T)

  /** The dotted names of the directories holding the modules `paths`. */
  function PackageSet(basedir: string, paths: seq<string>): set<string> {
    set p | p in paths :: Fq(basedir, Dirname(p))
  }

  lemma PackageSetSnoc(basedir: string, xs: seq<string>, p: string)
    ensures PackageSet(basedir, xs + [p]) == PackageSet(basedir, xs) + {Fq(basedir, Dirname(p))}
  {
  }

  /** The packages are the dotted names of the manifest directories. */
  lemma PackagesAreManifestDirs(basedir: string, paths: seq<string>, name: string)
    ensures name in PackageSet(basedir, paths) <==> exists d :: d in Dirs(paths) && name == Fq(basedir, d)
  {
    if name in PackageSet(basedir, paths) {
      var p :| p in paths && name == Fq(basedir, Dirname(p));
      DirsIff(paths, Dirname(p));
    }
    if exists d :: d in Dirs(paths) && name == Fq(basedir, d) {
      var d :| d in Dirs(paths) && name == Fq(basedir, d);
      DirsIff(paths, d);
    }
  }

  /** The loop adding each module's package to the set. */
  method CollectPackages(basedir: string, paths: seq<string>) returns (found: set<string>)
    ensures found == PackageSet(basedir, paths)
  {
    found := {};
    var i := 0;
    while i < |paths|
      invariant 0 <= i <= |paths|
      invariant found == PackageSet(basedir, paths[..i])
    {
      var path := Dirname(paths[i]);
      var package := Fq(basedir, path);
      PackageSetSnoc(basedir, paths[..i], paths[i]);
      PrefixSnoc(paths, i);
      found := found + {package};
      i := i + 1;
    }
    assert paths[..i] == paths;
  }

  /** `list(s)`: every element once, in an order the model leaves open. */
  method ListOf(s: set<string>) returns (xs: seq<string>)
    ensures forall x :: x in xs <==> x in s
    ensures Distinct(xs)
    ensures |xs| == |s|
  {
    xs := [];
    var rest := s;
    while rest != {}
      invariant forall x :: x in xs || x in rest <==> x in s
      invariant forall x :: x in xs ==> x !in rest
      invariant Distinct(xs)
      invariant |xs| + |rest| == |s|
      decreases |rest|
    {
      var x :| x in rest;
      xs := xs + [x];
      rest := rest - {x};
    }
  }

  /** `find_protobuf_packages`: `tree` is the listing of `basedir/envoyproto`,
      or `None` when that directory does not exist. */
  method FindProtobufPackages(basedir: string, tree: Option<seq<Entry>>) returns (packages: seq<string>)
    ensures tree.None? ==> packages == []
    ensures tree.Some? ==> forall name :: name in packages <==> name in PackageSet(basedir, Artifacts(basedir, tree.value))
    ensures Distinct(packages)
  {
    if tree.None? {
      return [];
    }
    var found := CollectPackages(basedir, Artifacts(basedir, tree.value));
    packages := ListOf(found);
  }
}
