// The subtree selector and output-path mapping of the rewrite phase: which
// files of a namespace root are copied into the unified `envoyproto` tree,
// and where each one goes.

module Selector {
  import opened Paths

  /** The subtree entry that admits every file of a root. */
  const Wildcard: string := "."

  /** Name of the unified output tree below the base directory. */
  const OutputRoot: string := "envoyproto"

  /** The file's directory relative to its namespace root
      (`os.path.dirname(path[len(namespace):])`). */
  function Subdir(namespace: string, path: string): string {
    Dirname(Drop(path, |namespace|))
  }

  /** The subtree test: the wildcard admits everything; otherwise the file's
      directory must equal a listed subtree or lie below one. */
  predicate Admits(subtrees: seq<string>, subdir: string) {
    Wildcard in subtrees ||
    exists t :: t in subtrees && (StartsWith(subdir, t + [Sep]) || subdir == t)
  }

  /** Where an admitted file is written:
      `join(join(basedir, 'envoyproto', subdir), basename(path))`. */
  function OutputPath(basedir: string, namespace: string, path: string): string {
    Join(Join(Join(basedir, OutputRoot), Subdir(namespace, path)), Basename(path))
  }

  // ---------------------------------------------------------------------
  // Output path: the relative directory and the file name are preserved.
  // ---------------------------------------------------------------------

  lemma {:induction false} LastSepAfterSep(ns: string, rel: string)
    requires ns != [] && ns[|ns| - 1] == Sep
    ensures LastSep(ns + rel) == if LastSep(rel) < 0 then |ns| - 1 else |ns| + LastSep(rel)
    decreases |rel|
  {
    var s := ns + rel;
    if rel == [] {
      assert s == ns;
    } else if rel[|rel| - 1] == Sep {
      assert s[|s| - 1] == Sep;
    } else {
      assert s[..|s| - 1] == ns + rel[..|rel| - 1];
      LastSepAfterSep(ns, rel[..|rel| - 1]);
    }
  }

  lemma SubdirAndBasename(namespace: string, rel: string)
    requires namespace != [] && namespace[|namespace| - 1] == Sep
    ensures Subdir(namespace, namespace + rel) == Dirname(rel)
    ensures Basename(namespace + rel) == Basename(rel)
  {
    var s := namespace + rel;
    assert Drop(s, |namespace|) == rel;
    LastSepAfterSep(namespace, rel);
    var k := LastSep(rel);
    if k < 0 {
      assert Basename(s) == s[|namespace|..];
      assert s[|namespace|..] == rel;
      assert Basename(rel) == rel[0..];
    } else {
      assert Basename(s) == s[|namespace| + k + 1..];
      assert s[|namespace| + k + 1..] == rel[k + 1..];
    }
  }

  lemma OutputRootNoTrailingSep(basedir: string)
    ensures Join(basedir, OutputRoot) != []
    ensures Join(basedir, OutputRoot)[|Join(basedir, OutputRoot)| - 1] != Sep
  {
    var out := Join(basedir, OutputRoot);
    assert EndsWith(out, OutputRoot);
    assert out[|out| - 1] == OutputRoot[|OutputRoot| - 1];
  }

  lemma PlaceUnder(out: string, namespace: string, rel: string)
    requires out != [] && out[|out| - 1] != Sep
    requires namespace != [] && namespace[|namespace| - 1] == Sep
    requires RelativePath(rel)
    ensures Join(Join(out, Subdir(namespace, namespace + rel)), Basename(namespace + rel)) == Join(out, rel)
  {
    SubdirAndBasename(namespace, rel);
    JoinDirnameBasename(out, rel);
  }

  /** A file found at `namespace + rel` is written to
      `basedir/envoyproto/rel`: its directory below the namespace root and
      its name are kept. */
  lemma OutputPathKeepsRelativePath(basedir: string, namespace: string, rel: string)
    requires namespace != [] && namespace[|namespace| - 1] == Sep
    requires RelativePath(rel)
    ensures OutputPath(basedir, namespace, namespace + rel) == Join(Join(basedir, OutputRoot), rel)
  {
    OutputRootNoTrailingSep(basedir);
    PlaceUnder(Join(basedir, OutputRoot), namespace, rel);
  }

  /** An output file keeps the found file's extension. */
  lemma OutputPathKeepsSuffix(basedir: string, namespace: string, path: string, suffix: string)
    requires EndsWith(path, suffix) && Sep !in suffix
    ensures EndsWith(OutputPath(basedir, namespace, path), suffix)
  {
    BasenameKeepsSuffix(path, suffix);
    JoinKeepsSuffix(Join(Join(basedir, OutputRoot), Subdir(namespace, path)), Basename(path), suffix);
  }

  // ---------------------------------------------------------------------
  // Reference: subtree matching over path segments.
  // ---------------------------------------------------------------------

  /** Index of the first separator of `s`, or -1 when there is none. */
  function FirstSep(s: string): (i: int)
    ensures -1 <= i < |s|
    ensures 0 <= i ==> s[i] == Sep
    ensures forall j :: 0 <= j < |s| && (i < 0 || j < i) ==> s[j] != Sep
  {
    if s == [] then -1
    else if s[0] == Sep then 0
    else var k := FirstSep(s[1..]); if k < 0 then -1 else k + 1
  }

  /** `s.split('/')`. */
  function Split(s: string): (r: seq<string>)
    ensures r != []
    decreases |s|
  {
    var i := FirstSep(s);
    if i < 0 then [s] else [s[..i]] + Split(s[i + 1..])
  }

  /** `'/'.join(segs)`. */
  function JoinSegs(segs: seq<string>): string
    requires segs != []
  {
    if |segs| == 1 then segs[0] else segs[0] + [Sep] + JoinSegs(segs[1..])
  }

  /** The segments of `t` are a prefix of the segments of `s`. */
  predicate SegmentPrefix(t: string, s: string) {
    |Split(t)| <= |Split(s)| && Split(s)[..|Split(t)|] == Split(t)
  }

  lemma FirstSepIs(s: string, k: nat)
    requires k < |s| && s[k] == Sep
    requires forall j :: 0 <= j < k ==> s[j] != Sep
    ensures FirstSep(s) == k
  {
  }

  lemma {:induction false} JoinSplit(s: string)
    ensures JoinSegs(Split(s)) == s
    decreases |s|
  {
    var i := FirstSep(s);
    if 0 <= i {
      JoinSplit(s[i + 1..]);
      assert s == s[..i] + [Sep] + s[i + 1..];
    }
  }

  /** Splitting at the first separator. */
  lemma SplitAtFirst(s: string, k: nat)
    requires k < |s| && s[k] == Sep
    requires forall j :: 0 <= j < k ==> s[j] != Sep
    ensures Split(s) == [s[..k]] + Split(s[k + 1..])
  {
    FirstSepIs(s, k);
  }

  lemma SplitJoinedNoSep(a: string, b: string)
    requires FirstSep(a) < 0
    ensures Split(a + [Sep] + b) == Split(a) + Split(b)
  {
    assert Split(a) == [a];
    var s := a + [Sep] + b;
    assert forall j :: 0 <= j < |a| ==> s[j] == a[j];
    assert s[..|a|] == a && s[|a| + 1..] == b;
    SplitAtFirst(s, |a|);
  }

  lemma SplitJoinedSep(a: string, b: string)
    requires 0 <= FirstSep(a)
    ensures Split(a + [Sep] + b) == [a[..FirstSep(a)]] + Split(a[FirstSep(a) + 1..] + [Sep] + b)
    ensures Split(a) == [a[..FirstSep(a)]] + Split(a[FirstSep(a) + 1..])
  {
    var s := a + [Sep] + b;
    var i := FirstSep(a);
    assert forall j :: 0 <= j <= i ==> s[j] == a[j];
    assert s[..i] == a[..i];
    assert s[i + 1..] == a[i + 1..] + [Sep] + b;
    SplitAtFirst(s, i);
  }

  lemma ConsAppend(x: string, rest: seq<string>, tail: seq<string>, whole: seq<string>, left: seq<string>)
    requires whole == [x] + (rest + tail) && left == [x] + rest
    ensures whole == left + tail
  {
  }

  lemma SplitJoinedStep(a: string, b: string)
    requires 0 <= FirstSep(a)
    requires Split(a[FirstSep(a) + 1..] + [Sep] + b) == Split(a[FirstSep(a) + 1..]) + Split(b)
    ensures Split(a + [Sep] + b) == Split(a) + Split(b)
  {
    var i := FirstSep(a);
    SplitJoinedSep(a, b);
    ConsAppend(a[..i], Split(a[i + 1..]), Split(b), Split(a + [Sep] + b), Split(a));
  }

  lemma {:induction false} SplitJoined(a: string, b: string)
    ensures Split(a + [Sep] + b) == Split(a) + Split(b)
    decreases |a|
  {
    var i := FirstSep(a);
    if i < 0 {
      SplitJoinedNoSep(a, b);
    } else {
      SplitJoined(a[i + 1..], b);
      SplitJoinedStep(a, b);
    }
  }

  lemma {:induction false} JoinSegsAppend(a: seq<string>, b: seq<string>)
    requires a != [] && b != []
    ensures JoinSegs(a + b) == JoinSegs(a) + [Sep] + JoinSegs(b)
    decreases |a|
  {
    if |a| > 1 {
      assert (a + b)[1..] == a[1..] + b;
      JoinSegsAppend(a[1..], b);
    }
  }

  lemma NestedIsSegmentPrefix(t: string, subdir: string)
    requires StartsWith(subdir, t + [Sep])
    ensures SegmentPrefix(t, subdir)
  {
    var r := subdir[|t| + 1..];
    assert subdir == t + [Sep] + r;
    SplitJoined(t, r);
  }

  lemma SegmentPrefixIsNested(t: string, subdir: string)
    requires SegmentPrefix(t, subdir)
    ensures StartsWith(subdir, t + [Sep]) || subdir == t
  {
    var st, ss := Split(t), Split(subdir);
    var more := ss[|st|..];
    assert ss == st + more;
    JoinSplit(t);
    JoinSplit(subdir);
    if more != [] {
      JoinSegsAppend(st, more);
      assert subdir == t + [Sep] + JoinSegs(more);
      assert subdir[..|t| + 1] == t + [Sep];
    } else {
      assert ss == st;
    }
  }

  /** The string test of the source is a segment-wise prefix test:
      `subdir == t or subdir.startswith(t + '/')` holds exactly when the
      segments of `t` begin the segments of `subdir`. */
  lemma NestedIffSegmentPrefix(t: string, subdir: string)
    ensures (StartsWith(subdir, t + [Sep]) || subdir == t) <==> SegmentPrefix(t, subdir)
  {
    if StartsWith(subdir, t + [Sep]) {
      NestedIsSegmentPrefix(t, subdir);
    }
    if SegmentPrefix(t, subdir) {
      SegmentPrefixIsNested(t, subdir);
    }
  }

  /** Without the wildcard a file is admitted exactly when some listed
      subtree is a segment-wise prefix of its directory; with it, always. */
  lemma AdmitsIffSegmentPrefix(subtrees: seq<string>, subdir: string)
    ensures Admits(subtrees, subdir) <==>
      Wildcard in subtrees || exists t :: t in subtrees && SegmentPrefix(t, subdir)
  {
    forall t | t in subtrees {
      NestedIffSegmentPrefix(t, subdir);
    }
  }

  /** The wildcard admits every file, including one directly in the root,
      whose directory is "". */
  lemma WildcardAdmitsAll(subtrees: seq<string>, subdir: string)
    requires Wildcard in subtrees
    ensures Admits(subtrees, subdir)
  {
  }

  /** `validate-extra` is not below `validate`; `validate/a` is; a file
      directly in the root is not admitted by a named subtree. */
  lemma ValidateExamples()
    ensures !Admits(["validate"], "validate-extra")
    ensures Admits(["validate"], "validate/a")
    ensures Admits(["validate"], "validate")
    ensures !Admits(["validate"], "")
  {
    assert StartsWith("validate/a", "validate" + [Sep]);
    assert !StartsWith("validate-extra", "validate" + [Sep]) by {
      assert "validate-extra"[8] != Sep;
    }
  }

  /** With subtrees `a` and `a/b`: `ab` is rejected, `a` and `a/b/c` are
      admitted. */
  lemma NestedSubtreeExamples()
    ensures !Admits(["a", "a/b"], "ab")
    ensures Admits(["a", "a/b"], "a")
    ensures Admits(["a", "a/b"], "a/b/c")
  {
    assert StartsWith("a/b/c", "a" + [Sep]);
    assert !StartsWith("ab", "a" + [Sep]) by { assert "ab"[1] != Sep; }
  }
}
