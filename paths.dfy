// POSIX path helpers as Python's `str` and `posixpath` define them, on
// strings with '/' as the only separator.

module Paths {

  /** The path separator (`os.path.sep` on POSIX). */
  const Sep: char := '/'

  predicate StartsWith(s: string, prefix: string) {
    |prefix| <= |s| && s[..|prefix|] == prefix
  }

  predicate EndsWith(s: string, suffix: string) {
    |suffix| <= |s| && s[|s| - |suffix|..] == suffix
  }

  /** `s.removeprefix(prefix)`. */
  function RemovePrefix(s: string, prefix: string): (r: string)
    ensures StartsWith(s, prefix) ==> prefix + r == s
    ensures !StartsWith(s, prefix) ==> r == s
  {
    if StartsWith(s, prefix) then s[|prefix|..] else s
  }

  /** `s.removesuffix(suffix)`. */
  function RemoveSuffix(s: string, suffix: string): (r: string)
    ensures EndsWith(s, suffix) ==> r + suffix == s
    ensures !EndsWith(s, suffix) ==> r == s
  {
    if EndsWith(s, suffix) then s[..|s| - |suffix|] else s
  }

  /** `s[n:]` with Python's clamping: an index past the end gives "". */
  function Drop(s: string, n: nat): (r: string)
    ensures n <= |s| ==> s == s[..n] + r
    ensures n > |s| ==> r == []
  {
    if n <= |s| then s[n..] else []
  }

  /** `s.replace(os.path.sep, '.')`. */
  function DotsForSeps(s: string): (r: string)
    ensures |r| == |s|
    ensures forall i :: 0 <= i < |s| ==> r[i] == (if s[i] == Sep then '.' else s[i])
  {
    if s == [] then [] else [if s[0] == Sep then '.' else s[0]] + DotsForSeps(s[1..])
  }

  /** `posixpath.join(a, b)`: an absolute `b` replaces `a`; otherwise one
      separator is put between them unless `a` is empty or already ends
      with one. */
  function Join(a: string, b: string): (r: string)
  {
    if StartsWith(b, [Sep]) then b
    else if a == [] || EndsWith(a, [Sep]) then a + b
    else a + [Sep] + b
  }

  /** Index of the last separator in `p`, or -1 when there is none. */
  function LastSep(p: string): (i: int)
    ensures -1 <= i < |p|
    ensures 0 <= i ==> p[i] == Sep
    ensures forall j :: i < j < |p| ==> p[j] != Sep
  {
    if p == [] then -1
    else if p[|p| - 1] == Sep then |p| - 1
    else LastSep(p[..|p| - 1])
  }

  predicate AllSeps(s: string) {
    forall i :: 0 <= i < |s| ==> s[i] == Sep
  }

  /** `head.rstrip(os.path.sep)`. */
  function StripTrailingSeps(s: string): (r: string)
    ensures |r| <= |s| && r == s[..|r|]
    ensures r == [] || r[|r| - 1] != Sep
    ensures AllSeps(s[|r|..])
  {
    if s != [] && s[|s| - 1] == Sep then StripTrailingSeps(s[..|s| - 1]) else s
  }

  /** `posixpath.basename(p)`: everything after the last separator. */
  function Basename(p: string): (r: string)
    ensures EndsWith(p, r)
    ensures Sep !in r
  {
    p[LastSep(p) + 1..]
  }

  /** `posixpath.dirname(p)`: everything up to the last separator, with
      trailing separators removed unless the head is made only of them. */
  function Dirname(p: string): (r: string)
    ensures StartsWith(p, r)
  {
    var head := p[..LastSep(p) + 1];
    if head != [] && !AllSeps(head) then StripTrailingSeps(head) else head
  }

  /** A relative path with no leading separator and no empty segment in
      the middle, as `path[len(root):]` is for a file found under `root`. */
  predicate RelativePath(p: string) {
    (p == [] || p[0] != Sep) &&
    forall i :: 0 <= i < |p| - 1 ==> !DoubleSepAt(p, i)
  }

  predicate DoubleSepAt(p: string, i: nat)
    requires i < |p| - 1
  {
    p[i] == Sep && p[i + 1] == Sep
  }

  lemma StartsWithSplit(s: string, p: string)
    requires StartsWith(s, p)
    ensures s == p + s[|p|..]
  {
    assert s == s[..|p|] + s[|p|..];
  }

  /** Regrouping `[s[0]] + (s[1..] + tail)` as `s + tail`. */
  lemma ConsConcat(s: string, tail: string, whole: string)
    requires s != [] && whole == [s[0]] + (s[1..] + tail)
    ensures whole == s + tail
  {
    assert s == [s[0]] + s[1..];
  }

  lemma PrefixOfConcat(p: string, rest: string)
    ensures StartsWith(p + rest, p) && (p + rest)[|p|..] == rest
  {
    assert (p + rest)[..|p|] == p;
  }

  /** For a relative path, `dirname` is the text before the last
      separator (or "" when there is none). */
  lemma DirnameOfRelative(rel: string)
    requires RelativePath(rel)
    ensures LastSep(rel) < 0 ==> Dirname(rel) == []
    ensures 0 <= LastSep(rel) ==> 1 <= LastSep(rel) && Dirname(rel) == rel[..LastSep(rel)]
    ensures 0 <= LastSep(rel) ==> rel[LastSep(rel) - 1] != Sep
  {
    var i := LastSep(rel);
    if 0 <= i {
      assert i != 0;
      assert !DoubleSepAt(rel, i - 1);
      var head := rel[..i + 1];
      assert head[..|head| - 1] == rel[..i];
      assert !AllSeps(head) by { assert head[i - 1] != Sep; }
      assert StripTrailingSeps(head) == rel[..i];
    }
  }

  lemma JoinAddsSep(a: string, b: string)
    requires a != [] && a[|a| - 1] != Sep
    requires b == [] || b[0] != Sep
    ensures Join(a, b) == a + [Sep] + b
  {
    assert !EndsWith(a, [Sep]) by { assert a[|a| - 1..] == [a[|a| - 1]]; }
    assert !StartsWith(b, [Sep]) by { if b != [] { assert b[..1] == [b[0]]; } }
  }

  lemma JoinAfterSep(a: string, b: string)
    requires a != [] && a[|a| - 1] == Sep
    requires b == [] || b[0] != Sep
    ensures Join(a, b) == a + b
  {
    assert EndsWith(a, [Sep]) by { assert a[|a| - 1..] == [a[|a| - 1]]; }
    assert !StartsWith(b, [Sep]) by { if b != [] { assert b[..1] == [b[0]]; } }
  }

  /** Joining the empty directory name adds just the separator. */
  lemma JoinEmptyThen(dir: string, rel: string)
    requires dir != [] && dir[|dir| - 1] != Sep
    requires rel == [] || rel[0] != Sep
    ensures Join(Join(dir, []), rel) == Join(dir, rel)
  {
    var top := dir + [Sep];
    assert Join(dir, []) == top by {
      JoinAddsSep(dir, []);
      assert dir + [Sep] + [] == top;
    }
    assert Join(top, rel) == top + rel by { JoinAfterSep(top, rel); }
    assert Join(dir, rel) == top + rel by { JoinAddsSep(dir, rel); }
  }

  lemma JoinFileAtTop(dir: string, rel: string)
    requires dir != [] && dir[|dir| - 1] != Sep
    requires RelativePath(rel) && LastSep(rel) < 0
    ensures Join(Join(dir, Dirname(rel)), Basename(rel)) == Join(dir, rel)
  {
    DirnameOfRelative(rel);
    assert Basename(rel) == rel;
    JoinEmptyThen(dir, rel);
  }

  /** A separator-free suffix of a path is a suffix of its file name. */
  lemma BasenameKeepsSuffix(p: string, suffix: string)
    requires EndsWith(p, suffix) && Sep !in suffix
    ensures EndsWith(Basename(p), suffix)
  {
    var i := LastSep(p);
    var k := |p| - |suffix|;
    assert p[k..] == suffix;
    forall j | k <= j < |p| ensures p[j] != Sep {
      assert p[j] == suffix[j - k];
      assert suffix[j - k] in suffix;
    }
    assert i < k;
    SuffixOfTail(p, i + 1, k);
  }

  /** The tail of `p` from `k` is also the tail of `p[m..]` for `m <= k`. */
  lemma SuffixOfTail(p: string, m: nat, k: nat)
    requires m <= k <= |p|
    ensures p[m..][|p[m..]| - (|p| - k)..] == p[k..]
  {
  }

  /** Joining keeps the suffix of the joined part. */
  lemma JoinKeepsSuffix(a: string, b: string, suffix: string)
    requires EndsWith(b, suffix)
    ensures EndsWith(Join(a, b), suffix)
  {
    var j := Join(a, b);
    if j != b {
      assert j[|j| - |b|..] == b;
      assert j[|j| - |suffix|..] == b[|b| - |suffix|..];
    }
  }

  lemma JoinInTwoSteps(dir: string, d: string, b: string)
    requires dir != [] && dir[|dir| - 1] != Sep
    requires d != [] && d[0] != Sep && d[|d| - 1] != Sep
    requires b == [] || b[0] != Sep
    ensures Join(Join(dir, d), b) == Join(dir, d + [Sep] + b)
  {
    var top := dir + [Sep] + d;
    assert Join(dir, d) == top by { JoinAddsSep(dir, d); }
    assert Join(top, b) == top + [Sep] + b by { JoinAddsSep(top, b); }
    assert Join(dir, d + [Sep] + b) == dir + [Sep] + (d + [Sep] + b) by {
      JoinAddsSep(dir, d + [Sep] + b);
    }
    assert top + [Sep] + b == dir + [Sep] + (d + [Sep] + b);
  }

  lemma SplitAround(s: string, i: nat)
    requires i < |s|
    ensures s == s[..i] + [s[i]] + s[i + 1..]
  {
    assert s == s[..i] + s[i..];
    assert s[i..] == [s[i]] + s[i + 1..];
  }

  /** The file name of a relative path does not start with a separator. */
  lemma BasenameOfRelative(rel: string)
    requires RelativePath(rel) && 0 <= LastSep(rel)
    ensures Basename(rel) == rel[LastSep(rel) + 1..]
    ensures Basename(rel) == [] || Basename(rel)[0] != Sep
  {
    var i := LastSep(rel);
    if i + 1 < |rel| {
      assert !DoubleSepAt(rel, i);
    }
  }

  /** A relative path with a separator is its directory, one separator
      and its file name. */
  lemma SplitAtLastSep(rel: string)
    requires RelativePath(rel) && 0 <= LastSep(rel)
    ensures var d := rel[..LastSep(rel)];
      d != [] && d[0] != Sep && d[|d| - 1] != Sep && Dirname(rel) == d &&
      rel == d + [Sep] + Basename(rel) &&
      (Basename(rel) == [] || Basename(rel)[0] != Sep)
  {
    var i := LastSep(rel);
    DirnameOfRelative(rel);
    BasenameOfRelative(rel);
    SplitAround(rel, i);
  }

  lemma JoinFileBelow(dir: string, rel: string)
    requires dir != [] && dir[|dir| - 1] != Sep
    requires RelativePath(rel) && 0 <= LastSep(rel)
    ensures Join(Join(dir, Dirname(rel)), Basename(rel)) == Join(dir, rel)
  {
    SplitAtLastSep(rel);
    JoinInTwoSteps(dir, rel[..LastSep(rel)], Basename(rel));
  }

  /** Splitting a relative path into directory and file name and joining
      them back onto a directory gives the same result as joining the whole
      relative path. */
  lemma JoinDirnameBasename(dir: string, rel: string)
    requires dir != [] && dir[|dir| - 1] != Sep
    requires RelativePath(rel)
    ensures Join(Join(dir, Dirname(rel)), Basename(rel)) == Join(dir, rel)
  {
    if LastSep(rel) < 0 {
      JoinFileAtTop(dir, rel);
    } else {
      JoinFileBelow(dir, rel);
    }
  }
}
