// The recursive file finder `find_by_extension_recurse`: a depth-first walk
// over a directory listing that yields the paths ending in a suffix and
// never enters a directory named `tests`.

module Finder {
  import opened Paths

  /** One directory entry as `os.scandir` reports it; a directory carries
      its own listing, in the order the file system returns it. */
  datatype Entry = File(name: string) | Dir(name: string, children: seq<Entry>)

  /** Directory names the walk never enters. */
  const Pruned: seq<string> := ["tests"]

  /** The paths the generator yields, in the order it yields them: a file
      whose path ends with `ext` is yielded, a directory not named in
      `Pruned` is walked in place, anything else is skipped. */
  function Find(ext: string, dir: string, entries: seq<Entry>): (r: seq<string>)
    ensures forall p :: p in r ==> EndsWith(p, ext)
    decreases entries
  {
    if entries == [] then []
    else
      var here := match entries[0]
        case File(n) => if EndsWith(Join(dir, n), ext) then [Join(dir, n)] else []
        case Dir(n, children) => if n !in Pruned then Find(ext, Join(dir, n), children) else [];
      here + Find(ext, dir, entries[1..])
  }

  // ---------------------------------------------------------------------
  // Found paths below a root
  // ---------------------------------------------------------------------

  /** A name as a directory listing reports it: non-empty and without a
      separator. */
  predicate ValidName(n: string) {
    n != [] && Sep !in n
  }

  /** Every name in the tree is a valid name. */
  predicate WellFormed(entries: seq<Entry>)
    decreases entries
  {
    forall i :: 0 <= i < |entries| ==>
      ValidName(entries[i].name) && (entries[i].Dir? ==> WellFormed(entries[i].children))
  }

  /** The relative path `rel` extended by one more name. */
  function Extend(rel: string, n: string): string {
    if rel == [] then n else rel + [Sep] + n
  }

  /** A relative path that does not end in a separator. */
  predicate Below(rel: string) {
    RelativePath(rel) && (rel == [] || rel[|rel| - 1] != Sep)
  }

  /** Joining a valid name below `top + rel` extends the relative path. */
  lemma JoinName(top: string, rel: string, n: string)
    requires top != [] && top[|top| - 1] == Sep && Below(rel) && ValidName(n)
    ensures Join(top + rel, n) == top + Extend(rel, n)
    ensures Below(Extend(rel, n)) && Extend(rel, n) != []
  {
    assert n[0] in n;
    assert n[|n| - 1] in n;
    assert !StartsWith(n, [Sep]);
    if rel == [] {
      assert top + rel == top;
      forall i | 0 <= i < |n| - 1 ensures !DoubleSepAt(n, i) {
        assert n[i] in n;
      }
    } else {
      var r := rel + [Sep] + n;
      assert (top + rel)[|top + rel| - 1] == rel[|rel| - 1];
      assert top + rel + [Sep] + n == top + r;
      forall i | 0 <= i < |r| - 1 ensures !DoubleSepAt(r, i) {
        if i < |rel| - 1 {
          assert !DoubleSepAt(rel, i);
        } else if i > |rel| {
          assert r[i] == n[i - |rel| - 1];
          assert n[i - |rel| - 1] in n;
        }
      }
    }
  }

  /** Every path found below `top + rel` is `top` followed by a relative
      path. */
  lemma {:induction false} FindBelow(ext: string, top: string, rel: string, entries: seq<Entry>, p: string)
    requires top != [] && top[|top| - 1] == Sep && Below(rel) && WellFormed(entries)
    requires p in Find(ext, top + rel, entries)
    ensures exists r :: RelativePath(r) && p == top + r
    decreases entries
  {
    var e := entries[0];
    assert ValidName(e.name);
    JoinName(top, rel, e.name);
    var next := Extend(rel, e.name);
    if p in Find(ext, top + rel, entries[1..]) {
      assert WellFormed(entries[1..]) by {
        forall i | 0 <= i < |entries[1..]| ensures entries[1..][i] == entries[i + 1] { }
      }
      FindBelow(ext, top, rel, entries[1..], p);
    } else {
      match e
      case File(n) =>
        assert p == top + next;
      case Dir(n, children) =>
        FindBelow(ext, top, next, children, p);
    }
  }

  /** A path the finder yields for a root ending in a separator is the
      root followed by a relative path, `p[len(top):]`. */
  lemma FoundRelative(ext: string, top: string, entries: seq<Entry>, p: string)
    requires top != [] && top[|top| - 1] == Sep && WellFormed(entries)
    requires p in Find(ext, top, entries)
    ensures StartsWith(p, top) && RelativePath(p[|top|..]) && p == top + p[|top|..]
  {
    assert top + [] == top;
    FindBelow(ext, top, [], entries, p);
    var rel :| RelativePath(rel) && p == top + rel;
    assert p[..|top|] == top && p[|top|..] == rel;
  }

  // ---------------------------------------------------------------------
  // Reference: every file of the tree, depth first, then filtered.
  // ---------------------------------------------------------------------

  /** Every file below `entries`, depth first in entry order, as the names
      leading from the listed directory down to the file. */
  function Listing(entries: seq<Entry>): (r: seq<seq<string>>)
    ensures forall segs :: segs in r ==> segs != []
    decreases entries
  {
    if entries == [] then []
    else
      var here := match entries[0]
        case File(n) => [[n]]
        case Dir(n, children) => Under(n, Listing(children));
      here + Listing(entries[1..])
  }

  /** Puts directory name `n` in front of every name list of `ps`. */
  function Under(n: string, ps: seq<seq<string>>): (r: seq<seq<string>>)
    ensures |r| == |ps|
    ensures forall i :: 0 <= i < |ps| ==> r[i] == [n] + ps[i]
  {
    if ps == [] then [] else [[n] + ps[0]] + Under(n, ps[1..])
  }

  /** The path of the file reached from `dir` through the names `segs`. */
  function JoinPath(dir: string, segs: seq<string>): string
    decreases |segs|
  {
    if segs == [] then dir else JoinPath(Join(dir, segs[0]), segs[1..])
  }

  /** None of the directories on the way to the file is pruned. */
  predicate Visible(segs: seq<string>) {
    forall k :: 0 <= k < |segs| - 1 ==> segs[k] !in Pruned
  }

  predicate Yields(ext: string, dir: string, segs: seq<string>) {
    Visible(segs) && EndsWith(JoinPath(dir, segs), ext)
  }

  /** The paths of the files of `ps` that are visible and end with `ext`,
      in the order of `ps`. */
  function Keep(ext: string, dir: string, ps: seq<seq<string>>): seq<string> {
    if ps == [] then []
    else (if Yields(ext, dir, ps[0]) then [JoinPath(dir, ps[0])] else []) + Keep(ext, dir, ps[1..])
  }

  lemma {:induction false} KeepAppend(ext: string, dir: string, a: seq<seq<string>>, b: seq<seq<string>>)
    ensures Keep(ext, dir, a + b) == Keep(ext, dir, a) + Keep(ext, dir, b)
    decreases |a|
  {
    if a != [] {
      assert (a + b)[0] == a[0];
      assert (a + b)[1..] == a[1..] + b;
      KeepAppend(ext, dir, a[1..], b);
    } else {
      assert a + b == b;
    }
  }

  /** Keeping the files under directory `n` is keeping the files of its own
      listing from `dir/n`, or nothing when `n` is pruned. */
  lemma {:induction false} KeepUnder(ext: string, dir: string, n: string, ps: seq<seq<string>>)
    requires forall segs :: segs in ps ==> segs != []
    ensures Keep(ext, dir, Under(n, ps)) == if n in Pruned then [] else Keep(ext, Join(dir, n), ps)
    decreases |ps|
  {
    if ps != [] {
      var u := Under(n, ps);
      assert u[1..] == Under(n, ps[1..]);
      var s := ps[0];
      assert s in ps;
      assert JoinPath(dir, [n] + s) == JoinPath(Join(dir, n), s) by {
        assert ([n] + s)[1..] == s;
      }
      assert Visible([n] + s) <==> n !in Pruned && Visible(s) by {
        if n !in Pruned && Visible(s) {
          forall k | 0 <= k < |s| ensures ([n] + s)[k] !in Pruned {
            if k > 0 { assert ([n] + s)[k] == s[k - 1]; }
          }
        }
        if Visible([n] + s) {
          assert ([n] + s)[0] == n;
          forall k | 0 <= k < |s| - 1 ensures s[k] !in Pruned {
            assert ([n] + s)[k + 1] == s[k];
          }
        }
      }
      assert forall segs :: segs in ps[1..] ==> segs in ps;
      KeepUnder(ext, dir, n, ps[1..]);
    }
  }

  /** The finder yields exactly the files of the depth-first listing that lie
      in no pruned directory and whose path ends with `ext`, in listing
      order. */
  lemma {:induction false} FindIsFilteredListing(ext: string, dir: string, entries: seq<Entry>)
    ensures Find(ext, dir, entries) == Keep(ext, dir, Listing(entries))
    decreases entries
  {
    if entries != [] {
      var rest := Listing(entries[1..]);
      FindIsFilteredListing(ext, dir, entries[1..]);
      match entries[0]
      case File(n) =>
        KeepAppend(ext, dir, [[n]], rest);
        assert JoinPath(dir, [n]) == Join(dir, n);
        assert Keep(ext, dir, [[n]]) == (if EndsWith(Join(dir, n), ext) then [Join(dir, n)] else []);
      case Dir(n, children) =>
        KeepAppend(ext, dir, Under(n, Listing(children)), rest);
        KeepUnder(ext, dir, n, Listing(children));
        FindIsFilteredListing(ext, Join(dir, n), children);
    }
  }

  lemma {:induction false} KeepMembers(ext: string, dir: string, ps: seq<seq<string>>, p: string)
    ensures p in Keep(ext, dir, ps) <==> exists segs :: segs in ps && Yields(ext, dir, segs) && p == JoinPath(dir, segs)
    decreases |ps|
  {
    if ps != [] {
      KeepMembers(ext, dir, ps[1..], p);
      if p in Keep(ext, dir, ps[1..]) {
        var segs :| segs in ps[1..] && Yields(ext, dir, segs) && p == JoinPath(dir, segs);
        assert segs in ps;
      }
      forall segs | segs in ps && Yields(ext, dir, segs) && p == JoinPath(dir, segs)
        ensures p in Keep(ext, dir, ps)
      {
        if segs != ps[0] { assert segs in ps[1..]; }
      }
    }
  }

  /** A path is yielded if and only if it leads to a file of the tree
      through no directory named `tests` and ends with `ext`. */
  lemma FoundIff(ext: string, dir: string, entries: seq<Entry>, p: string)
    ensures p in Find(ext, dir, entries) <==>
      exists segs :: segs in Listing(entries) && Visible(segs) && EndsWith(JoinPath(dir, segs), ext) && p == JoinPath(dir, segs)
  {
    FindIsFilteredListing(ext, dir, entries);
    KeepMembers(ext, dir, Listing(entries), p);
  }
}
