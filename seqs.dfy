// Sequences built by a loop that appends, for each element in turn, the
// items it produces.

module Seqs {
  /** The items `f` produces for each element of `xs`, in order. */
  function FlatMap<T, U>(xs: seq<T>, f: T -> seq<U>): seq<U>
    decreases |xs|
  {
    if xs == [] then [] else FlatMap(xs[..|xs| - 1], f) + f(xs[|xs| - 1])
  }

  /** A prefix one longer is the prefix with the next element appended. */
  lemma PrefixSnoc<T>(xs: seq<T>, i: nat)
    requires i < |xs|
    ensures xs[..i] + [xs[i]] == xs[..i + 1]
  {
  }

  /** Some element of `xs` satisfies `P` exactly when one of its front
      does or its last one does. */
  lemma ExistsInSnoc<T>(xs: seq<T>, P: T -> bool)
    requires xs != []
    ensures (exists x :: x in xs && P(x)) <==>
      (exists x :: x in xs[..|xs| - 1] && P(x)) || P(xs[|xs| - 1])
  {
    var n := |xs| - 1;
    assert xs == xs[..n] + [xs[n]];
    if exists x :: x in xs && P(x) {
      var x :| x in xs && P(x);
      if x != xs[n] {
        assert x in xs[..n];
      }
    }
  }

  lemma FlatMapSnoc<T, U>(xs: seq<T>, x: T, f: T -> seq<U>)
    ensures FlatMap(xs + [x], f) == FlatMap(xs, f) + f(x)
  {
    assert (xs + [x])[..|xs|] == xs;
  }

  /** An item is produced exactly when some element produces it. */
  lemma {:induction false} FlatMapIff<T, U>(xs: seq<T>, f: T -> seq<U>, u: U)
    ensures u in FlatMap(xs, f) <==> exists x :: x in xs && u in f(x)
    decreases |xs|
  {
    if xs != [] {
      var init := xs[..|xs| - 1];
      var last := xs[|xs| - 1];
      assert xs == init + [last];
      FlatMapIff(init, f, u);
      if u in FlatMap(xs, f) && u !in FlatMap(init, f) {
        assert u in f(last);
      }
      if exists x :: x in xs && u in f(x) {
        var x :| x in xs && u in f(x);
        if x != last {
          assert x in init;
        }
      }
    }
  }

  /** Functions that agree on the elements produce the same items. */
  lemma {:induction false} FlatMapAgree<T, U>(xs: seq<T>, f: T -> seq<U>, g: T -> seq<U>)
    requires forall x :: x in xs ==> f(x) == g(x)
    ensures FlatMap(xs, f) == FlatMap(xs, g)
    decreases |xs|
  {
    if xs != [] {
      FlatMapAgree(xs[..|xs| - 1], f, g);
    }
  }

  /** Functions producing equally many items per element produce equally
      many items in all. */
  lemma {:induction false} FlatMapLengths<T, U, V>(xs: seq<T>, f: T -> seq<U>, g: T -> seq<V>)
    requires forall x :: x in xs ==> |f(x)| == |g(x)|
    ensures |FlatMap(xs, f)| == |FlatMap(xs, g)|
    decreases |xs|
  {
    if xs != [] {
      FlatMapLengths(xs[..|xs| - 1], f, g);
    }
  }

  predicate Distinct<T(==)>(xs: seq<T>) {
    forall i, j :: 0 <= i < j < |xs| ==> xs[i] != xs[j]
  }

  /** One more item for one element of a duplicate-free sequence is one
      more item in all. */
  lemma {:induction false} FlatMapBump<T, U>(xs: seq<T>, f: T -> seq<U>, g: T -> seq<U>, y: T)
    requires Distinct(xs) && y in xs
    requires forall x :: x in xs && x != y ==> f(x) == g(x)
    requires |g(y)| == |f(y)| + 1
    ensures |FlatMap(xs, g)| == |FlatMap(xs, f)| + 1
    decreases |xs|
  {
    var n := |xs| - 1;
    var init := xs[..n];
    assert xs == init + [xs[n]];
    if xs[n] == y {
      forall i | 0 <= i < n
        ensures init[i] != y
      {
        assert init[i] == xs[i];
      }
      FlatMapAgree(init, f, g);
    } else {
      assert Distinct(init) by {
        forall i, j | 0 <= i < j < n ensures init[i] != init[j] {
          assert init[i] == xs[i] && init[j] == xs[j];
        }
      }
      FlatMapBump(init, f, g, y);
    }
  }

  /** The items of every element, in order. */
  function Flatten<U>(xss: seq<seq<U>>): seq<U>
    decreases |xss|
  {
    if xss == [] then [] else Flatten(xss[..|xss| - 1]) + xss[|xss| - 1]
  }

  /** One more part of a prefix. */
  lemma FlattenPrefix<U>(xss: seq<seq<U>>, i: nat)
    requires i < |xss|
    ensures Flatten(xss[..i + 1]) == Flatten(xss[..i]) + xss[i]
  {
    assert xss[..i + 1][..i] == xss[..i];
  }

  /** An item is in the flattened sequence exactly when one of the parts
      holds it. */
  lemma {:induction false} FlattenIff<U>(xss: seq<seq<U>>, u: U)
    ensures u in Flatten(xss) <==> exists i :: 0 <= i < |xss| && u in xss[i]
    decreases |xss|
  {
    if xss != [] {
      var n := |xss| - 1;
      FlattenIff(xss[..n], u);
      assert u in Flatten(xss) <==> u in Flatten(xss[..n]) || u in xss[n];
      PartsSnoc(xss, xss[..n], u);
    }
  }

  /** Some part of `xss` holds `u` exactly when one of its front parts or
      its last part does. */
  lemma PartsSnoc<U>(xss: seq<seq<U>>, front: seq<seq<U>>, u: U)
    requires xss != [] && front == xss[..|xss| - 1]
    ensures (exists i :: 0 <= i < |xss| && u in xss[i]) <==>
      (exists i :: 0 <= i < |front| && u in front[i]) || u in xss[|xss| - 1]
  {
    if exists i :: 0 <= i < |xss| && u in xss[i] {
      var i :| 0 <= i < |xss| && u in xss[i];
      if i < |front| {
        assert front[i] == xss[i];
      }
    }
    if exists i :: 0 <= i < |front| && u in front[i] {
      var i :| 0 <= i < |front| && u in front[i];
      assert front[i] == xss[i];
    }
  }
}
