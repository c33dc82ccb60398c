// Rewriting one file: iterating over a text file yields its lines, each
// line is folded through the rule list by reassigning it once per rule,
// and the rewritten lines are written out in order.

module Lines {
  import opened Paths
  import opened Rules
  import opened Inserts
  import opened Endings

  /** Index of the first newline in `s`, or `|s|` when there is none. */
  function LineEnd(s: string): (n: nat)
    ensures n <= |s|
    ensures n < |s| ==> s[n] == '\n'
    ensures forall i :: 0 <= i < n ==> s[i] != '\n'
    decreases |s|
  {
    if s == [] || s[0] == '\n' then 0 else 1 + LineEnd(s[1..])
  }

  /** A line that ends in its only newline. */
  predicate Terminated(l: string) {
    EndsInNewline(l) && '\n' !in l[..|l| - 1]
  }

  /** A last line with no newline at all. */
  predicate Unterminated(l: string) {
    l != [] && '\n' !in l
  }

  /** The lines `for line in file` yields: each one runs up to and
      including a newline, except a last one the text does not end. */
  function Lines(text: string): (r: seq<string>)
    ensures forall i :: 0 <= i < |r| - 1 ==> Terminated(r[i])
    ensures r != [] ==> Terminated(r[|r| - 1]) || Unterminated(r[|r| - 1])
    ensures text == [] <==> r == []
    decreases |text|
  {
    if text == [] then []
    else
      var n := LineEnd(text);
      if n == |text| then [text]
      else
        assert text[..n + 1][..n] == text[..n];
        [text[..n + 1]] + Lines(text[n + 1..])
  }

  /** Writing the lines one after another. */
  function Concat(ls: seq<string>): string
    decreases |ls|
  {
    if ls == [] then [] else ls[0] + Concat(ls[1..])
  }

  function MapRewrite(ls: seq<string>): (r: seq<string>)
    ensures |r| == |ls|
    decreases |ls|
  {
    if ls == [] then [] else [RewriteLine(ls[0])] + MapRewrite(ls[1..])
  }

  /** The text written for a file whose text is `text`. */
  function RewriteText(text: string): string {
    Concat(MapRewrite(Lines(text)))
  }

  // ---------------------------------------------------------------------
  // Lines and the rewrite
  // ---------------------------------------------------------------------

  lemma {:induction false} LinesConcat(text: string)
    ensures Concat(Lines(text)) == text
    decreases |text|
  {
    if text != [] {
      var n := LineEnd(text);
      if n == |text| {
        assert Concat([text]) == text + Concat([]);
      } else {
        LinesConcat(text[n + 1..]);
        assert text == text[..n + 1] + text[n + 1..];
      }
    }
  }

  /** A terminated line is split off the front of any text after it. */
  lemma LinesCons(l: string, rest: string)
    requires Terminated(l)
    ensures Lines(l + rest) == [l] + Lines(rest)
  {
    var s := l + rest;
    var n := LineEnd(s);
    var k := |l| - 1;
    assert s[k] == '\n';
    assert forall i :: 0 <= i < k ==> s[i] == l[..k][i];
    assert n == k;
    assert s[..n + 1] == l;
    assert s[n + 1..] == rest;
  }

  lemma LinesSingle(l: string)
    requires Unterminated(l)
    ensures Lines(l) == [l]
  {
    assert forall i :: 0 <= i < |l| ==> l[i] != '\n';
    assert LineEnd(l) == |l|;
  }

  lemma {:induction false} CountAppend(c: char, a: string, b: string)
    ensures Count(c, a + b) == Count(c, a) + Count(c, b)
    decreases |a|
  {
    if a == [] {
      assert a + b == b;
    } else {
      assert (a + b)[1..] == a[1..] + b;
      CountAppend(c, a[1..], b);
    }
  }

  lemma {:induction false} CountZero(c: char, s: string)
    ensures Count(c, s) == 0 <==> c !in s
    decreases |s|
  {
    if s != [] {
      CountZero(c, s[1..]);
      assert s == [s[0]] + s[1..];
    }
  }

  /** A terminated line is one that ends in a newline and holds one. */
  lemma TerminatedByCount(l: string)
    requires EndsInNewline(l)
    ensures Terminated(l) <==> Count('\n', l) == 1
  {
    var k := |l| - 1;
    assert l == l[..k] + [l[k]];
    CountAppend('\n', l[..k], [l[k]]);
    CountZero('\n', l[..k]);
  }

  /** Rewriting keeps the shape of a line: a terminated line stays
      terminated and a last line without newline stays one. */
  lemma RewriteKeepsLine(l: string)
    ensures Terminated(l) ==> Terminated(RewriteLine(l))
    ensures Unterminated(l) ==> Unterminated(RewriteLine(l))
  {
    var r := RewriteLine(l);
    RewriteLineInserts(l);
    if Terminated(l) {
      ApplyAllKeepsEnd(Subs, l);
      TerminatedByCount(l);
      TerminatedByCount(r);
    }
    if Unterminated(l) {
      CountZero('\n', l);
      CountZero('\n', r);
    }
  }

  lemma RewriteTextSingle(l: string)
    requires Unterminated(l)
    ensures RewriteText(l) == RewriteLine(l)
  {
    LinesSingle(l);
    assert MapRewrite([l]) == [RewriteLine(l)];
    assert Concat([RewriteLine(l)]) == RewriteLine(l) + Concat([]);
  }

  lemma RewriteTextCons(l: string, rest: string)
    requires Terminated(l)
    ensures RewriteText(l + rest) == RewriteLine(l) + RewriteText(rest)
  {
    LinesCons(l, rest);
    var ls := [l] + Lines(rest);
    assert ls[1..] == Lines(rest);
    assert MapRewrite(ls) == [RewriteLine(l)] + MapRewrite(Lines(rest));
  }

  /** One output line per input line: the lines of the written text are
      the rewritten lines of the input, in order. */
  lemma {:induction false} RewriteTextLines(text: string)
    ensures Lines(RewriteText(text)) == MapRewrite(Lines(text))
    decreases |text|
  {
    if text != [] {
      var n := LineEnd(text);
      if n == |text| {
        assert Unterminated(text);
        RewriteKeepsLine(text);
        RewriteTextSingle(text);
        LinesSingle(RewriteLine(text));
        assert Lines(text) == [text];
      } else {
        var l := text[..n + 1];
        var rest := text[n + 1..];
        assert Terminated(l) && text == l + rest;
        RewriteKeepsLine(l);
        RewriteTextLines(rest);
        RewriteTextCons(l, rest);
        LinesCons(RewriteLine(l), RewriteText(rest));
        LinesCons(l, rest);
        assert MapRewrite([l] + Lines(rest))[1..] == MapRewrite(Lines(rest));
      }
    }
  }

  lemma {:induction false} ConcatAppend(a: seq<string>, b: seq<string>)
    ensures Concat(a + b) == Concat(a) + Concat(b)
    decreases |a|
  {
    if a == [] {
      assert a + b == b;
    } else {
      assert (a + b)[1..] == a[1..] + b;
      ConcatAppend(a[1..], b);
    }
  }

  lemma {:induction false} MapRewriteAppend(a: seq<string>, b: seq<string>)
    ensures MapRewrite(a + b) == MapRewrite(a) + MapRewrite(b)
    decreases |a|
  {
    if a == [] {
      assert a + b == b;
    } else {
      assert (a + b)[1..] == a[1..] + b;
      MapRewriteAppend(a[1..], b);
    }
  }

  lemma WrittenPrefix(ls: seq<string>, i: nat)
    requires i < |ls|
    ensures Concat(MapRewrite(ls[..i + 1])) == Concat(MapRewrite(ls[..i])) + RewriteLine(ls[i])
  {
    assert ls[..i + 1] == ls[..i] + [ls[i]];
    MapRewriteAppend(ls[..i], [ls[i]]);
    assert MapRewrite([ls[i]]) == [RewriteLine(ls[i])];
    ConcatAppend(MapRewrite(ls[..i]), [RewriteLine(ls[i])]);
    assert Concat([RewriteLine(ls[i])]) == RewriteLine(ls[i]) + Concat([]);
  }

  // ---------------------------------------------------------------------
  // The loops
  // ---------------------------------------------------------------------

  /** The inner loop: `line` is reassigned to the result of each rule in
      turn, and ends up as the left fold of the rule list over it. */
  method RewriteLineInPlace(line: string) returns (out: string)
    ensures out == RewriteLine(line)
    ensures IsSubseq(line, out)
    ensures Terminated(line) ==> Terminated(out)
  {
    out := line;
    var i := 0;
    while i < |Subs|
      invariant 0 <= i <= |Subs|
      invariant ApplyAll(Subs[i..], out) == RewriteLine(line)
    {
      assert Subs[i..][1..] == Subs[i + 1..];
      out := Apply(Subs[i], out);
      i := i + 1;
    }
    assert Subs[i..] == [];
    RewriteLineInserts(line);
    RewriteKeepsLine(line);
  }

  /** The outer loop: each line of the input is rewritten and written in
      turn. */
  method RewriteFile(text: string) returns (out: string)
    ensures out == RewriteText(text)
    ensures Lines(out) == MapRewrite(Lines(text))
  {
    var ls := Lines(text);
    out := [];
    var i := 0;
    while i < |ls|
      invariant 0 <= i <= |ls|
      invariant out == Concat(MapRewrite(ls[..i]))
    {
      var line := RewriteLineInPlace(ls[i]);
      WrittenPrefix(ls, i);
      out := out + line;
      i := i + 1;
    }
    assert ls[..i] == ls;
    RewriteTextLines(text);
  }
}
