// What "every rule only inserts text" means, and what follows from it:
// the input is a subsequence of the output and every whitespace character
// (the newline included) keeps its count.

module Inserts {
  import opened Paths
  import opened Rules

  /** `b` is `a` with characters inserted, none of them whitespace. */
  predicate Widens(a: string, b: string)
    decreases |b|
  {
    if b == [] then a == []
    else (a != [] && a[0] == b[0] && Widens(a[1..], b[1..])) || (!IsSpace(b[0]) && Widens(a, b[1..]))
  }

  /** `a` is a subsequence of `b`. */
  predicate IsSubseq(a: string, b: string)
    decreases |b|
  {
    if a == [] then true
    else if b == [] then false
    else (a[0] == b[0] && IsSubseq(a[1..], b[1..])) || IsSubseq(a, b[1..])
  }

  /** Number of occurrences of `c` in `s`. */
  function Count(c: char, s: string): nat {
    if s == [] then 0 else (if s[0] == c then 1 else 0) + Count(c, s[1..])
  }

  /** Number of whitespace characters in `s`. */
  function SpaceCount(s: string): nat {
    if s == [] then 0 else (if IsSpace(s[0]) then 1 else 0) + SpaceCount(s[1..])
  }

  /** Text with no whitespace character, as every inserted literal is. */
  predicate Printable(s: string) {
    forall c :: c in s ==> !IsSpace(c)
  }

  lemma {:induction false} WidensRefl(a: string)
    ensures Widens(a, a)
    decreases |a|
  {
    if a != [] { WidensRefl(a[1..]); }
  }

  lemma {:induction false} WidensInsert(ins: string, a: string, b: string)
    requires Printable(ins) && Widens(a, b)
    ensures Widens(a, ins + b)
    decreases |ins|
  {
    if ins != [] {
      assert ins[0] in ins;
      assert (ins + b)[0] == ins[0];
      assert (ins + b)[1..] == ins[1..] + b;
      WidensInsert(ins[1..], a, b);
    } else {
      assert ins + b == b;
    }
  }

  lemma {:induction false} WidensCopy(x: string, a: string, b: string)
    requires Widens(a, b)
    ensures Widens(x + a, x + b)
    decreases |x|
  {
    if x != [] {
      assert (x + a)[0] == x[0] && (x + b)[0] == x[0];
      assert (x + a)[1..] == x[1..] + a;
      assert (x + b)[1..] == x[1..] + b;
      WidensCopy(x[1..], a, b);
    } else {
      assert x + a == a && x + b == b;
    }
  }

  lemma {:induction false} WidensTrans(a: string, b: string, c: string)
    requires Widens(a, b) && Widens(b, c)
    ensures Widens(a, c)
    decreases |c|, |b|
  {
    if c == [] {
    } else if b != [] && b[0] == c[0] && Widens(b[1..], c[1..]) {
      if a != [] && a[0] == b[0] && Widens(a[1..], b[1..]) {
        WidensTrans(a[1..], b[1..], c[1..]);
      } else {
        WidensTrans(a, b[1..], c[1..]);
      }
    } else {
      WidensTrans(a, b, c[1..]);
    }
  }

  lemma {:induction false} WidensSubseq(a: string, b: string)
    requires Widens(a, b)
    ensures IsSubseq(a, b)
    decreases |b|
  {
    if b != [] && a != [] {
      if a[0] == b[0] && Widens(a[1..], b[1..]) {
        WidensSubseq(a[1..], b[1..]);
      } else {
        WidensSubseq(a, b[1..]);
      }
    }
  }

  lemma {:induction false} WidensKeepsCount(c: char, a: string, b: string)
    requires IsSpace(c) && Widens(a, b)
    ensures Count(c, a) == Count(c, b)
    decreases |b|
  {
    if b != [] {
      if a != [] && a[0] == b[0] && Widens(a[1..], b[1..]) {
        WidensKeepsCount(c, a[1..], b[1..]);
      } else {
        WidensKeepsCount(c, a, b[1..]);
      }
    }
  }

  lemma {:induction false} WidensKeepsSpaceCount(a: string, b: string)
    requires Widens(a, b)
    ensures SpaceCount(a) == SpaceCount(b)
    decreases |b|
  {
    if b != [] {
      if a != [] && a[0] == b[0] && Widens(a[1..], b[1..]) {
        WidensKeepsSpaceCount(a[1..], b[1..]);
      } else {
        WidensKeepsSpaceCount(a, b[1..]);
      }
    }
  }

  // ---------------------------------------------------------------------
  // Every rule only inserts text
  // ---------------------------------------------------------------------

  lemma InsertedLiteralsPrintable()
    ensures Printable("envoyproto.") && Printable(".envoyproto.")
    ensures Printable(".") && Printable("envoyproto/")
  {
  }

  /** A match of `p` replaced by `ins + p` in front of a widened tail. */
  lemma InsertBefore(s: string, p: string, ins: string, out: string)
    requires StartsWith(s, p) && Printable(ins) && Widens(s[|p|..], out)
    ensures Widens(s, ins + p + out)
  {
    StartsWithSplit(s, p);
    WidensCopy(p, s[|p|..], out);
    WidensInsert(ins, p + s[|p|..], p + out);
    assert ins + p + out == ins + (p + out);
  }

  /** A match of `p` replaced by `p + ins` in front of a widened tail. */
  lemma InsertAfter(s: string, p: string, ins: string, out: string)
    requires StartsWith(s, p) && Printable(ins) && Widens(s[|p|..], out)
    ensures Widens(s, p + ins + out)
  {
    StartsWithSplit(s, p);
    WidensInsert(ins, s[|p|..], out);
    WidensCopy(p, s[|p|..], ins + out);
    assert p + ins + out == p + (ins + out);
  }

  /** A match of `pre + post` replaced by `pre + ins + post`. */
  lemma InsertBetween(s: string, pre: string, post: string, ins: string, out: string)
    requires StartsWith(s, pre + post) && Printable(ins) && Widens(s[|pre + post|..], out)
    ensures Widens(s, pre + ins + post + out)
  {
    var k := |pre|;
    assert s[..k] == pre && s[k..][..|post|] == post by {
      assert s[..|pre + post|] == pre + post;
      assert s[..k] == s[..|pre + post|][..k] == (pre + post)[..k];
      assert s[k..][..|post|] == s[..|pre + post|][k..] == (pre + post)[k..];
    }
    assert s[k..][|post|..] == s[|pre + post|..];
    InsertBefore(s[k..], post, ins, out);
    assert s == pre + s[k..];
    WidensCopy(pre, s[k..], ins + post + out);
    assert pre + ins + post + out == pre + (ins + post + out);
  }

  /** A copied first character in front of a widened tail. */
  lemma CopyFirst(s: string, out: string)
    requires s != [] && Widens(s[1..], out)
    ensures Widens(s, [s[0]] + out)
  {
    WidensCopy([s[0]], s[1..], out);
    assert s == [s[0]] + s[1..];
  }

  lemma PackagePrefixInserts(line: string)
    ensures Widens(line, PackagePrefix(line))
  {
    if StartsWith(line, "package ") {
      InsertedLiteralsPrintable();
      WidensRefl(line[8..]);
      InsertAfter(line, "package ", "envoyproto.", line[8..]);
    } else {
      WidensRefl(line);
    }
  }

  lemma {:induction false} LegacyRootsInserts(s: string, afterWord: bool)
    ensures Widens(s, LegacyRootsFrom(s, afterWord))
    decreases |s|
  {
    if s == [] {
    } else if !afterWord && StartsWith(s, "udpa.") {
      LegacyRootsInserts(s[5..], false);
      InsertedLiteralsPrintable();
      InsertBefore(s, "udpa.", "envoyproto.", LegacyRootsFrom(s[5..], false));
    } else if !afterWord && StartsWith(s, "xds.") {
      LegacyRootsInserts(s[4..], false);
      InsertedLiteralsPrintable();
      InsertBefore(s, "xds.", "envoyproto.", LegacyRootsFrom(s[4..], false));
    } else {
      LegacyRootsInserts(s[1..], IsWordChar(s[0]));
      CopyFirst(s, LegacyRootsFrom(s[1..], IsWordChar(s[0])));
    }
  }

  lemma ValidateRulesInserts(s: string, out: string)
    requires StartsWith(s, "(validate.rules)") && Widens(s[16..], out)
    ensures Widens(s, "(" + ".envoyproto." + "validate.rules)" + out)
  {
    InsertedLiteralsPrintable();
    assert "(validate.rules)" == "(" + "validate.rules)";
    InsertBetween(s, "(", "validate.rules)", ".envoyproto.", out);
  }

  lemma ValidateRequiredInserts(s: string, out: string)
    requires StartsWith(s, "(validate.required)") && Widens(s[19..], out)
    ensures Widens(s, "(" + ".envoyproto." + "validate.required)" + out)
  {
    InsertedLiteralsPrintable();
    assert "(validate.required)" == "(" + "validate.required)";
    InsertBetween(s, "(", "validate.required)", ".envoyproto.", out);
  }

  lemma {:induction false} ValidateAnnotationInserts(s: string)
    ensures Widens(s, ValidateAnnotation(s))
    decreases |s|
  {
    if s == [] {
    } else if StartsWith(s, "(validate.rules)") {
      ValidateAnnotationInserts(s[16..]);
      ValidateRulesInserts(s, ValidateAnnotation(s[16..]));
    } else if StartsWith(s, "(validate.required)") {
      ValidateAnnotationInserts(s[19..]);
      ValidateRequiredInserts(s, ValidateAnnotation(s[19..]));
    } else {
      ValidateAnnotationInserts(s[1..]);
      CopyFirst(s, ValidateAnnotation(s[1..]));
    }
  }

  lemma {:induction false} EnvoyReferenceInserts(s: string, afterSpace: bool)
    ensures Widens(s, EnvoyReferenceFrom(s, afterSpace))
    decreases |s|
  {
    if s == [] {
    } else if afterSpace && StartsWith(s, ".envoy.") {
      EnvoyReferenceInserts(s[7..], false);
      InsertedLiteralsPrintable();
      assert ".envoy." == "." + "envoy.";
      InsertBetween(s, ".", "envoy.", "envoyproto.", EnvoyReferenceFrom(s[7..], false));
    } else {
      EnvoyReferenceInserts(s[1..], IsSpace(s[0]));
      CopyFirst(s, EnvoyReferenceFrom(s[1..], IsSpace(s[0])));
    }
  }

  /** The start `import `, the modifier and the opening quote. */
  lemma ImportHead(line: string, modifier: string)
    requires StartsWith(line, "import ") && StartsWith(line[7..], modifier)
    requires StartsWith(line[7..][|modifier|..], "\"")
    ensures StartsWith(line, "import " + modifier + "\"")
    ensures line[|"import " + modifier + "\""|..] == line[7..][|modifier|..][1..]
  {
    var rest := line[7..];
    var target := rest[|modifier|..];
    StartsWithSplit(line, "import ");
    StartsWithSplit(rest, modifier);
    StartsWithSplit(target, "\"");
    assert line == "import " + modifier + "\"" + target[1..];
  }

  lemma ImportPathInserts(line: string)
    ensures Widens(line, ImportPath(line))
  {
    if ImportPath(line) == line {
      WidensRefl(line);
    } else {
      var rest := line[7..];
      var modifier := if StartsWith(rest, "public ") then "public " else "";
      var target := rest[|modifier|..];
      ImportHead(line, modifier);
      InsertedLiteralsPrintable();
      WidensRefl(target[1..]);
      InsertAfter(line, "import " + modifier + "\"", "envoyproto/", target[1..]);
    }
  }

  lemma {:induction false} ProtobufQualifyInserts(s: string)
    ensures Widens(s, ProtobufQualify(s))
    decreases |s|
  {
    if ProtobufMatch(s) {
      ProtobufQualifyInserts(s[17..]);
      InsertedLiteralsPrintable();
      assert StartsWith(s, [s[0]] + Protobuf) by {
        assert s[..17] == [s[0]] + s[1..17];
      }
      InsertBetween(s, [s[0]], Protobuf, ".", ProtobufQualify(s[17..]));
    } else if s != [] {
      ProtobufQualifyInserts(s[1..]);
      CopyFirst(s, ProtobufQualify(s[1..]));
    }
  }

  lemma ApplyInserts(rule: Rule, line: string)
    ensures Widens(line, Apply(rule, line))
  {
    match rule
    case PackagePrefixRule => PackagePrefixInserts(line);
    case LegacyRootsRule => LegacyRootsInserts(line, false);
    case ValidateAnnotationRule => ValidateAnnotationInserts(line);
    case EnvoyReferenceRule => EnvoyReferenceInserts(line, false);
    case ImportPathRule => ImportPathInserts(line);
    case ProtobufQualifyRule => ProtobufQualifyInserts(line);
  }

  /** Folding a line through any list of the rules only inserts text. */
  lemma {:induction false} ApplyAllInserts(rules: seq<Rule>, line: string)
    ensures Widens(line, ApplyAll(rules, line))
    decreases |rules|
  {
    if rules == [] {
      WidensRefl(line);
    } else {
      var next := Apply(rules[0], line);
      ApplyInserts(rules[0], line);
      ApplyAllInserts(rules[1..], next);
      WidensTrans(line, next, ApplyAll(rules[1..], next));
    }
  }

  /** A rewritten line contains the original line as a subsequence and has
      exactly as many whitespace characters, and as many newlines, as it. */
  lemma RewriteLineInserts(line: string)
    ensures IsSubseq(line, RewriteLine(line))
    ensures SpaceCount(RewriteLine(line)) == SpaceCount(line)
    ensures Count('\n', RewriteLine(line)) == Count('\n', line)
  {
    ApplyAllInserts(Subs, line);
    WidensSubseq(line, RewriteLine(line));
    WidensKeepsSpaceCount(line, RewriteLine(line));
    WidensKeepsCount('\n', line, RewriteLine(line));
  }
}
