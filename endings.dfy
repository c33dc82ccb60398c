// A line read from a text file ends in its newline, and every rule leaves
// that newline at the end: no match of any rule ends in whitespace, so the
// last character of a line is always copied through.

module Endings {
  import opened Paths
  import opened Rules

  predicate EndsInNewline(s: string) {
    s != [] && s[|s| - 1] == '\n'
  }

  /** Output made of any text followed by the rewritten rest of `s` ends
      in a newline when `s` does and that rest is not empty. */
  lemma KeepsEnd(s: string, k: nat, lit: string, rest: string)
    requires EndsInNewline(s) && k < |s|
    requires EndsInNewline(s[k..]) ==> EndsInNewline(rest)
    ensures EndsInNewline(lit + rest)
  {
    assert s[k..][|s| - k - 1] == s[|s| - 1];
  }

  lemma PackagePrefixKeepsEnd(line: string)
    requires EndsInNewline(line)
    ensures EndsInNewline(PackagePrefix(line))
  {
    if StartsWith(line, "package ") {
      assert line[7] == ' ';
      KeepsEnd(line, 8, "package envoyproto.", line[8..]);
    }
  }

  lemma {:induction false} LegacyRootsKeepsEnd(s: string, afterWord: bool)
    requires EndsInNewline(s)
    ensures EndsInNewline(LegacyRootsFrom(s, afterWord))
    decreases |s|
  {
    if !afterWord && StartsWith(s, "udpa.") {
      assert s[4] == '.';
      if EndsInNewline(s[5..]) { LegacyRootsKeepsEnd(s[5..], false); }
      KeepsEnd(s, 5, "envoyproto.udpa.", LegacyRootsFrom(s[5..], false));
    } else if !afterWord && StartsWith(s, "xds.") {
      assert s[3] == '.';
      if EndsInNewline(s[4..]) { LegacyRootsKeepsEnd(s[4..], false); }
      KeepsEnd(s, 4, "envoyproto.xds.", LegacyRootsFrom(s[4..], false));
    } else if |s| > 1 {
      LegacyRootsKeepsEnd(s[1..], IsWordChar(s[0]));
      KeepsEnd(s, 1, [s[0]], LegacyRootsFrom(s[1..], IsWordChar(s[0])));
    }
  }

  lemma {:induction false} ValidateAnnotationKeepsEnd(s: string)
    requires EndsInNewline(s)
    ensures EndsInNewline(ValidateAnnotation(s))
    decreases |s|
  {
    if StartsWith(s, "(validate.rules)") {
      assert s[15] == ')';
      if EndsInNewline(s[16..]) { ValidateAnnotationKeepsEnd(s[16..]); }
      KeepsEnd(s, 16, "(.envoyproto.validate.rules)", ValidateAnnotation(s[16..]));
    } else if StartsWith(s, "(validate.required)") {
      assert s[18] == ')';
      if EndsInNewline(s[19..]) { ValidateAnnotationKeepsEnd(s[19..]); }
      KeepsEnd(s, 19, "(.envoyproto.validate.required)", ValidateAnnotation(s[19..]));
    } else if |s| > 1 {
      ValidateAnnotationKeepsEnd(s[1..]);
      KeepsEnd(s, 1, [s[0]], ValidateAnnotation(s[1..]));
    }
  }

  lemma {:induction false} EnvoyReferenceKeepsEnd(s: string, afterSpace: bool)
    requires EndsInNewline(s)
    ensures EndsInNewline(EnvoyReferenceFrom(s, afterSpace))
    decreases |s|
  {
    if afterSpace && StartsWith(s, ".envoy.") {
      assert s[6] == '.';
      if EndsInNewline(s[7..]) { EnvoyReferenceKeepsEnd(s[7..], false); }
      KeepsEnd(s, 7, ".envoyproto.envoy.", EnvoyReferenceFrom(s[7..], false));
    } else if |s| > 1 {
      EnvoyReferenceKeepsEnd(s[1..], IsSpace(s[0]));
      KeepsEnd(s, 1, [s[0]], EnvoyReferenceFrom(s[1..], IsSpace(s[0])));
    }
  }

  lemma ImportPathKeepsEnd(line: string)
    requires EndsInNewline(line)
    ensures EndsInNewline(ImportPath(line))
  {
    if ImportPath(line) != line {
      var rest := line[7..];
      var modifier := if StartsWith(rest, "public ") then "public " else "";
      var target := rest[|modifier|..];
      var k := 7 + |modifier| + 1;
      assert line[k..] == target[1..];
      assert target[1..] != [] by {
        var d :| d in ImportRoots && StartsWith(target[1..], d + "/");
      }
      KeepsEnd(line, k, "import " + modifier + "\"" + "envoyproto/", target[1..]);
    }
  }

  lemma {:induction false} ProtobufQualifyKeepsEnd(s: string)
    requires EndsInNewline(s)
    ensures EndsInNewline(ProtobufQualify(s))
    decreases |s|
  {
    if ProtobufMatch(s) {
      assert s[16] == s[1..17][15] == '.';
      if EndsInNewline(s[17..]) { ProtobufQualifyKeepsEnd(s[17..]); }
      KeepsEnd(s, 17, [s[0]] + "." + Protobuf, ProtobufQualify(s[17..]));
    } else if |s| > 1 {
      ProtobufQualifyKeepsEnd(s[1..]);
      KeepsEnd(s, 1, [s[0]], ProtobufQualify(s[1..]));
    }
  }

  lemma ApplyKeepsEnd(rule: Rule, line: string)
    requires EndsInNewline(line)
    ensures EndsInNewline(Apply(rule, line))
  {
    match rule
    case PackagePrefixRule => PackagePrefixKeepsEnd(line);
    case LegacyRootsRule => LegacyRootsKeepsEnd(line, false);
    case ValidateAnnotationRule => ValidateAnnotationKeepsEnd(line);
    case EnvoyReferenceRule => EnvoyReferenceKeepsEnd(line, false);
    case ImportPathRule => ImportPathKeepsEnd(line);
    case ProtobufQualifyRule => ProtobufQualifyKeepsEnd(line);
  }

  /** A line that ends in a newline still does after all six rules. */
  lemma {:induction false} ApplyAllKeepsEnd(rules: seq<Rule>, line: string)
    requires EndsInNewline(line)
    ensures EndsInNewline(ApplyAll(rules, line))
    decreases |rules|
  {
    if rules != [] {
      ApplyKeepsEnd(rules[0], line);
      ApplyAllKeepsEnd(rules[1..], Apply(rules[0], line));
    }
  }
}
