// What each rule does and does not touch, and why their order matters:
// where every rule fires, what it leaves alone, and the worked example of
// rule 2 firing again on the text rule 1 produced.

module RuleFacts {
  import opened Paths
  import opened Rules
  import opened ProtobufRule

  /** The rule list, written out as the six reassignments of `line`. */
  lemma RewriteLineSteps(line: string)
    ensures RewriteLine(line) ==
      ProtobufQualify(ImportPath(EnvoyReference(ValidateAnnotation(LegacyRoots(PackagePrefix(line))))))
  {
    var s1 := PackagePrefix(line);
    var s2 := LegacyRoots(s1);
    var s3 := ValidateAnnotation(s2);
    var s4 := EnvoyReference(s3);
    var s5 := ImportPath(s4);
    assert Subs[1..] == [LegacyRootsRule, ValidateAnnotationRule, EnvoyReferenceRule, ImportPathRule, ProtobufQualifyRule];
    assert Subs[1..][1..] == [ValidateAnnotationRule, EnvoyReferenceRule, ImportPathRule, ProtobufQualifyRule];
    assert Subs[1..][1..][1..] == [EnvoyReferenceRule, ImportPathRule, ProtobufQualifyRule];
    assert Subs[1..][1..][1..][1..] == [ImportPathRule, ProtobufQualifyRule];
    assert Subs[1..][1..][1..][1..][1..] == [ProtobufQualifyRule];
    calc {
      ApplyAll(Subs, line);
      ApplyAll(Subs[1..], s1);
      ApplyAll(Subs[1..][1..], s2);
      ApplyAll(Subs[1..][1..][1..], s3);
      ApplyAll(Subs[1..][1..][1..][1..], s4);
      ApplyAll(Subs[1..][1..][1..][1..][1..], s5);
      ApplyAll([], ProtobufQualify(s5));
    }
  }

  // ---------------------------------------------------------------------
  // Rule 1: only at the start of the line
  // ---------------------------------------------------------------------

  /** Rule 1 changes a line exactly when it begins with `package `. */
  lemma PackagePrefixIff(line: string)
    ensures PackagePrefix(line) != line <==> StartsWith(line, "package ")
    ensures StartsWith(line, "package ") ==> |PackagePrefix(line)| == |line| + 11
  {
  }

  /** `package ` after any text that does not itself start the line with
      `package ` is left alone. */
  lemma PackageOnlyAtStart(pre: string, rest: string)
    requires pre != [] && !StartsWith(pre, "package ")
    ensures PackagePrefix(pre + "package " + rest) == pre + "package " + rest
  {
    var line := pre + "package " + rest;
    if |pre| >= 8 {
      assert line[..8] == pre[..8];
    } else {
      assert line[7] == "package "[7 - |pre|] != ' ';
    }
  }

  // ---------------------------------------------------------------------
  // Rule 2: at a word boundary only
  // ---------------------------------------------------------------------

  /** Every `u` and `x` in `u` follows a word character (or, at the front,
      `afterWord` holds), so none of them starts a word. */
  predicate NoRootAtBoundary(u: string, afterWord: bool) {
    (u != [] && (u[0] == 'u' || u[0] == 'x') ==> afterWord) &&
    forall i :: 0 < i < |u| && (u[i] == 'u' || u[i] == 'x') ==> IsWordChar(u[i - 1])
  }

  /** Text without `u` or `x` holds no root name at all. */
  lemma NoRootLetters(u: string, afterWord: bool)
    requires 'u' !in u && 'x' !in u
    ensures NoRootAtBoundary(u, afterWord)
  {
    assert forall i :: 0 <= i < |u| ==> u[i] in u;
  }

  /** Whether the character before what follows `u` is a word character. */
  function WordBefore(u: string, afterWord: bool): bool {
    if u == [] then afterWord else IsWordChar(u[|u| - 1])
  }

  /** Rule 2 copies a character that does not start `udpa.` or `xds.` at a
      word boundary. */
  lemma LegacyRootsStep(s: string, afterWord: bool)
    requires s != [] && (afterWord || (s[0] != 'u' && s[0] != 'x'))
    ensures LegacyRootsFrom(s, afterWord) == [s[0]] + LegacyRootsFrom(s[1..], IsWordChar(s[0]))
  {
    if !afterWord {
      assert !StartsWith(s, "udpa.") by { if |s| >= 5 { assert s[..5][0] == s[0]; } }
      assert !StartsWith(s, "xds.") by { if |s| >= 4 { assert s[..4][0] == s[0]; } }
    }
  }

  lemma NoRootTail(u: string, afterWord: bool)
    requires u != [] && NoRootAtBoundary(u, afterWord)
    ensures NoRootAtBoundary(u[1..], IsWordChar(u[0]))
  {
    if |u| > 1 {
      assert u[1..][0] == u[1];
    }
    forall i | 0 < i < |u[1..]| && (u[1..][i] == 'u' || u[1..][i] == 'x')
      ensures IsWordChar(u[1..][i - 1])
    {
      assert u[1..][i] == u[i + 1];
    }
  }

  lemma WordBeforeTail(u: string, afterWord: bool)
    requires u != []
    ensures WordBefore(u[1..], IsWordChar(u[0])) == WordBefore(u, afterWord)
  {
  }

  /** `LegacyRootsStep` for text `u + w` with `u` non-empty. */
  lemma LegacyRootsConsStep(u: string, w: string, afterWord: bool)
    requires u != [] && (afterWord || (u[0] != 'u' && u[0] != 'x'))
    ensures LegacyRootsFrom(u + w, afterWord) == [u[0]] + LegacyRootsFrom(u[1..] + w, IsWordChar(u[0]))
  {
    var s := u + w;
    assert s[0] == u[0];
    assert s[1..] == u[1..] + w;
    LegacyRootsStep(s, afterWord);
  }

  /** Rule 2 copies text in which no `udpa.` or `xds.` starts a word. */
  lemma {:induction false} LegacyRootsCopies(u: string, w: string, afterWord: bool)
    requires NoRootAtBoundary(u, afterWord)
    ensures LegacyRootsFrom(u + w, afterWord) == u + LegacyRootsFrom(w, WordBefore(u, afterWord))
    decreases |u|
  {
    if u == [] {
      assert u + w == w;
    } else {
      NoRootTail(u, afterWord);
      LegacyRootsCopies(u[1..], w, IsWordChar(u[0]));
      WordBeforeTail(u, afterWord);
      LegacyRootsConsStep(u, w, afterWord);
      ConsConcat(u, LegacyRootsFrom(w, WordBefore(u, afterWord)), LegacyRootsFrom(u + w, afterWord));
    }
  }

  /** `udpa.` or `xds.` starts at index `i` of `s` at a word boundary:
      the character before it (or, at the front, `afterWord`) is not a word
      character. */
  predicate RootNameAt(s: string, i: nat, afterWord: bool)
    requires i < |s|
  {
    (if i == 0 then !afterWord else !IsWordChar(s[i - 1])) &&
    (StartsWith(s[i..], "udpa.") || StartsWith(s[i..], "xds."))
  }

  predicate NoRootName(s: string, afterWord: bool) {
    forall i: nat :: i < |s| ==> !RootNameAt(s, i, afterWord)
  }

  lemma NoRootNameTail(s: string, afterWord: bool)
    requires s != [] && NoRootName(s, afterWord)
    ensures NoRootName(s[1..], IsWordChar(s[0]))
  {
    forall i: nat | i < |s[1..]| ensures !RootNameAt(s[1..], i, IsWordChar(s[0])) {
      assert !RootNameAt(s, i + 1, afterWord);
      assert s[1..][i..] == s[i + 1..];
      if i > 0 { assert s[1..][i - 1] == s[i]; }
    }
  }

  /** Text without `udpa.` or `xds.` at a word boundary is copied whole. */
  lemma {:induction false} LegacyRootsKeeps(s: string, afterWord: bool)
    requires NoRootName(s, afterWord)
    ensures LegacyRootsFrom(s, afterWord) == s
    decreases |s|
  {
    if s != [] {
      assert !RootNameAt(s, 0, afterWord);
      assert s[0..] == s;
      NoRootNameTail(s, afterWord);
      LegacyRootsKeeps(s[1..], IsWordChar(s[0]));
      assert s == [s[0]] + s[1..];
    }
  }

  /** A root name at the front of text after no word character. */
  lemma LegacyRootAtFront(name: string, v: string)
    requires name == "udpa." || name == "xds."
    ensures LegacyRootsFrom(name + v, false) == "envoyproto." + name + LegacyRootsFrom(v, false)
  {
    var w := name + v;
    if name == "udpa." {
      assert StartsWith(w, "udpa.") && w[5..] == v;
    } else {
      assert w[0] == 'x' && StartsWith(w, "xds.") && w[4..] == v;
    }
  }

  /** No root name at a word boundary starts in the first `n` characters of
      `s`. */
  predicate NoRootNameBefore(s: string, n: nat, afterWord: bool) {
    forall i: nat :: i < n && i < |s| ==> !RootNameAt(s, i, afterWord)
  }

  /** Rule 2 copies a prefix `u` in which no root name starts at a word
      boundary; a name may still start right after it. */
  lemma {:induction false} LegacyRootsCopiesBefore(u: string, w: string, afterWord: bool)
    requires NoRootNameBefore(u + w, |u|, afterWord)
    ensures LegacyRootsFrom(u + w, afterWord) == u + LegacyRootsFrom(w, WordBefore(u, afterWord))
    decreases |u|
  {
    if u == [] {
      assert u + w == w;
    } else {
      var s := u + w;
      assert !RootNameAt(s, 0, afterWord);
      assert s[0..] == s && s[0] == u[0] && s[1..] == u[1..] + w;
      forall i: nat | i < |u[1..]| && i < |s[1..]|
        ensures !RootNameAt(s[1..], i, IsWordChar(u[0]))
      {
        assert !RootNameAt(s, i + 1, afterWord);
        assert s[1..][i..] == s[i + 1..];
        if i > 0 { assert s[1..][i - 1] == s[i]; }
      }
      LegacyRootsCopiesBefore(u[1..], w, IsWordChar(u[0]));
      WordBeforeTail(u, afterWord);
      ConsConcat(u, LegacyRootsFrom(w, WordBefore(u, afterWord)), LegacyRootsFrom(s, afterWord));
    }
  }

  /** A prefix where every `u` and `x` follows a word character holds no
      root name at a word boundary, whatever follows it. */
  lemma NoRootNameInPrefix(u: string, w: string, afterWord: bool)
    requires NoRootAtBoundary(u, afterWord)
    ensures NoRootNameBefore(u + w, |u|, afterWord)
  {
    var s := u + w;
    forall i: nat | i < |u| ensures !RootNameAt(s, i, afterWord) {
      assert s[i] == u[i];
      if i > 0 { assert s[i - 1] == u[i - 1]; }
      if StartsWith(s[i..], "udpa.") { assert s[i..][0] == 'u'; }
      if StartsWith(s[i..], "xds.") { assert s[i..][0] == 'x'; }
    }
  }

  /** A root name at a word boundary is moved under `envoyproto.`, and the
      text before it, holding no root name at a word boundary, is kept. */
  lemma LegacyRootAtBoundary(u: string, name: string, v: string)
    requires name == "udpa." || name == "xds."
    requires NoRootNameBefore(u + (name + v), |u|, false) && !WordBefore(u, false)
    ensures LegacyRoots(u + (name + v)) == u + ("envoyproto." + name + LegacyRootsFrom(v, false))
  {
    LegacyRootsCopiesBefore(u, name + v, false);
    LegacyRootAtFront(name, v);
  }

  /** In `// use ` the only `u` starts `use`, not `udpa.`. */
  lemma CommentHoldsNoRoot(u: string, w: string)
    requires u == "// use " && StartsWith(w, "xds.")
    ensures NoRootNameBefore(u + w, |u|, false)
  {
    var s := u + w;
    forall i: nat | i < |u| ensures !RootNameAt(s, i, false) {
      assert s[i..][0] == s[i] == u[i];
      if i == 3 {
        assert s[i..][1] == u[4] == 's';
      } else {
        assert u[i] != 'u' && u[i] != 'x';
      }
    }
  }

  /** A comment naming a root after another word starting with `u` is
      rewritten too. */
  lemma LegacyRootInComment()
    ensures LegacyRoots("// use " + ("xds." + "v3")) == "// use " + ("envoyproto." + "xds." + "v3")
  {
    var u := "// use ";
    var v := "v3";
    PrefixOfConcat("xds.", v);
    CommentHoldsNoRoot(u, "xds." + v);
    LegacyRootAtBoundary(u, "xds.", v);
    NoRootLetters(v, false);
    LegacyRootsCopies(v, [], false);
    assert v + [] == v;
  }

  /** `myxds.` holds no word boundary in front of `xds.`. */
  lemma LegacyRootsInsideWord()
    ensures LegacyRoots("myxds.") == "myxds."
  {
    LegacyRootsCopies("myxds.", [], false);
    assert "myxds." + [] == "myxds.";
  }

  // ---------------------------------------------------------------------
  // Rule 3
  // ---------------------------------------------------------------------

  /** `(validate.rules)` or `(validate.required)` starts at index `i` of
      `s`. */
  predicate AnnotationAt(s: string, i: nat)
    requires i < |s|
  {
    StartsWith(s[i..], "(validate.rules)") || StartsWith(s[i..], "(validate.required)")
  }

  /** No annotation starts in the first `n` characters of `s`. */
  predicate NoAnnotationBefore(s: string, n: nat) {
    forall i: nat :: i < n && i < |s| ==> !AnnotationAt(s, i)
  }

  /** Rule 3 copies a prefix `u` in which no annotation starts; one may
      still start right after it. */
  lemma {:induction false} ValidateAnnotationCopies(u: string, w: string)
    requires NoAnnotationBefore(u + w, |u|)
    ensures ValidateAnnotation(u + w) == u + ValidateAnnotation(w)
    decreases |u|
  {
    if u == [] {
      assert u + w == w;
    } else {
      var s := u + w;
      assert !AnnotationAt(s, 0);
      assert s[0..] == s && s[0] == u[0] && s[1..] == u[1..] + w;
      forall i: nat | i < |u[1..]| && i < |s[1..]| ensures !AnnotationAt(s[1..], i) {
        assert !AnnotationAt(s, i + 1);
        assert s[1..][i..] == s[i + 1..];
      }
      ValidateAnnotationCopies(u[1..], w);
      ConsConcat(u, ValidateAnnotation(w), ValidateAnnotation(s));
    }
  }

  /** Text without an opening parenthesis holds no annotation, whatever
      follows it. */
  lemma NoParenNoAnnotation(u: string, w: string)
    requires '(' !in u
    ensures NoAnnotationBefore(u + w, |u|)
  {
    var s := u + w;
    forall i: nat | i < |u| ensures !AnnotationAt(s, i) {
      assert s[i..][0] == s[i] == u[i];
      assert u[i] in u;
    }
  }

  lemma ValidateRulesAtFront(rest: string)
    ensures ValidateAnnotation("(validate.rules)" + rest) ==
      "(" + ".envoyproto." + "validate.rules)" + ValidateAnnotation(rest)
  {
    PrefixOfConcat("(validate.rules)", rest);
  }

  lemma ValidateRequiredAtFront(rest: string)
    ensures ValidateAnnotation("(validate.required)" + rest) ==
      "(" + ".envoyproto." + "validate.required)" + ValidateAnnotation(rest)
  {
    var b := "(validate.required)" + rest;
    PrefixOfConcat("(validate.required)", rest);
    assert !StartsWith(b, "(validate.rules)") by { assert b[11] == 'e'; }
  }

  /** `(validate.rules)` moves under `.envoyproto.`, and the text before
      it, holding no annotation, is kept. */
  lemma ValidateRulesRewrites(pre: string, rest: string)
    requires NoAnnotationBefore(pre + ("(validate.rules)" + rest), |pre|)
    ensures ValidateAnnotation(pre + ("(validate.rules)" + rest)) ==
      pre + ("(" + ".envoyproto." + "validate.rules)" + ValidateAnnotation(rest))
  {
    ValidateAnnotationCopies(pre, "(validate.rules)" + rest);
    ValidateRulesAtFront(rest);
  }

  /** `(validate.required)` moves under `.envoyproto.`, and the text
      before it, holding no annotation, is kept. */
  lemma ValidateRequiredRewrites(pre: string, rest: string)
    requires NoAnnotationBefore(pre + ("(validate.required)" + rest), |pre|)
    ensures ValidateAnnotation(pre + ("(validate.required)" + rest)) ==
      pre + ("(" + ".envoyproto." + "validate.required)" + ValidateAnnotation(rest))
  {
    ValidateAnnotationCopies(pre, "(validate.required)" + rest);
    ValidateRequiredAtFront(rest);
  }

  /** Without an opening parenthesis rule 3 changes nothing. */
  lemma {:induction false} ValidateAnnotationKeeps(s: string)
    requires '(' !in s
    ensures ValidateAnnotation(s) == s
    decreases |s|
  {
    if s != [] {
      assert s[0] != '(' by { assert s[0] in s; }
      assert !StartsWith(s, "(validate.rules)") by { if |s| >= 16 { assert s[..16][0] == s[0]; } }
      assert !StartsWith(s, "(validate.required)") by { if |s| >= 19 { assert s[..19][0] == s[0]; } }
      assert ValidateAnnotation(s) == [s[0]] + ValidateAnnotation(s[1..]);
      assert '(' !in s[1..] by {
        forall c | c in s[1..] ensures c != '(' { assert c in s; }
      }
      ValidateAnnotationKeeps(s[1..]);
      assert s == [s[0]] + s[1..];
    }
  }

  /** An annotation inside a field's options is rewritten where it stands. */
  lemma ValidateInField()
    ensures ValidateAnnotation("  string n = 1 [" + ("(validate.rules)" + ".string.min_len = 1];")) ==
      "  string n = 1 [" + ("(" + ".envoyproto." + "validate.rules)" + ".string.min_len = 1];")
  {
    var pre := "  string n = 1 [";
    var rest := ".string.min_len = 1];";
    assert '(' !in pre && '(' !in rest;
    NoParenNoAnnotation(pre, "(validate.rules)" + rest);
    ValidateRulesRewrites(pre, rest);
    ValidateAnnotationKeeps(rest);
  }

  // ---------------------------------------------------------------------
  // Rule 4: after whitespace only, the whitespace kept
  // ---------------------------------------------------------------------

  predicate AllSpace(ws: string) {
    forall c :: c in ws ==> IsSpace(c)
  }

  predicate NoneSpace(u: string) {
    forall c :: c in u ==> !IsSpace(c)
  }

  /** Rule 4 copies a whitespace run, and whatever follows it is read as
      text after whitespace. */
  lemma {:induction false} EnvoySpacesCopied(ws: string, t: string, afterSpace: bool)
    requires ws != [] && AllSpace(ws)
    ensures EnvoyReferenceFrom(ws + t, afterSpace) == ws + EnvoyReferenceFrom(t, true)
    decreases |ws|
  {
    var s := ws + t;
    assert ws[0] in ws;
    assert s[0] == ws[0] && s[0] != '.';
    assert !StartsWith(s, ".envoy.") by { if |s| >= 7 { assert s[..7][0] == s[0]; } }
    assert s[1..] == ws[1..] + t;
    if |ws| == 1 {
      assert ws[1..] + t == t;
      assert ws == [ws[0]];
    } else {
      assert AllSpace(ws[1..]) by {
        forall c | c in ws[1..] ensures IsSpace(c) { assert c in ws; }
      }
      EnvoySpacesCopied(ws[1..], t, true);
      assert ws == [ws[0]] + ws[1..];
    }
  }

  /** `.envoy.` right after whitespace becomes `.envoyproto.envoy.`. */
  lemma EnvoyAfterSpace(rest: string)
    ensures EnvoyReferenceFrom(".envoy." + rest, true) ==
      "." + "envoyproto." + "envoy." + EnvoyReferenceFrom(rest, false)
  {
    PrefixOfConcat(".envoy.", rest);
  }

  /** A whitespace run in front of `.envoy.` is kept, and the reference
      becomes `.envoyproto.envoy.`. */
  lemma EnvoyAfterSpaces(ws: string, rest: string, afterSpace: bool)
    requires ws != [] && AllSpace(ws)
    ensures EnvoyReferenceFrom(ws + (".envoy." + rest), afterSpace) ==
      ws + ("." + "envoyproto." + "envoy." + EnvoyReferenceFrom(rest, false))
  {
    EnvoySpacesCopied(ws, ".envoy." + rest, afterSpace);
    EnvoyAfterSpace(rest);
  }

  /** Text without whitespace is copied by rule 4, and so is what follows
      it up to the next whitespace. */
  lemma {:induction false} EnvoyReferenceCopies(u: string, w: string, afterSpace: bool)
    requires u != [] && NoneSpace(u) && (afterSpace ==> u[0] != '.')
    ensures EnvoyReferenceFrom(u + w, afterSpace) == u + EnvoyReferenceFrom(w, false)
    decreases |u|
  {
    var s := u + w;
    assert u[0] in u;
    assert s[0] == u[0] && s[1..] == u[1..] + w;
    if |u| == 1 {
      assert u[1..] + w == w;
    } else {
      assert NoneSpace(u[1..]) by {
        forall c | c in u[1..] ensures !IsSpace(c) { assert c in u; }
      }
      EnvoyReferenceCopies(u[1..], w, false);
    }
  }

  /** `.envoy.` that does not follow whitespace is left alone. */
  lemma EnvoyWithoutSpaceKept(name: string)
    requires name != [] && NoneSpace(name)
    ensures EnvoyReference(name + ".envoy.") == name + ".envoy."
  {
    EnvoyReferenceCopies(name + ".envoy.", [], false) by {
      assert NoneSpace(name + ".envoy.") by {
        forall c | c in name + ".envoy." ensures !IsSpace(c) {
          if c in name {
          } else {
            assert c in ".envoy.";
          }
        }
      }
    }
    assert name + ".envoy." + [] == name + ".envoy.";
  }

  // ---------------------------------------------------------------------
  // Rule 5: listed import roots only
  // ---------------------------------------------------------------------

  /** `line` is an import of `d/rest` with modifier `m`. */
  predicate ImportOf(line: string, m: string, d: string, rest: string) {
    m in Modifiers && d in ImportRoots && line == "import " + (m + ("\"" + (d + "/" + rest)))
  }

  /** How rule 5 reads `import <m>"<tail>`: it keeps the line unless
      `tail` begins with a listed root and a slash. */
  lemma ImportPathOf(line: string, m: string, tail: string)
    requires m in Modifiers && line == "import " + (m + ("\"" + tail))
    ensures ImportPath(line) ==
      if exists d :: d in ImportRoots && StartsWith(tail, d + "/")
      then "import " + m + "\"" + "envoyproto/" + tail
      else line
  {
    PrefixOfConcat("import ", m + ("\"" + tail));
    var r := line[7..];
    PrefixOfConcat(m, "\"" + tail);
    if m == "" {
      assert r[0] == '"';
      assert !StartsWith(r, "public ") by { if |r| >= 7 { assert r[..7][0] == r[0]; } }
    } else {
      assert m == "public ";
    }
    PrefixOfConcat("\"", tail);
  }

  /** An import from a listed root moves under `envoyproto/`, keeping its
      modifier. */
  lemma ImportPathRewrites(line: string, m: string, d: string, rest: string)
    requires ImportOf(line, m, d, rest)
    ensures ImportPath(line) == "import " + m + "\"" + "envoyproto/" + (d + "/" + rest)
  {
    ImportPathOf(line, m, d + "/" + rest);
    PrefixOfConcat(d + "/", rest);
  }

  /** Imports of `google/protobuf/...` are not under a listed root. */
  lemma ProtobufImportNotListed(rest: string)
    ensures forall d :: d in ImportRoots ==> !StartsWith("google/protobuf/" + rest, d + "/")
  {
    var t := "google/protobuf/" + rest;
    forall d | d in ImportRoots
      ensures !StartsWith(t, d + "/")
    {
      if |d + "/"| <= |t| {
        if d[0] != 'g' {
          assert t[..|d + "/"|][0] != (d + "/")[0];
        } else {
          assert t[..|d + "/"|][7] != (d + "/")[7];
        }
      }
    }
  }

  /** `import "google/protobuf/..."` lines are left unchanged. */
  lemma ProtobufImportKept(m: string, rest: string)
    requires m in Modifiers
    ensures ImportPath("import " + (m + ("\"" + ("google/protobuf/" + rest)))) ==
      "import " + (m + ("\"" + ("google/protobuf/" + rest)))
  {
    var line := "import " + (m + ("\"" + ("google/protobuf/" + rest)));
    ImportPathOf(line, m, "google/protobuf/" + rest);
    ProtobufImportNotListed(rest);
  }

  /** A line rule 5 changes is an import of a listed root. */
  lemma ImportPathChangedIsImport(line: string)
    requires ImportPath(line) != line
    ensures exists m, d, rest :: ImportOf(line, m, d, rest)
  {
    var r := line[7..];
    var m := if StartsWith(r, "public ") then "public " else "";
    var target := r[|m|..];
    var tail := target[1..];
    StartsWithSplit(line, "import ");
    StartsWithSplit(r, m);
    StartsWithSplit(target, "\"");
    assert line == "import " + (m + ("\"" + tail));
    var d :| d in ImportRoots && StartsWith(tail, d + "/");
    var rest := tail[|d| + 1..];
    StartsWithSplit(tail, d + "/");
    assert ImportOf(line, m, d, rest);
  }

  /** Rule 5 changes a line exactly when it imports from a listed root. */
  lemma ImportPathIff(line: string)
    ensures ImportPath(line) != line <==> exists m, d, rest :: ImportOf(line, m, d, rest)
  {
    if ImportPath(line) != line {
      ImportPathChangedIsImport(line);
    }
    if exists m, d, rest :: ImportOf(line, m, d, rest) {
      var m, d, rest :| ImportOf(line, m, d, rest);
      ImportPathRewrites(line, m, d, rest);
      assert |ImportPath(line)| == |line| + 11;
    }
  }

  // ---------------------------------------------------------------------
  // Rule 6
  // ---------------------------------------------------------------------

  /** An unqualified name after any character but `.` gains a dot. */
  lemma ProtobufQualifies(c: char, rest: string)
    requires c != '.'
    ensures ProtobufQualify([c] + Protobuf + rest) == [c] + "." + Protobuf + ProtobufQualify(rest)
  {
    var s := [c] + Protobuf + rest;
    assert s[1..17] == Protobuf && s[17..] == rest;
  }

  /** A name that is already qualified is left as it is. */
  lemma ProtobufQualifiedKept(rest: string)
    ensures ProtobufQualify("." + (Protobuf + rest)) == "." + (Protobuf + ProtobufQualify(rest))
  {
    CopiesFirst('.', Protobuf + rest);
    QualifiedNameKept(rest);
  }

  /** Without an `f` there is no `google.protobuf.` to qualify. */
  lemma {:induction false} ProtobufQualifyKeeps(s: string)
    requires 'f' !in s
    ensures ProtobufQualify(s) == s
    decreases |s|
  {
    if s != [] {
      assert !ProtobufMatch(s) by {
        if |s| >= 17 {
          assert s[15] in s;
          assert s[1..17][14] == s[15] != Protobuf[14];
        }
      }
      assert 'f' !in s[1..] by {
        forall c | c in s[1..] ensures c != 'f' { assert c in s; }
      }
      ProtobufQualifyKeeps(s[1..]);
      assert s == [s[0]] + s[1..];
    }
  }

  // ---------------------------------------------------------------------
  // Order matters
  // ---------------------------------------------------------------------

  /** The line `package xds.core.v3;` and its newline. */
  const PackageLine: string := "package " + ("xds." + ("core.v3;" + "\n"))
  /** `package envoyproto.envoyproto.xds.core.v3;` and its newline. */
  const PackageLineOut: string := "package " + "envoyproto." + ("envoyproto." + "xds." + ("core.v3;" + "\n"))
  /** The qualified package name of the rewritten line. */
  const Qualified: string := "envoyproto." + ("envoyproto." + "xds." + "core.v3;")

  lemma OrderRule1()
    ensures PackagePrefix(PackageLine) == "package " + "envoyproto." + ("xds." + ("core.v3;" + "\n"))
  {
    PrefixOfConcat("package ", "xds." + ("core.v3;" + "\n"));
  }

  lemma OrderRule2()
    ensures LegacyRoots("package " + "envoyproto." + ("xds." + ("core.v3;" + "\n"))) == PackageLineOut
  {
    var u := "package " + "envoyproto.";
    var v := "core.v3;" + "\n";
    assert 'u' !in u && 'x' !in u && 'u' !in v && 'x' !in v;
    NoRootLetters(u, false);
    NoRootLetters(v, false);
    NoRootNameInPrefix(u, "xds." + v, false);
    LegacyRootAtBoundary(u, "xds.", v);
    LegacyRootsCopies(v, [], false);
    assert v + [] == v;
  }

  /** The rewritten line regrouped around its one space. */
  lemma OrderRegroup(p: string, sp: string, e: string, x: string, c: string, nl: string)
    ensures p + sp + e + (e + x + (c + nl)) == p + (sp + ((e + (e + x + c)) + nl))
  {
  }

  lemma OrderPieces()
    ensures PackageLineOut == "package" + (" " + (Qualified + "\n"))
  {
    assert "package " == "package" + " ";
    OrderRegroup("package", " ", "envoyproto.", "xds.", "core.v3;", "\n");
  }

  lemma NoneSpaceAppend(a: string, b: string)
    requires NoneSpace(a) && NoneSpace(b)
    ensures NoneSpace(a + b)
  {
    forall c | c in a + b ensures !IsSpace(c) {
      if c !in a { assert c in b; }
    }
  }

  lemma OrderNoSpace()
    ensures NoneSpace(Qualified) && NoneSpace("package")
  {
    assert NoneSpace("envoyproto.");
    assert NoneSpace("xds.");
    assert NoneSpace("core.v3;");
    NoneSpaceAppend("envoyproto.", "xds.");
    NoneSpaceAppend("envoyproto." + "xds.", "core.v3;");
    NoneSpaceAppend("envoyproto.", "envoyproto." + "xds." + "core.v3;");
  }

  lemma OrderNoOtherRule()
    ensures '(' !in PackageLineOut && 'f' !in PackageLineOut
  {
    assert '(' !in "package " && '(' !in "envoyproto." && '(' !in "xds." && '(' !in "core.v3;" + "\n";
    assert 'f' !in "package " && 'f' !in "envoyproto." && 'f' !in "xds." && 'f' !in "core.v3;" + "\n";
  }

  lemma OrderRule4()
    ensures EnvoyReference(PackageLineOut) == PackageLineOut
  {
    OrderNoSpace();
    OrderPieces();
    EnvoyReferenceCopies(Qualified, "\n", true);
    assert EnvoyReferenceFrom("\n", false) == "\n";
    var spaced := " " + (Qualified + "\n");
    assert spaced[0] == ' ' && spaced[1..] == Qualified + "\n";
    assert EnvoyReferenceFrom(spaced, false) == " " + EnvoyReferenceFrom(Qualified + "\n", true);
    EnvoyReferenceCopies("package", spaced, false);
  }

  lemma OrderRule5()
    ensures ImportPath(PackageLineOut) == PackageLineOut
  {
    assert !StartsWith(PackageLineOut, "import ") by { assert PackageLineOut[0] == 'p'; }
  }

  /** Rule 2 fires again on the `xds.` that follows the `envoyproto.` rule
      1 put in front of it, so a `package xds...` line is prefixed twice. */
  lemma PackageThenLegacyRoot()
    ensures RewriteLine(PackageLine) == PackageLineOut
  {
    var out := PackageLineOut;
    OrderNoOtherRule();
    RewriteLineSteps(PackageLine);
    calc {
      RewriteLine(PackageLine);
      ProtobufQualify(ImportPath(EnvoyReference(ValidateAnnotation(LegacyRoots(PackagePrefix(PackageLine))))));
      { OrderRule1(); OrderRule2(); }
      ProtobufQualify(ImportPath(EnvoyReference(ValidateAnnotation(out))));
      { ValidateAnnotationKeeps(out); }
      ProtobufQualify(ImportPath(EnvoyReference(out)));
      { OrderRule4(); }
      ProtobufQualify(ImportPath(out));
      { OrderRule5(); }
      ProtobufQualify(out);
      { ProtobufQualifyKeeps(out); }
      out;
    }
  }
}
