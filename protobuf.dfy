// Rule 6 applied twice. It is idempotent on every line that does not hold
// `google.protobuf` immediately followed by `google.protobuf.`; on such a
// line the first pass creates a new unqualified occurrence.

module ProtobufRule {
  import opened Paths
  import opened Rules

  /** The one shape on which a second pass of rule 6 still changes the line. */
  const Doubled: string := "google.protobuf" + Protobuf

  /** Where `g` and `.` occur in `google.protobuf.`. */
  lemma ProtobufChars(j: int)
    requires 0 <= j < 16
    ensures Protobuf[j] == 'g' <==> j == 0 || j == 3
    ensures Protobuf[j] == '.' <==> j == 6 || j == 15
  {
    assert j == 0 || j == 1 || j == 2 || j == 3 || j == 4 || j == 5 || j == 6 || j == 7 ||
           j == 8 || j == 9 || j == 10 || j == 11 || j == 12 || j == 13 || j == 14 || j == 15;
  }

  /** Inside `google.protobu` rule 6 cannot match: the next character is
      not the `g` of a new name, or (after `goo`) is not followed by `o`. */
  lemma NoMatchInsideName(k: nat, t: string)
    requires k <= 12
    ensures !ProtobufMatch(Protobuf[k..14] + t)
  {
    var s := Protobuf[k..14] + t;
    if |s| >= 17 {
      ProtobufChars(k + 1);
      assert s[1] == Protobuf[k + 1];
      if k == 2 {
        assert s[2] == Protobuf[4];
        assert s[1..17][1] == s[2];
      } else {
        assert s[1..17][0] == s[1];
      }
    }
  }

  /** At the last letter `u` of the name, rule 6 matches only if a new
      unqualified name follows. */
  lemma NoMatchAtNameEnd(t: string)
    requires !StartsWith(t, Protobuf)
    ensures !ProtobufMatch(Protobuf[13..14] + t)
  {
    var s := Protobuf[13..14] + t;
    if |s| >= 17 {
      assert s[1..17] == t[..16];
    }
  }

  /** The character in front of `t` is copied when rule 6 does not match. */
  lemma CopiesFirst(c: char, t: string)
    requires !ProtobufMatch([c] + t)
    ensures ProtobufQualify([c] + t) == [c] + ProtobufQualify(t)
  {
    assert ([c] + t)[1..] == t;
  }

  /** Rule 6 copies the next letter of `google.protobu`. */
  lemma CopiesNameLetter(k: nat, t: string)
    requires k < 14
    requires !StartsWith(t, Protobuf)
    ensures ProtobufQualify(Protobuf[k..14] + t) == [Protobuf[k]] + ProtobufQualify(Protobuf[k + 1..14] + t)
  {
    var rest := Protobuf[k + 1..14];
    assert Protobuf[k..14] == [Protobuf[k]] + rest;
    Assoc([Protobuf[k]], rest, t);
    if k <= 12 { NoMatchInsideName(k, t); } else { NoMatchAtNameEnd(t); }
    CopiesFirst(Protobuf[k], rest + t);
  }

  /** Rule 6 copies `google.protobu` (or a tail of it) unchanged, as long as
      what follows does not start a new `google.protobuf.`. */
  lemma {:induction false} CopiesNamePrefix(k: nat, t: string)
    requires k <= 14
    requires k == 14 || !StartsWith(t, Protobuf)
    ensures ProtobufQualify(Protobuf[k..14] + t) == Protobuf[k..14] + ProtobufQualify(t)
    decreases 14 - k
  {
    if k < 14 {
      CopiesNameLetter(k, t);
      CopiesNamePrefix(k + 1, t);
      assert Protobuf[k..14] == [Protobuf[k]] + Protobuf[k + 1..14];
      Assoc([Protobuf[k]], Protobuf[k + 1..14], ProtobufQualify(t));
    } else {
      assert Protobuf[k..14] + t == t;
    }
  }

  /** The last two characters `f.` of a qualified name are copied. */
  lemma CopiesNameEnd(t: string)
    ensures ProtobufQualify("f." + t) == "f." + ProtobufQualify(t)
  {
    var rest := "f." + t;
    assert rest == ['f'] + ("." + t);
    assert !ProtobufMatch(rest) by {
      if |rest| >= 17 { assert rest[1..17][0] == rest[1] == '.'; }
    }
    CopiesFirst('f', "." + t);
    assert !ProtobufMatch("." + t) by { assert ("." + t)[0] == '.'; }
    CopiesFirst('.', t);
    Assoc("f", ".", ProtobufQualify(t));
  }

  lemma QualifiedNameKept(t: string)
    ensures ProtobufQualify(Protobuf + t) == Protobuf + ProtobufQualify(t)
  {
    var name := Protobuf[0..14];
    var rest := "f." + t;
    assert Protobuf == name + "f.";
    Assoc(name, "f.", t);
    assert !StartsWith(rest, Protobuf) by { assert rest[0] != Protobuf[0]; }
    CopiesNamePrefix(0, rest);
    CopiesNameEnd(t);
    Assoc(name, "f.", ProtobufQualify(t));
  }

  /** When rule 6 matches at the front of `t`, its output can only begin
      with a tail of `google.protobuf.` if that tail is `f.` and the input
      was `f` followed by a whole unqualified name. */
  lemma OutputPrefixAtMatch(k: nat, t: string)
    requires k <= 15 && ProtobufMatch(t)
    requires StartsWith(ProtobufQualify(t), Protobuf[k..])
    ensures k == 14 && StartsWith(t, Protobuf[k..15] + Protobuf)
  {
    var r := ProtobufQualify(t);
    assert r == [t[0]] + "." + Protobuf + ProtobufQualify(t[17..]);
    assert r[0] == Protobuf[k] && r[0] == t[0] && r[1] == '.' && r[2] == 'g';
    assert k != 15;
    assert r[1] == Protobuf[k + 1];
    ProtobufChars(k + 1);
    assert k != 5 by { assert Protobuf[7] == 'p'; }
    assert k == 14;
    assert t[..17] == Protobuf[14..15] + Protobuf;
  }

  /** Where rule 6 does not match, its output begins with the first
      character of its input, followed by the output for the rest. */
  lemma OutputPrefixStep(k: nat, t: string)
    requires k <= 15 && !ProtobufMatch(t)
    requires StartsWith(ProtobufQualify(t), Protobuf[k..])
    ensures t != [] && t[0] == Protobuf[k]
    ensures StartsWith(ProtobufQualify(t[1..]), Protobuf[k + 1..])
  {
    assert t != [];
    var r := ProtobufQualify(t);
    assert r == [t[0]] + ProtobufQualify(t[1..]);
    assert r[0] == Protobuf[k..][0];
    assert r[1..] == ProtobufQualify(t[1..]);
    assert Protobuf[k..][1..] == Protobuf[k + 1..];
  }

  lemma StartsWithCons(t: string, p: string)
    requires t != [] && p != [] && t[0] == p[0] && StartsWith(t[1..], p[1..])
    ensures StartsWith(t, p)
  {
    assert t[..|p|] == [t[0]] + t[1..][..|p| - 1];
    assert p == [p[0]] + p[1..];
  }

  /** If rule 6's output begins with the tail `Protobuf[k..]`, the input
      began with that tail, or with `Protobuf[k..15]` followed by a whole
      unqualified name (the dot then comes from the rule). */
  lemma {:induction false} OutputPrefix(k: nat, t: string)
    requires k <= 15
    requires StartsWith(ProtobufQualify(t), Protobuf[k..])
    ensures StartsWith(t, Protobuf[k..]) || StartsWith(t, Protobuf[k..15] + Protobuf)
    decreases |t|
  {
    if ProtobufMatch(t) {
      OutputPrefixAtMatch(k, t);
    } else {
      OutputPrefixStep(k, t);
      if k < 15 {
        OutputPrefix(k + 1, t[1..]);
        var whole := Protobuf[k..15] + Protobuf;
        assert Protobuf[k..][0] == Protobuf[k] && Protobuf[k..][1..] == Protobuf[k + 1..];
        assert whole[0] == Protobuf[k] && whole[1..] == Protobuf[k + 1..15] + Protobuf;
        if StartsWith(t[1..], Protobuf[k + 1..]) {
          StartsWithCons(t, Protobuf[k..]);
        } else {
          StartsWithCons(t, whole);
        }
      } else {
        assert Protobuf[k..] == [t[0]];
      }
    }
  }

  /** No suffix of `s` starts with `Doubled`. */
  predicate NoDoubled(s: string)
    decreases |s|
  {
    !StartsWith(s, Doubled) && (s == [] || NoDoubled(s[1..]))
  }

  lemma {:induction false} NoDoubledTail(s: string, n: nat)
    requires NoDoubled(s) && n <= |s|
    ensures NoDoubled(s[n..])
    decreases n
  {
    if n > 0 {
      NoDoubledTail(s[1..], n - 1);
      assert s[1..][n - 1..] == s[n..];
    }
  }

  /** The output after a copied character can only start a match where the
      input already did, unless the input starts with `Doubled`. */
  lemma MatchAfterCopy(c: char, t: string)
    requires !StartsWith(t, Doubled)
    ensures ProtobufMatch([c] + ProtobufQualify(t)) ==> ProtobufMatch([c] + t)
  {
    var out := [c] + ProtobufQualify(t);
    if ProtobufMatch(out) {
      assert out[1..17] == ProtobufQualify(t)[..16];
      assert Protobuf[0..] == Protobuf;
      OutputPrefix(0, t);
      assert Protobuf[0..15] + Protobuf == Doubled;
      assert ([c] + t)[1..17] == t[..16];
    }
  }

  lemma Assoc(a: string, b: string, c: string)
    ensures a + b + c == a + (b + c)
  {
  }

  lemma Regroup(a: string, b: string, c: string, d: string)
    ensures a + b + c + d == a + (b + (c + d))
  {
  }

  /** A second pass leaves a match of the first pass alone: the inserted
      dot makes the name qualified. */
  lemma IdempotentAtMatch(s: string)
    requires ProtobufMatch(s)
    requires ProtobufQualify(ProtobufQualify(s[17..])) == ProtobufQualify(s[17..])
    ensures ProtobufQualify(ProtobufQualify(s)) == ProtobufQualify(s)
  {
    var tail := ProtobufQualify(s[17..]);
    var named := Protobuf + tail;
    var dotted := "." + named;
    Regroup([s[0]], ".", Protobuf, tail);
    assert ProtobufQualify(s) == [s[0]] + dotted;
    var once := [s[0]] + dotted;
    assert !ProtobufMatch(once) by { assert once[1..17][0] == once[1] == '.'; }
    CopiesFirst(s[0], dotted);
    assert !ProtobufMatch(dotted) by { assert dotted[0] == '.'; }
    CopiesFirst('.', named);
    QualifiedNameKept(tail);
  }

  /** A second pass copies a character the first pass copied. */
  lemma IdempotentAtCopy(s: string)
    requires s != [] && !ProtobufMatch(s) && !StartsWith(s[1..], Doubled)
    requires ProtobufQualify(ProtobufQualify(s[1..])) == ProtobufQualify(s[1..])
    ensures ProtobufQualify(ProtobufQualify(s)) == ProtobufQualify(s)
  {
    var t := s[1..];
    assert s == [s[0]] + t;
    CopiesFirst(s[0], t);
    MatchAfterCopy(s[0], t);
    CopiesFirst(s[0], ProtobufQualify(t));
  }

  /** Rule 6 is idempotent on every line without `Doubled` in it. */
  lemma {:induction false} QualifyIdempotent(s: string)
    requires NoDoubled(s)
    ensures ProtobufQualify(ProtobufQualify(s)) == ProtobufQualify(s)
    decreases |s|
  {
    if ProtobufMatch(s) {
      NoDoubledTail(s, 17);
      QualifyIdempotent(s[17..]);
      IdempotentAtMatch(s);
    } else if s != [] {
      NoDoubledTail(s, 1);
      QualifyIdempotent(s[1..]);
      IdempotentAtCopy(s);
    }
  }

  lemma QualifiesTrailingName()
    ensures ProtobufQualify("f" + Protobuf) == "f." + Protobuf
  {
    var last := "f" + Protobuf;
    assert ProtobufMatch(last) && last[17..] == [];
  }

  /** `Doubled` is the name prefix `google.protobu` followed by `f` and a
      complete `google.protobuf.`. */
  lemma DoubledSplit()
    ensures Doubled == Protobuf[0..14] + ("f" + Protobuf)
    ensures Protobuf[0..14] + ("f." + Protobuf) == Protobuf + Protobuf
    ensures !StartsWith("f" + Protobuf, Protobuf)
  {
    assert ("f" + Protobuf)[0] != Protobuf[0];
  }

  /** A first pass over `Doubled` qualifies the second name, and so turns
      the first into a complete `google.protobuf.` again. */
  lemma DoubledOnce()
    ensures ProtobufQualify(Doubled) == Protobuf + Protobuf
  {
    DoubledSplit();
    CopiesNamePrefix(0, "f" + Protobuf);
    QualifiesTrailingName();
  }

  /** On `c` followed by `Doubled`, a first pass turns the second name into
      a qualified one and in doing so makes the first an unqualified
      `c google.protobuf.`, which a second pass qualifies again. */
  lemma NotIdempotentOnDoubled(c: char)
    requires c != '.'
    ensures ProtobufQualify([c] + Doubled) == [c] + Protobuf + Protobuf
    ensures ProtobufQualify(ProtobufQualify([c] + Doubled)) == [c] + "." + Protobuf + Protobuf
  {
    var s := [c] + Doubled;
    assert !ProtobufMatch(s) by { assert s[16] == 'g' && Protobuf[15] == '.'; }
    assert s[1..] == Doubled;
    DoubledOnce();
    var once := [c] + Protobuf + Protobuf;
    assert ProtobufQualify(s) == once;
    assert ProtobufMatch(once) && once[17..] == Protobuf;
    QualifiedNameKept([]);
    assert Protobuf + [] == Protobuf;
  }
}
