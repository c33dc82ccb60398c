// The six rewrite rules of the namespace-rewrite phase, each written as the
// string function that its regular expression computes under `re.sub`
// (every non-overlapping match, left to right), and the ordered rule list
// that every line is folded through.

module Rules {
  import opened Paths

  // ---------------------------------------------------------------------
  // Character classes
  // ---------------------------------------------------------------------

  /** `\w`, restricted to ASCII letters, digits and underscore. */
  predicate IsWordChar(c: char) {
    'a' <= c <= 'z' || 'A' <= c <= 'Z' || '0' <= c <= '9' || c == '_'
  }

  /** `\s` on a `str` pattern: the characters Python's `str.isspace` accepts. */
  predicate IsSpace(c: char) {
    c == ' ' || '\t' <= c <= '\r' || '\U{1C}' <= c <= '\U{1F}' ||
    c == '\U{85}' || c == '\U{A0}' || c == '\U{1680}' || '\U{2000}' <= c <= '\U{200A}' ||
    c == '\U{2028}' || c == '\U{2029}' || c == '\U{202F}' || c == '\U{205F}' || c == '\U{3000}'
  }

  predicate NoSpace(s: string) {
    forall i :: 0 <= i < |s| ==> !IsSpace(s[i])
  }

  // ---------------------------------------------------------------------
  // The rules
  // ---------------------------------------------------------------------

  /** Rule 1, `^package ` -> `package envoyproto.`: only at the start of
      the line. */
  function PackagePrefix(line: string): string {
    if StartsWith(line, "package ") then "package " + "envoyproto." + line[8..] else line
  }

  /** Rule 2, `\b(udpa|xds)\.` -> `envoyproto.\1.`. `afterWord` says whether
      the character before `s` is a word character, in which case there is
      no word boundary in front of `s`. */
  function LegacyRootsFrom(s: string, afterWord: bool): string
    decreases |s|
  {
    if s == [] then []
    else if !afterWord && StartsWith(s, "udpa.") then "envoyproto." + "udpa." + LegacyRootsFrom(s[5..], false)
    else if !afterWord && StartsWith(s, "xds.") then "envoyproto." + "xds." + LegacyRootsFrom(s[4..], false)
    else [s[0]] + LegacyRootsFrom(s[1..], IsWordChar(s[0]))
  }

  function LegacyRoots(line: string): string {
    LegacyRootsFrom(line, false)
  }

  /** Rule 3, `\(validate\.(rules|required)\)` ->
      `(.envoyproto.validate.\1)`. */
  function ValidateAnnotation(s: string): string
    decreases |s|
  {
    if s == [] then []
    else if StartsWith(s, "(validate.rules)") then "(" + ".envoyproto." + "validate.rules)" + ValidateAnnotation(s[16..])
    else if StartsWith(s, "(validate.required)") then "(" + ".envoyproto." + "validate.required)" + ValidateAnnotation(s[19..])
    else [s[0]] + ValidateAnnotation(s[1..])
  }

  /** Rule 4, `(\s+)\.envoy\.` -> `\1.envoyproto.envoy.`. A greedy
      whitespace run can only be followed by `.envoy.` at its end, so a
      match is a `.envoy.` right after a whitespace character; `afterSpace`
      says whether the character before `s` is one. The run itself is
      copied unchanged. */
  function EnvoyReferenceFrom(s: string, afterSpace: bool): string
    decreases |s|
  {
    if s == [] then []
    else if afterSpace && StartsWith(s, ".envoy.") then "." + "envoyproto." + "envoy." + EnvoyReferenceFrom(s[7..], false)
    else [s[0]] + EnvoyReferenceFrom(s[1..], IsSpace(s[0]))
  }

  function EnvoyReference(line: string): string {
    EnvoyReferenceFrom(line, false)
  }

  /** The top-level directories whose imports rule 5 moves under
      `envoyproto/`. */
  const ImportRoots: seq<string> := [
    "envoy", "contrib", "udpa", "xds", "validate", "google/api", "google/logging",
    "google/longrunning", "google/rpc", "opentelemetry", "opencensus",
    "io/prometheus/client", "cel/expr", "bazel"]

  /** The two spellings the optional `(public )?` group can take. */
  const Modifiers: seq<string> := ["", "public "]

  /** Rule 5, `^import (public )?"(envoy|...|bazel)/` ->
      `import \1"envoyproto/\2/`: only at the start of the line. */
  function ImportPath(line: string): string {
    if !StartsWith(line, "import ") then line
    else
      var rest := line[7..];
      var modifier := if StartsWith(rest, "public ") then "public " else "";
      var target := rest[|modifier|..];
      if StartsWith(target, "\"") && exists d :: d in ImportRoots && StartsWith(target[1..], d + "/")
      then "import " + modifier + "\"" + "envoyproto/" + target[1..]
      else line
  }

  /** The namespace rule 6 qualifies. */
  const Protobuf: string := "google.protobuf."

  /** Rule 6, `([^\.])google\.protobuf\.` -> `\1.google.protobuf.`: the
      character before the name is part of the match. */
  predicate ProtobufMatch(s: string) {
    |s| >= 17 && s[0] != '.' && s[1..17] == Protobuf
  }

  function ProtobufQualify(s: string): string
    decreases |s|
  {
    if ProtobufMatch(s) then [s[0]] + "." + Protobuf + ProtobufQualify(s[17..])
    else if s == [] then []
    else [s[0]] + ProtobufQualify(s[1..])
  }

  // ---------------------------------------------------------------------
  // The ordered rule list
  // ---------------------------------------------------------------------

  datatype Rule =
    | PackagePrefixRule
    | LegacyRootsRule
    | ValidateAnnotationRule
    | EnvoyReferenceRule
    | ImportPathRule
    | ProtobufQualifyRule

  function Apply(rule: Rule, line: string): string {
    match rule
    case PackagePrefixRule => PackagePrefix(line)
    case LegacyRootsRule => LegacyRoots(line)
    case ValidateAnnotationRule => ValidateAnnotation(line)
    case EnvoyReferenceRule => EnvoyReference(line)
    case ImportPathRule => ImportPath(line)
    case ProtobufQualifyRule => ProtobufQualify(line)
  }

  /** The rules in declaration order. */
  const Subs: seq<Rule> := [
    PackagePrefixRule, LegacyRootsRule, ValidateAnnotationRule,
    EnvoyReferenceRule, ImportPathRule, ProtobufQualifyRule]

  /** Each rule applied to the result of the ones before it. */
  function ApplyAll(rules: seq<Rule>, line: string): string
    decreases |rules|
  {
    if rules == [] then line else ApplyAll(rules[1..], Apply(rules[0], line))
  }

  function RewriteLine(line: string): string {
    ApplyAll(Subs, line)
  }
}
