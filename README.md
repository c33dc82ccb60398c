# envoyproto namespace-rewrite pipeline, modelled in Dafny

The `envoyproto` Python package is built in three steps:

- A namespace rewrite copies the `.proto` schema files of several upstream
  libraries (found under `protobuf-libs/`) into one tree, `envoyproto/`.
  Every line of every file passes through six textual rules that move
  package names, imports and references under the `envoyproto` namespace.
- An incremental compile runs `protoc` on every schema file whose
  generated `_pb2.py` module is missing or older than the schema.
- Manifests are written: an `__init__.py` per directory of generated
  modules, and a root `envoyproto/__init__.py` that imports every module.

`find_protobuf_packages` lists the dotted package names of those directories
for the packaging tool.

The same code appears twice in the repository:

- `hatch_build.py`: `find_by_extension_recurse` (13-18),
  `find_protobuf_packages` (21-32) and `compile_protos` (35-126).
- `setup.py`: a finder (12-17), `ProtobufPyCommand.run` (33-128) and
  `find_protobuf_packages` (131-143).

The two copies compute the same thing. They differ in these ways:

- `hatch_build.py` reads a module-level `basedir` (hatch_build.py:11).
  `setup.py` computes the same value locally in each function
  (setup.py:34, setup.py:132).
- Their type annotations differ: `typing.Iterator[str]`, `list[str]` and
  `dict[str, list[str]]` in `hatch_build.py`, `List[str]` in `setup.py`.
- `setup.py` has one unused variable (`protodir`, setup.py:84).
- They are indented differently.

The model follows that logic once, and the table cites whichever copy states
a property most directly.

The file system appears as values:

- A directory listing is a tree of `Entry` values, `File(name)` or
  `Dir(name, children)`, in the order `os.scandir` returns them.
- File contents are a function from path to text.
- Modification times are a map from path to integer. The rewrite phase
  writes at a time `now` later than every time already in the map, and
  each file it writes gets that time.
- Every file written is returned as a `Write(path, text)`, in write order.
  A later write to the same path replaces the earlier one.
- `protoc` is the class `Compile.Protoc`. It records every command it is
  given and fails exactly on the commands of a given set.

The modules are:

- `Paths`: `str.removeprefix` and `str.removesuffix`, `posixpath.join`,
  `dirname` and `basename` on `/`-separated strings.
- `Finder`: the recursive generator, with a reference definition (every file
  of the tree in depth-first order, then filtered).
- `Selector`: the subtree test and the output path.
- `Rules`: the six rules, each written as the string function its regular
  expression computes under `re.sub`, and the ordered fold over them.
- `RuleFacts` and `ProtobufRule`: what each rule changes and what it leaves
  alone, the worked example of rule order, and when rule 6 is idempotent.
- `Inserts`: every rule only inserts characters, none of them whitespace.
- `Endings`: a line's newline stays at its end.
- `Lines`: `for line in file` and the per-file rewrite loops.
- `Namespaces`: the rewrite phase over all namespace roots.
- `Compile`: the artifact path, the freshness test and the compile loop.
- `Manifests`: grouping by directory, the dotted names and the exact text of
  both kinds of manifest.
- `Packages`: `find_protobuf_packages`.
- `Pipeline`: `compile_protos` as a whole.
- `Seqs`: sequence helpers.

## Model

| member | source | states |
|---|---|---|
| Finder.Find | setup.py:12-17 | every path the finder yields ends with the searched suffix |
| Finder.FindIsFilteredListing | hatch_build.py:13-18 | the finder's output equals an independent definition: every file of the tree in depth-first, entry order, keeping those that end with the suffix and lie under no directory named `tests` |
| Finder.FoundIff | hatch_build.py:13-18 | a path is yielded iff it is the path of a file of the tree that ends with the suffix and is reached through no `tests` directory |
| Finder.KeepUnder | hatch_build.py:17-18 | the files below a subdirectory are the subdirectory's own walk from its joined path, or nothing when it is named `tests` |
| Finder.KeepAppend | hatch_build.py:14-18 | filtering a listing distributes over concatenation, so sibling entries contribute in entry order |
| Finder.KeepMembers | hatch_build.py:15-16 | membership in a filtered listing, as an if-and-only-if over the listed files |
| Finder.JoinName | hatch_build.py:14-18 | joining a valid entry name (non-empty, no separator) below `top + rel` gives `top` followed by a longer relative path |
| Finder.FindBelow | hatch_build.py:13-18 | in a tree whose names are all valid, every path found below `top + rel` is `top` followed by a relative path |
| Finder.FoundRelative | hatch_build.py:13-18 | for a root ending in a separator, every found path starts with the root, and the rest (`path[len(root):]`) is a relative path |
| Paths.RemovePrefix | hatch_build.py:29 | `removeprefix` yields the rest of the string after a present prefix, and the whole string otherwise |
| Paths.RemoveSuffix | hatch_build.py:92 | `removesuffix` yields the string before a present suffix, and the whole string otherwise |
| Paths.DotsForSeps | hatch_build.py:29 | `replace(sep, '.')` keeps the length and turns exactly the separators into dots |
| Paths.Dirname | hatch_build.py:61 | `dirname` is a prefix of its argument |
| Paths.Basename | hatch_build.py:69 | `basename` is a suffix of its argument and holds no separator |
| Paths.DirnameOfRelative | hatch_build.py:61 | for a relative path, `dirname` is the text before the last separator, or empty when there is none |
| Paths.JoinFileAtTop | hatch_build.py:67-69 | a file directly in the root keeps its name under the output directory |
| Paths.JoinFileBelow | hatch_build.py:67-69 | a file in a subdirectory of the root keeps its relative path under the output directory |
| Paths.BasenameKeepsSuffix | hatch_build.py:69 | a suffix without a separator, such as `.proto`, is kept by `basename` |
| Paths.JoinKeepsSuffix | hatch_build.py:69 | `join(a, b)` ends with whatever `b` ends with |
| Paths.JoinDirnameBasename | hatch_build.py:67-69 | joining `dirname(rel)` and then `basename(rel)` below a directory gives that directory joined with `rel` |
| Selector.SubdirAndBasename | hatch_build.py:61 | for a file at `root + rel`, `subdir` is `dirname(rel)` and the basename is that of `rel` |
| Selector.OutputPathKeepsRelativePath | hatch_build.py:67-69 | a file found at `root + rel` is written to `basedir/envoyproto/rel`, so its relative directory and name are kept |
| Selector.OutputPathKeepsSuffix | hatch_build.py:67-69 | the output file keeps the found file's extension |
| Selector.WildcardAdmitsAll | setup.py:63-65 | with `.` in the subtree list every file is admitted, including one directly in the root |
| Selector.AdmitsIffSegmentPrefix | hatch_build.py:63-65 | a file is admitted iff the list holds `.` or some subtree's path segments are a prefix of the file directory's segments |
| Selector.NestedIffSegmentPrefix | setup.py:64 | `subdir.startswith(t + sep) or subdir == t` holds iff the segments of `t` are a prefix of the segments of `subdir` |
| Selector.SplitJoined | hatch_build.py:64 | splitting `a + sep + b` at separators gives the segments of `a` followed by those of `b` |
| Selector.JoinSplit | hatch_build.py:64 | joining the segments of a string with separators gives the string back |
| Selector.ValidateExamples | hatch_build.py:63-65 | with subtrees `['validate']`, `validate-extra` and the root directory are rejected, while `validate` and `validate/a` are admitted |
| Selector.NestedSubtreeExamples | hatch_build.py:63-65 | with subtrees `a` and `a/b`, `ab` is rejected and `a` and `a/b/c` are admitted |
| Namespaces.RootsEndInSep | hatch_build.py:36-48 | there are eight namespace roots, and each root directory ends in a separator |
| Namespaces.RewriteFound | hatch_build.py:61-81 | one turn of the loop writes nothing for a file outside the taken subtrees, and otherwise one file at its output path with its rewritten text |
| Namespaces.RootWritesStep | hatch_build.py:60-81 | one more found file appends exactly its own write to the root's writes |
| Namespaces.RewriteRoot | hatch_build.py:60-81 | the loop over one root's files writes, in walk order, the rewritten text of each admitted file to its output path |
| Namespaces.RewriteNamespaces | hatch_build.py:59-81 | the rewrite phase writes the files of the roots one root after another |
| Namespaces.RootWritesIff | hatch_build.py:60-69 | a write of one root is exactly the write for an admitted found file |
| Namespaces.PhaseWritesIff | hatch_build.py:59-81 | a write happens iff some root found a file that its subtree list admits; the write goes to the mapped path and holds that file's rewritten text |
| Namespaces.WrittenFile | hatch_build.py:67-81 | a written file sits at `basedir/envoyproto/rel` and has one rewritten line per line of its source |
| Namespaces.WrittenPaths | hatch_build.py:71-75 | a path is written iff some write goes to it |
| Namespaces.RootWritesProto | hatch_build.py:60-75 | every file one root writes is a `.proto` file |
| Namespaces.PhaseWritesProto | hatch_build.py:59-75 | every file the rewrite phase writes is a `.proto` file |
| Namespaces.FoundFilePath | hatch_build.py:60-69 | a file found in a well-formed listing is `root + rel`, with `rel` relative, and is written to `basedir/envoyproto/rel` |
| Namespaces.RootWriteAtRelativePath | hatch_build.py:60-81 | for a well-formed listing, every write of a root is the rewritten text of a found file `root + rel`, at `basedir/envoyproto/rel` |
| Namespaces.PhaseWriteAtRelativePath | hatch_build.py:59-81 | for well-formed listings, every write of the phase is the rewritten text of a file that some root found at `root + rel`, at `basedir/envoyproto/rel`, so Namespaces.WrittenFile applies to it |
| Lines.LineEnd | hatch_build.py:77 | the first line ends at the first newline, or at the end of the text |
| Lines.Lines | hatch_build.py:77 | every line the file iteration yields except the last ends in its only newline |
| Lines.LinesConcat | hatch_build.py:77 | the lines of a text, written one after another, give the text back |
| Lines.LinesCons | hatch_build.py:77 | a terminated line followed by more text is the first line of the whole |
| Lines.RewriteLineInPlace | hatch_build.py:78-79 | the loop reassigning `line` once per rule yields the fold of the six rules in order; the input is a subsequence of the result, and a terminated line stays terminated |
| Lines.RewriteFile | hatch_build.py:77-81 | the loop over the lines writes the rewritten text, and its lines are the input's lines each rewritten, one output line per input line |
| Lines.RewriteTextLines | hatch_build.py:77-81 | the lines of the rewritten text are the rewritten lines of the input, in order |
| Lines.RewriteKeepsLine | hatch_build.py:77-81 | a line ending in a newline still ends in its only newline after the rules, and a last line without one gains none |
| Lines.TerminatedByCount | hatch_build.py:77 | a text ending in a newline is one line iff it holds exactly one newline |
| Lines.WrittenPrefix | hatch_build.py:81 | writing one more rewritten line appends it to the text written so far |
| RuleFacts.RewriteLineSteps | hatch_build.py:50-57 | the fold is rule 1, then 2, 3, 4, 5 and 6, each applied to the previous rule's output |
| RuleFacts.PackagePrefixIff | setup.py:51 | rule 1 changes a line iff it starts with `package `, and then adds 11 characters |
| RuleFacts.PackageOnlyAtStart | setup.py:51 | `package ` after any non-empty text that does not itself start with `package ` is left alone |
| RuleFacts.LegacyRootsCopies | hatch_build.py:52 | text in which no `u` or `x` starts a word is copied unchanged, and the rest is read with the correct word-boundary state |
| RuleFacts.NoRootNameTail | hatch_build.py:52 | dropping the first character keeps the absence of `udpa.` and `xds.` at word boundaries, with the boundary state moved on |
| RuleFacts.LegacyRootsKeeps | hatch_build.py:52 | text in which no `udpa.` or `xds.` starts at a word boundary is left unchanged |
| RuleFacts.LegacyRootAtFront | hatch_build.py:52 | `udpa.` or `xds.` at a word boundary becomes `envoyproto.udpa.` or `envoyproto.xds.` |
| RuleFacts.LegacyRootsCopiesBefore | hatch_build.py:52 | text before which no `udpa.` or `xds.` starts at a word boundary is copied, and what follows is read with the right boundary state |
| RuleFacts.NoRootNameInPrefix | hatch_build.py:52 | text whose every `u` and `x` follows a word character holds no root at a word boundary, whatever follows it |
| RuleFacts.LegacyRootAtBoundary | hatch_build.py:52 | a legacy root that follows a non-word character is moved under `envoyproto.`, and the text before it, holding no root at a word boundary, is kept |
| RuleFacts.LegacyRootInComment | hatch_build.py:52 | `// use xds.v3` becomes `// use envoyproto.xds.v3`: a word starting with `u` before the root does not stop the rewrite |
| RuleFacts.LegacyRootsInsideWord | hatch_build.py:52 | `myxds.` is left unchanged, because `xds` does not start a word there |
| RuleFacts.ValidateAnnotationCopies | setup.py:53 | text in which no annotation starts is copied, and rule 3 goes on after it |
| RuleFacts.NoParenNoAnnotation | setup.py:53 | text without `(` holds no annotation, whatever follows it |
| RuleFacts.ValidateRulesAtFront | setup.py:53 | `(validate.rules)` at the start of the text becomes `(.envoyproto.validate.rules)` |
| RuleFacts.ValidateRequiredAtFront | setup.py:53 | `(validate.required)` at the start of the text becomes `(.envoyproto.validate.required)` |
| RuleFacts.ValidateRulesRewrites | setup.py:53 | `(validate.rules)` after any text holding no annotation becomes `(.envoyproto.validate.rules)`, and that text is kept |
| RuleFacts.ValidateRequiredRewrites | setup.py:53 | `(validate.required)` after any text holding no annotation becomes `(.envoyproto.validate.required)`, and that text is kept |
| RuleFacts.ValidateInField | setup.py:53 | the annotation inside `  string n = 1 [(validate.rules).string.min_len = 1];` is rewritten where it stands |
| RuleFacts.ValidateAnnotationKeeps | hatch_build.py:53 | text without `(` is left unchanged by rule 3 |
| RuleFacts.EnvoySpacesCopied | hatch_build.py:54 | rule 4 copies a whitespace run intact, and what follows it is read as text after whitespace |
| RuleFacts.EnvoyAfterSpace | hatch_build.py:54 | `.envoy.` right after whitespace becomes `.envoyproto.envoy.` |
| RuleFacts.EnvoyAfterSpaces | hatch_build.py:54 | a whitespace run followed by `.envoy.` keeps the whole run and gains `envoyproto.` once |
| RuleFacts.EnvoyReferenceCopies | hatch_build.py:54 | text without whitespace is copied by rule 4 |
| RuleFacts.EnvoyWithoutSpaceKept | hatch_build.py:54 | `.envoy.` not preceded by whitespace is left alone |
| RuleFacts.ImportPathOf | setup.py:55 | an import line is rewritten iff its quoted path starts with a listed root and a slash, and then only gains `envoyproto/` after the quote |
| RuleFacts.ImportPathRewrites | setup.py:55 | an import from a listed root, with or without `public `, moves under `envoyproto/` and keeps its modifier and path |
| RuleFacts.ProtobufImportNotListed | setup.py:55 | no listed root is a prefix of `google/protobuf/...` |
| RuleFacts.ProtobufImportKept | setup.py:55 | `import "google/protobuf/..."` lines, with or without `public `, are unchanged |
| RuleFacts.ImportPathIff | hatch_build.py:55 | rule 5 changes a line iff the line is an import from a listed root |
| RuleFacts.ProtobufQualifies | hatch_build.py:56 | `google.protobuf.` after a character other than `.` gains a dot in front |
| RuleFacts.ProtobufQualifiedKept | hatch_build.py:56 | `.google.protobuf.` is left as it is |
| RuleFacts.ProtobufQualifyKeeps | hatch_build.py:56 | text without an `f` is left unchanged by rule 6 |
| RuleFacts.OrderRule1 | hatch_build.py:51 | rule 1 turns `package xds.core.v3;` into `package envoyproto.xds.core.v3;` |
| RuleFacts.OrderRule2 | hatch_build.py:52 | rule 2 then fires on the `xds.` that follows rule 1's insertion |
| RuleFacts.OrderRule4 | hatch_build.py:54 | rule 4 leaves the resulting line alone |
| RuleFacts.OrderRule5 | hatch_build.py:55 | rule 5 leaves the resulting line alone |
| RuleFacts.PackageThenLegacyRoot | hatch_build.py:78-79 | the whole rule list turns `package xds.core.v3;` into `package envoyproto.envoyproto.xds.core.v3;` |
| ProtobufRule.CopiesNamePrefix | hatch_build.py:56 | rule 6 copies `google.protobu`, or any tail of it, when no new name follows it |
| ProtobufRule.QualifiedNameKept | hatch_build.py:56 | a `google.protobuf.` already in the text is copied, and rule 6 continues after it |
| ProtobufRule.OutputPrefix | hatch_build.py:56 | when rule 6's output starts with a tail of `google.protobuf.`, the input started with that tail, or with a shorter tail followed by a whole unqualified name |
| ProtobufRule.MatchAfterCopy | hatch_build.py:56 | after a copied character, the output can start a new match only where the input already could, unless the input starts `google.protobufgoogle.protobuf.` |
| ProtobufRule.IdempotentAtMatch | hatch_build.py:56 | a second pass leaves a qualified name of the first pass alone |
| ProtobufRule.IdempotentAtCopy | hatch_build.py:56 | a second pass copies every character that the first pass copied |
| ProtobufRule.QualifyIdempotent | hatch_build.py:56 | applying rule 6 twice equals applying it once, on every line that does not contain `google.protobufgoogle.protobuf.` |
| ProtobufRule.DoubledOnce | hatch_build.py:56 | one pass over `google.protobufgoogle.protobuf.` qualifies only the second name |
| ProtobufRule.NotIdempotentOnDoubled | hatch_build.py:56 | on `c` followed by `google.protobufgoogle.protobuf.`, with `c` not a dot, the second pass adds a dot the first pass did not, so rule 6 is not idempotent in general |
| Inserts.WidensSubseq | hatch_build.py:50-57 | output made from the input by inserting characters contains the input as a subsequence |
| Inserts.WidensTrans | hatch_build.py:78-79 | inserting twice is inserting once, so the property survives the fold |
| Inserts.WidensKeepsSpaceCount | hatch_build.py:50-57 | inserting non-whitespace characters keeps the number of whitespace characters |
| Inserts.PackagePrefixInserts | hatch_build.py:51 | rule 1 only inserts non-whitespace characters |
| Inserts.LegacyRootsInserts | hatch_build.py:52 | rule 2 only inserts non-whitespace characters |
| Inserts.ValidateAnnotationInserts | hatch_build.py:53 | rule 3 only inserts non-whitespace characters |
| Inserts.EnvoyReferenceInserts | hatch_build.py:54 | rule 4 only inserts non-whitespace characters |
| Inserts.ImportPathInserts | hatch_build.py:55 | rule 5 only inserts non-whitespace characters |
| Inserts.ProtobufQualifyInserts | hatch_build.py:56 | rule 6 only inserts non-whitespace characters |
| Inserts.ApplyAllInserts | hatch_build.py:78-79 | folding a line through any list of the rules only inserts non-whitespace characters |
| Inserts.RewriteLineInserts | hatch_build.py:78-79 | the input line is a subsequence of the rewritten line, which has the same number of whitespace characters and of newlines |
| Endings.LegacyRootsKeepsEnd | hatch_build.py:52 | rule 2 keeps a line's final newline |
| Endings.ValidateAnnotationKeepsEnd | hatch_build.py:53 | rule 3 keeps a line's final newline |
| Endings.EnvoyReferenceKeepsEnd | hatch_build.py:54 | rule 4 keeps a line's final newline |
| Endings.ImportPathKeepsEnd | hatch_build.py:55 | rule 5 keeps a line's final newline |
| Endings.ProtobufQualifyKeepsEnd | hatch_build.py:56 | rule 6 keeps a line's final newline |
| Endings.ApplyAllKeepsEnd | hatch_build.py:78-79 | a line ending in a newline still ends in one after any list of the rules |
| Compile.Sources | setup.py:83 | every file the compile walk yields ends with `proto`; no dot is required before it |
| Compile.ArtifactOfProto | hatch_build.py:92 | the artifact of `x.proto` is `x_pb2.py` |
| Compile.ArtifactWithoutSuffix | setup.py:94 | a source without the `.proto` suffix keeps its whole name in front of `_pb2.py` |
| Compile.ArtifactNotProto | hatch_build.py:92 | an artifact path never ends in `.proto` |
| Compile.ArtifactShared | hatch_build.py:83-92 | `xproto` and `xproto.proto` are both compiled and share the artifact `xproto_pb2.py` |
| Compile.ShouldBuild | setup.py:94-98 | a build is due iff the artifact is missing or older than its source; a missing artifact means a build, and equal times mean none |
| Compile.Touched | hatch_build.py:76 | after the writes, a written path has the write time and every other path keeps its time |
| Compile.WrittenIsStale | hatch_build.py:76-98 | a `.proto` file written after every existing file is stale, whatever artifact an earlier run left |
| Compile.StaleIff | hatch_build.py:92-98 | a source is stale iff it was found and is not fresh |
| Compile.NothingStale | hatch_build.py:92-98 | there are no stale sources iff every source is fresh |
| Compile.Protoc.CheckCall | hatch_build.py:100 | each call is recorded, and it fails exactly on the failing commands |
| Compile.FirstFailureUnique | hatch_build.py:95-100 | at most one index is the first stale source whose call fails |
| Compile.CompileSources | hatch_build.py:83-100 | with no failure, `protoc` is called once per stale source in walk order; otherwise the loop stops at the first stale source whose call fails (every stale source before it compiles), having called exactly the stale sources up to it |
| Compile.CompileAll | hatch_build.py:83-100 | the compile step succeeds iff no stale source's command fails; on failure it stops at the first failing stale source; when every source is fresh it calls `protoc` zero times |
| Compile.AllFreshNoCalls | hatch_build.py:92-98 | when every source is fresh there is no command to run |
| Manifests.GroupModules | setup.py:104-110 | the grouping loop's keys are the modules' directories in first-seen order, and each key maps to the stems of its own modules in walk order |
| Manifests.GroupStep | hatch_build.py:104-108 | one loop turn adds a new directory as a key with an empty list, then appends the stem to its directory's list |
| Manifests.DirsIff | hatch_build.py:102-108 | a directory is a key iff some module lies directly in it |
| Manifests.DirsDistinct | hatch_build.py:105-106 | no directory is a key twice |
| Manifests.StemsIff | hatch_build.py:108 | a stem is listed for a directory iff a module with that stem lies in it |
| Manifests.GroupNonEmpty | hatch_build.py:105-108 | every key lists at least one stem, and no other directory lists any |
| Manifests.AllStemsCount | hatch_build.py:102-108 | all groups together list exactly as many stems as there are modules |
| Manifests.FqOfJoin | setup.py:117 | a directory below the base directory is named by its relative path, with dots for separators |
| Manifests.AllLineIsListLiteral | setup.py:121 | the `__all__` line is `__all__ = [` and the stems as single-quoted literals joined by `, `, then `]` and a newline |
| Manifests.InitTextSplit | hatch_build.py:113-119 | a directory's manifest is its import lines, a blank line, then the `__all__` line |
| Manifests.RenderInit | hatch_build.py:113-119 | the write loop produces exactly that manifest text |
| Manifests.InitTextLines | hatch_build.py:114-119 | the manifest's lines are one `import fq.m_pb2 as m` line per stem in order, then the blank line and the `__all__` line |
| Manifests.RootLinesCount | hatch_build.py:121-126 | the root manifest has one import line per module |
| Manifests.RootLinesIff | hatch_build.py:121-126 | a root manifest line is exactly `import fq.m_pb2` for some module, with `fq` the dotted name of its directory and `m` its stem |
| Manifests.DirImportsIff | hatch_build.py:124-126 | a directory's root import lines are exactly the imports of its stems |
| Manifests.RootTextLines | hatch_build.py:122-126 | with no newline in a module path, the root manifest's lines are its import lines |
| Manifests.RenderRoot | setup.py:124-128 | the nested loop over the groups and their stems writes the imports directory after directory |
| Manifests.WriteManifests | hatch_build.py:102-126 | the manifest step writes each directory's `__init__.py` in key order, then the root manifest |
| Packages.PackagesAreManifestDirs | hatch_build.py:26-30 | the package names are the dotted names of the directories that get a manifest |
| Packages.CollectPackages | setup.py:137-141 | the loop collects the dotted name of every module's directory |
| Packages.ListOf | hatch_build.py:32 | `list(set)` holds every element once |
| Packages.FindProtobufPackages | hatch_build.py:21-32 | an absent `envoyproto` directory gives `[]`; otherwise the result names exactly the directories holding a `_pb2.py` module, each once |
| Pipeline.RewrittenAreStale | hatch_build.py:76-98 | every file the rewrite phase writes is stale when the compile step runs |
| Pipeline.CompileProtos | hatch_build.py:35-126 | the rewrite writes first. The compile then reads their write times, calls `protoc` for every rewritten file its walk finds, and on failure stops at the first failing stale source. A failure aborts the run before any manifest is written; on success the manifests of the built tree are written |

## Left out

- File-system I/O is not modelled: `os.scandir`, `os.path.isdir`, `os.makedirs`, `open`, reading and writing. Listings and contents are parameters; writes are returned values.
- `print` is left out: it only reports progress.
- What `protoc` generates is not modelled. The listing the grouping walk sees is a separate parameter.
- Modification times are integers read from a map (`st_mtime` is a float). Every found source is assumed to have one, since the walk just found it.
- Compile.CompileSources: every time is read from one snapshot taken before the loop. An artifact written by an earlier call of the same run is not seen. This matters only when two sources share an artifact, as `xproto` and `xproto.proto` do.
- Pipeline.CompileProtos: the three walks (rewrite roots, compile, grouping) read three independent listings. The compile listing is not derived from the files the rewrite wrote. Its times are, however: each rewritten file gets the write time `now`.
- Pipeline.RewrittenAreStale: the rewrite opens every admitted output file for writing on every run (hatch_build.py:76). So a second run finds every rewritten source newer than the `_pb2.py` the first run built, and calls `protoc` for all of them. The case where every source is fresh (Compile.AllFreshNoCalls, the last clause of Compile.CompileAll) is reached only for sources the run did not rewrite. The model proves what the code does; it does not model a run that skips unchanged files.
- Finder.WellFormed: entry names are taken to be non-empty and free of separators, as directory listings report them. The relative-path lemmas (Finder.FoundRelative, Namespaces.PhaseWriteAtRelativePath) assume it.
- Lines: text-mode newline translation (`\r\n` and `\r` read as `\n`) is not modelled. Text is taken after translation.
- Rules.IsWordChar: `\w` is restricted to ASCII letters, digits and underscore. Python's Unicode word characters are not modelled.
- ProtobufRule.QualifyIdempotent: holds only for lines without `google.protobufgoogle.protobuf.`, because on such a line rule 6 is not idempotent (ProtobufRule.NotIdempotentOnDoubled).
- Packages.ListOf: the order of `list(set)` depends on string hashing. The model picks the elements in an unspecified order.
- Finder.Find: symbolic links and the order `os.scandir` returns are not modelled. The listing's order is taken as given.
- A `_pb2.py` module directly in `envoyproto/` gives that directory its own `__init__.py`. The root manifest is then written to the same path and replaces it (Manifests.ManifestWrites lists both writes in order).
- The packaging glue is not part of this model: `setuptools.setup`, `BuildPyCommandOverride`, `CustomBuildHook`, `CustomMetadataHook`, and the no-op `initialize_options` and `finalize_options`.
