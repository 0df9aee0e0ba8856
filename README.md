# Resource generation tasks of the app build, in Dafny

This project models the two resource tasks that the app module's build script
(`app/build.gradle.kts`) runs before Android resource merging:

* **GenerateStringsTask** turns patch-authoring XML files into Android string
  resources. `unwrapPatch` parses one file and walks the elements three levels
  below its root (root, group, subgroup, entry). It skips any item that is not
  an element. It keeps only the first entry for each value of the `name`
  attribute, in document order. It writes every kept entry, with its whole
  subtree, under a single `resources` root. The nested `writeNode` copies an
  element: tag, attributes, and either its child elements (recursively) or its
  text. `action` runs `unwrapPatch` once per entry of the input directory's
  listing (`<v>/strings.xml` to `<v>/strings.xml`, after creating the output
  subdirectory `<v>`) and then once for `values/arrays.xml`. The listing holds
  plain files as well as directories. A plain file there gets an output
  directory of its name and then fails the task, as it has no `strings.xml`
  inside. Every call starts from an empty key set. The output directory is not cleared, and any
  failure is passed on to the caller.
* **CopyResourcesTask** assembles a resource directory. It deletes the output
  directory, then goes through a fixed, ordered table of ten source
  directories. Each entry copies its source's files, except its excluded names,
  into the output subdirectory named by the part of the path after the first
  `/`. Copies overwrite, so a later table entry wins. A source directory that
  does not exist is skipped.

Files:

* `wrappers.dfy`: the `Option` type and the one-level directory tree `Tree<T>`
  with its `Lookup`, shared by both tasks.
* `string_tables.dfy` (module `StringTables`): the parsed tree (`Node`) and the
  emitted markup (`Markup`).
  * `WriteNode` is a pure function.
  * The deduplicating entry loop is the method `EmitEntries`. It is proved
    equal to the specification function `Unwrap`, which is built on
    `KeepFirst`.
  * The lemmas cover uniqueness, first-wins, completeness, order, and the
    read-back round trip.
* `generate_strings.dfy` (module `GenerateStrings`): the class
  `GenerateStringsTask`. Its `output` field is a map from directory to file to
  generated contents.
  * `UnwrapPatch` and `Action` are proved against the functions `UnwrapInto`
    and `Generated`.
  * The lemmas cover when a run succeeds, what each file holds, and what is
    left untouched.
* `copy_resources.dfy` (module `CopyResources`): the copy table
  `ResourcePaths` and the class `CopyResourcesTask`. Its `output` field is a
  `Tree<Content>`: directory to file name to bytes.
  * `Action` is proved equal to the fold `Aggregate`.
  * `LastProvider` characterises which source each output file comes from.
    The lemmas cover a clean slate, exclusion, missing sources and
    last-write-wins, both in general and for the concrete table.

The output subdirectory of a copy entry is `substringAfter('/')`: everything
after the **first** `/`, or the whole path if it has none. Reading the target as
the last path segment would differ only for paths with two or more `/`. Every
table path has exactly one (`ResourcePathTarget`).

## Model

| member | source | states |
|---|---|---|
| StringTables.Attr | app/build.gradle.kts:159 | the `name` lookup is absent exactly when no attribute has that name, and otherwise gives the value of the first attribute with that name |
| StringTables.CandidatesAtEntryDepth | app/build.gradle.kts:157 | the entries visited are exactly the children of children of children of the root (the third level), and nothing at another depth |
| StringTables.Key | app/build.gradle.kts:159 | definition: the key of an element is its `name` attribute, and a non-element has none; the lookup itself is stated by `Attr` |
| StringTables.Children | app/build.gradle.kts:157 | definition: the child elements of a node, none for a non-element; used by `CandidatesAtEntryDepth` |
| StringTables.ChildLevel | app/build.gradle.kts:157 | definition: one `children()` step over a list of nodes, in document order; `CandidatesAtEntryDepth` states its membership |
| StringTables.Descend | app/build.gradle.kts:157 | definition: `k` successive `children()` steps; `CandidatesAtEntryDepth` states the result for three steps |
| StringTables.Candidates | app/build.gradle.kts:157 | definition: the nodes three levels below the root; `CandidatesAtEntryDepth` states that these are exactly the third-level nodes |
| StringTables.WriteNode | app/build.gradle.kts:136-150 | a non-element writes nothing; an element writes exactly one element with the same tag and attributes, carrying text exactly when it has no child elements |
| StringTables.WriteSeq | app/build.gradle.kts:142-144 | definition: the markup of each node in order; `WriteSeqAppend`, `WriteSeqElements` and `ReparseWriteSeq` state its properties |
| StringTables.WriteSeqAppend | app/build.gradle.kts:142-144 | writing two lists of nodes one after the other gives the markup of the first followed by that of the second |
| StringTables.WriteSeqElements | app/build.gradle.kts:142-144 | for elements only, exactly one piece of markup per node, each the node's own, in order |
| StringTables.ReparseWriteNode | app/build.gradle.kts:136-150 | reading back what writeNode wrote for a node without mixed content gives the same node (tag, attributes, children in order, text) at every depth |
| StringTables.ReparseWriteSeq | app/build.gradle.kts:142-144 | writing the children in order and reading them back gives the same children and the same concatenated text |
| StringTables.KeepFirst | app/build.gradle.kts:154-163 | definition: the walk with its seen-key set, skipping non-elements and entries whose key is already seen; `KeepFirstUnique`, `KeepFirstFirstWins`, `KeepFirstComplete`, `KeepFirstSubsequence` and `KeepFirstAppend` state its properties |
| StringTables.KeepFirstUnique | app/build.gradle.kts:154-163 | every kept entry has a key, no key is already in the seen set, and no two kept entries share a key |
| StringTables.KeepFirstFirstWins | app/build.gradle.kts:160-162 | for every key not already seen, the entry kept under it is the first input entry with that key; a key already seen keeps nothing |
| StringTables.KeepFirstComplete | app/build.gradle.kts:159-162 | the keys kept are exactly the input's keys minus the ones already seen |
| StringTables.KeepFirstSubsequence | app/build.gradle.kts:157-163 | the kept entries are input entries, in their input order (a subsequence) |
| StringTables.KeepFirstAppend | app/build.gradle.kts:154-163 | handling a list in two parts equals handling the second part with the keys kept from the first added to the seen set |
| StringTables.Admissible | app/build.gradle.kts:158-159 | definition: the loop gets past a node that is a non-element (skipped) or has a `name`; `AdmissiblePrefix` and `Unwrap` state where the loop stops and when it completes |
| StringTables.AdmissiblePrefix | app/build.gradle.kts:157-159 | the loop gets through exactly the candidates before the first element that has no `name` |
| StringTables.Unwrap | app/build.gradle.kts:154-163 | the entry loop completes exactly when every candidate is a non-element or has a `name` |
| StringTables.EmitEntries | app/build.gradle.kts:154-163 | the loop with its mutable key set writes exactly `Unwrap`'s entries and aborts exactly where `Unwrap` does |
| StringTables.UnwrapEntryKeys | app/build.gradle.kts:154-163 | every emitted entry has a `name` and the names are pairwise distinct; a completed run emits every key the candidates have |
| StringTables.UnwrapFidelity | app/build.gradle.kts:136-163 | for keyed entries without mixed content, the run completes and reading the output back gives the first-wins deduplication of the candidates, structure intact |
| GenerateStrings.GenerateStringsTask.UnwrapPatch | app/build.gradle.kts:132-168 | the new output tree and the failure are those of `UnwrapInto`: the input is read first, then the output file is written (whole, or truncated on a missing key) |
| GenerateStrings.GenerateStringsTask.Action | app/build.gradle.kts:171-189 | the new output tree and the failure are those of `Generated`: every listed variant in order, then values/arrays.xml, stopping at the first failure |
| GenerateStrings.Document | app/build.gradle.kts:155 | definition: every kept entry directly under one `resources` root without attributes; `UnwrapIntoSucceeds` and `GeneratedContents` state that the written file is this document |
| GenerateStrings.UnwrapInto | app/build.gradle.kts:132-168 | definition: missing input, parse error, missing output directory, or the written file (complete, or truncated with a missing-key failure); `UnwrapIntoSucceeds` states when it succeeds and what it writes |
| GenerateStrings.MakeDir | app/build.gradle.kts:179 | definition of `mkdirs`; `MakeDirSpec` states its effect |
| GenerateStrings.MakeDirSpec | app/build.gradle.kts:179 | `mkdirs` adds the directory, empty, when it is missing, and leaves every existing directory and its files as they were |
| GenerateStrings.Variants | app/build.gradle.kts:177-182 | definition: for each listed name in order, `mkdirs` and then unwrap its strings.xml, stopping at the first failure; `VariantsSucceed` and `VariantsFrame` state its properties |
| GenerateStrings.Generated | app/build.gradle.kts:171-189 | definition: the variant loop, then values/arrays.xml, with a failure passed on; `GeneratedSucceeds`, `GeneratedContents` and `GeneratedKeepsOthers` state its properties |
| GenerateStrings.UnwrapIntoSucceeds | app/build.gradle.kts:132-168 | a call succeeds exactly when the input exists, parses, has every candidate keyed, and the output directory exists; it then changes only that one file, to the expected document |
| GenerateStrings.VariantsSucceed | app/build.gradle.kts:177-182 | the variant loop succeeds exactly when every listed variant's strings.xml unwraps; then the output directories are the old ones plus the listed ones, and each `v/strings.xml` is `v`'s own deduplicated document |
| GenerateStrings.VariantsFrame | app/build.gradle.kts:177-182 | the variant loop removes no directory and no file, and changes no file other than a listed variant's strings.xml |
| GenerateStrings.GeneratedSucceeds | app/build.gradle.kts:171-189 | the action succeeds exactly when every variant unwraps, values/arrays.xml unwraps, and the values output directory exists (created by the variant loop or already there, as the arrays file gets no mkdirs) |
| GenerateStrings.GeneratedContents | app/build.gradle.kts:177-184 | after success, each variant's strings.xml and values/arrays.xml hold the document unwrapped from the corresponding input file, each deduplicated from an empty key set |
| GenerateStrings.GeneratedKeepsOthers | app/build.gradle.kts:171-189 | the output directory is not cleared: no existing file disappears, and every file other than the ones written keeps its contents |
| GenerateStrings.SharedKeyKeptInBoth | app/build.gradle.kts:154 | because the key set is per call, a key that occurs in a variant's strings.xml and in values/arrays.xml appears in both outputs |
| CopyResources.ResourcePaths | app/build.gradle.kts:206-217 | the ten table entries in declaration order, with the two exclusion lists; `ResourcePathTarget` states each entry's target |
| CopyResources.AfterFirst | app/build.gradle.kts:220 | definition: scan for the first separator; `AfterFirstSpec` states its result |
| CopyResources.AfterFirstSpec | app/build.gradle.kts:220 | a separator is found exactly when the path has one, and the result is what follows its first occurrence |
| CopyResources.SubstringAfter | app/build.gradle.kts:220 | definition of `substringAfter`; `SubstringAfterSpec` states its result |
| CopyResources.SubstringAfterSpec | app/build.gradle.kts:220 | the result is a suffix of the path: the whole path when it has no separator, and otherwise what follows its first separator |
| CopyResources.Target | app/build.gradle.kts:220 | definition: the output subdirectory of an entry; `TargetAfterFirstSlash` and `ResourcePathTarget` state it |
| CopyResources.TargetAfterFirstSlash | app/build.gradle.kts:220 | for a path made of a slash-free head, `/` and a rest, the target subdirectory is exactly the rest |
| CopyResources.ResourcePathTarget | app/build.gradle.kts:206-220 | settings/menu targets `menu`, the two layout entries target `layout`, and the other seven target `drawable` |
| CopyResources.Admits | app/build.gradle.kts:224 | definition: the entry has no exclusion list, or the name is not on it |
| CopyResources.Kept | app/build.gradle.kts:223-224 | definition: the files an entry copies; `KeptSpec` states them |
| CopyResources.KeptSpec | app/build.gradle.kts:223-224 | exactly the files that the exclusion test admits are kept, with their contents, and every file is kept when there is no exclusion list |
| CopyResources.Place | app/build.gradle.kts:225 | definition: copying files into one output subdirectory; `PlaceSpec` states its effect |
| CopyResources.PlaceSpec | app/build.gradle.kts:225 | only the target directory changes: each placed file gets its new contents, the directory's other files keep theirs, and the directory appears only with a first file |
| CopyResources.Provides | app/build.gradle.kts:220-224 | definition: an entry copies a file into a directory when its target is that directory, its source directory exists and lists the file, and the exclusion test admits it; `CopyEntryLookup` and `LastProviderSpec` state what it decides |
| CopyResources.CopyEntry | app/build.gradle.kts:221-227 | definition: one table entry, nothing when its source directory is missing; `CopyEntryLookup` states its effect |
| CopyResources.CopyAll | app/build.gradle.kts:219-228 | definition: the table's entries in order; `CopyAllLookup`, `CopyAllDirs` and `CopyAllAppend` state its effect |
| CopyResources.Aggregate | app/build.gradle.kts:204-228 | definition: the table run on an emptied output; `AggregateCleanSlate`, `AggregateLastWriteWins` and `AggregateOmitsUncopied` state its result |
| CopyResources.CopyEntryLookup | app/build.gradle.kts:221-227 | after one entry, a file holds the source's contents if that entry copies it there, and is unchanged otherwise; a new directory appears only if the entry copies something into it |
| CopyResources.CopyAllLookup | app/build.gradle.kts:219-228 | after the loop, a file holds the contents from the last table entry that copies it, or its earlier contents if no entry does |
| CopyResources.CopyAllDirs | app/build.gradle.kts:219-228 | an output directory after the loop either existed before or received at least one file from some entry |
| CopyResources.LastProviderSpec | app/build.gradle.kts:219-228 | some entry supplies a file exactly when some entry copies it, and then the contents come from an entry after which no entry copies it |
| CopyResources.AggregateCleanSlate | app/build.gradle.kts:204-228 | after the output directory is deleted and the loop runs, every output file and directory comes from some table entry, with the last copier's contents |
| CopyResources.AggregateLastWriteWins | app/build.gradle.kts:223-226 | if entry `i` copies a file and no later entry does, the output holds entry `i`'s contents |
| CopyResources.AggregateOmitsUncopied | app/build.gradle.kts:223-226 | a file no entry copies (missing, or excluded everywhere it occurs) is absent from the output |
| CopyResources.CopyAllAppend | app/build.gradle.kts:219-228 | running the loop over two parts of a table in turn equals running it over the whole table |
| CopyResources.MissingSourceIgnored | app/build.gradle.kts:221-223 | an entry whose source directory does not exist has no effect: the output equals that of the table without it |
| CopyResources.OnlyProvider | app/build.gradle.kts:219-228 | if only entry `b` can copy a file, the file comes from `b` when `b` copies it and from nowhere otherwise |
| CopyResources.ToolbarLayoutExcluded | app/build.gradle.kts:210-226 | the settings toolbar layout in the output comes only from sponsorblock/layout, because settings/layout excludes it |
| CopyResources.SkipButtonLayoutExcluded | app/build.gradle.kts:212-226 | the skip-sponsor button layout in the output comes only from settings/layout, because sponsorblock/layout excludes it |
| CopyResources.SpeedButtonDrawableWins | app/build.gradle.kts:216-225 | a drawable present in speedbutton/drawable, the last table entry, overrides any drawable of the same name from the other sources |
| CopyResources.CopyResourcesTask.CopyDir | app/build.gradle.kts:223-227 | copying one source directory adds every file not excluded into the target subdirectory, overwriting files of the same name and keeping the others |
| CopyResources.CopyResourcesTask.Action | app/build.gradle.kts:201-229 | whatever the output held before, afterwards it is exactly the result of copying the table's entries, in order, onto an empty tree |

## Left out

- XML reading and writing: the parser's tree is the `Node` datatype and the writer's output is the `Markup` datatype. Character escaping (section 2.4 of the W3C XML 1.0 Recommendation), the double-quote setting, indentation, namespaces and the encoding of the written file are not modelled.
- Attribute order: the reader hands attributes over as a map, so their order in the written file is the reader's. The model keeps the parsed order.
- Mixed content: the character data of an entry that also has child elements (text before or between child elements) is not written, as in the source; the round-trip lemmas cover entries without mixed content only.
- Partially flushed output: on an entry without `name`, the model records the entries written so far as a `Truncated` file. The exact bytes the writer has flushed at that moment are not modelled.
- The error message printed to standard error before a failure is rethrown: printing is left out. The rethrow is modelled as the returned failure.
- I/O failures other than a missing input file, a malformed input and a missing output directory are not modelled: permissions, a full disk, or `mkdirs` failing because a file is in the way.
- The order of `listFiles` is unspecified by the platform. It is a parameter (`listing`) of `GenerateStringsTask.Action`, and `CopyDir` proves its result for every order.
- Subdirectories inside a copy source: `copyTo` on a directory creates an empty directory and copies none of its contents. The model's source directories contain files only.
- File contents are opaque byte sequences. Copying preserves them exactly, and nothing else about them is modelled.
- Gradle wiring is not part of this model: task registration, input/output annotations, up-to-date checks, and the rest of the build script (versioning, signing, dependencies).
- Concurrency: each task action is modelled as one sequential run, with no other writer to its directories.
