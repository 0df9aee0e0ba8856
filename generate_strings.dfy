/**
 * GenerateStringsTask of app/build.gradle.kts: unwrapPatch applied once per
 * entry of the input directory's listing (its strings.xml; a plain file there
 * has none and fails) and once to the shared values/arrays.xml,
 * writing into an output directory that is never cleared. The file system is a
 * map from directory name to file name to contents.
 */
module GenerateStrings {
  import opened Wrappers
  import opened StringTables

  /** An input file as the reader finds it: parsed, or not well-formed XML. */
  datatype Source = Parsed(root: Node) | Malformed

  /** Contents of a generated file: a complete document, or the opening of the
      `resources` root followed by the entries written before the loop aborted
      (the writer is open and is closed on the way out). */
  datatype Written = Complete(doc: Markup) | Truncated(entries: seq<Markup>)

  /** Why a call failed: the input file is missing, it is not well-formed, the
      output file's directory does not exist, or an entry has no key. */
  datatype Failure = MissingInput | ParseError | MissingOutputDir | MissingKey

  /** The output tree after a call, and the failure that ended it, if any. */
  datatype Outcome = Outcome(out: Tree<Written>, failure: Option<Failure>)

  const StringsFile: string := "strings.xml"
  const SharedDir: string := "values"
  const ArraysFile: string := "arrays.xml"

  /** The emitted document: every entry directly under one `resources` root. */
  function Document(entries: seq<Markup>): Markup
  {
    Branch(RootTag, [], entries)
  }

  /** The effect of unwrapPatch on the output tree. The input is read first; the
      output file is opened (truncated) only once the input has parsed. */
  function UnwrapInto(out: Tree<Written>, src: Option<Source>, dir: string, file: string): Outcome
  {
    match src
    case None => Outcome(out, Some(MissingInput))
    case Some(Malformed) => Outcome(out, Some(ParseError))
    case Some(Parsed(root)) =>
      if dir !in out then Outcome(out, Some(MissingOutputDir))
      else match Unwrap(Candidates(root))
        case Emitted(entries) => Outcome(out[dir := out[dir][file := Complete(Document(entries))]], None)
        case Aborted(entries) => Outcome(out[dir := out[dir][file := Truncated(entries)]], Some(MissingKey))
  }

  /** mkdirs on an output subdirectory. */
  function MakeDir(out: Tree<Written>, dir: string): Tree<Written>
  {
    if dir in out then out else out[dir := map[]]
  }

  /** mkdirs creates `dir` empty when it is missing and leaves every existing
      directory, `dir` included, as it was. */
  lemma MakeDirSpec(out: Tree<Written>, dir: string)
    ensures MakeDir(out, dir).Keys == out.Keys + {dir}
    ensures forall d | d in out :: MakeDir(out, dir)[d] == out[d]
    ensures dir !in out ==> MakeDir(out, dir)[dir] == map[]
  {
  }

  /** The per-variant loop over the listed names, in listing order, stopping
      at the first failure. */
  function Variants(out: Tree<Written>, input: Tree<Source>, listing: seq<string>): Outcome
    decreases |listing|
  {
    if listing == [] then Outcome(out, None)
    else
      var v := listing[0];
      var step := UnwrapInto(MakeDir(out, v), Lookup(input, v, StringsFile), v, StringsFile);
      if step.failure.Some? then step else Variants(step.out, input, listing[1..])
  }

  /** The whole task: every variant, then the shared arrays file. A failure is
      passed on to the caller. */
  function Generated(out: Tree<Written>, input: Tree<Source>, listing: seq<string>): Outcome
  {
    var variants := Variants(out, input, listing);
    if variants.failure.Some? then variants
    else UnwrapInto(variants.out, Lookup(input, SharedDir, ArraysFile), SharedDir, ArraysFile)
  }

  /** The source file parses and every candidate entry has a key. */
  predicate Unwrappable(src: Option<Source>)
  {
    src.Some? && src.value.Parsed? &&
    forall i | 0 <= i < |Candidates(src.value.root)| :: Admissible(Candidates(src.value.root)[i])
  }

  /** The parsed root of a source file; a stand-in for one that did not parse. */
  function Root(src: Option<Source>): Node
  {
    if src.Some? && src.value.Parsed? then src.value.root else Other
  }

  /** The complete document unwrapping `src` yields, deduplicated on its own:
      the walk starts from an empty key set. */
  function Expected(src: Option<Source>): Written
  {
    Complete(Document(WriteSeq(KeepFirst(Candidates(Root(src)), {}))))
  }

  /** `w` is a complete document with an entry whose key is `k`. */
  predicate HasEntry(w: Option<Written>, k: string)
  {
    w.Some? && w.value.Complete? && w.value.doc.Branch? &&
    exists i | 0 <= i < |w.value.doc.children| :: EntryKey(w.value.doc.children[i]) == Some(k)
  }

  class GenerateStringsTask {
    /** The contents of the output directory. */
    var output: Tree<Written>

    constructor (existing: Tree<Written>)
      ensures output == existing
    {
      output := existing;
    }

    method UnwrapPatch(src: Option<Source>, dir: string, file: string) returns (failure: Option<Failure>)
      modifies this
      ensures Outcome(output, failure) == UnwrapInto(old(output), src, dir, file)
    {
      match src
      case None =>
        failure := Some(MissingInput);
      case Some(Malformed) =>
        failure := Some(ParseError);
      case Some(Parsed(root)) =>
        if dir !in output {
          failure := Some(MissingOutputDir);
          return;
        }
        var emission := EmitEntries(Candidates(root));
        match emission
        case Emitted(entries) =>
          output := output[dir := output[dir][file := Complete(Document(entries))]];
          failure := None;
        case Aborted(entries) =>
          output := output[dir := output[dir][file := Truncated(entries)]];
          failure := Some(MissingKey);
    }

    /** `listing` is the input directory's listing, in the order it comes. */
    method Action(input: Tree<Source>, listing: seq<string>) returns (failure: Option<Failure>)
      modifies this
      ensures Outcome(output, failure) == Generated(old(output), input, listing)
    {
      var i := 0;
      while i < |listing|
        invariant 0 <= i <= |listing|
        invariant Variants(old(output), input, listing) == Variants(output, input, listing[i..])
      {
        var v := listing[i];
        ghost var rest := Variants(output, input, listing[i..]);
        assert listing[i..][0] == v && listing[i..][1..] == listing[i + 1..];
        if v !in output {
          output := output[v := map[]];
        }
        ghost var start := output;
        failure := UnwrapPatch(Lookup(input, v, StringsFile), v, StringsFile);
        ghost var step := UnwrapInto(start, Lookup(input, v, StringsFile), v, StringsFile);
        assert rest == if step.failure.Some? then step else Variants(step.out, input, listing[i + 1..]);
        if failure.Some? {
          return;
        }
        i := i + 1;
      }
      failure := UnwrapPatch(Lookup(input, SharedDir, ArraysFile), SharedDir, ArraysFile);
    }
  }

  lemma UnwrapIntoSucceeds(out: Tree<Written>, src: Option<Source>, dir: string, file: string)
    ensures UnwrapInto(out, src, dir, file).failure.None? <==> Unwrappable(src) && dir in out
    ensures Unwrappable(src) && dir in out ==>
      UnwrapInto(out, src, dir, file).out == out[dir := out[dir][file := Expected(src)]]
  {
    if Unwrappable(src) {
      var cands := Candidates(src.value.root);
      assert cands[..|cands|] == cands;
    }
  }

  /** The variant loop succeeds exactly when every listed subdirectory holds a
      strings.xml that parses and whose entries all have keys; then each of them
      has its own document, and the tree has every directory it had plus one per
      listed subdirectory. */
  lemma {:induction false} VariantsSucceed(out: Tree<Written>, input: Tree<Source>, listing: seq<string>)
    ensures Variants(out, input, listing).failure.None? <==>
      forall v | v in listing :: Unwrappable(Lookup(input, v, StringsFile))
    ensures Variants(out, input, listing).failure.None? ==>
      && (forall d :: d in Variants(out, input, listing).out <==> d in out || d in listing)
      && forall v | v in listing ::
           Lookup(Variants(out, input, listing).out, v, StringsFile) == Some(Expected(Lookup(input, v, StringsFile)))
    decreases |listing|
  {
    if listing != [] {
      var v := listing[0];
      var src := Lookup(input, v, StringsFile);
      var start := MakeDir(out, v);
      UnwrapIntoSucceeds(start, src, v, StringsFile);
      var step := UnwrapInto(start, src, v, StringsFile);
      if step.failure.None? {
        VariantsSucceed(step.out, input, listing[1..]);
        VariantsFrame(step.out, input, listing[1..]);
        assert forall w | w in listing :: w == v || w in listing[1..];
        assert Variants(out, input, listing) == Variants(step.out, input, listing[1..]);
      }
    }
  }

  /** The variant loop writes only the strings.xml of listed subdirectories and
      never removes a directory or a file. */
  lemma {:induction false} VariantsFrame(out: Tree<Written>, input: Tree<Source>, listing: seq<string>)
    ensures out.Keys <= Variants(out, input, listing).out.Keys
    ensures forall d, f | d in out && f in out[d] :: Lookup(Variants(out, input, listing).out, d, f).Some?
    ensures forall d, f | f != StringsFile || d !in listing ::
      Lookup(Variants(out, input, listing).out, d, f) == Lookup(out, d, f)
    decreases |listing|
  {
    if listing != [] {
      var v := listing[0];
      var step := UnwrapInto(MakeDir(out, v), Lookup(input, v, StringsFile), v, StringsFile);
      if step.failure.None? {
        VariantsFrame(step.out, input, listing[1..]);
      }
    }
  }

  /** The task succeeds exactly when every listed subdirectory's strings.xml and
      the shared arrays file parse and have keys on all entries, and the shared
      output directory exists beforehand or is one of the listed subdirectories
      (only those are created). */
  lemma GeneratedSucceeds(out: Tree<Written>, input: Tree<Source>, listing: seq<string>)
    ensures Generated(out, input, listing).failure.None? <==>
      && (forall v | v in listing :: Unwrappable(Lookup(input, v, StringsFile)))
      && Unwrappable(Lookup(input, SharedDir, ArraysFile))
      && (SharedDir in out || SharedDir in listing)
  {
    VariantsSucceed(out, input, listing);
    var variants := Variants(out, input, listing);
    UnwrapIntoSucceeds(variants.out, Lookup(input, SharedDir, ArraysFile), SharedDir, ArraysFile);
  }

  /** After a successful run every listed subdirectory `v` has `v/strings.xml`
      and the shared directory has arrays.xml, each the document of its own input
      deduplicated with a fresh key set. */
  lemma GeneratedContents(out: Tree<Written>, input: Tree<Source>, listing: seq<string>)
    requires Generated(out, input, listing).failure.None?
    ensures forall v | v in listing ::
      Lookup(Generated(out, input, listing).out, v, StringsFile) == Some(Expected(Lookup(input, v, StringsFile)))
    ensures Lookup(Generated(out, input, listing).out, SharedDir, ArraysFile)
      == Some(Expected(Lookup(input, SharedDir, ArraysFile)))
  {
    GeneratedSucceeds(out, input, listing);
    VariantsSucceed(out, input, listing);
    var variants := Variants(out, input, listing);
    UnwrapIntoSucceeds(variants.out, Lookup(input, SharedDir, ArraysFile), SharedDir, ArraysFile);
  }

  /** Nothing is deleted: every file present beforehand is still there, and any
      file other than a listed strings.xml or the shared arrays.xml is untouched,
      whether or not the run succeeded. */
  lemma GeneratedKeepsOthers(out: Tree<Written>, input: Tree<Source>, listing: seq<string>)
    ensures forall d, f | d in out && f in out[d] :: Lookup(Generated(out, input, listing).out, d, f).Some?
    ensures forall d, f | (f != StringsFile || d !in listing) && (d, f) != (SharedDir, ArraysFile) ::
      Lookup(Generated(out, input, listing).out, d, f) == Lookup(out, d, f)
  {
    VariantsFrame(out, input, listing);
  }

  /** Independent key scopes: a key present in both a variant's strings.xml and
      the shared arrays file keeps an entry in each of the two outputs. */
  lemma SharedKeyKeptInBoth(out: Tree<Written>, input: Tree<Source>, listing: seq<string>, v: string, k: string)
    requires Generated(out, input, listing).failure.None?
    requires v in listing
    requires Lookup(input, v, StringsFile).Some? && Lookup(input, v, StringsFile).value.Parsed?
    requires Lookup(input, SharedDir, ArraysFile).Some? && Lookup(input, SharedDir, ArraysFile).value.Parsed?
    requires k in KeysOf(Candidates(Lookup(input, v, StringsFile).value.root))
    requires k in KeysOf(Candidates(Lookup(input, SharedDir, ArraysFile).value.root))
    ensures HasEntry(Lookup(Generated(out, input, listing).out, v, StringsFile), k)
    ensures HasEntry(Lookup(Generated(out, input, listing).out, SharedDir, ArraysFile), k)
  {
    GeneratedSucceeds(out, input, listing);
    GeneratedContents(out, input, listing);
    var c1 := Candidates(Lookup(input, v, StringsFile).value.root);
    var c2 := Candidates(Lookup(input, SharedDir, ArraysFile).value.root);
    assert c1[..|c1|] == c1 && c2[..|c2|] == c2;
    UnwrapEntryKeys(c1);
    UnwrapEntryKeys(c2);
  }
}
