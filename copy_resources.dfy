/**
 * CopyResourcesTask of app/build.gradle.kts: the output directory is deleted,
 * then for every entry of a fixed, ordered table of source directories the
 * files of that directory, less the entry's exclusions, are copied into the
 * output subdirectory named by the part of the path after its first '/',
 * overwriting what is there. The file system is a map from directory path to
 * file name to contents.
 */
module CopyResources {
  import opened Wrappers

  /** The bytes of a file. */
  type Content = seq<bv8>

  /** One row of the copy table: a source path relative to the input directory,
      and the file names not to copy from it (`None`: copy everything). */
  datatype CopySpec = CopySpec(path: string, excludes: Option<seq<string>>)

  /** The copy table, in declaration order. Each path is spelled as its group
      and its subdirectory joined by '/' (for example "settings" + "/" + "layout"),
      which is the same string as the literal "settings/layout". The split form
      lets `TargetAfterFirstSlash` apply to every entry directly, without the
      verifier taking the literal apart character by character. */
  const ResourcePaths: seq<CopySpec> := [
    CopySpec("qualitybutton" + "/" + "drawable", None),
    CopySpec("settings" + "/" + "drawable", None),
    CopySpec("settings" + "/" + "menu", None),
    CopySpec("settings" + "/" + "layout", Some(["revanced_settings_with_toolbar.xml"])),
    CopySpec("sponsorblock" + "/" + "drawable", None),
    CopySpec("sponsorblock" + "/" + "layout", Some(["revanced_sb_skip_sponsor_button.xml"])),
    CopySpec("swipecontrols" + "/" + "drawable", None),
    CopySpec("copyvideourl" + "/" + "drawable", None),
    CopySpec("downloads" + "/" + "drawable", None),
    CopySpec("speedbutton" + "/" + "drawable", None)
  ]

  /** The part of `s` after its first `c`, if it has one. */
  function AfterFirst(s: string, c: char): Option<string>
  {
    if s == [] then None else if s[0] == c then Some(s[1..]) else AfterFirst(s[1..], c)
  }

  /** The part of `s` after the first `c`, or all of `s` when it has no `c`. */
  function SubstringAfter(s: string, c: char): string
  {
    match AfterFirst(s, c)
    case Some(rest) => rest
    case None => s
  }

  /** `AfterFirst` finds a separator exactly when there is one, and then gives
      what follows the first occurrence. */
  lemma {:induction false} AfterFirstSpec(s: string, c: char)
    ensures AfterFirst(s, c).None? <==> c !in s
    ensures AfterFirst(s, c).Some? ==>
      exists i | 0 <= i < |s| :: s[i] == c && c !in s[..i] && AfterFirst(s, c).value == s[i + 1..]
  {
    if s != [] && s[0] != c {
      AfterFirstSpec(s[1..], c);
      if AfterFirst(s, c).Some? {
        var i :| 0 <= i < |s[1..]| && s[1..][i] == c && c !in s[1..][..i] && AfterFirst(s, c).value == s[1..][i + 1..];
        assert s[..i + 1] == [s[0]] + s[1..][..i];
        assert s[i + 1 + 1..] == s[1..][i + 1..];
      }
    } else if s != [] {
      assert s[..0] == [];
    }
  }

  /** The result of `SubstringAfter` is a suffix of its input: all of it when
      the separator is missing, and otherwise what follows the first separator. */
  lemma SubstringAfterSpec(s: string, c: char)
    ensures |SubstringAfter(s, c)| <= |s| && SubstringAfter(s, c) == s[|s| - |SubstringAfter(s, c)|..]
    ensures c !in s ==> SubstringAfter(s, c) == s
    ensures c in s ==> exists i | 0 <= i < |s| :: s[i] == c && c !in s[..i] && SubstringAfter(s, c) == s[i + 1..]
  {
    AfterFirstSpec(s, c);
  }

  /** The output subdirectory an entry copies into. */
  function Target(e: CopySpec): string
  {
    SubstringAfter(e.path, '/')
  }

  /** The target is whatever follows the first separator, and the whole path
      when there is none. */
  lemma {:induction false} TargetAfterFirstSlash(a: string, b: string)
    requires '/' !in a
    ensures SubstringAfter(a + "/" + b, '/') == b
    ensures AfterFirst(a, '/') == None
  {
    if a != [] {
      assert (a + "/" + b)[0] == a[0];
      assert (a + "/" + b)[1..] == a[1..] + "/" + b;
      TargetAfterFirstSlash(a[1..], b);
    } else {
      assert a + "/" + b == "/" + b;
    }
  }

  /** An entry lets a file through: it has no exclusion list, or the name is
      not on it. */
  predicate Admits(excludes: Option<seq<string>>, name: string)
  {
    excludes.None? || name !in excludes.value
  }

  /** The files of a source directory that an entry copies. */
  function Kept(files: map<string, Content>, excludes: Option<seq<string>>): map<string, Content>
  {
    map name | name in files && Admits(excludes, name) :: files[name]
  }

  /** Exactly the admitted files are kept, with their contents. */
  lemma KeptSpec(files: map<string, Content>, excludes: Option<seq<string>>)
    ensures forall name :: name in Kept(files, excludes) <==> name in files && Admits(excludes, name)
    ensures forall name | name in Kept(files, excludes) :: Kept(files, excludes)[name] == files[name]
    ensures excludes.None? ==> Kept(files, excludes) == files
  {
  }

  /** The files of `dir` in `t`; none when it does not exist. */
  function DirOf(t: Tree<Content>, dir: string): map<string, Content>
  {
    if dir in t then t[dir] else map[]
  }

  /** Copy `files` into `dir`, overwriting files of the same name; the
      directory comes into being with its first file. */
  function Place(t: Tree<Content>, dir: string, files: map<string, Content>): Tree<Content>
  {
    if files == map[] then t else t[dir := DirOf(t, dir) + files]
  }

  /** Placing files changes only `dir`: each placed file gets its new contents,
      every other file of `dir` keeps its own, and no empty directory appears. */
  lemma PlaceSpec(t: Tree<Content>, dir: string, files: map<string, Content>)
    ensures forall d | d != dir :: (d in Place(t, dir, files) <==> d in t)
    ensures forall d | d != dir && d in t :: Place(t, dir, files)[d] == t[d]
    ensures dir in Place(t, dir, files) <==> dir in t || files != map[]
    ensures forall name | name in files :: Lookup(Place(t, dir, files), dir, name) == Some(files[name])
    ensures forall name | name !in files :: Lookup(Place(t, dir, files), dir, name) == Lookup(t, dir, name)
  {
  }

  /** One table entry; a source directory that does not exist copies nothing. */
  function CopyEntry(t: Tree<Content>, input: Tree<Content>, e: CopySpec): Tree<Content>
  {
    if e.path in input then Place(t, Target(e), Kept(input[e.path], e.excludes)) else t
  }

  /** The table's entries in order, starting from `t`. */
  function CopyAll(t: Tree<Content>, input: Tree<Content>, table: seq<CopySpec>): Tree<Content>
    decreases |table|
  {
    if table == [] then t else CopyAll(CopyEntry(t, input, table[0]), input, table[1..])
  }

  /** The output tree of a run: the old tree is discarded first. */
  function Aggregate(input: Tree<Content>, table: seq<CopySpec>): Tree<Content>
  {
    CopyAll(map[], input, table)
  }

  /** Entry `e` copies a file `name` into `dir`. */
  predicate Provides(input: Tree<Content>, e: CopySpec, dir: string, name: string)
  {
    Target(e) == dir && e.path in input && name in input[e.path] && Admits(e.excludes, name)
  }

  /** The contents the last entry of the table that copies `name` into `dir`
      gives it, if any entry does. */
  function LastProvider(input: Tree<Content>, table: seq<CopySpec>, dir: string, name: string): Option<Content>
    decreases |table|
  {
    if table == [] then None
    else
      var e := table[|table| - 1];
      if Provides(input, e, dir, name) then Some(input[e.path][name])
      else LastProvider(input, table[..|table| - 1], dir, name)
  }

  lemma {:induction false} CopyAllSnoc(t: Tree<Content>, input: Tree<Content>, table: seq<CopySpec>, e: CopySpec)
    ensures CopyAll(t, input, table + [e]) == CopyEntry(CopyAll(t, input, table), input, e)
    decreases |table|
  {
    if table == [] {
      assert table + [e] == [e];
    } else {
      assert (table + [e])[0] == table[0];
      assert (table + [e])[1..] == table[1..] + [e];
      CopyAllSnoc(CopyEntry(t, input, table[0]), input, table[1..], e);
    }
  }

  lemma CopyEntryLookup(t: Tree<Content>, input: Tree<Content>, e: CopySpec, dir: string, name: string)
    ensures Lookup(CopyEntry(t, input, e), dir, name) ==
      if Provides(input, e, dir, name) then Some(input[e.path][name]) else Lookup(t, dir, name)
    ensures dir in CopyEntry(t, input, e) ==> dir in t || exists n :: Provides(input, e, dir, n)
  {
    if e.path in input {
      var kept := Kept(input[e.path], e.excludes);
      if kept != map[] {
        var n :| n in kept;
        assert Provides(input, e, Target(e), n);
      }
    }
  }

  /** Last write wins: after the table has run over `t`, a file holds what the
      last entry copying it gave it, and otherwise what it held in `t`. */
  lemma {:induction false} CopyAllLookup(t: Tree<Content>, input: Tree<Content>, table: seq<CopySpec>, dir: string, name: string)
    ensures Lookup(CopyAll(t, input, table), dir, name) ==
      match LastProvider(input, table, dir, name)
      case Some(c) => Some(c)
      case None => Lookup(t, dir, name)
    decreases |table|
  {
    if table != [] {
      var front := table[..|table| - 1];
      var e := table[|table| - 1];
      assert table == front + [e];
      CopyAllSnoc(t, input, front, e);
      CopyAllLookup(t, input, front, dir, name);
      CopyEntryLookup(CopyAll(t, input, front), input, e, dir, name);
    }
  }

  /** Every directory the table leaves behind was there before or receives a
      file from some entry. */
  lemma {:induction false} CopyAllDirs(t: Tree<Content>, input: Tree<Content>, table: seq<CopySpec>, dir: string)
    requires dir in CopyAll(t, input, table)
    ensures dir in t || exists i, n | 0 <= i < |table| :: Provides(input, table[i], dir, n)
    decreases |table|
  {
    if table != [] {
      var t1 := CopyEntry(t, input, table[0]);
      CopyAllDirs(t1, input, table[1..], dir);
      CopyEntryLookup(t, input, table[0], dir, "");
      if dir !in t1 {
        var i, n :| 0 <= i < |table[1..]| && Provides(input, table[1..][i], dir, n);
        assert Provides(input, table[i + 1], dir, n);
      } else if dir !in t {
        var n :| Provides(input, table[0], dir, n);
      }
    }
  }

  lemma {:induction false} LastProviderSpec(input: Tree<Content>, table: seq<CopySpec>, dir: string, name: string)
    ensures LastProvider(input, table, dir, name).Some? <==>
      exists i | 0 <= i < |table| :: Provides(input, table[i], dir, name)
    ensures LastProvider(input, table, dir, name).Some? ==>
      exists i | 0 <= i < |table| ::
        && Provides(input, table[i], dir, name)
        && LastProvider(input, table, dir, name) == Some(input[table[i].path][name])
        && forall j | i < j < |table| :: !Provides(input, table[j], dir, name)
    decreases |table|
  {
    if table != [] {
      var front := table[..|table| - 1];
      LastProviderSpec(input, front, dir, name);
      if !Provides(input, table[|table| - 1], dir, name) {
        if i :| 0 <= i < |table| && Provides(input, table[i], dir, name) {
          assert front[i] == table[i];
        }
      }
    }
  }

  /** Clean slate: after a run, every file in the output was copied in this run,
      from the last table entry that copies a file of that name into that
      directory, and every directory holds a copied file; nothing from before
      survives. */
  lemma AggregateCleanSlate(input: Tree<Content>, table: seq<CopySpec>, dir: string, name: string)
    ensures Lookup(Aggregate(input, table), dir, name).Some? ==>
      exists i | 0 <= i < |table| ::
        && Provides(input, table[i], dir, name)
        && Lookup(Aggregate(input, table), dir, name) == Some(input[table[i].path][name])
        && forall j | i < j < |table| :: !Provides(input, table[j], dir, name)
    ensures dir in Aggregate(input, table) ==> exists i, n | 0 <= i < |table| :: Provides(input, table[i], dir, n)
  {
    CopyAllLookup(map[], input, table, dir, name);
    LastProviderSpec(input, table, dir, name);
    if dir in Aggregate(input, table) {
      CopyAllDirs(map[], input, table, dir);
    }
  }

  /** Exclusion and overwriting: a file that some entry copies is in the output
      with the contents of the last such entry; a file no entry copies (absent
      from every source, or excluded by every entry whose source has it) is not
      in the output. */
  lemma AggregateLastWriteWins(input: Tree<Content>, table: seq<CopySpec>, i: nat, dir: string, name: string)
    requires i < |table| && Provides(input, table[i], dir, name)
    requires forall j | i < j < |table| :: !Provides(input, table[j], dir, name)
    ensures Lookup(Aggregate(input, table), dir, name) == Some(input[table[i].path][name])
  {
    CopyAllLookup(map[], input, table, dir, name);
    LastProviderSpec(input, table, dir, name);
    var k :| 0 <= k < |table| && Provides(input, table[k], dir, name)
      && LastProvider(input, table, dir, name) == Some(input[table[k].path][name])
      && forall j | k < j < |table| :: !Provides(input, table[j], dir, name);
    assert k == i;
  }

  lemma AggregateOmitsUncopied(input: Tree<Content>, table: seq<CopySpec>, dir: string, name: string)
    requires forall i | 0 <= i < |table| :: !Provides(input, table[i], dir, name)
    ensures Lookup(Aggregate(input, table), dir, name) == None
  {
    CopyAllLookup(map[], input, table, dir, name);
    LastProviderSpec(input, table, dir, name);
  }

  lemma {:induction false} CopyAllAppend(t: Tree<Content>, input: Tree<Content>, a: seq<CopySpec>, b: seq<CopySpec>)
    ensures CopyAll(t, input, a + b) == CopyAll(CopyAll(t, input, a), input, b)
    decreases |a|
  {
    if a == [] {
      assert a + b == b;
    } else {
      assert (a + b)[0] == a[0];
      assert (a + b)[1..] == a[1..] + b;
      CopyAllAppend(CopyEntry(t, input, a[0]), input, a[1..], b);
    }
  }

  /** A table entry whose source directory does not exist changes nothing: the
      run is the same as without that entry. */
  lemma MissingSourceIgnored(input: Tree<Content>, table: seq<CopySpec>, i: nat)
    requires i < |table| && table[i].path !in input
    ensures Aggregate(input, table) == Aggregate(input, table[..i] + table[i + 1..])
  {
    assert table == table[..i] + [table[i]] + table[i + 1..];
    CopyAllAppend(map[], input, table[..i] + [table[i]], table[i + 1..]);
    CopyAllSnoc(map[], input, table[..i], table[i]);
    CopyAllAppend(map[], input, table[..i], table[i + 1..]);
  }

  /** The output subdirectory of each table entry: `menu` for settings/menu,
      `layout` for the two layout sources, `drawable` for all the others. */
  lemma ResourcePathTarget(i: nat)
    requires i < |ResourcePaths|
    ensures Target(ResourcePaths[i]) == if i == 2 then "menu" else if i == 3 || i == 5 then "layout" else "drawable"
  {
    if i == 0 {
      TargetAfterFirstSlash("qualitybutton", "drawable");
    } else if i == 1 {
      TargetAfterFirstSlash("settings", "drawable");
    } else if i == 2 {
      TargetAfterFirstSlash("settings", "menu");
    } else if i == 3 {
      TargetAfterFirstSlash("settings", "layout");
    } else if i == 4 {
      TargetAfterFirstSlash("sponsorblock", "drawable");
    } else if i == 5 {
      TargetAfterFirstSlash("sponsorblock", "layout");
    } else if i == 6 {
      TargetAfterFirstSlash("swipecontrols", "drawable");
    } else if i == 7 {
      TargetAfterFirstSlash("copyvideourl", "drawable");
    } else if i == 8 {
      TargetAfterFirstSlash("downloads", "drawable");
    } else {
      TargetAfterFirstSlash("speedbutton", "drawable");
    }
  }

  /** When no other entry copies `name` into `dir`, the file comes from entry
      `b` if that entry copies it, and from nowhere otherwise. */
  lemma OnlyProvider(input: Tree<Content>, table: seq<CopySpec>, b: nat, dir: string, name: string)
    requires b < |table|
    requires forall j | 0 <= j < |table| && j != b :: !Provides(input, table[j], dir, name)
    ensures LastProvider(input, table, dir, name) ==
      if Provides(input, table[b], dir, name) then Some(input[table[b].path][name]) else None
  {
    LastProviderSpec(input, table, dir, name);
  }

  /** Only settings/layout and sponsorblock/layout copy into `layout`. */
  lemma OtherTargetsNotLayout(j: nat)
    requires j < |ResourcePaths| && j != 3 && j != 5
    ensures Target(ResourcePaths[j]) != "layout"
  {
    ResourcePathTarget(j);
    assert |"menu"| != |"layout"| && |"drawable"| != |"layout"|;
  }

  /** The settings toolbar layout is excluded from settings/layout: the output
      has it exactly when sponsorblock/layout, the only other layout source,
      has it. */
  lemma ToolbarLayoutExcluded(input: Tree<Content>)
    ensures Lookup(Aggregate(input, ResourcePaths), "layout", "revanced_settings_with_toolbar.xml") ==
      if "sponsorblock/layout" in input && "revanced_settings_with_toolbar.xml" in input["sponsorblock/layout"]
      then Some(input["sponsorblock/layout"]["revanced_settings_with_toolbar.xml"])
      else None
  {
    var name := "revanced_settings_with_toolbar.xml";
    forall j | 0 <= j < |ResourcePaths| && j != 5 ensures !Provides(input, ResourcePaths[j], "layout", name) {
      if j != 3 {
        OtherTargetsNotLayout(j);
      }
    }
    ResourcePathTarget(5);
    assert ResourcePaths[5].path == "sponsorblock/layout";
    OnlyProvider(input, ResourcePaths, 5, "layout", name);
    CopyAllLookup(map[], input, ResourcePaths, "layout", name);
  }

  /** The sponsor-block skip button layout is excluded from sponsorblock/layout:
      the output has it exactly when settings/layout has it. */
  lemma SkipButtonLayoutExcluded(input: Tree<Content>)
    ensures Lookup(Aggregate(input, ResourcePaths), "layout", "revanced_sb_skip_sponsor_button.xml") ==
      if "settings/layout" in input && "revanced_sb_skip_sponsor_button.xml" in input["settings/layout"]
      then Some(input["settings/layout"]["revanced_sb_skip_sponsor_button.xml"])
      else None
  {
    var name := "revanced_sb_skip_sponsor_button.xml";
    forall j | 0 <= j < |ResourcePaths| && j != 3 ensures !Provides(input, ResourcePaths[j], "layout", name) {
      if j != 5 {
        OtherTargetsNotLayout(j);
      }
    }
    ResourcePathTarget(3);
    assert ResourcePaths[3].path == "settings/layout";
    OnlyProvider(input, ResourcePaths, 3, "layout", name);
    CopyAllLookup(map[], input, ResourcePaths, "layout", name);
  }

  /** speedbutton/drawable is the last table entry, so a drawable it has
      overrides one of the same name from every other drawable source. */
  lemma SpeedButtonDrawableWins(input: Tree<Content>, name: string)
    requires "speedbutton/drawable" in input && name in input["speedbutton/drawable"]
    ensures Lookup(Aggregate(input, ResourcePaths), "drawable", name) == Some(input["speedbutton/drawable"][name])
  {
    ResourcePathTarget(9);
    assert ResourcePaths[9].path == "speedbutton/drawable";
    AggregateLastWriteWins(input, ResourcePaths, 9, "drawable", name);
  }

  class CopyResourcesTask {
    /** The contents of the output directory. */
    var output: Tree<Content>

    constructor (existing: Tree<Content>)
      ensures output == existing
    {
      output := existing;
    }

    /** Copy the files of one source directory that `excludes` lets through
        into `dir`, overwriting files of the same name. */
    method CopyDir(dir: string, source: map<string, Content>, excludes: Option<seq<string>>)
      modifies this
      ensures output == Place(old(output), dir, Kept(source, excludes))
    {
      var names := source.Keys;
      ghost var done: set<string> := {};
      while names != {}
        invariant names + done == source.Keys && names !! done
        invariant output == Place(old(output), dir, Kept(Within(source, done), excludes))
        decreases names
      {
        var name :| name in names;
        ghost var kept := Kept(Within(source, done), excludes);
        if excludes.None? || name !in excludes.value {
          KeptGrows(source, done, excludes, name);
          PlaceOne(old(output), dir, kept, name, source[name]);
          output := output[dir := DirOf(output, dir)[name := source[name]]];
        } else {
          KeptSkips(source, done, excludes, name);
        }
        names := names - {name};
        done := done + {name};
      }
      assert Within(source, done) == source;
    }

    /** `input` maps every existing source directory to its files. */
    method Action(input: Tree<Content>)
      modifies this
      ensures output == Aggregate(input, ResourcePaths)
    {
      output := map[];
      var i := 0;
      while i < |ResourcePaths|
        invariant 0 <= i <= |ResourcePaths|
        invariant output == Aggregate(input, ResourcePaths[..i])
      {
        var entry := ResourcePaths[i];
        assert ResourcePaths[..i + 1] == ResourcePaths[..i] + [entry];
        CopyAllSnoc(map[], input, ResourcePaths[..i], entry);
        var dir := SubstringAfter(entry.path, '/');
        if entry.path in input {
          CopyDir(dir, input[entry.path], entry.excludes);
        }
        i := i + 1;
      }
      assert ResourcePaths[..i] == ResourcePaths;
    }
  }

  /** One more admitted file seen by the copy loop adds that file to what is kept. */
  lemma KeptGrows(source: map<string, Content>, done: set<string>, excludes: Option<seq<string>>, name: string)
    requires name in source && Admits(excludes, name)
    ensures Kept(Within(source, done + {name}), excludes) == Kept(Within(source, done), excludes)[name := source[name]]
  {
  }

  /** One more excluded file seen by the copy loop leaves what is kept unchanged. */
  lemma KeptSkips(source: map<string, Content>, done: set<string>, excludes: Option<seq<string>>, name: string)
    requires !Admits(excludes, name)
    ensures Kept(Within(source, done + {name}), excludes) == Kept(Within(source, done), excludes)
  {
  }

  /** Placing a kept set with one more file equals placing the smaller set and
      then writing that file into the target directory. */
  lemma PlaceOne(t: Tree<Content>, dir: string, kept: map<string, Content>, name: string, c: Content)
    ensures Place(t, dir, kept[name := c]) == Place(t, dir, kept)[dir := DirOf(Place(t, dir, kept), dir)[name := c]]
  {
    assert kept[name := c] != map[] by {
      assert name in kept[name := c];
    }
    var d := DirOf(t, dir);
    assert d + kept[name := c] == (d + kept)[name := c];
    if kept == map[] {
      assert d + kept == d;
    } else {
      assert DirOf(Place(t, dir, kept), dir) == d + kept;
    }
  }

  /** The files of `m` whose names are in `names`. */
  function Within(m: map<string, Content>, names: set<string>): map<string, Content>
  {
    map name | name in m && name in names :: m[name]
  }
}
