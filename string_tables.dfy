/**
 * The string-table unwrapper of the resource pipeline (GenerateStringsTask in
 * app/build.gradle.kts): a parsed patch-authoring document is walked three levels
 * below its root, entries are deduplicated by their `name` attribute (the first
 * one in document order wins) and every kept entry is re-emitted, structure
 * intact, under a single `resources` root.
 *
 * XML parsing, printing and text escaping are not modelled: the input is an
 * already-parsed tree and the output is a markup tree.
 */
module StringTables {
  import opened Wrappers

  /** A node as the XML reader presents it. `text` is what the reader reports as
      the node's text, i.e. all character data inside it. `Other` stands for any
      item a child listing yields that is not an element node. */
  datatype Node =
    | Element(tag: string, attrs: seq<(string, string)>, children: seq<Node>, text: string)
    | Other

  /** What the markup writer emits: an element whose content is child elements,
      or an element whose content is its text. */
  datatype Markup =
    | Branch(tag: string, attrs: seq<(string, string)>, children: seq<Markup>)
    | Leaf(tag: string, attrs: seq<(string, string)>, text: string)

  /** Outcome of the entry loop: every candidate was handled, or the loop stopped
      at an entry without a key, after `written` had already gone out. */
  datatype Emission = Emitted(entries: seq<Markup>) | Aborted(entries: seq<Markup>)

  /** Entries sit at this depth below the root: root, group, subgroup, entry. */
  const EntryDepth: nat := 3
  /** The attribute whose value identifies an entry. */
  const KeyAttribute: string := "name"
  /** The tag of the single root element of every emitted document. */
  const RootTag: string := "resources"

  /** Value of the first attribute called `key`, if there is one. */
  function Attr(attrs: seq<(string, string)>, key: string): (r: Option<string>)
    ensures r.None? <==> forall i | 0 <= i < |attrs| :: attrs[i].0 != key
    ensures r.Some? ==>
      exists i | 0 <= i < |attrs| :: attrs[i] == (key, r.value) && forall j | 0 <= j < i :: attrs[j].0 != key
  {
    if attrs == [] then None
    else if attrs[0].0 == key then Some(attrs[0].1)
    else
      var r := Attr(attrs[1..], key);
      if r.Some? then
        ghost var i :| 0 <= i < |attrs[1..]| && attrs[1..][i] == (key, r.value)
                       && forall j | 0 <= j < i :: attrs[1..][j].0 != key;
        assert attrs[i + 1] == (key, r.value);
        r
      else r
  }

  /** The deduplication key of a node: the `name` attribute of an element. */
  function Key(n: Node): Option<string>
  {
    match n
    case Other => None
    case Element(_, attrs, _, _) => Attr(attrs, KeyAttribute)
  }

  /** The entry loop gets past `n`: it is skipped as a non-element, or it has a key. */
  predicate Admissible(n: Node)
  {
    n.Other? || Key(n).Some?
  }

  /** The child elements a node lists; a non-element lists none. */
  function Children(n: Node): seq<Node>
  {
    if n.Element? then n.children else []
  }

  /** The children of every node of `ns`, in document order. */
  function ChildLevel(ns: seq<Node>): seq<Node>
  {
    if ns == [] then [] else Children(ns[0]) + ChildLevel(ns[1..])
  }

  /** The nodes `k` levels below the nodes of `ns`. */
  function Descend(ns: seq<Node>, k: nat): seq<Node>
    decreases k
  {
    if k == 0 then ns else Descend(ChildLevel(ns), k - 1)
  }

  /** The candidate entries of a document: the nodes three levels below its root. */
  function Candidates(root: Node): seq<Node>
  {
    Descend([root], EntryDepth)
  }

  lemma {:induction false} ChildLevelMembers(ns: seq<Node>)
    ensures forall x :: x in ChildLevel(ns) <==> exists p :: p in ns && x in Children(p)
  {
    if ns != [] {
      ChildLevelMembers(ns[1..]);
      forall x
        ensures x in ChildLevel(ns) <==> exists p :: p in ns && x in Children(p)
      {
        if x in ChildLevel(ns) && x !in Children(ns[0]) {
          assert x in ChildLevel(ns[1..]);
          var p :| p in ns[1..] && x in Children(p);
          assert p in ns;
        }
      }
    }
  }

  /** The candidates are exactly the great-grandchildren of the root. */
  lemma CandidatesAtEntryDepth(root: Node)
    ensures forall x :: x in Candidates(root) <==>
      exists g, s :: g in Children(root) && s in Children(g) && x in Children(s)
  {
    var l1 := ChildLevel([root]);
    var l2 := ChildLevel(l1);
    assert Descend([root], 3) == Descend(l1, 2) == Descend(l2, 1) == ChildLevel(l2);
    ChildLevelMembers([root]);
    ChildLevelMembers(l1);
    ChildLevelMembers(l2);
  }

  /** Markup for one node: nothing for a non-element; for an element with
      children, the same tag and attributes around the markup of the children in
      order; for an element without children, the same tag and attributes around
      its text. Character data of an element that also has child elements (mixed
      content, such as text before a `<b>` inside a string) is not written. */
  function WriteNode(n: Node): (r: seq<Markup>)
    ensures n.Other? ==> r == []
    ensures n.Element? ==> |r| == 1 && r[0].tag == n.tag && r[0].attrs == n.attrs
    ensures n.Element? ==> (r[0].Leaf? <==> n.children == [])
  {
    match n
    case Other => []
    case Element(tag, attrs, children, text) =>
      if |children| > 0 then [Branch(tag, attrs, WriteSeq(children))]
      else [Leaf(tag, attrs, text)]
  }

  /** Markup for a sequence of nodes, one after the other. */
  function WriteSeq(ns: seq<Node>): seq<Markup>
  {
    if ns == [] then [] else WriteNode(ns[0]) + WriteSeq(ns[1..])
  }

  lemma {:induction false} WriteSeqAppend(a: seq<Node>, b: seq<Node>)
    ensures WriteSeq(a + b) == WriteSeq(a) + WriteSeq(b)
  {
    if a == [] {
      assert a + b == b;
    } else {
      assert (a + b)[0] == a[0];
      assert (a + b)[1..] == a[1..] + b;
      WriteSeqAppend(a[1..], b);
    }
  }

  /** Over elements only, the markup is one item per node, in the same order. */
  lemma {:induction false} WriteSeqElements(ns: seq<Node>)
    requires forall i | 0 <= i < |ns| :: ns[i].Element?
    ensures |WriteSeq(ns)| == |ns|
    ensures forall i | 0 <= i < |ns| :: WriteSeq(ns)[i] == WriteNode(ns[i])[0]
  {
    if ns != [] {
      WriteSeqElements(ns[1..]);
    }
  }

  /** All character data of a piece of markup, as a reader of it would report. */
  function MarkupText(m: Markup): string
  {
    match m
    case Leaf(_, _, text) => text
    case Branch(_, _, children) => MarkupTextSeq(children)
  }

  function MarkupTextSeq(ms: seq<Markup>): string
  {
    if ms == [] then "" else MarkupText(ms[0]) + MarkupTextSeq(ms[1..])
  }

  /** The node a reader builds when it reads the markup back. */
  function Reparse(m: Markup): Node
  {
    match m
    case Leaf(tag, attrs, text) => Element(tag, attrs, [], text)
    case Branch(tag, attrs, children) => Element(tag, attrs, ReparseSeq(children), MarkupTextSeq(children))
  }

  function ReparseSeq(ms: seq<Markup>): seq<Node>
  {
    if ms == [] then [] else [Reparse(ms[0])] + ReparseSeq(ms[1..])
  }

  lemma {:induction false} ReparseSeqAppend(a: seq<Markup>, b: seq<Markup>)
    ensures ReparseSeq(a + b) == ReparseSeq(a) + ReparseSeq(b)
    ensures MarkupTextSeq(a + b) == MarkupTextSeq(a) + MarkupTextSeq(b)
  {
    if a == [] {
      assert a + b == b;
    } else {
      assert (a + b)[0] == a[0];
      assert (a + b)[1..] == a[1..] + b;
      ReparseSeqAppend(a[1..], b);
    }
  }

  /** Concatenated text of a sequence of nodes. */
  function TextSeq(ns: seq<Node>): string
  {
    if ns == [] then "" else (if ns[0].Element? then ns[0].text else "") + TextSeq(ns[1..])
  }

  /** A tree made of elements only, in which no element with children has
      character data of its own (no mixed content). */
  predicate Plain(n: Node)
  {
    match n
    case Other => false
    case Element(_, _, children, text) =>
      (forall i | 0 <= i < |children| :: Plain(children[i])) && (children != [] ==> text == TextSeq(children))
  }

  /** Structural fidelity: reading back the markup written for a plain node gives
      the node itself (tag, attributes, children in order, text), at any depth. */
  lemma {:induction false} ReparseWriteNode(n: Node)
    requires Plain(n)
    ensures ReparseSeq(WriteNode(n)) == [n]
    ensures MarkupTextSeq(WriteNode(n)) == n.text
  {
    var m := WriteNode(n)[0];
    assert WriteNode(n) == [m];
    assert ReparseSeq([m]) == [Reparse(m)];
    assert MarkupTextSeq([m]) == MarkupText(m);
    if n.children != [] {
      ReparseWriteSeq(n.children);
    }
  }

  lemma {:induction false} ReparseWriteSeq(ns: seq<Node>)
    requires forall i | 0 <= i < |ns| :: Plain(ns[i])
    ensures ReparseSeq(WriteSeq(ns)) == ns
    ensures MarkupTextSeq(WriteSeq(ns)) == TextSeq(ns)
  {
    if ns != [] {
      ReparseWriteNode(ns[0]);
      ReparseWriteSeq(ns[1..]);
      ReparseSeqAppend(WriteNode(ns[0]), WriteSeq(ns[1..]));
    }
  }

  /** The keys carried by the nodes of `ns`. */
  function KeysOf(ns: seq<Node>): set<string>
  {
    if ns == [] then {} else (if Key(ns[0]).Some? then {Key(ns[0]).value} else {}) + KeysOf(ns[1..])
  }

  lemma {:induction false} KeysOfAppend(a: seq<Node>, b: seq<Node>)
    ensures KeysOf(a + b) == KeysOf(a) + KeysOf(b)
  {
    if a == [] {
      assert a + b == b;
    } else {
      assert (a + b)[0] == a[0];
      assert (a + b)[1..] == a[1..] + b;
      KeysOfAppend(a[1..], b);
    }
  }

  /** The deduplication walk: keyed nodes in order, each kept unless its key is
      already in `seen`, which grows with every kept key. Nodes without a key are
      passed over (the entry loop is only consulted for candidates it gets past). */
  function KeepFirst(es: seq<Node>, seen: set<string>): seq<Node>
  {
    if es == [] then []
    else match Key(es[0])
      case None => KeepFirst(es[1..], seen)
      case Some(k) =>
        if k in seen then KeepFirst(es[1..], seen) else [es[0]] + KeepFirst(es[1..], seen + {k})
  }

  /** Two distinct kept nodes never share a key. */
  ghost predicate UniqueKeys(ns: seq<Node>)
  {
    forall i, j | 0 <= i < j < |ns| :: Key(ns[i]) != Key(ns[j])
  }

  /** Every kept node has a key that was not seen before, and no key is kept twice. */
  lemma {:induction false} KeepFirstUnique(es: seq<Node>, seen: set<string>)
    ensures forall x | x in KeepFirst(es, seen) :: Key(x).Some? && Key(x).value !in seen
    ensures UniqueKeys(KeepFirst(es, seen))
  {
    if es != [] {
      match Key(es[0])
      case None => KeepFirstUnique(es[1..], seen);
      case Some(k) =>
        if k in seen {
          KeepFirstUnique(es[1..], seen);
        } else {
          KeepFirstUnique(es[1..], seen + {k});
          var r := KeepFirst(es, seen);
          assert r == [es[0]] + KeepFirst(es[1..], seen + {k});
          forall i, j | 0 <= i < j < |r| ensures Key(r[i]) != Key(r[j]) {
            if i == 0 {
              assert r[j] in KeepFirst(es[1..], seen + {k});
            } else {
              assert r[i] == KeepFirst(es[1..], seen + {k})[i - 1];
              assert r[j] == KeepFirst(es[1..], seen + {k})[j - 1];
            }
          }
        }
    }
  }

  /** The first node of `s` whose key is `k`. */
  function FirstWith(s: seq<Node>, k: string): Option<Node>
  {
    if s == [] then None else if Key(s[0]) == Some(k) then Some(s[0]) else FirstWith(s[1..], k)
  }

  /** First occurrence wins: for every key not seen before, the node kept for it
      is the first node of the input with that key, and a key already seen keeps
      nothing. */
  lemma {:induction false} KeepFirstFirstWins(es: seq<Node>, seen: set<string>, k: string)
    ensures FirstWith(KeepFirst(es, seen), k) == if k in seen then None else FirstWith(es, k)
  {
    if es != [] {
      match Key(es[0])
      case None => KeepFirstFirstWins(es[1..], seen, k);
      case Some(k0) =>
        if k0 in seen {
          KeepFirstFirstWins(es[1..], seen, k);
        } else {
          var r := KeepFirst(es, seen);
          assert r == [es[0]] + KeepFirst(es[1..], seen + {k0});
          assert r[1..] == KeepFirst(es[1..], seen + {k0});
          KeepFirstFirstWins(es[1..], seen + {k0}, k);
        }
    }
  }

  /** Every key of the input that was not seen before is kept. */
  lemma {:induction false} KeepFirstComplete(es: seq<Node>, seen: set<string>)
    ensures KeysOf(KeepFirst(es, seen)) == KeysOf(es) - seen
  {
    if es != [] {
      match Key(es[0])
      case None => KeepFirstComplete(es[1..], seen);
      case Some(k) =>
        if k in seen {
          KeepFirstComplete(es[1..], seen);
        } else {
          KeepFirstComplete(es[1..], seen + {k});
          var r := KeepFirst(es, seen);
          assert r[0] == es[0] && r[1..] == KeepFirst(es[1..], seen + {k});
        }
    }
  }

  /** `a` is `b` with some items left out, the rest in their original order. */
  ghost predicate IsSubsequence<T>(a: seq<T>, b: seq<T>)
    decreases |b|
  {
    a == [] || (b != [] && ((a[0] == b[0] && IsSubsequence(a[1..], b[1..])) || IsSubsequence(a, b[1..])))
  }

  /** Kept nodes are input nodes and keep their relative document order. */
  lemma {:induction false} KeepFirstSubsequence(es: seq<Node>, seen: set<string>)
    ensures forall x | x in KeepFirst(es, seen) :: x in es
    ensures IsSubsequence(KeepFirst(es, seen), es)
  {
    if es != [] {
      match Key(es[0])
      case None => KeepFirstSubsequence(es[1..], seen);
      case Some(k) =>
        if k in seen {
          KeepFirstSubsequence(es[1..], seen);
        } else {
          KeepFirstSubsequence(es[1..], seen + {k});
          var r := KeepFirst(es, seen);
          assert r[0] == es[0] && r[1..] == KeepFirst(es[1..], seen + {k});
        }
    }
  }

  /** The walk over a concatenation is the walk over the first part followed by
      the walk over the second, with the keys kept by the first part seen. */
  lemma {:induction false} KeepFirstAppend(a: seq<Node>, b: seq<Node>, seen: set<string>)
    ensures KeepFirst(a + b, seen) == KeepFirst(a, seen) + KeepFirst(b, seen + KeysOf(KeepFirst(a, seen)))
  {
    if a == [] {
      assert a + b == b;
      assert KeepFirst(a, seen) == [] && KeysOf([]) == {};
      assert seen + {} == seen;
    } else {
      assert (a + b)[0] == a[0];
      assert (a + b)[1..] == a[1..] + b;
      match Key(a[0])
      case None => KeepFirstAppend(a[1..], b, seen);
      case Some(k) =>
        if k in seen {
          KeepFirstAppend(a[1..], b, seen);
        } else {
          KeepFirstAppend(a[1..], b, seen + {k});
          var r := KeepFirst(a[1..], seen + {k});
          assert KeepFirst(a, seen) == [a[0]] + r;
          assert KeysOf([a[0]] + r) == {k} + KeysOf(r) by {
            assert ([a[0]] + r)[1..] == r;
          }
          assert seen + {k} + KeysOf(r) == seen + KeysOf([a[0]] + r);
        }
    }
  }

  /** Length of the longest prefix of `es` that the entry loop gets past. */
  function AdmissiblePrefix(es: seq<Node>): (n: nat)
    ensures n <= |es|
    ensures forall i | 0 <= i < n :: Admissible(es[i])
    ensures n < |es| ==> !Admissible(es[n])
  {
    if es == [] || !Admissible(es[0]) then 0 else 1 + AdmissiblePrefix(es[1..])
  }

  /** What one document's entry loop emits for the candidate entries `cands`,
      starting from an empty key set: the markup of the first entry of every key,
      in order; the loop is aborted at the first element without a key, after the
      entries before it have been written. */
  function Unwrap(cands: seq<Node>): (r: Emission)
    ensures r.Emitted? <==> forall i | 0 <= i < |cands| :: Admissible(cands[i])
  {
    var n := AdmissiblePrefix(cands);
    var entries := WriteSeq(KeepFirst(cands[..n], {}));
    if n == |cands| then Emitted(entries) else Aborted(entries)
  }

  /** The entry loop of one unwrap call: the key set is local to the call. */
  method EmitEntries(cands: seq<Node>) returns (r: Emission)
    ensures r == Unwrap(cands)
  {
    var keys: set<string> := {};
    var out: seq<Markup> := [];
    var i := 0;
    while i < |cands|
      invariant 0 <= i <= |cands|
      invariant i <= AdmissiblePrefix(cands)
      invariant keys == KeysOf(KeepFirst(cands[..i], {}))
      invariant out == WriteSeq(KeepFirst(cands[..i], {}))
    {
      var c := cands[i];
      assert cands[..i + 1] == cands[..i] + [c];
      KeepFirstAppend(cands[..i], [c], {});
      if c.Element? {
        var key := Attr(c.attrs, KeyAttribute);
        if key.None? {
          return Aborted(out);
        }
        var kept := KeepFirst(cands[..i], {});
        if key.value !in keys {
          assert KeepFirst([c], keys) == [c];
          WriteSeqAppend(kept, [c]);
          KeysOfAppend(kept, [c]);
          out := out + WriteNode(c);
          keys := keys + {key.value};
        } else {
          assert KeepFirst([c], keys) == [];
          assert kept + [] == kept;
        }
      } else {
        assert KeepFirst([c], keys) == [];
        assert KeepFirst(cands[..i], {}) + [] == KeepFirst(cands[..i], {});
      }
      i := i + 1;
    }
    assert cands[..i] == cands;
    return Emitted(out);
  }

  /** The key an emitted entry carries. */
  function EntryKey(m: Markup): Option<string>
  {
    Attr(m.attrs, KeyAttribute)
  }

  lemma {:induction false} KeysOfMember(ns: seq<Node>, k: string)
    requires k in KeysOf(ns)
    ensures exists i | 0 <= i < |ns| :: Key(ns[i]) == Some(k)
  {
    if Key(ns[0]) != Some(k) {
      KeysOfMember(ns[1..], k);
      var i :| 0 <= i < |ns[1..]| && Key(ns[1..][i]) == Some(k);
      assert Key(ns[i + 1]) == Some(k);
    }
  }

  lemma {:induction false} KeysOfIndex(ns: seq<Node>, i: nat)
    requires i < |ns| && Key(ns[i]).Some?
    ensures Key(ns[i]).value in KeysOf(ns)
  {
    if i > 0 {
      KeysOfIndex(ns[1..], i - 1);
    }
  }

  /** Every entry of one emitted document carries a key, no key occurs twice, and
      when the loop ran to the end every key of the candidates occurs. */
  lemma UnwrapEntryKeys(cands: seq<Node>)
    ensures forall i | 0 <= i < |Unwrap(cands).entries| :: EntryKey(Unwrap(cands).entries[i]).Some?
    ensures forall i, j | 0 <= i < j < |Unwrap(cands).entries| ::
      EntryKey(Unwrap(cands).entries[i]) != EntryKey(Unwrap(cands).entries[j])
    ensures Unwrap(cands).Emitted? ==>
      forall k :: k in KeysOf(cands) <==>
        exists i | 0 <= i < |Unwrap(cands).entries| :: EntryKey(Unwrap(cands).entries[i]) == Some(k)
  {
    var n := AdmissiblePrefix(cands);
    var kept := KeepFirst(cands[..n], {});
    var ms := Unwrap(cands).entries;
    KeepFirstUnique(cands[..n], {});
    forall i | 0 <= i < |kept| ensures kept[i].Element? {
      assert kept[i] in kept;
    }
    WriteSeqElements(kept);
    assert ms == WriteSeq(kept);
    assert forall i | 0 <= i < |ms| :: EntryKey(ms[i]) == Key(kept[i]);
    forall i, j | 0 <= i < j < |ms| ensures EntryKey(ms[i]) != EntryKey(ms[j]) {
      assert EntryKey(ms[i]) == Key(kept[i]) && EntryKey(ms[j]) == Key(kept[j]);
    }
    forall i | 0 <= i < |ms| ensures EntryKey(ms[i]).Some? {
      assert kept[i] in kept;
    }
    if Unwrap(cands).Emitted? {
      assert cands[..n] == cands;
      KeepFirstComplete(cands, {});
      forall k ensures k in KeysOf(cands) <==> exists i | 0 <= i < |ms| :: EntryKey(ms[i]) == Some(k) {
        if k in KeysOf(cands) {
          KeysOfMember(kept, k);
        }
        if i :| 0 <= i < |ms| && EntryKey(ms[i]) == Some(k) {
          KeysOfIndex(kept, i);
        }
      }
    }
  }

  /** Reading back a complete emitted document's entries gives exactly the first
      entry of every key of a plain input, in document order. */
  lemma UnwrapFidelity(cands: seq<Node>)
    requires forall i | 0 <= i < |cands| :: Plain(cands[i]) && Admissible(cands[i])
    ensures Unwrap(cands).Emitted?
    ensures ReparseSeq(Unwrap(cands).entries) == KeepFirst(cands, {})
  {
    assert cands[..|cands|] == cands;
    var kept := KeepFirst(cands, {});
    KeepFirstSubsequence(cands, {});
    forall i | 0 <= i < |kept| ensures Plain(kept[i]) {
      assert kept[i] in kept;
    }
    ReparseWriteSeq(kept);
  }
}
