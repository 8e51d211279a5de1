/**
 * The settings tree as a value: what building the tree from identifiers and
 * merging single-child nodes produce, stated as functions over trees. The
 * form's methods are proved to compute exactly these functions.
 *
 * A node has a `name` (the key it is found by among its siblings, the
 * cumulative identifier prefix when built), a `text` (its label) and its
 * children in order.
 */
module SettingsTree {
  import opened DotNet

  datatype Tree = Node(name: string, text: string, children: seq<Tree>)

  // ---------------------------------------------------------------------------
  // Identifiers and their segments

  /** `s.Split('_')`: the pieces between separators, empty pieces included. */
  function Split(s: string): (parts: seq<string>)
    ensures |parts| >= 1
    ensures forall k :: 0 <= k < |parts| ==> '_' !in parts[k]
    decreases |s|
  {
    if s == [] then [""]
    else
      var rest := Split(s[1..]);
      if s[0] == '_' then [""] + rest else [[s[0]] + rest[0]] + rest[1..]
  }

  /** The segments joined by '_'. */
  function Join(parts: seq<string>): string
    requires |parts| >= 1
  {
    if |parts| == 1 then parts[0] else Join(parts[..|parts| - 1]) + "_" + parts[|parts| - 1]
  }

  lemma {:induction false} JoinCons(a: string, parts: seq<string>)
    requires |parts| >= 1
    ensures Join([a] + parts) == a + "_" + Join(parts)
    decreases |parts|
  {
    var ps := [a] + parts;
    if |parts| > 1 {
      assert ps[..|ps| - 1] == [a] + parts[..|parts| - 1];
      JoinCons(a, parts[..|parts| - 1]);
    } else {
      assert ps[..|ps| - 1] == [a];
    }
  }

  /** Joining the pieces gives back the identifier. */
  lemma {:induction false} JoinSplit(s: string)
    ensures Join(Split(s)) == s
    decreases |s|
  {
    if s != [] {
      var rest := Split(s[1..]);
      JoinSplit(s[1..]);
      if s[0] == '_' {
        JoinCons("", rest);
      } else {
        assert Split(s) == [[s[0]] + rest[0]] + rest[1..];
        JoinPrefixFirst([s[0]], rest);
        assert [s[0]] + s[1..] == s;
      }
    }
  }

  /** Prefixing the first segment prefixes the joined string. */
  lemma {:induction false} JoinPrefixFirst(p: string, parts: seq<string>)
    requires |parts| >= 1
    ensures Join([p + parts[0]] + parts[1..]) == p + Join(parts)
  {
    if |parts| == 1 {
      assert [p + parts[0]] + parts[1..] == [p + parts[0]];
    } else {
      JoinCons(parts[0], parts[1..]);
      JoinCons(p + parts[0], parts[1..]);
      assert [parts[0]] + parts[1..] == parts;
    }
  }

  /** Splitting a joined sequence of separator-free segments gives back the segments. */
  lemma {:induction false} SplitJoin(parts: seq<string>)
    requires |parts| >= 1
    requires forall k :: 0 <= k < |parts| ==> '_' !in parts[k]
    ensures Split(Join(parts)) == parts
    decreases |parts|
  {
    if |parts| == 1 {
      SplitSegment(parts[0]);
    } else {
      JoinCons(parts[0], parts[1..]);
      SplitJoin(parts[1..]);
      SplitBeforeSeparator(parts[0], Join(parts[1..]));
      assert [parts[0]] + parts[1..] == parts;
    }
  }

  lemma {:induction false} SplitSegment(a: string)
    requires '_' !in a
    ensures Split(a) == [a]
    decreases |a|
  {
    if a != [] {
      assert '_' !in a[1..] by {
        forall k | 0 <= k < |a[1..]| ensures a[1..][k] != '_' { assert a[1..][k] == a[k + 1]; }
      }
      SplitSegment(a[1..]);
      assert [a[0]] + a[1..] == a;
    }
  }

  lemma {:induction false} SplitBeforeSeparator(a: string, t: string)
    requires '_' !in a
    ensures Split(a + "_" + t) == [a] + Split(t)
    decreases |a|
  {
    var s := a + "_" + t;
    if a == [] {
      assert s[1..] == t;
    } else {
      assert s[1..] == a[1..] + "_" + t;
      assert '_' !in a[1..] by {
        forall k | 0 <= k < |a[1..]| ensures a[1..][k] != '_' { assert a[1..][k] == a[k + 1]; }
      }
      SplitBeforeSeparator(a[1..], t);
      assert [a[0]] + a[1..] == a;
    }
  }

  // ---------------------------------------------------------------------------
  // Building

  /** The key of the next node on a path: the segment, appended to the path so far with '_'. */
  function Key(path: Option<string>, part: string): string
  {
    match path
    case None => part
    case Some(p) => p + "_" + part
  }

  lemma KeyInjective(path: Option<string>, a: string, b: string)
    ensures Key(path, a) == Key(path, b) ==> a == b
  {
    if path.Some? {
      var p := path.value;
      var ka, kb := Key(path, a), Key(path, b);
      assert ka[|p| + 1..] == a;
      assert kb[|p| + 1..] == b;
    }
  }

  /** The names of a node collection, in order. */
  function Names(f: seq<Tree>): (r: seq<string>)
    ensures |r| == |f| && forall k :: 0 <= k < |f| ==> r[k] == f[k].name
  {
    seq(|f|, k requires 0 <= k < |f| => f[k].name)
  }

  /** The position of the first name equal to `key`. */
  function FindName(names: seq<string>, key: string): (r: Option<nat>)
    ensures r.Some? ==> r.value < |names| && names[r.value] == key
    ensures r.Some? ==> forall j :: 0 <= j < r.value ==> names[j] != key
    ensures r.None? ==> forall j :: 0 <= j < |names| ==> names[j] != key
  {
    if names == [] then None
    else if names[0] == key then Some(0)
    else match FindName(names[1..], key)
      case None => None
      case Some(k) => Some(k + 1)
  }

  /**
   * `nodes[key]` on a node collection with these names: the position of the
   * first node with that name; an empty key finds nothing.
   */
  function KeyIndex(names: seq<string>, key: string): (r: Option<nat>)
    ensures r.Some? ==> key != "" && r.value < |names| && names[r.value] == key
    ensures r.None? && key != "" ==> forall j :: 0 <= j < |names| ==> names[j] != key
  {
    if key == "" then None else FindName(names, key)
  }

  /** The first match is determined by the names alone. */
  lemma KeyIndexIsFirstMatch(names: seq<string>, key: string, k: nat)
    requires key != "" && k < |names| && names[k] == key
    requires forall j :: 0 <= j < k ==> names[j] != key
    ensures KeyIndex(names, key) == Some(k)
  {
    var r := FindName(names, key);
  }

  /**
   * Inserting the segments `parts` below the collection `f`, whose owner has
   * the cumulative name `path` (None for the tree's top level): reuse the node
   * with the next key or add one at the end, then go on below it.
   */
  function InsertTree(f: seq<Tree>, parts: seq<string>, path: Option<string>): seq<Tree>
    decreases |parts|
  {
    if parts == [] then f
    else
      var key := Key(path, parts[0]);
      match KeyIndex(Names(f), key)
      case Some(k) => f[k := Node(f[k].name, f[k].text, InsertTree(f[k].children, parts[1..], Some(key)))]
      case None => f + [Node(key, parts[0], InsertTree([], parts[1..], Some(key)))]
  }

  /** The tree the identifiers build, in order, starting from an empty tree. */
  function BuildForest(ids: seq<string>): seq<Tree>
  {
    if ids == [] then [] else InsertTree(BuildForest(ids[..|ids| - 1]), Split(ids[|ids| - 1]), None)
  }

  /** The nodes met when following the keys of `parts` down from `f`, if every key is found. */
  function Lookup(f: seq<Tree>, parts: seq<string>, path: Option<string>): Option<seq<Tree>>
    decreases |parts|
  {
    if parts == [] then Some([])
    else
      var key := Key(path, parts[0]);
      match KeyIndex(Names(f), key)
      case None => None
      case Some(k) =>
        match Lookup(f[k].children, parts[1..], Some(key))
        case None => None
        case Some(chain) => Some([f[k]] + chain)
  }

  /** Each node of a chain is keyed by the path so far and labelled by its own segment. */
  predicate ChainNamed(chain: seq<Tree>, path: Option<string>, parts: seq<string>)
    decreases |parts|
  {
    && |chain| == |parts|
    && (parts != [] ==>
         && chain[0].name == Key(path, parts[0])
         && chain[0].text == parts[0]
         && ChainNamed(chain[1..], Some(chain[0].name), parts[1..]))
  }

  /** Every node's name is its owner's name, '_' and its own text (its text alone at the top). */
  predicate WellNamed(f: seq<Tree>, path: Option<string>)
    decreases f
  {
    forall k :: 0 <= k < |f| ==>
      f[k].name == Key(path, f[k].text) && WellNamed(f[k].children, Some(f[k].name))
  }

  /** No two siblings share a name that can be looked up. */
  predicate UniqueKeys(f: seq<Tree>)
    decreases f
  {
    && (forall i, j :: 0 <= i < j < |f| && f[i].name == f[j].name ==> f[i].name == "")
    && (forall k :: 0 <= k < |f| ==> UniqueKeys(f[k].children))
  }

  /** Insertion keeps each node named after its path. */
  lemma {:induction false} InsertKeepsWellNamed(f: seq<Tree>, parts: seq<string>, path: Option<string>)
    requires WellNamed(f, path)
    ensures WellNamed(InsertTree(f, parts, path), path)
    decreases |parts|
  {
    if parts != [] {
      var key := Key(path, parts[0]);
      var r := InsertTree(f, parts, path);
      match KeyIndex(Names(f), key)
      case Some(k) =>
        InsertKeepsWellNamed(f[k].children, parts[1..], Some(key));
        assert forall j :: 0 <= j < |r| ==> r[j].name == Key(path, r[j].text) && WellNamed(r[j].children, Some(r[j].name)) by {
          forall j | 0 <= j < |r| ensures r[j].name == Key(path, r[j].text) && WellNamed(r[j].children, Some(r[j].name)) {
            if j != k { assert r[j] == f[j]; }
          }
        }
      case None =>
        InsertKeepsWellNamed([], parts[1..], Some(key));
        assert forall j :: 0 <= j < |r| ==> r[j].name == Key(path, r[j].text) && WellNamed(r[j].children, Some(r[j].name)) by {
          forall j | 0 <= j < |r| ensures r[j].name == Key(path, r[j].text) && WellNamed(r[j].children, Some(r[j].name)) {
            if j < |f| { assert r[j] == f[j]; }
          }
        }
    }
  }

  /** Insertion never gives two siblings the same name that can be looked up. */
  lemma {:induction false} InsertKeepsUniqueKeys(f: seq<Tree>, parts: seq<string>, path: Option<string>)
    requires UniqueKeys(f)
    ensures UniqueKeys(InsertTree(f, parts, path))
    decreases |parts|
  {
    if parts != [] {
      var key := Key(path, parts[0]);
      var r := InsertTree(f, parts, path);
      match KeyIndex(Names(f), key)
      case Some(k) =>
        InsertKeepsUniqueKeys(f[k].children, parts[1..], Some(key));
        forall j | 0 <= j < |r| ensures UniqueKeys(r[j].children) {
          if j != k { assert r[j] == f[j]; }
        }
      case None =>
        assert UniqueKeys([]);
        InsertKeepsUniqueKeys([], parts[1..], Some(key));
        forall j | 0 <= j < |r| ensures UniqueKeys(r[j].children) {
          if j < |f| { assert r[j] == f[j]; }
        }
    }
  }

  /**
   * After inserting `parts`, following them finds one node per segment, each
   * keyed by the path so far and labelled by its segment. Only a first key that
   * is empty cannot be looked up.
   */
  lemma {:induction false} InsertCreatesPath(f: seq<Tree>, parts: seq<string>, path: Option<string>)
    requires WellNamed(f, path)
    requires parts != [] && path.None? ==> parts[0] != ""
    ensures Lookup(InsertTree(f, parts, path), parts, path).Some?
    ensures ChainNamed(Lookup(InsertTree(f, parts, path), parts, path).value, path, parts)
    decreases |parts|
  {
    if parts != [] {
      var key := Key(path, parts[0]);
      var r := InsertTree(f, parts, path);
      match KeyIndex(Names(f), key)
      case Some(k) =>
        KeyInjective(path, f[k].text, parts[0]);
        InsertCreatesPath(f[k].children, parts[1..], Some(key));
        KeyIndexAfterUpdate(f, k, key, r[k]);
      case None =>
        assert WellNamed([], Some(key));
        InsertCreatesPath([], parts[1..], Some(key));
        KeyIndexAfterAppend(f, key, r[|f|]);
    }
  }

  lemma KeyIndexAfterUpdate(f: seq<Tree>, k: nat, key: string, t: Tree)
    requires KeyIndex(Names(f), key) == Some(k) && t.name == key
    ensures KeyIndex(Names(f[k := t]), key) == Some(k)
  {
    KeyIndexIsFirstMatch(Names(f[k := t]), key, k);
  }

  lemma KeyIndexAfterAppend(f: seq<Tree>, key: string, t: Tree)
    requires KeyIndex(Names(f), key).None? && key != "" && t.name == key
    ensures KeyIndex(Names(f + [t]), key) == Some(|f|)
  {
    KeyIndexIsFirstMatch(Names(f + [t]), key, |f|);
  }

  /** Inserting a path that already exists changes nothing. */
  lemma {:induction false} InsertExistingPath(f: seq<Tree>, parts: seq<string>, path: Option<string>)
    requires Lookup(f, parts, path).Some?
    ensures InsertTree(f, parts, path) == f
    decreases |parts|
  {
    if parts != [] {
      var key := Key(path, parts[0]);
      var k := KeyIndex(Names(f), key).value;
      InsertExistingPath(f[k].children, parts[1..], Some(key));
      assert f[k := Node(f[k].name, f[k].text, f[k].children)] == f;
    }
  }

  /** Inserting the same segments twice is the same as inserting them once. */
  lemma InsertIdempotent(f: seq<Tree>, parts: seq<string>, path: Option<string>)
    requires WellNamed(f, path)
    requires parts != [] && path.None? ==> parts[0] != ""
    ensures InsertTree(InsertTree(f, parts, path), parts, path) == InsertTree(f, parts, path)
  {
    InsertCreatesPath(f, parts, path);
    InsertExistingPath(InsertTree(f, parts, path), parts, path);
  }

  /**
   * A node is added at a level only when no sibling has the key: the existing
   * nodes keep their names and labels, and at most one node is appended.
   */
  lemma InsertAddsOnlyMissingKey(f: seq<Tree>, parts: seq<string>, path: Option<string>)
    requires parts != []
    ensures var r := InsertTree(f, parts, path);
            && |r| == |f| + (if KeyIndex(Names(f), Key(path, parts[0])).Some? then 0 else 1)
            && (forall j :: 0 <= j < |f| ==> r[j].name == f[j].name && r[j].text == f[j].text)
            && (forall j :: 0 <= j < |f| && Some(j) != KeyIndex(Names(f), Key(path, parts[0])) ==> r[j] == f[j])
  {
  }

  /** The chain of a built identifier ends at a node named by the whole identifier. */
  lemma {:induction false} ChainNames(chain: seq<Tree>, parts: seq<string>, path: Option<string>, j: nat)
    requires ChainNamed(chain, path, parts) && j < |parts|
    ensures path.None? ==> chain[j].name == Join(parts[..j + 1])
    ensures path.Some? ==> chain[j].name == path.value + "_" + Join(parts[..j + 1])
    ensures chain[j].text == parts[j]
    decreases j
  {
    if j > 0 {
      ChainNames(chain[1..], parts[1..], Some(chain[0].name), j - 1);
      assert parts[1..][..j] == parts[1..j + 1];
      assert parts[..j + 1] == [parts[0]] + parts[1..j + 1];
      JoinCons(parts[0], parts[1..j + 1]);
      if path.Some? {
        assert chain[0].name == path.value + "_" + parts[0];
      }
    } else {
      assert parts[..1] == [parts[0]];
    }
  }

  /**
   * Inserting an identifier gives, for each k, a k-th node named by its first
   * k segments joined by '_' and labelled by its k-th segment; the last one is
   * named by the identifier itself.
   */
  lemma InsertIdentifier(f: seq<Tree>, id: string)
    requires WellNamed(f, None) && Split(id)[0] != ""
    ensures var parts := Split(id);
            var chain := Lookup(InsertTree(f, parts, None), parts, None);
            && chain.Some? && |chain.value| == |parts|
            && (forall j :: 0 <= j < |parts| ==> chain.value[j].name == Join(parts[..j + 1]) && chain.value[j].text == parts[j])
            && chain.value[|parts| - 1].name == id
  {
    var parts := Split(id);
    InsertCreatesPath(f, parts, None);
    var chain := Lookup(InsertTree(f, parts, None), parts, None).value;
    forall j | 0 <= j < |parts| ensures chain[j].name == Join(parts[..j + 1]) && chain[j].text == parts[j] {
      ChainNames(chain, parts, None, j);
    }
    assert parts[..|parts|] == parts;
    JoinSplit(id);
  }

  /**
   * An identifier starting with '_' has an empty first key, which is never
   * found: every insertion appends a new top-level node with empty name and
   * label, and below it the chain of the remaining segments, whose k-th node
   * is named by the first k + 1 segments and the last by the identifier.
   */
  lemma InsertUnderscoreIdentifier(f: seq<Tree>, id: string)
    requires Split(id)[0] == ""
    ensures var parts := Split(id);
            var r := InsertTree(f, parts, None);
            var chain := Lookup(r[|f|].children, parts[1..], Some(""));
            && |r| == |f| + 1 && r[..|f|] == f
            && r[|f|].name == "" && r[|f|].text == ""
            && chain.Some? && |chain.value| == |parts| - 1
            && (forall j :: 0 <= j < |parts| - 1 ==> chain.value[j].name == Join(parts[..j + 2]) && chain.value[j].text == parts[j + 1])
            && (|parts| > 1 ==> chain.value[|parts| - 2].name == id)
  {
    var parts := Split(id);
    var r := InsertTree(f, parts, None);
    assert r == f + [Node("", "", InsertTree([], parts[1..], Some("")))];
    assert WellNamed([], Some(""));
    InsertCreatesPath([], parts[1..], Some(""));
    var chain := Lookup(r[|f|].children, parts[1..], Some("")).value;
    forall j | 0 <= j < |parts| - 1
      ensures chain[j].name == Join(parts[..j + 2]) && chain[j].text == parts[j + 1]
    {
      ChainNames(chain, parts[1..], Some(""), j);
      assert parts[..j + 2] == [parts[0]] + parts[1..][..j + 1];
      JoinCons(parts[0], parts[1..][..j + 1]);
    }
    if |parts| > 1 {
      assert parts[..|parts| - 2 + 2] == parts;
      JoinSplit(id);
    }
  }

  /** So inserting such an identifier twice gives two top-level nodes, not one. */
  lemma InsertUnderscoreTwice(f: seq<Tree>, id: string)
    requires Split(id)[0] == ""
    ensures var once := InsertTree(f, Split(id), None);
            var twice := InsertTree(once, Split(id), None);
            && |twice| == |f| + 2 && twice[..|f|] == f
            && twice[|f|] == twice[|f| + 1] == once[|f|]
  {
    var once := InsertTree(f, Split(id), None);
    InsertUnderscoreIdentifier(f, id);
    InsertUnderscoreIdentifier(once, id);
    var twice := InsertTree(once, Split(id), None);
    assert twice[..|f|] == once[..|f|];
  }

  /** An identifier without '_' is one top-level node named and labelled by the identifier. */
  lemma InsertPlainIdentifier(f: seq<Tree>, id: string)
    requires '_' !in id && id != ""
    requires forall j :: 0 <= j < |f| ==> f[j].name != id
    ensures InsertTree(f, Split(id), None) == f + [Node(id, id, [])]
  {
    SplitSegment(id);
  }

  lemma {:induction false} BuildKeepsWellNamed(ids: seq<string>)
    ensures WellNamed(BuildForest(ids), None) && UniqueKeys(BuildForest(ids))
  {
    if ids != [] {
      BuildKeepsWellNamed(ids[..|ids| - 1]);
      InsertKeepsWellNamed(BuildForest(ids[..|ids| - 1]), Split(ids[|ids| - 1]), None);
      InsertKeepsUniqueKeys(BuildForest(ids[..|ids| - 1]), Split(ids[|ids| - 1]), None);
    }
  }

  /** Identifiers that share no segment build one top-level leaf each, in order. */
  lemma {:induction false} BuildPlainIdentifiers(ids: seq<string>)
    requires forall k :: 0 <= k < |ids| ==> '_' !in ids[k] && ids[k] != ""
    requires forall i, j :: 0 <= i < j < |ids| ==> ids[i] != ids[j]
    ensures |BuildForest(ids)| == |ids|
    ensures forall k :: 0 <= k < |ids| ==> BuildForest(ids)[k] == Node(ids[k], ids[k], [])
  {
    if ids != [] {
      var init := ids[..|ids| - 1];
      BuildPlainIdentifiers(init);
      var f := BuildForest(init);
      assert forall j :: 0 <= j < |f| ==> f[j].name == init[j] && init[j] != ids[|ids| - 1];
      InsertPlainIdentifier(f, ids[|ids| - 1]);
    }
  }

  // ---------------------------------------------------------------------------
  // Merging

  /**
   * `MergeSingleNodes` on one node: a node with exactly one child takes the
   * child's name, appends '_' and the child's text to its own, and keeps no
   * children at all; any other node stays as it is and its children are merged.
   */
  function MergeTree(t: Tree): Tree
    decreases t
  {
    if |t.children| == 1 then Node(t.children[0].name, t.text + "_" + t.children[0].text, [])
    else Node(t.name, t.text, seq(|t.children|, k requires 0 <= k < |t.children| => MergeTree(t.children[k])))
  }

  /** `MergeSingleNodes(null, nodes)`: the top-level collection itself is never merged. */
  function MergeForest(f: seq<Tree>): (r: seq<Tree>)
    ensures |r| == |f|
  {
    seq(|f|, k requires 0 <= k < |f| => MergeTree(f[k]))
  }

  /** No node has exactly one child. */
  predicate NoSingleChild(t: Tree)
    decreases t
  {
    |t.children| != 1 && forall k :: 0 <= k < |t.children| ==> NoSingleChild(t.children[k])
  }

  /** After merging, no node has exactly one child. */
  lemma {:induction false} MergeLeavesNoSingleChild(t: Tree)
    ensures NoSingleChild(MergeTree(t))
    decreases t
  {
    if |t.children| != 1 {
      var m := MergeTree(t);
      forall k | 0 <= k < |m.children| ensures NoSingleChild(m.children[k]) {
        MergeLeavesNoSingleChild(t.children[k]);
      }
    }
  }

  /** A tree without single-child nodes is left as it is. */
  lemma {:induction false} MergeWithoutSingleChild(t: Tree)
    requires NoSingleChild(t)
    ensures MergeTree(t) == t
    decreases t
  {
    var m := MergeTree(t);
    forall k | 0 <= k < |t.children| ensures m.children[k] == t.children[k] {
      MergeWithoutSingleChild(t.children[k]);
    }
  }

  /** Merging twice is merging once. */
  lemma MergeIdempotent(f: seq<Tree>)
    ensures MergeForest(MergeForest(f)) == MergeForest(f)
  {
    forall k | 0 <= k < |f| ensures MergeTree(MergeTree(f[k])) == MergeTree(f[k]) {
      MergeLeavesNoSingleChild(f[k]);
      MergeWithoutSingleChild(MergeTree(f[k]));
    }
  }

  /** A node with one child that has children of its own loses all of them: they are not visited. */
  lemma MergeDropsGrandchildren(t: Tree)
    requires |t.children| == 1
    ensures MergeTree(t).children == []
    ensures MergeTree(t).name == t.children[0].name
    ensures MergeTree(t).text == t.text + "_" + t.children[0].text
  {
  }

  // ---------------------------------------------------------------------------
  // What building and merging do to a few identifier lists

  lemma SplitThree(a: string, b: string, c: string)
    requires '_' !in a && '_' !in b && '_' !in c
    ensures Split(a + "_" + b + "_" + c) == [a, b, c]
  {
    assert a + "_" + b + "_" + c == a + "_" + (b + "_" + c);
    SplitBeforeSeparator(a, b + "_" + c);
    SplitBeforeSeparator(b, c);
    SplitSegment(c);
  }

  /** The tree one identifier with three segments builds: a chain of three nodes. */
  lemma BuildOneChain(a: string, b: string, c: string)
    requires '_' !in a && '_' !in b && '_' !in c && a != ""
    ensures BuildForest([a + "_" + b + "_" + c])
         == [Node(a, a, [Node(a + "_" + b, b, [Node(a + "_" + b + "_" + c, c, [])])])]
  {
    var id := a + "_" + b + "_" + c;
    SplitThree(a, b, c);
    assert [id][..0] == [];
    assert [c][1..] == [] && [b, c][1..] == [c] && [a, b, c][1..] == [b, c];
    assert InsertTree([], [c], Some(a + "_" + b)) == [Node(id, c, [])];
    assert InsertTree([], [b, c], Some(a)) == [Node(a + "_" + b, b, [Node(id, c, [])])];
  }

  /** A lone identifier with three segments ends as one leaf named and labelled by its first two. */
  lemma ChainCollapsesToTwoSegments()
    ensures MergeForest(BuildForest(["X_Y_Z"])) == [Node("X_Y", "X_Y", [])]
  {
    BuildOneChain("X", "Y", "Z");
    assert "X" + "_" + "Y" + "_" + "Z" == "X_Y_Z" && "X" + "_" + "Y" == "X_Y";
  }

  /**
   * Any lone identifier with two or more segments ends as one leaf named and
   * labelled by its first two segments: the deeper segments are lost.
   */
  lemma LoneIdentifierCollapses(id: string)
    requires |Split(id)| >= 2
    ensures var parts := Split(id);
            MergeForest(BuildForest([id])) == [Node(Join(parts[..2]), Join(parts[..2]), [])]
  {
    var parts := Split(id);
    var a, b := parts[0], parts[1];
    assert [id][..0] == [];
    assert BuildForest([id]) == InsertTree([], parts, None);
    assert parts[1..][0] == b;
    var below := InsertTree([], parts[2..], Some(a + "_" + b));
    assert parts[1..][1..] == parts[2..];
    assert InsertTree([], parts[1..], Some(a)) == [Node(a + "_" + b, b, below)];
    assert InsertTree([], parts, None) == [Node(a, a, [Node(a + "_" + b, b, below)])];
    assert parts[..2][..1] == [a];
    assert Join(parts[..2]) == a + "_" + b;
  }

  /** Inserting a second identifier below the chain of the first: only the last node is new. */
  lemma InsertSecondSibling()
    ensures InsertTree([Node("A", "A", [Node("A_B", "B", [Node("A_B_C", "C", [])])])], ["A", "B", "D"], None)
         == [Node("A", "A", [Node("A_B", "B", [Node("A_B_C", "C", []), Node("A_B_D", "D", [])])])]
  {
    var grand := [Node("A_B_C", "C", [])];
    var mid := [Node("A_B", "B", grand)];
    var f1 := [Node("A", "A", mid)];
    assert Key(Some("A_B"), "D") == "A_B_D" && Key(Some("A"), "B") == "A_B";
    assert ["D"][1..] == [] && ["B", "D"][1..] == ["D"] && ["A", "B", "D"][1..] == ["B", "D"];
    assert KeyIndex(Names(grand), "A_B_D").None?;
    assert InsertTree(grand, ["D"], Some("A_B")) == grand + [Node("A_B_D", "D", [])];
    assert KeyIndex(Names(mid), "A_B") == Some(0);
    assert InsertTree(mid, ["B", "D"], Some("A")) == [Node("A_B", "B", grand + [Node("A_B_D", "D", [])])];
    assert KeyIndex(Names(f1), Key(None, "A")) == Some(0);
    assert InsertTree(f1, ["A", "B", "D"], None) == f1[0 := Node("A", "A", InsertTree(mid, ["B", "D"], Some("A")))];
    assert grand + [Node("A_B_D", "D", [])] == [Node("A_B_C", "C", []), Node("A_B_D", "D", [])];
  }

  /** The tree built from two identifiers that differ only in their last segment. */
  lemma BuildTwoSiblings()
    ensures BuildForest(["A_B_C", "A_B_D"])
         == [Node("A", "A", [Node("A_B", "B", [Node("A_B_C", "C", []), Node("A_B_D", "D", [])])])]
  {
    var ids := ["A_B_C", "A_B_D"];
    assert "A" + "_" + "B" + "_" + "C" == ids[0];
    assert "A" + "_" + "B" + "_" + "D" == ids[1];
    assert "A" + "_" + "B" == "A_B";
    BuildOneChain("A", "B", "C");
    assert ids[..1] == [ids[0]];
    assert BuildForest(ids[..1]) == [Node("A", "A", [Node("A_B", "B", [Node("A_B_C", "C", [])])])];
    SplitThree("A", "B", "D");
    assert Split(ids[1]) == ["A", "B", "D"];
    assert BuildForest(ids) == InsertTree(BuildForest(ids[..1]), Split(ids[1]), None);
    InsertSecondSibling();
  }

  /**
   * Two identifiers that differ only in their last segment end as a single
   * leaf: neither identifier names a node of the merged tree.
   */
  lemma SiblingLeavesDropped()
    ensures MergeForest(BuildForest(["A_B_C", "A_B_D"])) == [Node("A_B", "A_B", [])]
  {
    BuildTwoSiblings();
    assert "A" + "_" + "B" == "A_B";
  }

  /** Identifiers without '_' are all leaves at the top level, which merging leaves alone. */
  lemma PlainIdentifiersSurviveMerge(ids: seq<string>)
    requires forall k :: 0 <= k < |ids| ==> '_' !in ids[k] && ids[k] != ""
    requires forall i, j :: 0 <= i < j < |ids| ==> ids[i] != ids[j]
    ensures MergeForest(BuildForest(ids)) == BuildForest(ids)
    ensures Names(BuildForest(ids)) == ids
  {
    BuildPlainIdentifiers(ids);
    LeavesSurviveMerge(BuildForest(ids), ids);
  }

  lemma LeavesSurviveMerge(f: seq<Tree>, ids: seq<string>)
    requires |f| == |ids| && forall k :: 0 <= k < |ids| ==> f[k] == Node(ids[k], ids[k], [])
    ensures MergeForest(f) == f && Names(f) == ids
  {
    var m, names := MergeForest(f), Names(f);
    forall k | 0 <= k < |f| ensures m[k] == f[k] && names[k] == ids[k] {
      assert f[k].children == [];
    }
  }
}
