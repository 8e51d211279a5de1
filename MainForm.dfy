/**
 * The main window of the settings tool: it lists every setting the registry
 * names, arranges them in a tree by the '_'-separated parts of their
 * identifiers, merges chains of single nodes, and creates a setting's
 * descriptor the first time its node is selected.
 *
 * The tree view's nodes are the table of module `NodeTable`; the form's
 * fields are the table, the nodes' `Tag`s, the top-level collection and the
 * dictionary of known settings. Each method is proved to compute the
 * corresponding function of module `SettingsTree` on the tree's view.
 */
module Navigation {
  import opened DotNet
  import opened SettingsHelper
  import opened Descriptors
  import opened SettingsTree
  import opened NodeTable

  /**
   * One subkey of the registry's list of setting ids: its name, and its
   * `Type` value parsed as a kind (None when the value is missing or names no
   * kind).
   */
  datatype RegistryEntry = RegistryEntry(key: string, parsedType: Option<SettingType>)

  datatype KeyValuePair = KeyValuePair(key: string, value: SettingType)

  /** `getSettings`: the subkeys whose type parses, in registry order. */
  function GetSettings(entries: seq<RegistryEntry>): (r: seq<KeyValuePair>)
    ensures |r| <= |entries|
    ensures forall p :: p in r ==> RegistryEntry(p.key, Some(p.value)) in entries
    ensures forall e :: e in entries && e.parsedType.Some? ==> KeyValuePair(e.key, e.parsedType.value) in r
  {
    if entries == [] then []
    else
      var head := match entries[0].parsedType
        case Some(t) => [KeyValuePair(entries[0].key, t)]
        case None => [];
      head + GetSettings(entries[1..])
  }

  /** The filter keeps the registry's order: it works entry by entry. */
  lemma {:induction false} GetSettingsAppend(a: seq<RegistryEntry>, b: seq<RegistryEntry>)
    ensures GetSettings(a + b) == GetSettings(a) + GetSettings(b)
    decreases |a|
  {
    if a != [] {
      assert (a + b)[1..] == a[1..] + b;
      GetSettingsAppend(a[1..], b);
    } else {
      assert a + b == b;
    }
  }

  function Ids(items: seq<KeyValuePair>): (r: seq<string>)
    ensures |r| == |items| && forall k :: 0 <= k < |items| ==> r[k] == items[k].key
  {
    seq(|items|, k requires 0 <= k < |items| => items[k].key)
  }

  predicate DistinctIds(items: seq<KeyValuePair>)
  {
    forall a, b :: 0 <= a < b < |items| ==> items[a].key != items[b].key
  }

  /** The dictionary that adding the pairs in order builds. */
  function ToMap(items: seq<KeyValuePair>): map<string, SettingType>
  {
    if items == [] then map[]
    else ToMap(items[..|items| - 1])[items[|items| - 1].key := items[|items| - 1].value]
  }

  /** The dictionary holds exactly the ids added, each with its kind when no id repeats. */
  lemma {:induction false} ToMapContents(items: seq<KeyValuePair>)
    ensures forall k :: 0 <= k < |items| ==> items[k].key in ToMap(items)
    ensures forall id :: id in ToMap(items) ==> exists k :: 0 <= k < |items| && items[k].key == id
    ensures DistinctIds(items) ==> forall k :: 0 <= k < |items| ==> ToMap(items)[items[k].key] == items[k].value
    decreases |items|
  {
    if items != [] {
      var init := items[..|items| - 1];
      ToMapContents(init);
      assert forall k :: 0 <= k < |init| ==> init[k] == items[k];
    }
  }

  /** What adding the `k`-th pair to the first `k` does to the dictionary, the tree and the ids' distinctness. */
  lemma LoadStep(items: seq<KeyValuePair>, k: nat)
    requires k < |items|
    ensures ToMap(items[..k + 1]) == ToMap(items[..k])[items[k].key := items[k].value]
    ensures BuildForest(Ids(items[..k + 1])) == InsertTree(BuildForest(Ids(items[..k])), Split(items[k].key), None)
    ensures items[k].key in ToMap(items[..k]) ==> !DistinctIds(items)
    ensures items[k].key !in ToMap(items[..k]) && DistinctIds(items[..k]) ==> DistinctIds(items[..k + 1])
  {
    var pre, next := items[..k], items[..k + 1];
    assert next[..k] == pre;
    var ids := Ids(next);
    assert ids[..k] == Ids(pre);
    assert ids[k] == items[k].key;
    DuplicateStep(items, k);
  }

  lemma DuplicateStep(items: seq<KeyValuePair>, k: nat)
    requires k < |items|
    ensures items[k].key in ToMap(items[..k]) ==> !DistinctIds(items)
    ensures items[k].key !in ToMap(items[..k]) && DistinctIds(items[..k]) ==> DistinctIds(items[..k + 1])
  {
    ToMapContents(items[..k]);
    if items[k].key in ToMap(items[..k]) {
      var i :| 0 <= i < k && items[..k][i].key == items[k].key;
      assert items[i].key == items[k].key;
    } else {
      forall i | 0 <= i < k ensures items[i].key != items[k].key {
        assert items[..k][i] == items[i];
      }
    }
  }

  /** Stopping at the `d`-th pair, whose id is already present, is the failure `AddSettings` promises. */
  lemma DuplicateStop(items: seq<KeyValuePair>, d: nat, f: seq<Tree>, m: map<string, SettingType>)
    requires d < |items| && DistinctIds(items[..d]) && items[d].key in ToMap(items[..d])
    requires f == BuildForest(Ids(items[..d])) && m == ToMap(items[..d])
    ensures exists d :: 0 <= d < |items| && DistinctIds(items[..d]) && items[d].key in ToMap(items[..d])
             && f == BuildForest(Ids(items[..d])) && m == ToMap(items[..d])
  {
  }

  /** The exception `Dictionary.Add` throws for a key already present. */
  const DuplicateKey := Exception("An item with the same key has already been added.", None)

  class MainForm {
    var allSettings: map<string, SettingType>
    var nodes: seq<NodeRecord>
    var tags: seq<SettingInfo?>   // each node's `Tag`: its descriptor, once selected
    var roots: seq<nat>           // `settingsTree.Nodes`
    ghost var parent: seq<int>

    ghost predicate Valid()
      reads this
    {
      Shaped(nodes, roots, parent) && |tags| == |nodes|
    }

    /** The tree view's contents. */
    ghost function Forest(): seq<Tree>
      reads this
      requires Valid()
    {
      ViewAll(nodes, roots)
    }

    /**
     * `MainForm()`: `InitializeComponent` leaves an empty tree and no settings,
     * then `loadSettingsList` runs over the registry's entries. A repeated id
     * makes that call throw; here the form is then left as the failed load
     * leaves it.
     */
    constructor (entries: seq<RegistryEntry>)
      ensures Valid()
      ensures forall j :: 0 <= j < |tags| ==> tags[j] == null
      ensures DistinctIds(GetSettings(entries)) ==>
        && Forest() == MergeForest(BuildForest(Ids(GetSettings(entries))))
        && allSettings == ToMap(GetSettings(entries))
      ensures !DistinctIds(GetSettings(entries)) ==>
        var items := GetSettings(entries);
        exists d :: 0 <= d < |items| && DistinctIds(items[..d]) && items[d].key in ToMap(items[..d])
          && Forest() == BuildForest(Ids(items[..d])) && allSettings == ToMap(items[..d])
    {
      allSettings := map[];
      nodes := [];
      tags := [];
      roots := [];
      parent := [];
      new;
      var r := LoadSettingsList(entries);
    }

    /**
     * The inner loop of `loadSettingsList`: for each segment, extend the path,
     * then take the owner's node with that key or add one, and go on below it.
     * New nodes have no `Tag`.
     */
    method AddSettingPath(parts: seq<string>)
      requires Valid()
      modifies this
      ensures Valid()
      ensures Forest() == InsertTree(old(Forest()), parts, None)
      ensures allSettings == old(allSettings)
      ensures |tags| >= old(|tags|) && tags[..old(|tags|)] == old(tags)
      ensures forall j :: old(|tags|) <= j < |tags| ==> tags[j] == null
    {
      var currentPath: Option<string> := None;
      var owner: int := -1;
      ghost var goal := InsertTree(Forest(), parts, None);
      ghost var tags0 := tags;
      var j := 0;
      while j < |parts|
        invariant 0 <= j <= |parts|
        invariant Valid() && -1 <= owner < |nodes|
        invariant PForest(nodes, roots, owner, parts[j..], currentPath) == goal
        invariant allSettings == old(allSettings)
        invariant |tags| >= |tags0| && tags[..|tags0|] == tags0
        invariant forall i :: |tags0| <= i < |tags| ==> tags[i] == null
        decreases |parts| - j
      {
        var key := Key(currentPath, parts[j]);
        assert parts[j..][1..] == parts[j + 1..];
        owner := NodeForKey(owner, key, parts[j], parts[j..], currentPath);
        currentPath := Some(key);
        j := j + 1;
      }
      assert parts[j..] == [];
      PForestDone(nodes, roots, owner, currentPath);
    }

    /**
     * `parentNodes[currentPath] ?? parentNodes.Add(currentPath, part)`: the
     * node with the key in the owner's collection (the top level for -1), or a
     * new one added at its end. The insertion still pending moves below it.
     */
    method NodeForKey(owner: int, key: string, part: string, ghost rest: seq<string>, ghost cp: Option<string>) returns (node: nat)
      requires Valid() && -1 <= owner < |nodes|
      requires rest != [] && rest[0] == part && key == Key(cp, part)
      modifies this
      ensures Valid() && node < |nodes|
      ensures PForest(nodes, roots, node, rest[1..], Some(key)) == old(PForest(nodes, roots, owner, rest, cp))
      ensures allSettings == old(allSettings)
      ensures tags == old(tags) || tags == old(tags) + [null]
    {
      var coll := if owner == -1 then roots else nodes[owner].children;
      match KeyIndex(CollNames(nodes, coll), key) {
        case Some(idx) =>
          PendingFound(nodes, roots, parent, owner, idx, rest, cp);
          node := coll[idx];
        case None =>
          PendingAdd(nodes, roots, parent, owner, rest, cp);
          node := |nodes|;
          nodes := AddNode(nodes, owner, key, part);
          roots := AddRoot(roots, owner, node);
          parent := parent + [owner];
          tags := tags + [null];
      }
    }

    /**
     * `MergeSingleNodes`: for a node (`Some`), if it has exactly one child it
     * takes the child's name, appends '_' and the child's text to its own and
     * drops its children; then every node left in its collection is merged
     * in turn. For the top level (`None`) only the second step runs.
     */
    method MergeSingleNodes(parentNode: Option<nat>)
      requires Valid() && (parentNode.Some? ==> parentNode.value < |nodes|)
      modifies this
      ensures Valid() && |nodes| == old(|nodes|)
      ensures roots == old(roots) && parent == old(parent) && tags == old(tags) && allSettings == old(allSettings)
      ensures parentNode.Some? ==> View(nodes, parentNode.value) == MergeTree(old(View(nodes, parentNode.value)))
      ensures parentNode.Some? ==> forall j :: 0 <= j < |nodes| && !IsDesc(parent, parentNode.value, j) ==> nodes[j] == old(nodes[j])
      ensures parentNode.None? ==> Forest() == MergeForest(old(Forest()))
      decreases if parentNode.Some? then |nodes| - parentNode.value else |nodes| + 1, 1
    {
      if parentNode.Some? {
        var coll := AbsorbSingleChild(parentNode.value);
        MergeEach(coll, parentNode.value);
        MergedOwner(old(nodes), nodes, parent, parentNode.value);
      } else {
        ghost var n0 := nodes;
        MergeEach(roots, -1);
        MergedRoots(n0, nodes, parent, roots);
      }
    }

    /** The loop of `MergeSingleNodes`: merges each node of `coll`, the children of `pv` (-1 for the top level). */
    method MergeEach(coll: seq<nat>, ghost pv: int)
      requires Valid() && InTable(nodes, coll) && Distinct(coll) && -1 <= pv < |nodes|
      requires forall i :: 0 <= i < |coll| ==> parent[coll[i]] == pv && pv < coll[i]
      modifies this
      ensures Valid() && |nodes| == old(|nodes|)
      ensures roots == old(roots) && parent == old(parent) && tags == old(tags) && allSettings == old(allSettings)
      ensures MergedUpTo(old(nodes), nodes, parent, coll, |coll|)
      decreases |nodes| - pv, 0
    {
      ghost var n0 := nodes;
      var k := 0;
      while k < |coll|
        invariant 0 <= k <= |coll|
        invariant Valid() && |nodes| == |n0| && Linked(n0, parent)
        invariant roots == old(roots) && parent == old(parent) && tags == old(tags) && allSettings == old(allSettings)
        invariant MergedUpTo(n0, nodes, parent, coll, k)
      {
        ghost var n1 := nodes;
        MergeSingleNodes(Some(coll[k]));
        MergeStepKept(n0, n1, nodes, parent, coll, pv, k);
        k := k + 1;
      }
    }

    /**
     * The first step of `MergeSingleNodes` on a node: with exactly one child
     * it takes over the child's name and text and drops its children. The
     * result is the collection the second step walks (the node's children,
     * none once they are cleared).
     */
    method AbsorbSingleChild(p: nat) returns (coll: seq<nat>)
      requires Valid() && p < |nodes|
      modifies this
      ensures Valid() && nodes == Absorbed(old(nodes), p)
      ensures roots == old(roots) && parent == old(parent) && tags == old(tags) && allSettings == old(allSettings)
      ensures coll == nodes[p].children
      ensures forall i :: 0 <= i < |coll| ==> parent[coll[i]] == p && p < coll[i]
    {
      coll := nodes[p].children;
      if |coll| == 1 {
        var child := coll[0];
        nodes := nodes[p := NodeRecord(nodes[child].name, nodes[p].text + "_" + nodes[child].text, [])];
        coll := [];
      }
    }

    /**
     * `loadSettingsList`: clears the tree and the dictionary, adds every
     * setting's id to the dictionary and its path to the tree, then merges the
     * single-node branches. `Dictionary.Add` throws on an id seen before; the
     * exception leaves the method there, with the tree built so far unmerged.
     */
    method LoadSettingsList(entries: seq<RegistryEntry>) returns (r: Result<()>)
      modifies this
      ensures Valid()
      ensures forall j :: 0 <= j < |tags| ==> tags[j] == null
      ensures r.Ok? <==> DistinctIds(GetSettings(entries))
      ensures r.Ok? ==> Forest() == MergeForest(BuildForest(Ids(GetSettings(entries))))
      ensures r.Ok? ==> allSettings == ToMap(GetSettings(entries))
      ensures r.Err? ==>
        var items := GetSettings(entries);
        && r.error == DuplicateKey
        && exists d :: 0 <= d < |items| && DistinctIds(items[..d]) && items[d].key in ToMap(items[..d])
             && Forest() == BuildForest(Ids(items[..d])) && allSettings == ToMap(items[..d])
    {
      nodes, tags, roots, parent := [], [], [], [];
      allSettings := map[];
      var items := GetSettings(entries);
      r := AddSettings(items);
      if r.Ok? {
        MergeSingleNodes(None);
      }
    }

    /**
     * The loop of `loadSettingsList`, from the cleared tree and dictionary:
     * adds each pair in turn, and stops at the first id that is already there.
     */
    method AddSettings(items: seq<KeyValuePair>) returns (r: Result<()>)
      requires Valid() && nodes == [] && roots == [] && allSettings == map[]
      modifies this
      ensures Valid()
      ensures forall j :: 0 <= j < |tags| ==> tags[j] == null
      ensures r.Ok? <==> DistinctIds(items)
      ensures r.Ok? ==> Forest() == BuildForest(Ids(items)) && allSettings == ToMap(items)
      ensures r.Err? ==>
        && r.error == DuplicateKey
        && exists d :: 0 <= d < |items| && DistinctIds(items[..d]) && items[d].key in ToMap(items[..d])
             && Forest() == BuildForest(Ids(items[..d])) && allSettings == ToMap(items[..d])
    {
      r := Ok(());
      var k := 0;
      while k < |items|
        invariant 0 <= k <= |items| && r == Ok(())
        invariant Valid() && DistinctIds(items[..k])
        invariant Forest() == BuildForest(Ids(items[..k]))
        invariant allSettings == ToMap(items[..k])
        invariant forall j :: 0 <= j < |tags| ==> tags[j] == null
      {
        LoadStep(items, k);
        ghost var before := Forest();
        var added := AddSetting(items[k]);
        if added.Err? {
          assert Forest() == before && items[k].key in ToMap(items[..k]);
          DuplicateStop(items, k, Forest(), allSettings);
          return added;
        }
        assert Forest() == InsertTree(before, Split(items[k].key), None);
        k := k + 1;
      }
      assert items[..k] == items;
    }

    /**
     * One pass of `loadSettingsList`'s loop: `allSettings.Add`, which throws
     * for an id already present, then the insertion of the id's path.
     */
    method AddSetting(item: KeyValuePair) returns (r: Result<()>)
      requires Valid()
      modifies this
      ensures Valid()
      ensures r.Err? <==> item.key in old(allSettings)
      ensures r.Err? ==> r.error == DuplicateKey && nodes == old(nodes) && roots == old(roots) && tags == old(tags) && allSettings == old(allSettings)
      ensures r.Ok? ==> allSettings == old(allSettings)[item.key := item.value]
      ensures r.Ok? ==> Forest() == InsertTree(old(Forest()), Split(item.key), None)
      ensures (forall j :: 0 <= j < old(|tags|) ==> old(tags[j]) == null) ==> forall j :: 0 <= j < |tags| ==> tags[j] == null
    {
      if item.key in allSettings {
        return Err(DuplicateKey);
      }
      allSettings := allSettings[item.key := item.value];
      ghost var tags1 := tags;
      AddSettingPath(Split(item.key));
      assert forall j :: 0 <= j < |tags1| ==> tags[j] == tags[..|tags1|][j];
      r := Ok(());
    }

    /**
     * `settingsTree_BeforeSelect`: a node without a `Tag` whose name is a known
     * setting id gets the descriptor `SettingInfo.Get` creates for it, over
     * the store item in `state`; a node with a `Tag` keeps it. The result is
     * what the property grid then shows: the node's descriptor, if any.
     */
    method BeforeSelect(i: nat, state: ItemState) returns (selected: SettingInfo?)
      requires Valid() && i < |nodes|
      modifies this
      ensures Valid() && nodes == old(nodes) && roots == old(roots) && parent == old(parent) && allSettings == old(allSettings)
      ensures |tags| == old(|tags|) && forall j :: 0 <= j < |tags| && j != i ==> tags[j] == old(tags[j])
      ensures old(tags[i]) != null ==> tags[i] == old(tags[i])
      ensures old(tags[i]) == null && nodes[i].name !in allSettings ==> tags[i] == null
      ensures old(tags[i]) == null && nodes[i].name in allSettings ==>
        && tags[i] != null && fresh(tags[i]) && tags[i].Valid()
        && tags[i].settingId == nodes[i].name
        && tags[i].variant == Dispatch(allSettings[nodes[i].name])
        && tags[i].item.state == state
      ensures selected == tags[i]
    {
      if tags[i] == null {
        var settingId := nodes[i].name;
        if settingId in allSettings {
          var info := SettingInfo.Get(settingId, allSettings[settingId], state);
          tags := tags[i := info];
        }
      }
      selected := tags[i];
    }
  }
}
