/**
 * The tree view's nodes as a table. Each `TreeNode` is a position in the
 * table; a record holds its `Name`, its `Text` and the positions of its child
 * nodes in order. A ghost `parent` sequence names each node's owner (-1 for a
 * node of the top-level collection) and fixes the shape: owners come before
 * their children, so every path downwards ends.
 *
 * `View` reads a node as a `SettingsTree.Tree` value; the lemmas here say
 * which table updates leave which views alone, and how a tree with a pending
 * insertion below one node (`PView`) turns into the plain view step by step.
 */
module NodeTable {
  import opened DotNet
  import opened SettingsTree

  datatype NodeRecord = NodeRecord(name: string, text: string, children: seq<nat>)

  predicate Distinct(s: seq<nat>)
  {
    forall a, b :: 0 <= a < b < |s| ==> s[a] != s[b]
  }

  predicate InTable(nodes: seq<NodeRecord>, coll: seq<nat>)
  {
    forall k :: 0 <= k < |coll| ==> coll[k] < |nodes|
  }

  /** The names of a node collection, as `TreeNodeCollection` looks keys up in it. */
  function CollNames(nodes: seq<NodeRecord>, coll: seq<nat>): (r: seq<string>)
    requires InTable(nodes, coll)
    ensures |r| == |coll| && forall k :: 0 <= k < |coll| ==> r[k] == nodes[coll[k]].name
  {
    seq(|coll|, k requires 0 <= k < |coll| => nodes[coll[k]].name)
  }

  /** Every child sits later in the table than its owner. */
  ghost predicate Ordered(nodes: seq<NodeRecord>)
  {
    forall i, k :: 0 <= i < |nodes| && 0 <= k < |nodes[i].children| ==> i < nodes[i].children[k] < |nodes|
  }

  /** Each node's owner comes before it. */
  ghost predicate Rooted(parent: seq<int>)
  {
    forall j :: 0 <= j < |parent| ==> -1 <= parent[j] < j
  }

  /** `parent` agrees with the children lists, and no collection holds a node twice. */
  ghost predicate Linked(nodes: seq<NodeRecord>, parent: seq<int>)
  {
    && Ordered(nodes)
    && |parent| == |nodes|
    && Rooted(parent)
    && (forall i, k :: 0 <= i < |nodes| && 0 <= k < |nodes[i].children| ==> parent[nodes[i].children[k]] == i)
    && (forall i :: 0 <= i < |nodes| ==> Distinct(nodes[i].children))
  }

  /** The table with its top-level collection `roots`. */
  ghost predicate Shaped(nodes: seq<NodeRecord>, roots: seq<nat>, parent: seq<int>)
  {
    && Linked(nodes, parent)
    && InTable(nodes, roots)
    && Distinct(roots)
    && (forall k :: 0 <= k < |roots| ==> parent[roots[k]] == -1)
  }

  /** The tree value of node `i`. */
  ghost function View(nodes: seq<NodeRecord>, i: nat): Tree
    requires Ordered(nodes) && i < |nodes|
    decreases |nodes| - i
  {
    var c := nodes[i].children;
    Node(nodes[i].name, nodes[i].text, seq(|c|, k requires 0 <= k < |c| => View(nodes, c[k])))
  }

  /** The tree values of a collection. */
  ghost function ViewAll(nodes: seq<NodeRecord>, coll: seq<nat>): (r: seq<Tree>)
    requires Ordered(nodes) && InTable(nodes, coll)
    ensures |r| == |coll|
  {
    seq(|coll|, k requires 0 <= k < |coll| => View(nodes, coll[k]))
  }

  lemma ViewChildren(nodes: seq<NodeRecord>, i: nat)
    requires Ordered(nodes) && i < |nodes|
    ensures InTable(nodes, nodes[i].children)
    ensures View(nodes, i).children == ViewAll(nodes, nodes[i].children)
  {
  }

  lemma NamesOfView(nodes: seq<NodeRecord>, coll: seq<nat>)
    requires Ordered(nodes) && InTable(nodes, coll)
    ensures Names(ViewAll(nodes, coll)) == CollNames(nodes, coll)
  {
  }

  // ---------------------------------------------------------------------------
  // Descendants

  /** Node `j` is `a` or lies below it. */
  ghost predicate IsDesc(parent: seq<int>, a: int, j: nat)
    requires Rooted(parent) && j < |parent|
    decreases j
  {
    j == a || (parent[j] >= 0 && IsDesc(parent, a, parent[j]))
  }

  lemma {:induction false} DescAtLeast(parent: seq<int>, a: int, j: nat)
    requires Rooted(parent) && j < |parent|
    ensures IsDesc(parent, a, j) ==> a <= j
    decreases j
  {
    if j != a && parent[j] >= 0 {
      DescAtLeast(parent, a, parent[j]);
    }
  }

  /** Whatever lies below a child lies below its owner. */
  lemma {:induction false} DescOfChild(parent: seq<int>, a: nat, c: nat, j: nat)
    requires Rooted(parent) && c < |parent| && j < |parent| && parent[c] == a
    ensures IsDesc(parent, c, j) ==> IsDesc(parent, a, j)
    decreases j
  {
    if j != c && parent[j] >= 0 {
      DescOfChild(parent, a, c, parent[j]);
    }
  }

  /** Of two siblings, neither lies below the other. */
  lemma SiblingsApart(parent: seq<int>, c1: nat, c2: nat)
    requires Rooted(parent) && c1 < |parent| && c2 < |parent|
    requires c1 != c2 && parent[c1] == parent[c2]
    ensures !IsDesc(parent, c1, c2)
  {
    DescAtLeast(parent, c1, c2);
    if parent[c2] >= 0 {
      DescAtLeast(parent, c1, parent[c2]);
    }
  }

  /** Two siblings have no node below both of them. */
  lemma {:induction false} SiblingsDisjoint(parent: seq<int>, c1: nat, c2: nat, j: nat)
    requires Rooted(parent) && c1 < |parent| && c2 < |parent| && j < |parent|
    requires c1 != c2 && parent[c1] == parent[c2]
    ensures IsDesc(parent, c1, j) ==> !IsDesc(parent, c2, j)
    decreases j
  {
    SiblingsApart(parent, c1, c2);
    SiblingsApart(parent, c2, c1);
    if j != c1 && j != c2 && parent[j] >= 0 {
      SiblingsDisjoint(parent, c1, c2, parent[j]);
    }
  }

  /** Appending a node does not change what lies below what among the old nodes. */
  lemma {:induction false} DescExtend(parent: seq<int>, p: int, a: int, j: nat)
    requires Rooted(parent) && Rooted(parent + [p]) && j < |parent|
    ensures IsDesc(parent + [p], a, j) == IsDesc(parent, a, j)
    decreases j
  {
    if j != a && parent[j] >= 0 {
      DescExtend(parent, p, a, parent[j]);
    }
  }

  /** A node's view depends only on the records of the nodes below it. */
  lemma {:induction false} ViewFrame(n1: seq<NodeRecord>, n2: seq<NodeRecord>, parent: seq<int>, a: nat)
    requires Linked(n1, parent) && Ordered(n2) && |n1| <= |n2| && a < |n1|
    requires forall j :: 0 <= j < |n1| && IsDesc(parent, a, j) ==> n2[j] == n1[j]
    ensures View(n1, a) == View(n2, a)
    decreases |n1| - a
  {
    assert IsDesc(parent, a, a);
    var c := n1[a].children;
    forall k | 0 <= k < |c| ensures View(n1, c[k]) == View(n2, c[k]) {
      forall j | 0 <= j < |n1| && IsDesc(parent, c[k], j) ensures n2[j] == n1[j] {
        DescOfChild(parent, a, c[k], j);
      }
      ViewFrame(n1, n2, parent, c[k]);
    }
  }

  /** Changing only the nodes below one sibling leaves the other siblings' views as they were. */
  lemma SiblingViewsKept(n1: seq<NodeRecord>, n2: seq<NodeRecord>, parent: seq<int>, coll: seq<nat>, pv: int, k: nat)
    requires Linked(n1, parent) && Ordered(n2) && |n1| == |n2|
    requires InTable(n1, coll) && Distinct(coll) && k < |coll|
    requires forall i :: 0 <= i < |coll| ==> parent[coll[i]] == pv
    requires forall j :: 0 <= j < |n1| && !IsDesc(parent, coll[k], j) ==> n2[j] == n1[j]
    ensures forall i :: 0 <= i < |coll| && i != k ==> View(n2, coll[i]) == View(n1, coll[i])
  {
    forall i | 0 <= i < |coll| && i != k ensures View(n2, coll[i]) == View(n1, coll[i]) {
      forall j | 0 <= j < |n1| && IsDesc(parent, coll[i], j) ensures n2[j] == n1[j] {
        SiblingsDisjoint(parent, coll[i], coll[k], j);
      }
      ViewFrame(n1, n2, parent, coll[i]);
    }
  }

  /**
   * The first `k` nodes of `coll` have their merged views, the others their
   * old views, and only nodes below the first `k` have changed.
   */
  ghost predicate MergedUpTo(n0: seq<NodeRecord>, n: seq<NodeRecord>, parent: seq<int>, coll: seq<nat>, k: nat)
    requires Ordered(n0) && Ordered(n) && |n| == |n0| && InTable(n0, coll) && k <= |coll|
    requires Rooted(parent) && |parent| == |n0|
  {
    && (forall i :: 0 <= i < k ==> View(n, coll[i]) == MergeTree(View(n0, coll[i])))
    && (forall i :: k <= i < |coll| ==> View(n, coll[i]) == View(n0, coll[i]))
    && (forall j :: 0 <= j < |n| && (forall i :: 0 <= i < k ==> !IsDesc(parent, coll[i], j)) ==> n[j] == n0[j])
  }

  /** Merging the `k`-th node of a collection extends `MergedUpTo` by one. */
  lemma MergeStepKept(n0: seq<NodeRecord>, n1: seq<NodeRecord>, n2: seq<NodeRecord>, parent: seq<int>, coll: seq<nat>, pv: int, k: nat)
    requires Linked(n0, parent) && Linked(n1, parent) && Ordered(n2) && |n1| == |n0| && |n2| == |n0|
    requires InTable(n0, coll) && Distinct(coll) && k < |coll|
    requires forall i :: 0 <= i < |coll| ==> parent[coll[i]] == pv
    requires MergedUpTo(n0, n1, parent, coll, k)
    requires View(n2, coll[k]) == MergeTree(View(n1, coll[k]))
    requires forall j :: 0 <= j < |n1| && !IsDesc(parent, coll[k], j) ==> n2[j] == n1[j]
    ensures MergedUpTo(n0, n2, parent, coll, k + 1)
  {
    SiblingViewsKept(n1, n2, parent, coll, pv, k);
    forall j | 0 <= j < |n2| && (forall i :: 0 <= i < k + 1 ==> !IsDesc(parent, coll[i], j))
      ensures n2[j] == n0[j]
    {
      assert !IsDesc(parent, coll[k], j);
    }
  }

  /** Once every top-level node is merged, the tree is the merged tree. */
  lemma MergedRoots(n0: seq<NodeRecord>, n: seq<NodeRecord>, parent: seq<int>, roots: seq<nat>)
    requires Ordered(n0) && Ordered(n) && |n| == |n0| && InTable(n0, roots)
    requires Rooted(parent) && |parent| == |n0|
    requires MergedUpTo(n0, n, parent, roots, |roots|)
    ensures ViewAll(n, roots) == MergeForest(ViewAll(n0, roots))
  {
  }

  /** The table after a node with exactly one child has absorbed it. */
  ghost function Absorbed(nodes: seq<NodeRecord>, p: nat): (r: seq<NodeRecord>)
    requires Ordered(nodes) && p < |nodes|
    ensures |r| == |nodes| && forall j :: 0 <= j < |nodes| && j != p ==> r[j] == nodes[j]
  {
    var c := nodes[p].children;
    if |c| == 1 then nodes[p := NodeRecord(nodes[c[0]].name, nodes[p].text + "_" + nodes[c[0]].text, [])]
    else nodes
  }

  /**
   * Once every child left below `p` after the absorbing step is merged, and
   * nothing outside their subtrees has changed, `p`'s view is its merged
   * view and nothing outside `p`'s subtree has changed.
   */
  lemma MergedOwner(n0: seq<NodeRecord>, n2: seq<NodeRecord>, parent: seq<int>, p: nat)
    requires Linked(n0, parent) && Ordered(n2) && |n2| == |n0| && p < |n0|
    requires Linked(Absorbed(n0, p), parent)
    requires var a := Absorbed(n0, p);
             var coll := a[p].children;
             && (forall i :: 0 <= i < |coll| ==> View(n2, coll[i]) == MergeTree(View(a, coll[i])))
             && (forall j :: 0 <= j < |n2| && (forall i :: 0 <= i < |coll| ==> !IsDesc(parent, coll[i], j)) ==> n2[j] == a[j])
    ensures View(n2, p) == MergeTree(View(n0, p))
    ensures forall j :: 0 <= j < |n2| && !IsDesc(parent, p, j) ==> n2[j] == n0[j]
  {
    var a := Absorbed(n0, p);
    var coll := a[p].children;
    forall i | 0 <= i < |coll| ensures !IsDesc(parent, coll[i], p) {
      DescAtLeast(parent, coll[i], p);
    }
    assert n2[p] == a[p];
    forall j | 0 <= j < |n2| && !IsDesc(parent, p, j) ensures n2[j] == n0[j] {
      forall i | 0 <= i < |coll| ensures !IsDesc(parent, coll[i], j) {
        DescOfChild(parent, p, coll[i], j);
      }
    }
    if |n0[p].children| != 1 {
      ViewChildren(n0, p);
      ViewChildren(n2, p);
    }
  }

  // ---------------------------------------------------------------------------
  // Views with an insertion pending below one node

  /**
   * The view of `x` in which the children of node `o` are replaced by the
   * result of inserting `rest` below them, `cp` being the path so far.
   */
  ghost function PView(nodes: seq<NodeRecord>, x: nat, o: int, rest: seq<string>, cp: Option<string>): Tree
    requires Ordered(nodes) && x < |nodes|
    decreases |nodes| - x
  {
    var c := nodes[x].children;
    if x == o then Node(nodes[x].name, nodes[x].text, InsertTree(ViewAll(nodes, c), rest, cp))
    else Node(nodes[x].name, nodes[x].text, seq(|c|, k requires 0 <= k < |c| => PView(nodes, c[k], o, rest, cp)))
  }

  /** The top-level collection with the insertion pending below `o` (-1: below the top level). */
  ghost function PForest(nodes: seq<NodeRecord>, roots: seq<nat>, o: int, rest: seq<string>, cp: Option<string>): seq<Tree>
    requires Ordered(nodes) && InTable(nodes, roots)
  {
    if o == -1 then InsertTree(ViewAll(nodes, roots), rest, cp)
    else seq(|roots|, k requires 0 <= k < |roots| => PView(nodes, roots[k], o, rest, cp))
  }

  /** Nothing pending. */
  lemma {:induction false} PViewDone(nodes: seq<NodeRecord>, x: nat, o: int, cp: Option<string>)
    requires Ordered(nodes) && x < |nodes|
    ensures PView(nodes, x, o, [], cp) == View(nodes, x)
    decreases |nodes| - x
  {
    var c := nodes[x].children;
    forall k | 0 <= k < |c| ensures PView(nodes, c[k], o, [], cp) == View(nodes, c[k]) {
      PViewDone(nodes, c[k], o, cp);
    }
  }

  lemma PForestDone(nodes: seq<NodeRecord>, roots: seq<nat>, o: int, cp: Option<string>)
    requires Ordered(nodes) && InTable(nodes, roots)
    ensures PForest(nodes, roots, o, [], cp) == ViewAll(nodes, roots)
  {
    forall k | 0 <= k < |roots| ensures PView(nodes, roots[k], o, [], cp) == View(nodes, roots[k]) {
      PViewDone(nodes, roots[k], o, cp);
    }
  }

  /** A pending insertion below a node that is not below `x` does not show in `x`'s view. */
  lemma {:induction false} PViewOff(nodes: seq<NodeRecord>, parent: seq<int>, x: nat, o: int, rest: seq<string>, cp: Option<string>)
    requires Linked(nodes, parent) && x < |nodes| && o < |nodes|
    requires o >= 0 ==> !IsDesc(parent, x, o)
    ensures PView(nodes, x, o, rest, cp) == View(nodes, x)
    decreases |nodes| - x
  {
    var c := nodes[x].children;
    forall k | 0 <= k < |c| ensures PView(nodes, c[k], o, rest, cp) == View(nodes, c[k]) {
      if o >= 0 {
        DescOfChild(parent, x, c[k], o);
      }
      PViewOff(nodes, parent, c[k], o, rest, cp);
    }
  }

  /**
   * Inserting into a collection whose first segment's key is found at `idx`
   * is the same as the insertion of the remaining segments pending below the
   * node found.
   */
  lemma PendingInCollection(nodes: seq<NodeRecord>, parent: seq<int>, coll: seq<nat>, pv: int, idx: nat, rest: seq<string>, cp: Option<string>)
    requires Linked(nodes, parent) && InTable(nodes, coll) && Distinct(coll)
    requires forall k :: 0 <= k < |coll| ==> parent[coll[k]] == pv
    requires rest != [] && KeyIndex(CollNames(nodes, coll), Key(cp, rest[0])) == Some(idx)
    ensures idx < |coll|
    ensures InsertTree(ViewAll(nodes, coll), rest, cp)
         == seq(|coll|, k requires 0 <= k < |coll| => PView(nodes, coll[k], coll[idx], rest[1..], Some(Key(cp, rest[0]))))
  {
    var v := ViewAll(nodes, coll);
    NamesOfView(nodes, coll);
    var c := coll[idx];
    var key := Key(cp, rest[0]);
    var lhs := InsertTree(v, rest, cp);
    assert lhs == v[idx := Node(v[idx].name, v[idx].text, InsertTree(v[idx].children, rest[1..], Some(key)))];
    forall k | 0 <= k < |coll| ensures lhs[k] == PView(nodes, coll[k], c, rest[1..], Some(key)) {
      if k == idx {
        ViewChildren(nodes, c);
      } else {
        SiblingsApart(parent, coll[k], c);
        PViewOff(nodes, parent, coll[k], c, rest[1..], Some(key));
      }
    }
  }

  /** Moving the pending insertion one level down, to the child whose key was found. */
  lemma {:induction false} PViewDescend(nodes: seq<NodeRecord>, parent: seq<int>, x: nat, o: nat, idx: nat, rest: seq<string>, cp: Option<string>)
    requires Linked(nodes, parent) && x < |nodes| && o < |nodes| && rest != []
    requires KeyIndex(CollNames(nodes, nodes[o].children), Key(cp, rest[0])) == Some(idx)
    requires idx < |nodes[o].children| && x != nodes[o].children[idx]
    ensures PView(nodes, x, o, rest, cp) == PView(nodes, x, nodes[o].children[idx], rest[1..], Some(Key(cp, rest[0])))
    decreases |nodes| - x
  {
    var ch := nodes[o].children;
    if x == o {
      PendingInCollection(nodes, parent, ch, o, idx, rest, cp);
    } else {
      var c := nodes[x].children;
      forall k | 0 <= k < |c|
        ensures PView(nodes, c[k], o, rest, cp) == PView(nodes, c[k], ch[idx], rest[1..], Some(Key(cp, rest[0])))
      {
        assert parent[c[k]] == x && parent[ch[idx]] == o;
        PViewDescend(nodes, parent, c[k], o, idx, rest, cp);
      }
    }
  }

  /** A key found in the owner's collection: the owner moves to the node found. */
  lemma PendingFound(nodes: seq<NodeRecord>, roots: seq<nat>, parent: seq<int>, o: int, idx: nat, rest: seq<string>, cp: Option<string>)
    requires Shaped(nodes, roots, parent) && -1 <= o < |nodes| && rest != []
    requires KeyIndex(CollNames(nodes, if o == -1 then roots else nodes[o].children), Key(cp, rest[0])) == Some(idx)
    ensures var coll := if o == -1 then roots else nodes[o].children;
            && idx < |coll|
            && PForest(nodes, roots, o, rest, cp) == PForest(nodes, roots, coll[idx], rest[1..], Some(Key(cp, rest[0])))
  {
    if o == -1 {
      PendingInCollection(nodes, parent, roots, -1, idx, rest, cp);
    } else {
      var c := nodes[o].children[idx];
      forall k | 0 <= k < |roots|
        ensures PView(nodes, roots[k], o, rest, cp) == PView(nodes, roots[k], c, rest[1..], Some(Key(cp, rest[0])))
      {
        assert parent[roots[k]] == -1 && parent[c] == o;
        PViewDescend(nodes, parent, roots[k], o, idx, rest, cp);
      }
    }
  }

  /** The table after `Add(key, text)` on the owner's collection: a new childless node at the end. */
  function AddNode(nodes: seq<NodeRecord>, o: int, key: string, text: string): (r: seq<NodeRecord>)
    requires o < |nodes|
    ensures |r| == |nodes| + 1 && r[|nodes|] == NodeRecord(key, text, [])
    ensures forall j :: 0 <= j < |nodes| && j != o ==> r[j] == nodes[j]
    ensures 0 <= o ==> r[o] == nodes[o].(children := nodes[o].children + [|nodes|])
  {
    (if o < 0 then nodes else nodes[o := nodes[o].(children := nodes[o].children + [|nodes|])]) + [NodeRecord(key, text, [])]
  }

  function AddRoot(roots: seq<nat>, o: int, n: nat): seq<nat>
  {
    if o == -1 then roots + [n] else roots
  }

  lemma AddKeepsShape(nodes: seq<NodeRecord>, roots: seq<nat>, parent: seq<int>, o: int, key: string, text: string)
    requires Shaped(nodes, roots, parent) && -1 <= o < |nodes|
    ensures Shaped(AddNode(nodes, o, key, text), AddRoot(roots, o, |nodes|), parent + [o])
  {
    var n2, p2, r2 := AddNode(nodes, o, key, text), parent + [o], AddRoot(roots, o, |nodes|);
    AddKeepsLinked(nodes, parent, o, key, text);
    assert InTable(n2, r2) && Distinct(r2);
    assert forall k :: 0 <= k < |r2| ==> p2[r2[k]] == -1;
  }

  lemma AddKeepsLinked(nodes: seq<NodeRecord>, parent: seq<int>, o: int, key: string, text: string)
    requires Linked(nodes, parent) && -1 <= o < |nodes|
    ensures Linked(AddNode(nodes, o, key, text), parent + [o])
  {
    var n2 := AddNode(nodes, o, key, text);
    var n := |nodes|;
    forall i, k | 0 <= i < |n2| && 0 <= k < |n2[i].children|
      ensures i < n2[i].children[k] < |n2| && (parent + [o])[n2[i].children[k]] == i
    {
      if i != o {
        assert n2[i].children == nodes[i].children;
      } else if k < |nodes[o].children| {
        assert n2[i].children[k] == nodes[o].children[k];
      }
    }
    forall i | 0 <= i < |n2| ensures Distinct(n2[i].children) {
      if i == o {
        assert forall k :: 0 <= k < |nodes[o].children| ==> nodes[o].children[k] < n;
      }
    }
  }

  /** The pending insertion below a new node, for every old node whose view may hold the owner `o`. */
  lemma {:induction false} PViewAdd(nodes: seq<NodeRecord>, parent: seq<int>, x: nat, o: nat, rest: seq<string>, cp: Option<string>)
    requires Linked(nodes, parent) && x < |nodes| && o < |nodes| && rest != []
    requires Linked(AddNode(nodes, o, Key(cp, rest[0]), rest[0]), parent + [o])
    requires KeyIndex(CollNames(nodes, nodes[o].children), Key(cp, rest[0])).None?
    ensures PView(nodes, x, o, rest, cp)
         == PView(AddNode(nodes, o, Key(cp, rest[0]), rest[0]), x, |nodes|, rest[1..], Some(Key(cp, rest[0])))
    decreases |nodes| - x
  {
    var key := Key(cp, rest[0]);
    var n2 := AddNode(nodes, o, key, rest[0]);
    var p2 := parent + [o];
    var n := |nodes|;
    if x == o {
      var ch := nodes[o].children;
      var v := ViewAll(nodes, ch);
      NamesOfView(nodes, ch);
      assert InsertTree(v, rest, cp) == v + [Node(key, rest[0], InsertTree([], rest[1..], Some(key)))];
      var c2 := n2[o].children;
      assert c2 == ch + [n];
      forall k | 0 <= k < |c2|
        ensures PView(n2, c2[k], n, rest[1..], Some(key)) == (v + [Node(key, rest[0], InsertTree([], rest[1..], Some(key)))])[k]
      {
        if k < |ch| {
          var d := ch[k];
          DescAtLeast(parent, d, o);
          DescExtend(parent, o, d, o);
          assert !IsDesc(p2, d, n);
          PViewOff(n2, p2, d, n, rest[1..], Some(key));
          forall j | 0 <= j < n && IsDesc(parent, d, j) ensures n2[j] == nodes[j] {
            DescAtLeast(parent, d, j);
          }
          ViewFrame(nodes, n2, parent, d);
        } else {
          assert ViewAll(n2, n2[n].children) == [];
        }
      }
    } else {
      var c := nodes[x].children;
      assert n2[x] == nodes[x];
      forall k | 0 <= k < |c|
        ensures PView(nodes, c[k], o, rest, cp) == PView(n2, c[k], n, rest[1..], Some(key))
      {
        PViewAdd(nodes, parent, c[k], o, rest, cp);
      }
    }
  }

  /** A key not found in the owner's collection: a node is added there and becomes the owner. */
  lemma PendingAdd(nodes: seq<NodeRecord>, roots: seq<nat>, parent: seq<int>, o: int, rest: seq<string>, cp: Option<string>)
    requires Shaped(nodes, roots, parent) && -1 <= o < |nodes| && rest != []
    requires KeyIndex(CollNames(nodes, if o == -1 then roots else nodes[o].children), Key(cp, rest[0])).None?
    ensures var n2 := AddNode(nodes, o, Key(cp, rest[0]), rest[0]);
            var r2 := AddRoot(roots, o, |nodes|);
            && Shaped(n2, r2, parent + [o])
            && PForest(nodes, roots, o, rest, cp) == PForest(n2, r2, |nodes|, rest[1..], Some(Key(cp, rest[0])))
  {
    AddKeepsShape(nodes, roots, parent, o, Key(cp, rest[0]), rest[0]);
    if o == -1 {
      PendingAddTop(nodes, roots, parent, rest, cp);
    } else {
      PendingAddBelow(nodes, roots, parent, o, rest, cp);
    }
  }

  lemma PendingAddTop(nodes: seq<NodeRecord>, roots: seq<nat>, parent: seq<int>, rest: seq<string>, cp: Option<string>)
    requires Shaped(nodes, roots, parent) && rest != []
    requires KeyIndex(CollNames(nodes, roots), Key(cp, rest[0])).None?
    requires Shaped(AddNode(nodes, -1, Key(cp, rest[0]), rest[0]), roots + [|nodes|], parent + [-1])
    ensures PForest(nodes, roots, -1, rest, cp)
         == PForest(AddNode(nodes, -1, Key(cp, rest[0]), rest[0]), roots + [|nodes|], |nodes|, rest[1..], Some(Key(cp, rest[0])))
  {
    var key := Key(cp, rest[0]);
    var n2 := AddNode(nodes, -1, key, rest[0]);
    var r2 := roots + [|nodes|];
    var p2 := parent + [-1];
    var n := |nodes|;
    var v := ViewAll(nodes, roots);
    var t := Node(key, rest[0], InsertTree([], rest[1..], Some(key)));
    NamesOfView(nodes, roots);
    assert InsertTree(v, rest, cp) == v + [t];
    forall k | 0 <= k < |r2| ensures PView(n2, r2[k], n, rest[1..], Some(key)) == (v + [t])[k] {
      if k < |roots| {
        assert !IsDesc(p2, roots[k], n);
        PViewOff(n2, p2, roots[k], n, rest[1..], Some(key));
        ViewFrame(nodes, n2, parent, roots[k]);
      } else {
        assert ViewAll(n2, n2[n].children) == [];
      }
    }
  }

  lemma PendingAddBelow(nodes: seq<NodeRecord>, roots: seq<nat>, parent: seq<int>, o: nat, rest: seq<string>, cp: Option<string>)
    requires Shaped(nodes, roots, parent) && o < |nodes| && rest != []
    requires KeyIndex(CollNames(nodes, nodes[o].children), Key(cp, rest[0])).None?
    requires Shaped(AddNode(nodes, o, Key(cp, rest[0]), rest[0]), roots, parent + [o])
    ensures PForest(nodes, roots, o, rest, cp)
         == PForest(AddNode(nodes, o, Key(cp, rest[0]), rest[0]), roots, |nodes|, rest[1..], Some(Key(cp, rest[0])))
  {
    var key := Key(cp, rest[0]);
    var n2 := AddNode(nodes, o, key, rest[0]);
    forall k | 0 <= k < |roots|
      ensures PView(nodes, roots[k], o, rest, cp) == PView(n2, roots[k], |nodes|, rest[1..], Some(key))
    {
      PViewAdd(nodes, parent, roots[k], o, rest, cp);
    }
  }
}
