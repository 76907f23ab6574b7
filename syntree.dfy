/**
 * The tree source the embedder reads: an ordered forest, its pre-order walk with depths
 * (`walk().with_depths()`), its enter/leave event walk (`walk_events()`) and node navigation.
 * Node identifiers are pre-order indices, which is also how the arena of the tree is laid out.
 */
module Syntree {
  import opened Wrappers

  /** A tree node whose value has already been turned into its display text and emphasis flag. */
  datatype Tree = Node(text: string, emph: bool, children: seq<Tree>)

  /** Number of nodes of a tree. */
  function Size(t: Tree): nat
    decreases t
  {
    1 + ForestSize(t.children)
  }

  /** Number of nodes of a forest. */
  function ForestSize(f: seq<Tree>): nat
    decreases f
  {
    if f == [] then 0 else Size(f[0]) + ForestSize(f[1..])
  }

  /** Pre-order position of the first node of `f[k]`, counted from the first node of `f`. */
  function Offset(f: seq<Tree>, k: nat): nat
    requires k <= |f|
  {
    if k == 0 then 0 else Size(f[0]) + Offset(f[1..], k - 1)
  }

  /** A node handle: its identifier, its value, and the identifiers of its parent and children. */
  datatype TreeNode = TreeNode(id: nat, text: string, emph: bool, parent: Option<nat>, children: seq<nat>)

  /** One item of `walk().with_depths()`. */
  datatype Visit = Visit(depth: nat, node: TreeNode)

  /** The identifiers of the trees of `f` when the first one starts at `start`. */
  function ChildIds(f: seq<Tree>, start: nat): (ids: seq<nat>)
    ensures |ids| == |f|
  {
    if f == [] then [] else [start] + ChildIds(f[1..], start + Size(f[0]))
  }

  /** Pre-order walk of `t`, whose root gets identifier `start`, parent `parent` and depth `depth`. */
  function WalkTree(t: Tree, parent: Option<nat>, depth: nat, start: nat): (w: seq<Visit>)
    ensures |w| == Size(t)
    decreases t
  {
    [Visit(depth, TreeNode(start, t.text, t.emph, parent, ChildIds(t.children, start + 1)))]
      + WalkForest(t.children, Some(start), depth + 1, start + 1)
  }

  /** Pre-order walk of the trees of `f`, one after the other. */
  function WalkForest(f: seq<Tree>, parent: Option<nat>, depth: nat, start: nat): (w: seq<Visit>)
    ensures |w| == ForestSize(f)
    decreases f
  {
    if f == [] then []
    else WalkTree(f[0], parent, depth, start) + WalkForest(f[1..], parent, depth, start + Size(f[0]))
  }

  /** `walk().with_depths()` of a whole forest: top-level nodes have depth 0 and no parent. */
  function Walk(forest: seq<Tree>): seq<Visit>
  {
    WalkForest(forest, None, 0, 0)
  }

  /** The subtrees of `t` in pre-order: entry `i` is the subtree below the node with identifier `i`. */
  function Subtrees(t: Tree): (s: seq<Tree>)
    ensures |s| == Size(t)
    decreases t
  {
    [t] + ForestSubtrees(t.children)
  }

  function ForestSubtrees(f: seq<Tree>): (s: seq<Tree>)
    ensures |s| == ForestSize(f)
    decreases f
  {
    if f == [] then [] else Subtrees(f[0]) + ForestSubtrees(f[1..])
  }

  /** The block of `f` that the pre-order position `i` falls into. */
  function BlockOf(f: seq<Tree>, i: nat): (k: nat)
    requires i < ForestSize(f)
    ensures k < |f| && Offset(f, k) <= i < Offset(f, k) + Size(f[k])
  {
    if i < Size(f[0]) then 0 else 1 + BlockOf(f[1..], i - Size(f[0]))
  }

  lemma {:induction false} OffsetStep(f: seq<Tree>, k: nat)
    requires k < |f|
    ensures Offset(f, k + 1) == Offset(f, k) + Size(f[k])
  {
    if k > 0 {
      OffsetStep(f[1..], k - 1);
    }
  }

  /** The blocks of a forest fill exactly its size. */
  lemma {:induction false} OffsetBound(f: seq<Tree>, k: nat)
    requires k <= |f|
    ensures Offset(f, k) <= ForestSize(f)
    ensures k < |f| ==> Offset(f, k) + Size(f[k]) <= ForestSize(f)
    ensures k == |f| ==> Offset(f, k) == ForestSize(f)
  {
    if k > 0 {
      OffsetBound(f[1..], k - 1);
    }
  }

  lemma {:induction false} OffsetMonotonic(f: seq<Tree>, j: nat, k: nat)
    requires j < k <= |f|
    ensures Offset(f, j) + Size(f[j]) <= Offset(f, k)
    decreases k - j
  {
    OffsetStep(f, j);
    if j + 1 < k {
      OffsetMonotonic(f, j + 1, k);
    }
  }

  lemma {:induction false} ChildIdsAt(f: seq<Tree>, start: nat, k: nat)
    requires k < |f|
    ensures ChildIds(f, start)[k] == start + Offset(f, k)
  {
    if k > 0 {
      ChildIdsAt(f[1..], start + Size(f[0]), k - 1);
    }
  }

  /** Inside a forest's walk, the walk of `f[k]` starts at position `Offset(f, k)`. */
  lemma {:induction false} WalkForestAt(f: seq<Tree>, parent: Option<nat>, depth: nat, start: nat, k: nat, j: nat)
    requires k < |f| && j < Size(f[k])
    ensures Offset(f, k) + j < ForestSize(f)
    ensures WalkForest(f, parent, depth, start)[Offset(f, k) + j]
         == WalkTree(f[k], parent, depth, start + Offset(f, k))[j]
  {
    OffsetBound(f, k);
    var a := WalkTree(f[0], parent, depth, start);
    var b := WalkForest(f[1..], parent, depth, start + Size(f[0]));
    assert WalkForest(f, parent, depth, start) == a + b;
    if k > 0 {
      WalkForestAt(f[1..], parent, depth, start + Size(f[0]), k - 1, j);
      assert f[1..][k - 1] == f[k];
      assert (a + b)[Offset(f, k) + j] == b[Offset(f[1..], k - 1) + j];
    }
  }

  /** Inside a forest's subtree list, the subtrees of `f[k]` start at position `Offset(f, k)`. */
  lemma {:induction false} ForestSubtreesAt(f: seq<Tree>, k: nat, j: nat)
    requires k < |f| && j < Size(f[k])
    ensures Offset(f, k) + j < ForestSize(f)
    ensures ForestSubtrees(f)[Offset(f, k) + j] == Subtrees(f[k])[j]
  {
    OffsetBound(f, k);
    var a := Subtrees(f[0]);
    var b := ForestSubtrees(f[1..]);
    assert ForestSubtrees(f) == a + b;
    if k > 0 {
      ForestSubtreesAt(f[1..], k - 1, j);
      assert f[1..][k - 1] == f[k];
      assert (a + b)[Offset(f, k) + j] == b[Offset(f[1..], k - 1) + j];
    }
  }

  /** In the subtree list of `t`, position `1 + Offset(t.children, k) + j` lies in child `k`. */
  lemma SubtreesChildAt(t: Tree, k: nat, j: nat)
    requires k < |t.children| && j < Size(t.children[k])
    ensures 1 + Offset(t.children, k) + j < Size(t)
    ensures Subtrees(t)[1 + Offset(t.children, k) + j] == Subtrees(t.children[k])[j]
  {
    ForestSubtreesAt(t.children, k, j);
    assert Subtrees(t) == [t] + ForestSubtrees(t.children);
  }

  /** A position `i > 0` of the subtree list of `t` lies at position `j` of that of some child `kb`. */
  lemma SubtreeDescend(t: Tree, i: nat) returns (kb: nat, j: nat)
    requires 0 < i < Size(t)
    ensures kb < |t.children| && j < Size(t.children[kb]) && i == 1 + Offset(t.children, kb) + j
    ensures Subtrees(t)[i] == Subtrees(t.children[kb])[j]
  {
    kb := BlockOf(t.children, i - 1);
    j := i - 1 - Offset(t.children, kb);
    SubtreesChildAt(t, kb, j);
  }

  /** The subtree below pre-order position `i` of `t` covers the positions `i .. i + Size` of `t`. */
  lemma {:induction false} SubtreeRange(t: Tree, i: nat)
    requires i < Size(t)
    ensures i + Size(Subtrees(t)[i]) <= Size(t)
    decreases t
  {
    if i > 0 {
      var kb, j := SubtreeDescend(t, i);
      OffsetBound(t.children, kb);
      SubtreeRange(t.children[kb], j);
    }
  }

  /** The `k`-th child of the subtree at pre-order position `i` sits at position `i + 1 + Offset(children, k)`. */
  lemma {:induction false} SubtreeChild(t: Tree, i: nat, k: nat)
    requires i < Size(t) && k < |Subtrees(t)[i].children|
    ensures i + 1 + Offset(Subtrees(t)[i].children, k) < Size(t)
    ensures Subtrees(t)[i + 1 + Offset(Subtrees(t)[i].children, k)] == Subtrees(t)[i].children[k]
    decreases t
  {
    if i == 0 {
      SubtreesChildAt(t, k, 0);
    } else {
      var kb, j := SubtreeDescend(t, i);
      var c := t.children[kb];
      SubtreeChild(c, j, k);
      SubtreesChildAt(t, kb, j + 1 + Offset(Subtrees(c)[j].children, k));
    }
  }

  /** In the walk of `t`, position `1 + Offset(t.children, k) + j` lies in the walk of child `k`. */
  lemma WalkChildAt(t: Tree, parent: Option<nat>, depth: nat, start: nat, k: nat, j: nat)
    requires k < |t.children| && j < Size(t.children[k])
    ensures 1 + Offset(t.children, k) + j < Size(t)
    ensures WalkTree(t, parent, depth, start)[1 + Offset(t.children, k) + j]
         == WalkTree(t.children[k], Some(start), depth + 1, start + 1 + Offset(t.children, k))[j]
  {
    WalkForestAt(t.children, Some(start), depth + 1, start + 1, k, j);
    assert WalkTree(t, parent, depth, start)
        == [WalkTree(t, parent, depth, start)[0]] + WalkForest(t.children, Some(start), depth + 1, start + 1);
  }

  /** A position `i > 0` of `t` lies at position `j` of the walk of some child `kb`. */
  lemma Descend(t: Tree, parent: Option<nat>, depth: nat, start: nat, i: nat) returns (kb: nat, j: nat)
    requires 0 < i < Size(t)
    ensures kb < |t.children| && j < Size(t.children[kb]) && i == 1 + Offset(t.children, kb) + j
    ensures WalkTree(t, parent, depth, start)[i]
         == WalkTree(t.children[kb], Some(start), depth + 1, start + 1 + Offset(t.children, kb))[j]
    ensures Subtrees(t)[i] == Subtrees(t.children[kb])[j]
  {
    kb, j := SubtreeDescend(t, i);
    WalkChildAt(t, parent, depth, start, kb, j);
  }

  /** The node at pre-order position `i` of `t` carries the identifier, value and children of `Subtrees(t)[i]`. */
  lemma {:induction false} WalkNodeAt(t: Tree, parent: Option<nat>, depth: nat, start: nat, i: nat)
    requires i < Size(t)
    ensures var w := WalkTree(t, parent, depth, start); var st := Subtrees(t);
      && w[i].node.id == start + i
      && w[i].node.text == st[i].text && w[i].node.emph == st[i].emph
      && w[i].node.children == ChildIds(st[i].children, start + i + 1)
    decreases t
  {
    if i > 0 {
      var kb, j := Descend(t, parent, depth, start, i);
      WalkNodeAt(t.children[kb], Some(start), depth + 1, start + 1 + Offset(t.children, kb), j);
    }
  }

  /** Every node but the first of `t` has an earlier parent, one level higher, that lists it as a child. */
  lemma {:induction false} WalkParentAt(t: Tree, parent: Option<nat>, depth: nat, start: nat, i: nat)
    requires i < Size(t)
    ensures var w := WalkTree(t, parent, depth, start);
      && (i == 0 ==> w[i].node.parent == parent && w[i].depth == depth)
      && (i > 0 ==> w[i].node.parent.Some? && start <= w[i].node.parent.value < start + i
                    && w[i].depth == w[w[i].node.parent.value - start].depth + 1
                    && start + i in w[w[i].node.parent.value - start].node.children)
    decreases t
  {
    if i > 0 {
      var kb, j := Descend(t, parent, depth, start, i);
      var c := t.children[kb];
      var cs := start + 1 + Offset(t.children, kb);
      WalkParentAt(c, Some(start), depth + 1, cs, j);
      if j == 0 {
        ChildIdsAt(t.children, start + 1, kb);
      } else {
        var q := WalkTree(c, Some(start), depth + 1, cs)[j].node.parent.value;
        WalkChildAt(t, parent, depth, start, kb, q - cs);
      }
    }
  }

  /** The `k`-th child of the node at pre-order position `i` of `t` names that node as parent and lies one level lower. */
  lemma {:induction false} WalkChildParent(t: Tree, parent: Option<nat>, depth: nat, start: nat, i: nat, k: nat)
    requires i < Size(t) && k < |Subtrees(t)[i].children|
    ensures i + 1 + Offset(Subtrees(t)[i].children, k) < Size(t)
    ensures var w := WalkTree(t, parent, depth, start); var c := i + 1 + Offset(Subtrees(t)[i].children, k);
      w[c].node.parent == Some(start + i) && w[c].depth == w[i].depth + 1
    decreases t
  {
    if i == 0 {
      WalkChildAt(t, parent, depth, start, k, 0);
    } else {
      var kb, j := Descend(t, parent, depth, start, i);
      var c := t.children[kb];
      WalkChildParent(c, Some(start), depth + 1, start + 1 + Offset(t.children, kb), j, k);
      WalkChildAt(t, parent, depth, start, kb, j + 1 + Offset(Subtrees(c)[j].children, k));
    }
  }

  /** A forest of one tree is walked as that tree, from the top. */
  lemma SingleRoot(t: Tree)
    ensures ForestSize([t]) == Size(t)
    ensures Walk([t]) == WalkTree(t, None, 0, 0)
    ensures ForestSubtrees([t]) == Subtrees(t)
  {
    assert [t][1..] == [];
  }

  /** The kinds of items of `walk_events()`. */
  datatype Event = Next | Down | Up

  /**
   * `walk_events()` over `t`, whose root has identifier `start` and is entered with `entry`:
   * the first child of a node is entered with `Down`, later siblings with `Next`, and after the
   * last child of a node that has children the walk goes `Up` to that node.
   */
  function TreeEvents(t: Tree, entry: Event, start: nat): seq<(Event, nat)>
    decreases t
  {
    [(entry, start)]
      + ForestEvents(t.children, Down, start + 1)
      + (if t.children == [] then [] else [(Up, start)])
  }

  function ForestEvents(f: seq<Tree>, first: Event, start: nat): seq<(Event, nat)>
    decreases f
  {
    if f == [] then []
    else TreeEvents(f[0], first, start) + ForestEvents(f[1..], Next, start + Size(f[0]))
  }

  /** `walk_events()` of a whole forest. */
  function WalkEvents(forest: seq<Tree>): seq<(Event, nat)>
  {
    ForestEvents(forest, Next, 0)
  }

  /** The subtree list of a forest, split at its first tree. */
  lemma ForestSubtreesSplit(f: seq<Tree>)
    requires f != []
    ensures ForestSubtrees(f) == Subtrees(f[0]) + ForestSubtrees(f[1..])
  {
  }

  /** `Up` is only reported for nodes of `t` that have children. */
  lemma {:induction false} TreeUpIsInner(t: Tree, entry: Event, start: nat, m: nat)
    requires entry != Up && m < |TreeEvents(t, entry, start)| && TreeEvents(t, entry, start)[m].0 == Up
    ensures var x := TreeEvents(t, entry, start)[m].1;
      start <= x < start + Size(t) && Subtrees(t)[x - start].children != []
    decreases t, 1
  {
    var fe := ForestEvents(t.children, Down, start + 1);
    var ev := TreeEvents(t, entry, start);
    assert ev == [(entry, start)] + fe + (if t.children == [] then [] else [(Up, start)]);
    assert Subtrees(t) == [t] + ForestSubtrees(t.children);
    if 1 <= m <= |fe| {
      assert ev[m] == fe[m - 1];
      ForestUpIsInner(t.children, Down, start + 1, m - 1);
    }
  }

  lemma {:induction false} ForestUpIsInner(f: seq<Tree>, first: Event, start: nat, m: nat)
    requires first != Up && m < |ForestEvents(f, first, start)| && ForestEvents(f, first, start)[m].0 == Up
    ensures var x := ForestEvents(f, first, start)[m].1;
      start <= x < start + ForestSize(f) && ForestSubtrees(f)[x - start].children != []
    decreases f, 0
  {
    var te := TreeEvents(f[0], first, start);
    var re := ForestEvents(f[1..], Next, start + Size(f[0]));
    assert ForestEvents(f, first, start) == te + re;
    ForestSubtreesSplit(f);
    if m < |te| {
      TreeUpIsInner(f[0], first, start, m);
    } else {
      ForestUpIsInner(f[1..], Next, start + Size(f[0]), m - |te|);
    }
  }

  /** Every node of `t` that has children gets an `Up` event. */
  lemma {:induction false} TreeUpCovers(t: Tree, entry: Event, start: nat, i: nat)
    requires i < Size(t) && Subtrees(t)[i].children != []
    ensures (Up, start + i) in TreeEvents(t, entry, start)
    decreases t, 1
  {
    var fe := ForestEvents(t.children, Down, start + 1);
    var ev := TreeEvents(t, entry, start);
    assert ev == [(entry, start)] + fe + (if t.children == [] then [] else [(Up, start)]);
    assert Subtrees(t) == [t] + ForestSubtrees(t.children);
    if i == 0 {
      assert ev[|ev| - 1] == (Up, start);
    } else {
      ForestUpCovers(t.children, Down, start + 1, i - 1);
    }
  }

  lemma {:induction false} ForestUpCovers(f: seq<Tree>, first: Event, start: nat, i: nat)
    requires i < ForestSize(f) && ForestSubtrees(f)[i].children != []
    ensures (Up, start + i) in ForestEvents(f, first, start)
    decreases f, 0
  {
    var te := TreeEvents(f[0], first, start);
    var re := ForestEvents(f[1..], Next, start + Size(f[0]));
    assert ForestEvents(f, first, start) == te + re;
    ForestSubtreesSplit(f);
    if i < Size(f[0]) {
      TreeUpCovers(f[0], first, start, i);
    } else {
      ForestUpCovers(f[1..], Next, start + Size(f[0]), i - Size(f[0]));
    }
  }

  /**
   * The walk goes `Up` to node `start + x` only after it went `Up` to each of that node's children
   * that have children themselves.
   */
  lemma {:induction false} TreeUpAfterChildren(t: Tree, entry: Event, start: nat, m: nat, x: nat, k: nat)
    requires entry != Up && m < |TreeEvents(t, entry, start)| && TreeEvents(t, entry, start)[m] == (Up, start + x)
    requires x < Size(t) && k < |Subtrees(t)[x].children|
    requires x + 1 + Offset(Subtrees(t)[x].children, k) < Size(t)
    requires Subtrees(t)[x + 1 + Offset(Subtrees(t)[x].children, k)].children != []
    ensures (Up, start + x + 1 + Offset(Subtrees(t)[x].children, k)) in TreeEvents(t, entry, start)[..m]
    decreases t, 3
  {
    var fe := ForestEvents(t.children, Down, start + 1);
    assert TreeEvents(t, entry, start) == [(entry, start)] + fe + (if t.children == [] then [] else [(Up, start)]);
    if m <= |fe| {
      InnerUpAfterChildren(t, entry, start, m, x, k);
    } else {
      assert Subtrees(t)[0] == t;
      SubtreesChildAt(t, k, 0);
      RootUpAfterChildren(t, entry, start, m, k);
    }
  }

  /** `TreeUpAfterChildren` for the last event of `t`, the one that goes `Up` to its root. */
  lemma RootUpAfterChildren(t: Tree, entry: Event, start: nat, m: nat, k: nat)
    requires k < |t.children|
    requires m == |TreeEvents(t, entry, start)| - 1
    requires t.children[k].children != []
    ensures (Up, start + 1 + Offset(t.children, k)) in TreeEvents(t, entry, start)[..m]
  {
    var fe := ForestEvents(t.children, Down, start + 1);
    assert TreeEvents(t, entry, start) == [(entry, start)] + fe + [(Up, start)];
    ForestSubtreesAt(t.children, k, 0);
    ForestUpCovers(t.children, Down, start + 1, Offset(t.children, k));
    assert TreeEvents(t, entry, start)[..m] == [(entry, start)] + fe;
  }

  /** `TreeUpAfterChildren` for an event inside the walk of the children of `t`. */
  lemma {:induction false} InnerUpAfterChildren(t: Tree, entry: Event, start: nat, m: nat, x: nat, k: nat)
    requires entry != Up && 0 < m <= |ForestEvents(t.children, Down, start + 1)|
    requires m < |TreeEvents(t, entry, start)| && TreeEvents(t, entry, start)[m] == (Up, start + x)
    requires x < Size(t) && k < |Subtrees(t)[x].children|
    requires x + 1 + Offset(Subtrees(t)[x].children, k) < Size(t)
    requires Subtrees(t)[x + 1 + Offset(Subtrees(t)[x].children, k)].children != []
    ensures (Up, start + x + 1 + Offset(Subtrees(t)[x].children, k)) in TreeEvents(t, entry, start)[..m]
    decreases t, 2
  {
    var fe := ForestEvents(t.children, Down, start + 1);
    var ev := TreeEvents(t, entry, start);
    assert ev == [(entry, start)] + fe + (if t.children == [] then [] else [(Up, start)]);
    assert Subtrees(t) == [t] + ForestSubtrees(t.children);
    assert ev[m] == fe[m - 1];
    ForestUpIsInner(t.children, Down, start + 1, m - 1);
    ForestUpAfterChildren(t.children, Down, start + 1, m - 1, x - 1, k);
    assert ev[..m] == [(entry, start)] + fe[..m - 1];
  }

  lemma {:induction false} ForestUpAfterChildren(f: seq<Tree>, first: Event, start: nat, m: nat, x: nat, k: nat)
    requires first != Up && m < |ForestEvents(f, first, start)| && ForestEvents(f, first, start)[m] == (Up, start + x)
    requires x < ForestSize(f) && k < |ForestSubtrees(f)[x].children|
    requires x + 1 + Offset(ForestSubtrees(f)[x].children, k) < ForestSize(f)
    requires ForestSubtrees(f)[x + 1 + Offset(ForestSubtrees(f)[x].children, k)].children != []
    ensures (Up, start + x + 1 + Offset(ForestSubtrees(f)[x].children, k)) in ForestEvents(f, first, start)[..m]
    decreases f, 1
  {
    var te := TreeEvents(f[0], first, start);
    var re := ForestEvents(f[1..], Next, start + Size(f[0]));
    assert ForestEvents(f, first, start) == te + re;
    if m < |te| {
      FirstTreeUpAfterChildren(f, first, start, m, x, k);
    } else {
      LaterTreesUpAfterChildren(f, first, start, m, x, k);
    }
  }

  /** `ForestUpAfterChildren` for an event of the first tree of the forest. */
  lemma {:induction false} FirstTreeUpAfterChildren(f: seq<Tree>, first: Event, start: nat, m: nat, x: nat, k: nat)
    requires first != Up && f != [] && m < |TreeEvents(f[0], first, start)|
    requires TreeEvents(f[0], first, start)[m] == (Up, start + x)
    requires x < ForestSize(f) && k < |ForestSubtrees(f)[x].children|
    requires x + 1 + Offset(ForestSubtrees(f)[x].children, k) < ForestSize(f)
    requires ForestSubtrees(f)[x + 1 + Offset(ForestSubtrees(f)[x].children, k)].children != []
    ensures (Up, start + x + 1 + Offset(ForestSubtrees(f)[x].children, k)) in ForestEvents(f, first, start)[..m]
    decreases f, 0
  {
    var te := TreeEvents(f[0], first, start);
    var re := ForestEvents(f[1..], Next, start + Size(f[0]));
    assert ForestEvents(f, first, start) == te + re;
    assert ForestEvents(f, first, start)[..m] == te[..m];
    ForestSubtreesSplit(f);
    TreeUpIsInner(f[0], first, start, m);
    SubtreeChild(f[0], x, k);
    TreeUpAfterChildren(f[0], first, start, m, x, k);
  }

  /** `ForestUpAfterChildren` for an event of a later tree of the forest. */
  lemma {:induction false} LaterTreesUpAfterChildren(f: seq<Tree>, first: Event, start: nat, m: nat, x: nat, k: nat)
    requires first != Up && f != [] && |TreeEvents(f[0], first, start)| <= m < |ForestEvents(f, first, start)|
    requires ForestEvents(f, first, start)[m] == (Up, start + x)
    requires x < ForestSize(f) && k < |ForestSubtrees(f)[x].children|
    requires x + 1 + Offset(ForestSubtrees(f)[x].children, k) < ForestSize(f)
    requires ForestSubtrees(f)[x + 1 + Offset(ForestSubtrees(f)[x].children, k)].children != []
    ensures (Up, start + x + 1 + Offset(ForestSubtrees(f)[x].children, k)) in ForestEvents(f, first, start)[..m]
    decreases f, 0
  {
    var te := TreeEvents(f[0], first, start);
    var re := ForestEvents(f[1..], Next, start + Size(f[0]));
    assert ForestEvents(f, first, start) == te + re;
    ForestUpIsInner(f[1..], Next, start + Size(f[0]), m - |te|);
    var sub := ForestSubtrees(f);
    var y := x - Size(f[0]);
    var c := x + 1 + Offset(sub[x].children, k);
    RestSubtreesAt(f, x);
    RestSubtreesAt(f, c);
    ForestUpAfterChildren(f[1..], Next, start + Size(f[0]), m - |te|, y, k);
    ConcatPrefix(te, re, m);
  }

  /** The subtrees of a forest past its first tree are those of the rest of the forest. */
  lemma RestSubtreesAt(f: seq<Tree>, i: nat)
    requires f != [] && Size(f[0]) <= i < ForestSize(f)
    ensures i - Size(f[0]) < ForestSize(f[1..])
    ensures ForestSubtrees(f)[i] == ForestSubtrees(f[1..])[i - Size(f[0])]
  {
    ForestSubtreesSplit(f);
  }

  lemma ConcatPrefix<T>(a: seq<T>, b: seq<T>, m: nat)
    requires |a| <= m <= |a| + |b|
    ensures (a + b)[..m] == a + b[..m - |a|]
  {
  }
}
