/**
 * The embedder: three passes over a table of working records, one record per tree node in
 * pre-order, that give every node its layer, its widths and its horizontal center.
 */
module Embedder {
  import opened Wrappers
  import opened Syntree
  import opened Node
  import opened Layout

  const MultipleRootsError: string := "Currently we support only one root"
  const MissingNodeError: string := "Expecting existing node"
  const MissingParentError: string := "Some item expected here!"

  /** A node's record after the first pass: widths are still the node's own text width, the center is 0. */
  function Created(forest: seq<Tree>, i: nat): InternalNode
    requires i < ForestSize(forest)
  {
    var e := ExpectedNode(forest, i);
    e.(xCenter := 0, xExtentOfChildren := e.xExtent, xExtentChildren := e.xExtent)
  }

  /** A node's record after the second pass: everything but the center is final. */
  function Extended(forest: seq<Tree>, i: nat): InternalNode
    requires i < ForestSize(forest)
  {
    ExpectedNode(forest, i).(xCenter := 0)
  }

  /** The working record of one visited node; its parent is found by node identifier among the records already made. */
  function CreateFromNode(ord: nat, depth: nat, node: TreeNode, items: seq<InternalNode>): (r: InternalNode)
    ensures r.xExtentChildren == r.xExtentOfChildren == r.xExtent >= 1
    ensures r.parent.Some? <==> node.parent.Some? && node.parent.value < |items|
  {
    var xExtent := |node.text| + 1;
    InternalNode(
      yOrder := depth,
      xCenter := 0,
      xExtent := xExtent,
      xExtentOfChildren := xExtent,
      xExtentChildren := xExtent,
      text := node.text,
      isEmphasized := node.emph,
      parent := match node.parent
        case None => None
        case Some(p) => if p < |items| then Some(items[p].ord) else None,
      ord := ord,
      nodeId := node.id)
  }

  /**
   * Built in walk order from the records of all earlier nodes, the record of the `i`-th node is
   * its first-pass record: in particular its parent, always an earlier node, is found.
   */
  lemma CreateFromNodeInWalkOrder(forest: seq<Tree>, i: nat, items: seq<InternalNode>)
    requires |forest| <= 1 && i < ForestSize(forest)
    requires |items| == i && forall j :: 0 <= j < i ==> items[j].ord == j
    ensures CreateFromNode(i, Walk(forest)[i].depth, Walk(forest)[i].node, items) == Created(forest, i)
  {
    WalkAt(forest, i);
    ParentOf(forest, i);
  }

  /** The first pass. */
  method CreateInitialEmbeddingData(tree: seq<Tree>) returns (r: Result<EmbeddingHelperData, string>)
    ensures r.Failure? <==> |tree| > 1
    ensures r.Failure? ==> r.error == MultipleRootsError
    ensures r.Success? ==> fresh(r.value) && |r.value.nodes| == ForestSize(tree)
    ensures r.Success? ==> forall i :: 0 <= i < ForestSize(tree) ==> r.value.nodes[i] == Created(tree, i)
  {
    var items := new EmbeddingHelperData();
    if |tree| > 1 {
      return Failure(MultipleRootsError);
    }
    var walk := Walk(tree);
    var ord := 0;
    while ord < |walk|
      invariant ord <= |walk| == ForestSize(tree)
      invariant |items.nodes| == ord
      invariant forall i :: 0 <= i < ord ==> items.nodes[i] == Created(tree, i)
    {
      var visit := walk[ord];
      CreateFromNodeInWalkOrder(tree, ord, items.nodes);
      var newItem := CreateFromNode(ord, visit.depth, visit.node, items.nodes);
      items.Insert(ord, newItem);
      ord := ord + 1;
    }
    return Success(items);
  }

  /** The fold over a node's children: the `x_extent_children` of every child that has a record, added up. */
  function ChildrenExtent(items: seq<InternalNode>, children: seq<nat>): (sum: nat)
    ensures children == [] ==> sum == 0
    ensures |children| == 1 ==> sum == if children[0] < |items| then items[children[0]].xExtentChildren else 0
  {
    if children == [] then 0
    else
      var child := children[|children| - 1];
      ChildrenExtent(items, children[..|children| - 1]) + if child < |items| then items[child].xExtentChildren else 0
  }

  /** The fold is never less than the width of any child that has a record. */
  lemma {:induction false} ChildrenExtentBound(items: seq<InternalNode>, children: seq<nat>, k: nat)
    requires k < |children| && children[k] < |items|
    ensures items[children[k]].xExtentChildren <= ChildrenExtent(items, children)
  {
    var prefix := children[..|children| - 1];
    if k < |prefix| {
      assert prefix[k] == children[k];
      ChildrenExtentBound(items, prefix, k);
    }
  }

  /** When the records of the children hold the widths of the subtrees `f`, the fold adds up those widths. */
  lemma {:induction false} ChildrenExtentSum(items: seq<InternalNode>, children: seq<nat>, f: seq<Tree>, k: nat)
    requires |children| == |f| && k <= |f|
    requires forall j :: 0 <= j < |f| ==> children[j] < |items| && items[children[j]].xExtentChildren == Width(f[j])
    ensures ChildrenExtent(items, children[..k]) == WidthBefore(f, k)
  {
    if k > 0 {
      assert children[..k][..k - 1] == children[..k - 1];
      ChildrenExtentSum(items, children, f, k - 1);
      WidthBeforeStep(f, k - 1);
    }
  }

  /**
   * The widths of the expected records add up bottom-up: the width of a node's children is the sum
   * of the widths allotted to them (a leaf keeps its own), and the width allotted to the node is
   * the larger of that and its own.
   */
  lemma WidthAggregation(forest: seq<Tree>, i: nat)
    requires |forest| <= 1 && i < ForestSize(forest)
    ensures var e := Expected(forest); var cs := Walk(forest)[i].node.children;
      && e[i].xExtentChildren == Max(e[i].xExtent, e[i].xExtentOfChildren)
      && (cs == [] ==> e[i].xExtentOfChildren == e[i].xExtent)
      && (cs != [] ==> e[i].xExtentOfChildren == ChildrenExtent(e, cs))
  {
    var e := Expected(forest);
    var s := ForestSubtrees(forest)[i];
    var cs := Walk(forest)[i].node.children;
    WalkAt(forest, i);
    forall k | 0 <= k < |cs|
      ensures cs[k] < |e| && e[cs[k]].xExtentChildren == Width(s.children[k])
    {
      ChildOf(forest, i, k);
    }
    ChildrenExtentSum(e, cs, s.children, |cs|);
    assert cs[..|cs|] == cs;
    WidthBeforeAll(s.children);
  }

  /** A leaf keeps its first-pass widths: they are already final. */
  lemma LeafExtended(forest: seq<Tree>, i: nat)
    requires i < ForestSize(forest) && ForestSubtrees(forest)[i].children == []
    ensures Created(forest, i) == Extended(forest, i)
  {
    var s := ForestSubtrees(forest)[i];
    assert ForestWidth(s.children) == 0;
    assert Width(s) == Extent(s);
  }

  /** The second-pass state after the first `m` events: a record is final once the walk has gone `Up` to it, or if it is a leaf. */
  predicate ExtendedUpTo(forest: seq<Tree>, m: nat, items: seq<InternalNode>)
    requires m <= |WalkEvents(forest)|
  {
    && |items| == ForestSize(forest)
    && forall i :: 0 <= i < ForestSize(forest) ==>
         items[i] == if ForestSubtrees(forest)[i].children == [] || (Up, i) in WalkEvents(forest)[..m]
                     then Extended(forest, i) else Created(forest, i)
  }

  /** When `Up` to node `x` is reached, the record of each child of `x` holds the width of its subtree. */
  lemma ChildExtended(forest: seq<Tree>, m: nat, items: seq<InternalNode>, x: nat, k: nat)
    requires |forest| <= 1 && m < |WalkEvents(forest)| && WalkEvents(forest)[m] == (Up, x)
    requires ExtendedUpTo(forest, m, items)
    requires x < ForestSize(forest) && k < |ForestSubtrees(forest)[x].children|
    ensures var cs := Walk(forest)[x].node.children;
      k < |cs| && cs[k] < |items| && items[cs[k]].xExtentChildren == Width(ForestSubtrees(forest)[x].children[k])
  {
    ChildOf(forest, x, k);
    if ForestSubtrees(forest)[x].children[k].children != [] {
      ForestUpAfterChildren(forest, Next, 0, m, x, k);
    }
  }

  /**
   * When `Up` to a node is reached, every child that has children has already been left, so
   * the fold over its children yields the width of its children's subtrees.
   */
  lemma UpSum(forest: seq<Tree>, m: nat, items: seq<InternalNode>)
    requires |forest| <= 1 && m < |WalkEvents(forest)| && WalkEvents(forest)[m].0 == Up
    requires ExtendedUpTo(forest, m, items)
    ensures var x := WalkEvents(forest)[m].1;
      && x < ForestSize(forest) && ForestSubtrees(forest)[x].children != []
      && ChildrenExtent(items, Walk(forest)[x].node.children) == ForestWidth(ForestSubtrees(forest)[x].children)
  {
    var x := WalkEvents(forest)[m].1;
    ForestUpIsInner(forest, Next, 0, m);
    var s := ForestSubtrees(forest)[x];
    var cs := Walk(forest)[x].node.children;
    ChildrenExtended(forest, m, items, x);
    ChildrenExtentSum(items, cs, s.children, |cs|);
    assert cs[..|cs|] == cs;
    WidthBeforeAll(s.children);
  }

  lemma ChildrenExtended(forest: seq<Tree>, m: nat, items: seq<InternalNode>, x: nat)
    requires |forest| <= 1 && m < |WalkEvents(forest)| && WalkEvents(forest)[m] == (Up, x)
    requires ExtendedUpTo(forest, m, items)
    requires x < ForestSize(forest)
    ensures var s := ForestSubtrees(forest)[x]; var cs := Walk(forest)[x].node.children;
      && |cs| == |s.children|
      && forall k :: 0 <= k < |s.children| ==> cs[k] < |items| && items[cs[k]].xExtentChildren == Width(s.children[k])
  {
    var s := ForestSubtrees(forest)[x];
    var cs := Walk(forest)[x].node.children;
    WalkAt(forest, x);
    forall k | 0 <= k < |s.children|
      ensures cs[k] < |items| && items[cs[k]].xExtentChildren == Width(s.children[k])
    {
      ChildExtended(forest, m, items, x, k);
    }
  }

  /** On `Up` to a node, setting its widths from the fold over its children makes its record final. */
  lemma UpStep(forest: seq<Tree>, m: nat, items: seq<InternalNode>)
    requires |forest| <= 1 && m < |WalkEvents(forest)| && WalkEvents(forest)[m].0 == Up
    requires ExtendedUpTo(forest, m, items)
    ensures WalkEvents(forest)[m].1 < |items|
    ensures var x := WalkEvents(forest)[m].1;
      var sum := ChildrenExtent(items, Walk(forest)[x].node.children);
      ExtendedUpTo(forest, m + 1, items[x := items[x].(xExtentOfChildren := sum, xExtentChildren := Max(items[x].xExtent, sum))])
  {
    var events := WalkEvents(forest);
    var x := events[m].1;
    UpSum(forest, m, items);
    var sum := ChildrenExtent(items, Walk(forest)[x].node.children);
    var after := items[x := items[x].(xExtentOfChildren := sum, xExtentChildren := Max(items[x].xExtent, sum))];
    SliceStep(events, m);
    forall i | 0 <= i < ForestSize(forest)
      ensures after[i] == if ForestSubtrees(forest)[i].children == [] || (Up, i) in events[..m + 1]
                          then Extended(forest, i) else Created(forest, i)
    {
      if i == x {
        assert (Up, x) in events[..m + 1];
        InnerFinished(forest, x, items[x], sum);
      } else {
        assert (Up, i) in events[..m + 1] <==> (Up, i) in events[..m];
      }
    }
  }

  /** An inner node's record, given the sum of its children's widths, is final. */
  lemma InnerFinished(forest: seq<Tree>, x: nat, node: InternalNode, sum: nat)
    requires x < ForestSize(forest) && ForestSubtrees(forest)[x].children != []
    requires node == Created(forest, x) || node == Extended(forest, x)
    requires sum == ForestWidth(ForestSubtrees(forest)[x].children)
    ensures node.(xExtentOfChildren := sum, xExtentChildren := Max(node.xExtent, sum)) == Extended(forest, x)
  {
  }

  /** Events other than `Up` change nothing. */
  lemma OtherStep(forest: seq<Tree>, m: nat, items: seq<InternalNode>)
    requires m < |WalkEvents(forest)| && WalkEvents(forest)[m].0 != Up
    requires ExtendedUpTo(forest, m, items)
    ensures ExtendedUpTo(forest, m + 1, items)
  {
    var events := WalkEvents(forest);
    SliceStep(events, m);
  }

  /** Before the second pass, only the leaves have their final records. */
  lemma ExtendedAtStart(forest: seq<Tree>, items: seq<InternalNode>)
    requires |items| == ForestSize(forest)
    requires forall i :: 0 <= i < ForestSize(forest) ==> items[i] == Created(forest, i)
    ensures ExtendedUpTo(forest, 0, items)
  {
    forall i | 0 <= i < ForestSize(forest) && ForestSubtrees(forest)[i].children == []
      ensures items[i] == Extended(forest, i)
    {
      LeafExtended(forest, i);
    }
  }

  /** After all events, every record is final: the walk goes `Up` to every node that has children. */
  lemma ExtendedAtEnd(forest: seq<Tree>, items: seq<InternalNode>)
    requires ExtendedUpTo(forest, |WalkEvents(forest)|, items)
    ensures |items| == ForestSize(forest)
    ensures forall i :: 0 <= i < ForestSize(forest) ==> items[i] == Extended(forest, i)
  {
    var events := WalkEvents(forest);
    assert events[..|events|] == events;
    forall i | 0 <= i < ForestSize(forest) && ForestSubtrees(forest)[i].children != []
      ensures (Up, i) in events
    {
      ForestUpCovers(forest, Next, 0, i);
    }
  }

  /** The second pass: on `Up` to a node, its children's widths are added up into its own. */
  method ApplyChildrenXExtents(tree: seq<Tree>, items: EmbeddingHelperData)
    requires |tree| <= 1
    requires |items.nodes| == ForestSize(tree)
    requires forall i :: 0 <= i < ForestSize(tree) ==> items.nodes[i] == Created(tree, i)
    modifies items
    ensures |items.nodes| == ForestSize(tree)
    ensures forall i :: 0 <= i < ForestSize(tree) ==> items.nodes[i] == Extended(tree, i)
  {
    var events := WalkEvents(tree);
    var m := 0;
    ExtendedAtStart(tree, items.nodes);
    while m < |events|
      invariant m <= |events|
      invariant ExtendedUpTo(tree, m, items.nodes)
    {
      var (event, id) := events[m];
      if event == Up {
        UpStep(tree, m, items.nodes);
        var xExtentOfChildren := ChildrenExtent(items.nodes, Walk(tree)[id].node.children);
        match items.GetByOrd(id) {
          case Some(node) =>
            items.Update(id, node.(xExtentOfChildren := xExtentOfChildren,
                                   xExtentChildren := Max(node.xExtent, xExtentOfChildren)));
          case None =>
        }
      } else {
        OtherStep(tree, m, items.nodes);
      }
      m := m + 1;
    }
    ExtendedAtEnd(tree, items.nodes);
  }

  predicate Increasing(s: seq<nat>)
  {
    forall a, b :: 0 <= a < b < |s| ==> s[a] < s[b]
  }

  /** Two increasing sequences with the same elements are equal. */
  lemma {:induction false} IncreasingUnique(a: seq<nat>, b: seq<nat>)
    requires Increasing(a) && Increasing(b)
    requires forall v :: v in a <==> v in b
    ensures a == b
    decreases |a|
  {
    assert |b| > 0 ==> b[0] in b;
    if a != [] {
      assert a[0] in b;
      assert b[0] in a;
      forall v
        ensures v in a[1..] <==> v in b[1..]
      {
        assert v in a[1..] <==> v in a && v != a[0];
        assert v in b[1..] <==> v in b && v != b[0];
      }
      IncreasingUnique(a[1..], b[1..]);
      assert a == [a[0]] + a[1..] && b == [b[0]] + b[1..];
    }
  }

  lemma ChildIdsIncreasing(f: seq<Tree>, start: nat)
    ensures Increasing(ChildIds(f, start))
  {
    var ids := ChildIds(f, start);
    forall a, b | 0 <= a < b < |ids|
      ensures ids[a] < ids[b]
    {
      ChildIdsAt(f, start, a);
      ChildIdsAt(f, start, b);
      OffsetMonotonic(f, a, b);
    }
  }

  /** `node_ids_in_layer`: the ords of the records in layer `layer`, in increasing order. */
  function NodesInLayer(items: seq<InternalNode>, layer: nat): (ids: seq<nat>)
    ensures Increasing(ids)
    ensures forall k :: 0 <= k < |ids| ==> ids[k] < |items| && items[ids[k]].yOrder == layer
    ensures forall o :: 0 <= o < |items| && items[o].yOrder == layer ==> o in ids
  {
    if items == [] then []
    else
      var prefix := items[..|items| - 1];
      var last := |items| - 1;
      assert forall o :: 0 <= o < last ==> prefix[o] == items[o];
      NodesInLayer(prefix, layer) + if items[last].yOrder == layer then [last] else []
  }

  /** `parents_in_layer`: the parent of each record named in `ids`, or the error for an ord without a record. */
  function ParentsInLayer(items: seq<InternalNode>, ids: seq<nat>): (r: Result<seq<Option<nat>>, string>)
    ensures r.Success? <==> forall k :: 0 <= k < |ids| ==> ids[k] < |items|
    ensures r.Failure? ==> r.error == MissingNodeError
    ensures r.Success? ==> |r.value| == |ids| && forall k :: 0 <= k < |ids| ==> r.value[k] == items[ids[k]].parent
  {
    if ids == [] then Success([])
    else
      var ord := ids[|ids| - 1];
      match ParentsInLayer(items, ids[..|ids| - 1])
      case Failure(e) => Failure(e)
      case Success(parents) =>
        if ord < |items| then Success(parents + [items[ord].parent]) else Failure(MissingNodeError)
  }

  /** `nodes_in_layer_per_parent`: those of `ids` whose record names `p` as parent, in the order of `ids`. */
  function NodesOfParent(items: seq<InternalNode>, ids: seq<nat>, p: Option<nat>): (group: seq<nat>)
    ensures forall o :: o in group <==> o in ids && o < |items| && items[o].parent == p
  {
    if ids == [] then []
    else
      var prefix := ids[..|ids| - 1];
      var ord := ids[|ids| - 1];
      assert ids == prefix + [ord];
      NodesOfParent(items, prefix, p) + if ord < |items| && items[ord].parent == p then [ord] else []
  }

  /** Filtering keeps the order of `ids`. */
  lemma {:induction false} NodesOfParentIncreasing(items: seq<InternalNode>, ids: seq<nat>, p: Option<nat>)
    requires Increasing(ids)
    ensures Increasing(NodesOfParent(items, ids, p))
  {
    if ids != [] {
      var prefix := ids[..|ids| - 1];
      var ord := ids[|ids| - 1];
      assert ids == prefix + [ord];
      NodesOfParentIncreasing(items, prefix, p);
      var g := NodesOfParent(items, prefix, p);
      forall k | 0 <= k < |g|
        ensures g[k] < ord
      {
        assert g[k] in g;
      }
    }
  }

  /** `height`: the highest layer of any record, and 0 for an empty table. */
  function Height(items: seq<InternalNode>): (h: nat)
    ensures forall i :: 0 <= i < |items| ==> items[i].yOrder <= h
    ensures items != [] ==> exists i :: 0 <= i < |items| && items[i].yOrder == h
    ensures items == [] ==> h == 0
  {
    if items == [] then 0
    else
      var prefix := items[..|items| - 1];
      assert forall i :: 0 <= i < |prefix| ==> prefix[i] == items[i];
      Max(Height(prefix), items[|items| - 1].yOrder)
  }

  /** The records agree with those of the table `e` in layer and parent. */
  predicate SameShape(e: seq<InternalNode>, items: seq<InternalNode>)
  {
    && |items| == |e|
    && forall o :: 0 <= o < |e| ==> items[o].yOrder == e[o].yOrder && items[o].parent == e[o].parent
  }

  /** Which records lie in a layer depends only on the layers of the records. */
  lemma SameShapeLayer(e: seq<InternalNode>, items: seq<InternalNode>, layer: nat)
    requires SameShape(e, items)
    ensures NodesInLayer(items, layer) == NodesInLayer(e, layer)
  {
    var a := NodesInLayer(items, layer);
    var b := NodesInLayer(e, layer);
    forall v
      ensures v in a <==> v in b
    {
      if v in a {
        var k :| 0 <= k < |a| && a[k] == v;
      }
      if v in b {
        var k :| 0 <= k < |b| && b[k] == v;
      }
    }
    IncreasingUnique(a, b);
  }

  /** Which records a parent's filter keeps depends only on the parents of the records. */
  lemma {:induction false} SameShapeGroup(e: seq<InternalNode>, items: seq<InternalNode>, ids: seq<nat>, p: Option<nat>)
    requires SameShape(e, items)
    ensures NodesOfParent(items, ids, p) == NodesOfParent(e, ids, p)
  {
    if ids != [] {
      SameShapeGroup(e, items, ids[..|ids| - 1], p);
    }
  }

  /** The siblings of record `x`: the records of its layer with its parent, in increasing order. */
  function Siblings(e: seq<InternalNode>, x: nat): seq<nat>
    requires x < |e|
  {
    NodesOfParent(e, NodesInLayer(e, e[x].yOrder), e[x].parent)
  }

  /** `group` holds, in increasing order, exactly the records of layer `layer` of `e` whose parent is `p`. */
  ghost predicate LayerGroup(e: seq<InternalNode>, layer: nat, p: Option<nat>, group: seq<nat>)
  {
    && Increasing(group)
    && forall o: nat :: o in group <==> o < |e| && e[o].yOrder == layer && e[o].parent == p
  }

  lemma SiblingsGroup(e: seq<InternalNode>, x: nat)
    requires x < |e|
    ensures LayerGroup(e, e[x].yOrder, e[x].parent, Siblings(e, x))
  {
    NodesOfParentIncreasing(e, NodesInLayer(e, e[x].yOrder), e[x].parent);
  }

  /** Where the slots of the children of `p` start: half their width left of the center of `p`; 0 for the root. */
  function GroupStart(e: seq<InternalNode>, p: Option<nat>): int
  {
    match p
    case None => 0
    case Some(po) => if po < |e| then e[po].xCenter - e[po].xExtentOfChildren / 2 else 0
  }

  /**
   * Each record of `group` is centered in a slot as wide as its subtree (`x_extent_children`),
   * the slots packed one after the other from `cursor`.
   */
  predicate Packed(e: seq<InternalNode>, group: seq<nat>, cursor: int)
  {
    forall k :: 0 <= k < |group| ==> PackedAt(e, group, cursor, k)
  }

  /** The `k`-th record of `group` is centered in its slot, which starts after the slots of the records before it. */
  predicate PackedAt(e: seq<InternalNode>, group: seq<nat>, cursor: int, k: nat)
    requires k < |group|
  {
    && group[k] < |e|
    && e[group[k]].xCenter == cursor + ChildrenExtent(e, group[..k]) + e[group[k]].xExtentChildren / 2
  }

  /** The parent of record `x`, if any, has a record in a higher layer, and its children's slots do not start left of 0. */
  predicate ParentAbove(e: seq<InternalNode>, x: nat)
    requires x < |e|
  {
    e[x].parent.Some? ==>
      var po := e[x].parent.value;
      po < |e| && e[po].yOrder < e[x].yOrder && e[po].xCenter >= e[po].xExtentOfChildren / 2
  }

  /** What placing the layers one by one needs of the final table `e`: every group of siblings is packed below its parent. */
  ghost predicate Placeable(e: seq<InternalNode>)
  {
    forall x :: 0 <= x < |e| ==> SiblingsPlaceable(e, x)
  }

  /** The siblings of record `x` are packed below its parent, which lies in a higher layer. */
  predicate SiblingsPlaceable(e: seq<InternalNode>, x: nat)
    requires x < |e|
  {
    Packed(e, Siblings(e, x), GroupStart(e, e[x].parent)) && ParentAbove(e, x)
  }

  /** `group` holds, in increasing order, exactly the nodes of layer `layer` whose parent is `p`. */
  ghost predicate IsGroup(forest: seq<Tree>, layer: nat, p: Option<nat>, group: seq<nat>)
  {
    && Increasing(group)
    && forall o: nat :: o in group <==>
         o < ForestSize(forest) && ExpectedNode(forest, o).yOrder == layer && ExpectedNode(forest, o).parent == p
  }

  /**
   * The nodes of `group` are, in order, the roots of the subtrees `f`, and each is centered in a
   * slot as wide as its subtree, the slots packed one after the other from `cursor`.
   */
  predicate GroupSlots(forest: seq<Tree>, group: seq<nat>, f: seq<Tree>, cursor: int)
  {
    && |f| == |group|
    && forall k :: 0 <= k < |group| ==>
         && group[k] < ForestSize(forest)
         && ExpectedNode(forest, group[k]).xExtentChildren == Width(f[k])
         && ExpectedNode(forest, group[k]).xCenter == cursor + WidthBefore(f, k) + Width(f[k]) / 2
  }

  /** The only node without a parent is the root. */
  lemma RootAlone(forest: seq<Tree>, layer: nat, group: seq<nat>)
    requires |forest| <= 1 && IsGroup(forest, layer, None, group) && 0 in group
    ensures group == [0]
  {
    forall o: nat
      ensures o in group <==> o in [0]
    {
      if o in group {
        ParentOf(forest, o);
      }
    }
    IncreasingUnique(group, [0]);
  }

  /** Layer 0 of the reference table holds the root and nothing else. */
  lemma LayerZeroIsRoot(forest: seq<Tree>)
    requires |forest| == 1
    ensures NodesInLayer(Expected(forest), 0) == [0]
  {
    var e := Expected(forest);
    var a := NodesInLayer(e, 0);
    ParentOf(forest, 0);
    forall o: nat
      ensures o in a <==> o in [0]
    {
      if o in a {
        var k :| 0 <= k < |a| && a[k] == o;
        ParentOf(forest, o);
      }
    }
    IncreasingUnique(a, [0]);
  }

  /** A node of layer `layer` without a parent is the root, alone in its group and centered over its width from 0. */
  lemma RootGroup(forest: seq<Tree>, layer: nat, x: nat, group: seq<nat>)
    requires |forest| == 1 && x < ForestSize(forest)
    requires ExpectedNode(forest, x).yOrder == layer && ExpectedNode(forest, x).parent == None
    requires IsGroup(forest, layer, None, group)
    ensures GroupSlots(forest, group, forest, 0)
  {
    ParentOf(forest, x);
    RootAlone(forest, layer, group);
    RootCenter(forest);
    SingleRoot(forest[0]);
    assert ForestSubtrees(forest)[0] == forest[0];
  }

  /** The nodes of layer `layer` whose parent is `po`, one layer above, are the children of `po` in order. */
  lemma ChildrenAreGroup(forest: seq<Tree>, layer: nat, po: nat, group: seq<nat>)
    requires |forest| <= 1 && po < ForestSize(forest) && layer == ExpectedNode(forest, po).yOrder + 1
    requires IsGroup(forest, layer, Some(po), group)
    ensures group == Walk(forest)[po].node.children
  {
    var cs := Walk(forest)[po].node.children;
    WalkAt(forest, po);
    ChildIdsIncreasing(ForestSubtrees(forest)[po].children, po + 1);
    forall o: nat
      ensures o in group <==> o in cs
    {
      if o in cs {
        var k :| 0 <= k < |cs| && cs[k] == o;
        ChildOf(forest, po, k);
      }
      if o in group {
        ParentOf(forest, o);
      }
    }
    IncreasingUnique(group, cs);
  }

  /** The children of `po` are packed one after the other from half their width left of the center of `po`. */
  lemma ChildSlots(forest: seq<Tree>, po: nat)
    requires |forest| <= 1 && po < ForestSize(forest)
    ensures GroupSlots(forest, Walk(forest)[po].node.children, ForestSubtrees(forest)[po].children,
                       ExpectedNode(forest, po).xCenter - ExpectedNode(forest, po).xExtentOfChildren / 2)
  {
    var f := ForestSubtrees(forest)[po].children;
    var cs := Walk(forest)[po].node.children;
    var cursor := ExpectedNode(forest, po).xCenter - ExpectedNode(forest, po).xExtentOfChildren / 2;
    WalkAt(forest, po);
    forall k | 0 <= k < |cs|
      ensures && cs[k] < ForestSize(forest)
              && ExpectedNode(forest, cs[k]).xExtentChildren == Width(f[k])
              && ExpectedNode(forest, cs[k]).xCenter == cursor + WidthBefore(f, k) + Width(f[k]) / 2
    {
      ChildSlotStart(forest, po, k);
    }
  }

  /**
   * The nodes whose parent is `po` are the children of `po`, in order, one layer below it; their
   * slots are packed one after the other from half the children's width left of the center of `po`.
   */
  lemma ChildGroup(forest: seq<Tree>, layer: nat, x: nat, po: nat, group: seq<nat>)
    requires |forest| <= 1 && x < ForestSize(forest)
    requires ExpectedNode(forest, x).yOrder == layer && ExpectedNode(forest, x).parent == Some(po)
    requires IsGroup(forest, layer, Some(po), group)
    ensures po < ForestSize(forest) && ExpectedNode(forest, po).yOrder < layer
    ensures ExpectedNode(forest, po).xCenter >= ExpectedNode(forest, po).xExtentOfChildren / 2
    ensures GroupSlots(forest, group, ForestSubtrees(forest)[po].children,
                       ExpectedNode(forest, po).xCenter - ExpectedNode(forest, po).xExtentOfChildren / 2)
  {
    ParentOf(forest, x);
    ChildrenAreGroup(forest, layer, po, group);
    ChildSlots(forest, po);
    NoUnderflow(forest, po);
  }

  /** Slots given by subtree widths are slots given by the table's `x_extent_children`. */
  lemma GroupSlotsPacked(forest: seq<Tree>, group: seq<nat>, f: seq<Tree>, cursor: int)
    requires GroupSlots(forest, group, f, cursor)
    ensures Packed(Expected(forest), group, cursor)
  {
    var e := Expected(forest);
    forall k | 0 <= k < |group|
      ensures PackedAt(e, group, cursor, k)
    {
      ChildrenExtentSum(e, group, f, k);
    }
  }

  /** The siblings of every node of the reference layout are packed below their parent. */
  lemma ExpectedGroupPacked(forest: seq<Tree>, x: nat)
    requires |forest| <= 1 && x < ForestSize(forest)
    ensures SiblingsPlaceable(Expected(forest), x)
  {
    var e := Expected(forest);
    SiblingsGroup(e, x);
    ExpectedGroup(forest, e, x, Siblings(e, x));
  }

  /** A group of siblings of the reference layout is packed below its parent. */
  lemma ExpectedGroup(forest: seq<Tree>, e: seq<InternalNode>, x: nat, group: seq<nat>)
    requires |forest| <= 1 && e == Expected(forest) && x < |e|
    requires LayerGroup(e, e[x].yOrder, e[x].parent, group)
    ensures Packed(e, group, GroupStart(e, e[x].parent)) && ParentAbove(e, x)
  {
    var layer := e[x].yOrder;
    assert IsGroup(forest, layer, e[x].parent, group);
    match e[x].parent {
      case None =>
        assert |forest| == 1;
        RootGroup(forest, layer, x, group);
        GroupSlotsPacked(forest, group, forest, 0);
      case Some(po) =>
        ChildGroup(forest, layer, x, po, group);
        GroupSlotsPacked(forest, group, ForestSubtrees(forest)[po].children, e[po].xCenter - e[po].xExtentOfChildren / 2);
    }
  }

  /** The reference layout is one that placing the layers one by one produces. */
  lemma ExpectedPlaceable(forest: seq<Tree>)
    requires |forest| <= 1
    ensures Placeable(Expected(forest))
  {
    var e := Expected(forest);
    forall x | 0 <= x < |e|
      ensures SiblingsPlaceable(e, x)
    {
      ExpectedGroupPacked(forest, x);
    }
  }

  /** The third pass's state before layer `layer` is placed: the records of the layers above have their final center. */
  predicate PlacedUpTo(e: seq<InternalNode>, layer: nat, items: seq<InternalNode>)
  {
    && |items| == |e|
    && forall i :: 0 <= i < |e| ==> items[i] == if e[i].yOrder < layer then e[i] else e[i].(xCenter := 0)
  }

  /** The state inside layer `layer` once the groups of the parents in `done` are placed. */
  predicate LayerPlacedFor(e: seq<InternalNode>, layer: nat, start: seq<InternalNode>, done: seq<Option<nat>>, items: seq<InternalNode>)
    requires |start| == |e|
  {
    && |items| == |e|
    && forall i :: 0 <= i < |e| ==> items[i] == if e[i].yOrder == layer && e[i].parent in done then e[i] else start[i]
  }

  lemma PlacedShape(e: seq<InternalNode>, layer: nat, start: seq<InternalNode>, done: seq<Option<nat>>, items: seq<InternalNode>)
    requires PlacedUpTo(e, layer, start) && LayerPlacedFor(e, layer, start, done, items)
    ensures SameShape(e, start) && SameShape(e, items)
    ensures forall i :: 0 <= i < |e| && e[i].yOrder < layer ==> items[i] == e[i]
  {
  }

  /** Placing the group of the next parent `p` extends the placed part of the layer by that parent. */
  lemma GroupPlaced(e: seq<InternalNode>, layer: nat, start: seq<InternalNode>, parents: seq<Option<nat>>, m: nat,
                    x: nat, group: seq<nat>, before: seq<InternalNode>, after: seq<InternalNode>)
    requires m < |parents| && PlacedUpTo(e, layer, start) && LayerPlacedFor(e, layer, start, parents[..m], before)
    requires x < |e| && e[x].yOrder == layer && e[x].parent == parents[m] && group == Siblings(e, x)
    requires |after| == |e|
    requires forall i :: 0 <= i < |e| ==> after[i] == if i in group then e[i] else before[i]
    ensures LayerPlacedFor(e, layer, start, parents[..m + 1], after)
  {
    SiblingsGroup(e, x);
    SliceStep(parents, m);
  }

  /** The filter for the `m`-th parent met in the layer yields the siblings of the `m`-th node of the layer. */
  lemma GroupIsSiblings(e: seq<InternalNode>, layer: nat, start: seq<InternalNode>, parents: seq<Option<nat>>, m: nat,
                        items: seq<InternalNode>, group: seq<nat>)
    requires PlacedUpTo(e, layer, start)
    requires |parents| == |NodesInLayer(start, layer)|
    requires forall k :: 0 <= k < |parents| ==> parents[k] == start[NodesInLayer(start, layer)[k]].parent
    requires m < |parents| && LayerPlacedFor(e, layer, start, parents[..m], items)
    requires group == NodesOfParent(items, NodesInLayer(start, layer), parents[m])
    ensures var x := NodesInLayer(start, layer)[m];
      && x < |e| && e[x].yOrder == layer && e[x].parent == parents[m] && group == Siblings(e, x)
  {
    var ids := NodesInLayer(start, layer);
    PlacedShape(e, layer, start, parents[..m], items);
    SameShapeLayer(e, start, layer);
    SameShapeGroup(e, items, ids, parents[m]);
  }

  /**
   * Before the group of the siblings of `x` is placed: it holds exactly the nodes of the layer with
   * that parent, they are unplaced, their final centers are packed from the group's start, and
   * their parent, if any, has its final record.
   */
  lemma SiblingsReady(e: seq<InternalNode>, layer: nat, start: seq<InternalNode>, done: seq<Option<nat>>,
                      items: seq<InternalNode>, x: nat, p: Option<nat>, group: seq<nat>)
    requires Placeable(e) && PlacedUpTo(e, layer, start) && LayerPlacedFor(e, layer, start, done, items)
    requires x < |e| && e[x].yOrder == layer && e[x].parent == p && group == Siblings(e, x)
    ensures |items| == |e| && Increasing(group)
    ensures Packed(e, group, GroupStart(e, p)) && Unplaced(e, group, items)
    ensures p.Some? ==>
      p.value < |items| && items[p.value] == e[p.value] && e[p.value].xCenter >= e[p.value].xExtentOfChildren / 2
  {
    SiblingsGroup(e, x);
    GroupUnplaced(e, layer, start, done, items, p, group);
    assert SiblingsPlaceable(e, x);
    PlacedShape(e, layer, start, done, items);
  }

  /**
   * Placing the group of a parent met before in the layer again changes nothing: those records
   * already hold their final values. `XCenterLayer` needs no call to it, because `LayerPlacedFor`
   * only asks that a parent be in `done`, however often it occurs there, and `GroupPlaced` then
   * rewrites the group with the same values.
   */
  lemma RepeatHarmless(e: seq<InternalNode>, layer: nat, start: seq<InternalNode>, done: seq<Option<nat>>,
                       items: seq<InternalNode>, p: Option<nat>, group: seq<nat>)
    requires PlacedUpTo(e, layer, start) && LayerPlacedFor(e, layer, start, done, items)
    requires LayerGroup(e, layer, p, group) && p in done
    ensures forall i :: 0 <= i < |e| ==> (if i in group then e[i] else items[i]) == items[i]
  {
  }

  /** Once the groups of all parents met in the layer are placed, the whole layer is. */
  lemma LayerPlaced(e: seq<InternalNode>, layer: nat, start: seq<InternalNode>, parents: seq<Option<nat>>, items: seq<InternalNode>)
    requires PlacedUpTo(e, layer, start)
    requires |parents| == |NodesInLayer(start, layer)|
    requires forall k :: 0 <= k < |parents| ==> parents[k] == start[NodesInLayer(start, layer)[k]].parent
    requires LayerPlacedFor(e, layer, start, parents, items)
    ensures PlacedUpTo(e, layer + 1, items)
  {
    var ids := NodesInLayer(start, layer);
    forall i | 0 <= i < |e| && e[i].yOrder == layer
      ensures e[i].parent in parents
    {
      var k :| 0 <= k < |ids| && ids[k] == i;
      assert parents[k] == e[i].parent;
    }
  }

  /** The record at `ord` has everything but its center final; setting the center to the final one finishes it. */
  lemma CenterFinishes(e: seq<InternalNode>, ord: nat, node: InternalNode, center: nat)
    requires ord < |e| && node.(xCenter := 0) == e[ord].(xCenter := 0) && center == e[ord].xCenter
    ensures node.(xCenter := center) == e[ord]
    ensures node.xExtentChildren == e[ord].xExtentChildren
  {
    assert node.(xCenter := center) == node.(xCenter := 0).(xCenter := center);
  }

  /** The records of `group` have everything but their center final. */
  predicate Unplaced(e: seq<InternalNode>, group: seq<nat>, items: seq<InternalNode>)
  {
    forall k :: 0 <= k < |group| ==>
      group[k] < |items| && group[k] < |e| && items[group[k]].(xCenter := 0) == e[group[k]].(xCenter := 0)
  }

  /** A group of layer `layer` whose parent has not been met yet has not been placed. */
  lemma GroupUnplaced(e: seq<InternalNode>, layer: nat, start: seq<InternalNode>, done: seq<Option<nat>>,
                      items: seq<InternalNode>, p: Option<nat>, group: seq<nat>)
    requires PlacedUpTo(e, layer, start) && LayerPlacedFor(e, layer, start, done, items)
    requires LayerGroup(e, layer, p, group)
    ensures Unplaced(e, group, items)
  {
    forall k | 0 <= k < |group|
      ensures group[k] < |items| && group[k] < |e| && items[group[k]].(xCenter := 0) == e[group[k]].(xCenter := 0)
    {
      assert group[k] in group;
    }
  }

  lemma SliceStep<T>(s: seq<T>, m: nat)
    requires m < |s|
    ensures s[..m + 1] == s[..m] + [s[m]]
  {
  }

  /** Extending a prefix of an increasing sequence by one adds a new element. */
  lemma PrefixStep(s: seq<nat>, k: nat)
    requires Increasing(s) && k < |s|
    ensures s[k] !in s[..k]
    ensures forall v :: v in s[..k + 1] <==> v in s[..k] || v == s[k]
  {
    assert s[..k + 1] == s[..k] + [s[k]];
  }

  /** One more sibling adds its width to the fold over the siblings before it. */
  lemma ExtentStep(e: seq<InternalNode>, group: seq<nat>, k: nat)
    requires k < |group| && group[k] < |e|
    ensures ChildrenExtent(e, group[..k + 1]) == ChildrenExtent(e, group[..k]) + e[group[k]].xExtentChildren
  {
    assert group[..k + 1][..k] == group[..k];
  }

  /** The first `k` records of `group` have their final record from `e`; the others are as in `before`. */
  predicate PlacedPrefix(e: seq<InternalNode>, group: seq<nat>, k: nat, before: seq<InternalNode>, items: seq<InternalNode>)
    requires k <= |group| && |before| == |e|
  {
    && |items| == |e|
    && forall i :: 0 <= i < |e| ==> items[i] == if i in group[..k] then e[i] else before[i]
  }

  /** Finishing the record of the next member of the group extends the placed prefix by one. */
  lemma PlacedStep(e: seq<InternalNode>, group: seq<nat>, k: nat, before: seq<InternalNode>, items: seq<InternalNode>)
    requires Increasing(group) && k < |group| && |before| == |e| && group[k] < |e|
    requires PlacedPrefix(e, group, k, before, items)
    ensures PlacedPrefix(e, group, k + 1, before, items[group[k] := e[group[k]]])
  {
    PrefixStep(group, k);
  }

  /**
   * One step of packing a group: the next member's record, centered at the cursor plus half its
   * width, is final, and the cursor moves on by that width.
   */
  lemma SiblingStep(e: seq<InternalNode>, group: seq<nat>, movingXCenter: nat, k: nat,
                    before: seq<InternalNode>, nodes: seq<InternalNode>, moving: nat)
    requires Increasing(group) && k < |group| && |before| == |e|
    requires Packed(e, group, movingXCenter) && Unplaced(e, group, before)
    requires PlacedPrefix(e, group, k, before, nodes) && moving == movingXCenter + ChildrenExtent(e, group[..k])
    ensures group[k] < |nodes|
    ensures var node := nodes[group[k]].(xCenter := moving + nodes[group[k]].xExtentChildren / 2);
      && PlacedPrefix(e, group, k + 1, before, nodes[group[k] := node])
      && moving + nodes[group[k]].xExtentChildren == movingXCenter + ChildrenExtent(e, group[..k + 1])
  {
    var ord := group[k];
    PrefixStep(group, k);
    ExtentStep(e, group, k);
    assert PackedAt(e, group, movingXCenter, k);
    CenterFinishes(e, ord, nodes[ord], moving + nodes[ord].xExtentChildren / 2);
    PlacedStep(e, group, k, before, nodes);
  }

  /**
   * Places one group of siblings left to right from `movingXCenter`: each is centered in a slot
   * as wide as its subtree, and the next slot starts where that one ends.
   */
  method PlaceSiblings(items: EmbeddingHelperData, group: seq<nat>, movingXCenter: nat, ghost e: seq<InternalNode>)
    requires |items.nodes| == |e| && Increasing(group)
    requires Packed(e, group, movingXCenter) && Unplaced(e, group, items.nodes)
    modifies items
    ensures |items.nodes| == |e|
    ensures forall i :: 0 <= i < |e| ==> items.nodes[i] == if i in group then e[i] else old(items.nodes[i])
  {
    ghost var before := items.nodes;
    var moving := movingXCenter;
    var k := 0;
    while k < |group|
      invariant k <= |group|
      invariant moving == movingXCenter + ChildrenExtent(e, group[..k])
      invariant PlacedPrefix(e, group, k, before, items.nodes)
    {
      moving := PlaceNext(items, group, movingXCenter, k, moving, e, before);
      k := k + 1;
    }
    assert group[..k] == group;
  }

  /** Centers the `k`-th sibling at the cursor plus half its width and moves the cursor past its slot. */
  method PlaceNext(items: EmbeddingHelperData, group: seq<nat>, movingXCenter: nat, k: nat, moving: nat,
                   ghost e: seq<InternalNode>, ghost before: seq<InternalNode>) returns (next: nat)
    requires Increasing(group) && k < |group| && |before| == |e|
    requires Packed(e, group, movingXCenter) && Unplaced(e, group, before)
    requires PlacedPrefix(e, group, k, before, items.nodes) && moving == movingXCenter + ChildrenExtent(e, group[..k])
    modifies items
    ensures PlacedPrefix(e, group, k + 1, before, items.nodes)
    ensures next == movingXCenter + ChildrenExtent(e, group[..k + 1])
  {
    var ord := group[k];
    SiblingStep(e, group, movingXCenter, k, before, items.nodes, moving);
    next := moving;
    match items.GetByOrd(ord) {
      case Some(placedItem) =>
        items.Update(ord, placedItem.(xCenter := moving + placedItem.xExtentChildren / 2));
        next := moving + placedItem.xExtentChildren;
      case None =>
    }
  }

  /**
   * Places the group of parent `p`: its slots start half the children's width left of the
   * parent's final center, or at 0 for the root.
   */
  method PlaceGroup(items: EmbeddingHelperData, p: Option<nat>, group: seq<nat>, ghost e: seq<InternalNode>)
    returns (r: Result<(), string>)
    requires |items.nodes| == |e| && Increasing(group)
    requires Packed(e, group, GroupStart(e, p)) && Unplaced(e, group, items.nodes)
    requires p.Some? ==>
      && p.value < |items.nodes| && items.nodes[p.value] == e[p.value]
      && e[p.value].xCenter >= e[p.value].xExtentOfChildren / 2
    modifies items
    ensures r.Success? && |items.nodes| == |e|
    ensures forall i :: 0 <= i < |e| ==> items.nodes[i] == if i in group then e[i] else old(items.nodes[i])
  {
    var movingXCenter: nat;
    match p {
      case Some(parentOrd) =>
        match items.GetByOrd(parentOrd) {
          case Some(placedParent) =>
            movingXCenter := placedParent.xCenter - placedParent.xExtentOfChildren / 2;
          case None =>
            return Failure(MissingParentError);
        }
      case None =>
        movingXCenter := 0;
    }
    PlaceSiblings(items, group, movingXCenter, e);
    return Success(());
  }

  /** Places layer `layer`: each group of siblings is packed left to right below its parent's center. */
  method XCenterLayer(layer: nat, items: EmbeddingHelperData, ghost e: seq<InternalNode>) returns (r: Result<(), string>)
    requires Placeable(e) && PlacedUpTo(e, layer, items.nodes)
    modifies items
    ensures r.Success? && PlacedUpTo(e, layer + 1, items.nodes)
  {
    var nodeIdsInLayer := NodesInLayer(items.nodes, layer);
    var parentsInLayer: seq<Option<nat>>;
    match ParentsInLayer(items.nodes, nodeIdsInLayer) {
      case Failure(err) =>
        return Failure(err);
      case Success(parents) =>
        parentsInLayer := parents;
    }
    ghost var start := items.nodes;
    var m := 0;
    while m < |parentsInLayer|
      invariant m <= |parentsInLayer|
      invariant LayerPlacedFor(e, layer, start, parentsInLayer[..m], items.nodes)
    {
      var p := parentsInLayer[m];
      var group := NodesOfParent(items.nodes, nodeIdsInLayer, p);
      GroupIsSiblings(e, layer, start, parentsInLayer, m, items.nodes, group);
      SiblingsReady(e, layer, start, parentsInLayer[..m], items.nodes, nodeIdsInLayer[m], p, group);
      ghost var before := items.nodes;
      var res := PlaceGroup(items, p, group, e);
      if res.Failure? {
        return res;
      }
      GroupPlaced(e, layer, start, parentsInLayer, m, nodeIdsInLayer[m], group, before, items.nodes);
      m := m + 1;
    }
    assert parentsInLayer[..m] == parentsInLayer;
    LayerPlaced(e, layer, start, parentsInLayer, items.nodes);
    return Success(());
  }

  /** The third pass: the layers are placed from the root down, which turns the records into the table `e`. */
  method ApplyXCenter(items: EmbeddingHelperData, ghost e: seq<InternalNode>) returns (r: Result<(), string>)
    requires Placeable(e) && |items.nodes| == |e|
    requires forall i :: 0 <= i < |e| ==> items.nodes[i] == e[i].(xCenter := 0)
    modifies items
    ensures r.Success? && items.nodes == e
  {
    var height := Height(items.nodes);
    assert forall i :: 0 <= i < |e| ==> items.nodes[i].yOrder == e[i].yOrder;
    var l := 0;
    while l < height + 1
      invariant l <= height + 1
      invariant forall i :: 0 <= i < |e| ==> e[i].yOrder <= height
      invariant PlacedUpTo(e, l, items.nodes)
    {
      var res := XCenterLayer(l, items, e);
      if res.Failure? {
        return res;
      }
      l := l + 1;
    }
    assert forall i :: 0 <= i < |e| ==> items.nodes[i] == e[i];
    return Success(());
  }

  /** The public records, one per working record, in the same order. */
  function TransferResult(items: seq<InternalNode>): (r: Embedding)
    ensures |r| == |items|
    ensures forall i :: 0 <= i < |items| ==> r[i] == ToEmbedded(items[i])
  {
    if items == [] then []
    else TransferResult(items[..|items| - 1]) + [ToEmbedded(items[|items| - 1])]
  }

  /**
   * Embeds a tree: a forest of more than one tree is refused; otherwise every node gets, in
   * pre-order, the record of the reference layout.
   */
  method Embed(tree: seq<Tree>) returns (r: Result<Embedding, string>)
    ensures r.Failure? <==> |tree| > 1
    ensures r.Failure? ==> r.error == MultipleRootsError
    ensures tree == [] ==> r == Success([])
    ensures r.Success? ==> |r.value| == ForestSize(tree)
    ensures r.Success? ==> forall i :: 0 <= i < ForestSize(tree) ==> r.value[i] == ToEmbedded(ExpectedNode(tree, i))
  {
    var created := CreateInitialEmbeddingData(tree);
    if created.Failure? {
      return Failure(created.error);
    }
    var items := created.value;
    ApplyChildrenXExtents(tree, items);
    ghost var expected := Expected(tree);
    ExpectedPlaceable(tree);
    var placed := ApplyXCenter(items, expected);
    match placed {
      case Failure(e) =>
        return Failure(e);
      case Success(_) =>
    }
    return Success(TransferResult(items.nodes));
  }
}
