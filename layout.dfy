/**
 * The reference layout, defined by recursion over the tree: the width a subtree is allotted and
 * the horizontal slot each node gets, with its children packed left to right below it.
 */
module Layout {
  import opened Wrappers
  import opened Syntree
  import opened Node

  function Max(a: nat, b: nat): nat
  {
    if a >= b then a else b
  }

  /** `x_extent`: the width a node's own text needs. */
  function Extent(t: Tree): nat
  {
    |t.text| + 1
  }

  /** `x_extent_children`: the width allotted to the subtree, its own text or its children's, whichever is wider. */
  function Width(t: Tree): nat
    decreases t
  {
    Max(Extent(t), ForestWidth(t.children))
  }

  /** The widths of the trees of `f`, added up. */
  function ForestWidth(f: seq<Tree>): nat
    decreases f
  {
    if f == [] then 0 else Width(f[0]) + ForestWidth(f[1..])
  }

  /** The widths of the first `k` trees of `f`, added up. */
  function WidthBefore(f: seq<Tree>, k: nat): nat
    requires k <= |f|
  {
    if k == 0 then 0 else Width(f[0]) + WidthBefore(f[1..], k - 1)
  }

  lemma WidthBounds(t: Tree)
    ensures Width(t) >= Extent(t) >= 1
    ensures Width(t) >= ForestWidth(t.children)
    ensures Width(t) / 2 >= ForestWidth(t.children) / 2
  {
  }

  /** Where the children's slots start, for a node whose own slot starts at `slot`. */
  function ChildrenStart(t: Tree, slot: nat): nat
  {
    WidthBounds(t);
    slot + Width(t) / 2 - ForestWidth(t.children) / 2
  }

  /** The slot starts of the nodes of `t` in pre-order, when the slot of its root starts at `slot`. */
  function Slots(t: Tree, slot: nat): (s: seq<nat>)
    ensures |s| == Size(t)
    decreases t
  {
    [slot] + ForestSlots(t.children, ChildrenStart(t, slot))
  }

  /** The slot starts of the nodes of a forest whose trees are packed left to right from `cursor`. */
  function ForestSlots(f: seq<Tree>, cursor: nat): (s: seq<nat>)
    ensures |s| == ForestSize(f)
    decreases f
  {
    if f == [] then [] else Slots(f[0], cursor) + ForestSlots(f[1..], cursor + Width(f[0]))
  }

  /**
   * The record the embedder is to produce for the node at pre-order position `i` of `forest`.
   * A leaf gets no `Up` event in the second pass, so it keeps `x_extent_of_children == x_extent`.
   */
  function ExpectedNode(forest: seq<Tree>, i: nat): InternalNode
    requires i < ForestSize(forest)
  {
    var v := Walk(forest)[i];
    var s := ForestSubtrees(forest)[i];
    InternalNode(
      yOrder := v.depth,
      xCenter := ForestSlots(forest, 0)[i] + Width(s) / 2,
      xExtent := Extent(s),
      xExtentOfChildren := if s.children == [] then Extent(s) else ForestWidth(s.children),
      xExtentChildren := Width(s),
      text := s.text,
      isEmphasized := s.emph,
      parent := v.node.parent,
      ord := i,
      nodeId := i)
  }

  /** The whole table the embedder is to produce, in pre-order. */
  function Expected(forest: seq<Tree>): (table: seq<InternalNode>)
    ensures |table| == ForestSize(forest)
    ensures forall i :: 0 <= i < |table| ==> table[i] == ExpectedNode(forest, i)
  {
    seq(ForestSize(forest), i requires 0 <= i < ForestSize(forest) => ExpectedNode(forest, i))
  }

  lemma {:induction false} WidthBeforeStep(f: seq<Tree>, k: nat)
    requires k < |f|
    ensures WidthBefore(f, k + 1) == WidthBefore(f, k) + Width(f[k])
  {
    if k > 0 {
      WidthBeforeStep(f[1..], k - 1);
    }
  }

  lemma {:induction false} WidthBeforeAll(f: seq<Tree>)
    ensures WidthBefore(f, |f|) == ForestWidth(f)
  {
    if f != [] {
      WidthBeforeAll(f[1..]);
    }
  }

  /** Inside a forest's slot list, the slots of `f[k]` start at position `Offset(f, k)`, packed after the trees before it. */
  lemma {:induction false} ForestSlotsAt(f: seq<Tree>, cursor: nat, k: nat, j: nat)
    requires k < |f| && j < Size(f[k])
    ensures Offset(f, k) + j < ForestSize(f)
    ensures ForestSlots(f, cursor)[Offset(f, k) + j] == Slots(f[k], cursor + WidthBefore(f, k))[j]
  {
    OffsetBound(f, k);
    var a := Slots(f[0], cursor);
    var b := ForestSlots(f[1..], cursor + Width(f[0]));
    assert ForestSlots(f, cursor) == a + b;
    if k > 0 {
      ForestSlotsAt(f[1..], cursor + Width(f[0]), k - 1, j);
      assert f[1..][k - 1] == f[k];
      assert (a + b)[Offset(f, k) + j] == b[Offset(f[1..], k - 1) + j];
    }
  }

  /** In the slot list of `t`, position `1 + Offset(t.children, k) + j` lies in the slots of child `k`. */
  lemma SlotsChildAt(t: Tree, slot: nat, k: nat, j: nat)
    requires k < |t.children| && j < Size(t.children[k])
    ensures 1 + Offset(t.children, k) + j < Size(t)
    ensures Slots(t, slot)[1 + Offset(t.children, k) + j]
         == Slots(t.children[k], ChildrenStart(t, slot) + WidthBefore(t.children, k))[j]
  {
    ForestSlotsAt(t.children, ChildrenStart(t, slot), k, j);
    assert Slots(t, slot) == [slot] + ForestSlots(t.children, ChildrenStart(t, slot));
  }

  /**
   * The slot of the `k`-th child of the node at pre-order position `i` starts where that node's
   * children start, after the widths of the `k` children before it.
   */
  lemma {:induction false} SlotChild(t: Tree, slot: nat, i: nat, k: nat)
    requires i < Size(t) && k < |Subtrees(t)[i].children|
    ensures i + 1 + Offset(Subtrees(t)[i].children, k) < Size(t)
    ensures var st := Subtrees(t); var sl := Slots(t, slot);
      sl[i + 1 + Offset(st[i].children, k)] == ChildrenStart(st[i], sl[i]) + WidthBefore(st[i].children, k)
    decreases t
  {
    if i == 0 {
      assert Subtrees(t)[0] == t;
      SlotsChildAt(t, slot, k, 0);
    } else {
      var kb, j := SubtreeDescend(t, i);
      var c := t.children[kb];
      var cslot := ChildrenStart(t, slot) + WidthBefore(t.children, kb);
      SlotsChildAt(t, slot, kb, j);
      SlotChild(c, cslot, j, k);
      SubtreeChild(c, j, k);
      SlotsChildAt(t, slot, kb, j + 1 + Offset(Subtrees(c)[j].children, k));
    }
  }

  lemma SingleRootSlots(t: Tree)
    ensures ForestSlots([t], 0) == Slots(t, 0)
  {
    assert [t][1..] == [];
  }

  /** In a forest of at most one tree, node `i` is the `i`-th node of the pre-order walk, with its own children. */
  lemma WalkAt(forest: seq<Tree>, i: nat)
    requires |forest| <= 1 && i < ForestSize(forest)
    ensures var v := Walk(forest)[i]; var s := ForestSubtrees(forest)[i];
      && v.node.id == i && v.node.text == s.text && v.node.emph == s.emph
      && v.node.children == ChildIds(s.children, i + 1)
  {
    var t := forest[0];
    assert forest == [t];
    SingleRoot(t);
    WalkNodeAt(t, None, 0, 0, i);
  }

  /** The first node of the pre-order walk of a forest of at most one tree is a top-level node. */
  lemma WalkRoot(forest: seq<Tree>)
    requires |forest| == 1
    ensures Walk(forest)[0].node.parent == None && Walk(forest)[0].depth == 0
  {
    var t := forest[0];
    assert forest == [t];
    SingleRoot(t);
  }

  /** Node `i` of the walk `w` has an earlier parent, one level higher, that lists it as a child. */
  predicate ParentLink(w: seq<Visit>, i: nat)
    requires i < |w|
  {
    && w[i].node.parent.Some? && w[i].node.parent.value < i
    && w[w[i].node.parent.value].depth + 1 == w[i].depth
    && i in w[w[i].node.parent.value].node.children
  }

  /** Every later node of that walk has an earlier parent, one level higher, that lists it as a child. */
  lemma WalkParent(forest: seq<Tree>, i: nat)
    requires |forest| <= 1 && 0 < i < ForestSize(forest)
    ensures var w := Walk(forest);
      && w[i].node.parent.Some? && w[i].node.parent.value < i
      && w[w[i].node.parent.value].depth + 1 == w[i].depth
      && i in w[w[i].node.parent.value].node.children
  {
    var t := forest[0];
    assert forest == [t];
    SingleRoot(t);
    var w := WalkTree(t, None, 0, 0);
    WalkParentAt(t, None, 0, 0, i);
    assert ParentLink(w, i);
    assert Walk(forest) == w;
    assert ParentLink(Walk(forest), i);
  }

  /**
   * Parent links of the expected table: only the root has none and sits in layer 0; every other
   * node's parent comes earlier, one layer higher, and lists the node among its children.
   */
  lemma ParentOf(forest: seq<Tree>, i: nat)
    requires |forest| <= 1 && i < ForestSize(forest)
    ensures ExpectedNode(forest, i).parent.None? <==> i == 0
    ensures i == 0 ==> ExpectedNode(forest, i).yOrder == 0
    ensures ExpectedNode(forest, i).parent.Some? ==>
      var p := ExpectedNode(forest, i).parent.value;
      && p < i
      && ExpectedNode(forest, p).yOrder + 1 == ExpectedNode(forest, i).yOrder
      && i in Walk(forest)[p].node.children
  {
    var w := Walk(forest);
    assert ExpectedNode(forest, i).parent == w[i].node.parent;
    assert ExpectedNode(forest, i).yOrder == w[i].depth;
    if i == 0 {
      WalkRoot(forest);
    } else {
      WalkParent(forest, i);
      var p := w[i].node.parent.value;
      assert ExpectedNode(forest, p).yOrder == w[p].depth;
    }
  }

  /** The `k`-th child of node `i` names `i` as parent and lies one layer lower. */
  lemma ChildOf(forest: seq<Tree>, i: nat, k: nat)
    requires |forest| <= 1 && i < ForestSize(forest)
    requires k < |ForestSubtrees(forest)[i].children|
    ensures var s := ForestSubtrees(forest)[i]; var cs := Walk(forest)[i].node.children;
      && k < |cs| && cs[k] == i + 1 + Offset(s.children, k) < ForestSize(forest)
      && ForestSubtrees(forest)[cs[k]] == s.children[k]
      && ExpectedNode(forest, cs[k]).parent == Some(i)
      && ExpectedNode(forest, cs[k]).yOrder == ExpectedNode(forest, i).yOrder + 1
  {
    var t := forest[0];
    assert forest == [t];
    SingleRoot(t);
    var s := Subtrees(t)[i];
    WalkNodeAt(t, None, 0, 0, i);
    ChildIdsAt(s.children, i + 1, k);
    SubtreeChild(t, i, k);
    WalkChildParent(t, None, 0, 0, i, k);
  }

  /**
   * The slot of the `k`-th child of node `i` starts half the children's width left of the
   * center of `i`, after the `k` children before it; the child is centered in its slot.
   */
  lemma ChildCenter(forest: seq<Tree>, i: nat, k: nat)
    requires |forest| <= 1 && i < ForestSize(forest)
    requires k < |ForestSubtrees(forest)[i].children|
    ensures var s := ForestSubtrees(forest)[i]; var c := i + 1 + Offset(s.children, k);
      && c < ForestSize(forest)
      && ExpectedNode(forest, i).xCenter >= ExpectedNode(forest, i).xExtentOfChildren / 2
      && ExpectedNode(forest, c).xCenter
         == ExpectedNode(forest, i).xCenter - ExpectedNode(forest, i).xExtentOfChildren / 2
            + WidthBefore(s.children, k) + Width(s.children[k]) / 2
  {
    var t := forest[0];
    assert forest == [t];
    SingleRoot(t);
    SingleRootSlots(t);
    var st := Subtrees(t);
    var sl := Slots(t, 0);
    var s := st[i];
    var c := i + 1 + Offset(s.children, k);
    SubtreeChild(t, i, k);
    SlotChild(t, 0, i, k);
    WidthBounds(s);
    assert ExpectedNode(forest, i).xCenter == sl[i] + Width(s) / 2;
    assert ExpectedNode(forest, i).xExtentOfChildren == ForestWidth(s.children);
    assert ExpectedNode(forest, c).xCenter == sl[c] + Width(st[c]) / 2;
  }

  /** `x_center - x_extent_of_children / 2` of every expected record is a natural number. */
  lemma NoUnderflow(forest: seq<Tree>, i: nat)
    requires i < ForestSize(forest)
    ensures ExpectedNode(forest, i).xCenter >= ExpectedNode(forest, i).xExtentOfChildren / 2
  {
    WidthBounds(ForestSubtrees(forest)[i]);
  }

  /** The root is centered over its own allotted width, starting at 0. */
  lemma RootCenter(forest: seq<Tree>)
    requires |forest| == 1
    ensures ExpectedNode(forest, 0).xCenter == ExpectedNode(forest, 0).xExtentChildren / 2
    ensures ExpectedNode(forest, 0).yOrder == 0 && ExpectedNode(forest, 0).parent == None
  {
    var t := forest[0];
    assert forest == [t];
    SingleRoot(t);
    SingleRootSlots(t);
  }

  /** Where the slot of a record starts: its center less half the width allotted to its subtree. */
  function SlotStart(n: InternalNode): int
  {
    n.xCenter - n.xExtentChildren / 2
  }

  /** Every node is centered inside its own slot. */
  lemma CenterInSlot(forest: seq<Tree>, i: nat)
    requires i < ForestSize(forest)
    ensures SlotStart(ExpectedNode(forest, i)) <= ExpectedNode(forest, i).xCenter
            < SlotStart(ExpectedNode(forest, i)) + ExpectedNode(forest, i).xExtentChildren
  {
    WidthBounds(ForestSubtrees(forest)[i]);
  }

  lemma {:induction false} WidthBeforeBound(f: seq<Tree>, k: nat)
    requires k <= |f|
    ensures WidthBefore(f, k) <= ForestWidth(f)
  {
    if k > 0 {
      WidthBeforeBound(f[1..], k - 1);
    }
  }

  /** The slot of the `k`-th child of node `i` starts after the `k` children before it, from where the children of `i` start. */
  lemma ChildSlotStart(forest: seq<Tree>, i: nat, k: nat)
    requires |forest| <= 1 && i < ForestSize(forest)
    requires k < |ForestSubtrees(forest)[i].children|
    ensures var s := ForestSubtrees(forest)[i]; var cs := Walk(forest)[i].node.children;
      && k < |cs| && cs[k] < ForestSize(forest)
      && ExpectedNode(forest, cs[k]).xExtentChildren == Width(s.children[k])
      && SlotStart(ExpectedNode(forest, cs[k]))
         == ExpectedNode(forest, i).xCenter - ExpectedNode(forest, i).xExtentOfChildren / 2 + WidthBefore(s.children, k)
  {
    ChildOf(forest, i, k);
    ChildCenter(forest, i, k);
  }

  /** The slot of every child lies inside the slot of its parent, which starts at 0 or later. */
  lemma ChildNests(forest: seq<Tree>, i: nat, k: nat)
    requires |forest| <= 1 && i < ForestSize(forest)
    requires k < |ForestSubtrees(forest)[i].children|
    ensures var cs := Walk(forest)[i].node.children;
      && k < |cs| && cs[k] < ForestSize(forest)
      && 0 <= SlotStart(ExpectedNode(forest, i)) <= SlotStart(ExpectedNode(forest, cs[k]))
      && SlotStart(ExpectedNode(forest, cs[k])) + ExpectedNode(forest, cs[k]).xExtentChildren
         <= SlotStart(ExpectedNode(forest, i)) + ExpectedNode(forest, i).xExtentChildren
  {
    var s := ForestSubtrees(forest)[i];
    ChildSlotStart(forest, i, k);
    WidthBounds(s);
    WidthBeforeStep(s.children, k);
    WidthBeforeBound(s.children, k + 1);
  }

  /**
   * Consecutive children are packed: the slot of the next one starts where the slot of the one
   * before it ends, so their centers increase from left to right.
   */
  lemma SiblingsAdjacent(forest: seq<Tree>, i: nat, k: nat)
    requires |forest| <= 1 && i < ForestSize(forest)
    requires k + 1 < |ForestSubtrees(forest)[i].children|
    ensures var cs := Walk(forest)[i].node.children;
      && k + 1 < |cs| && cs[k] < ForestSize(forest) && cs[k + 1] < ForestSize(forest)
      && SlotStart(ExpectedNode(forest, cs[k + 1]))
         == SlotStart(ExpectedNode(forest, cs[k])) + ExpectedNode(forest, cs[k]).xExtentChildren
      && ExpectedNode(forest, cs[k]).xCenter < ExpectedNode(forest, cs[k + 1]).xCenter
  {
    var s := ForestSubtrees(forest)[i];
    ChildSlotStart(forest, i, k);
    ChildSlotStart(forest, i, k + 1);
    WidthBeforeStep(s.children, k);
  }

  lemma {:induction false} WidthBeforeMonotonic(f: seq<Tree>, a: nat, b: nat)
    requires a <= b <= |f|
    ensures WidthBefore(f, a) <= WidthBefore(f, b)
  {
    if a > 0 {
      WidthBeforeMonotonic(f[1..], a - 1, b - 1);
    }
  }

  /** Of any two children of a node, the earlier one lies left: their allotted spans do not overlap. */
  lemma SiblingsApart(forest: seq<Tree>, i: nat, k: nat, j: nat)
    requires |forest| <= 1 && i < ForestSize(forest)
    requires k < j < |ForestSubtrees(forest)[i].children|
    ensures var cs := Walk(forest)[i].node.children;
      && j < |cs| && cs[k] < ForestSize(forest) && cs[j] < ForestSize(forest)
      && SlotStart(ExpectedNode(forest, cs[k])) + ExpectedNode(forest, cs[k]).xExtentChildren
         <= SlotStart(ExpectedNode(forest, cs[j]))
      && ExpectedNode(forest, cs[k]).xCenter + ExpectedNode(forest, cs[k]).xExtentChildren / 2
         <= ExpectedNode(forest, cs[j]).xCenter - ExpectedNode(forest, cs[j]).xExtentChildren / 2
  {
    var s := ForestSubtrees(forest)[i];
    ChildSlotStart(forest, i, k);
    ChildSlotStart(forest, i, j);
    WidthBeforeStep(s.children, k);
    WidthBeforeMonotonic(s.children, k + 1, j);
  }

  /** A tree of a single node gets one record, in layer 0, centered over the width of its own text. */
  lemma LeafRoot(t: Tree)
    requires t.children == []
    ensures ForestSize([t]) == 1
    ensures ExpectedNode([t], 0).yOrder == 0 && ExpectedNode([t], 0).parent == None
    ensures ExpectedNode([t], 0).xCenter == Extent(t) / 2
  {
    SingleRoot(t);
    RootCenter([t]);
    assert ForestWidth(t.children) == 0;
  }

  /**
   * A root "A" with the leaves "B" and "CC": the allotted widths are 5, 2 and 3; the root is
   * centered at 2, and its children's slots start at 2 - 5 / 2 = 0, which centers them at 1 and 3.
   */
  lemma TwoLeavesExample()
    ensures var f := [Node("A", false, [Node("B", false, []), Node("CC", false, [])])];
      && ForestSize(f) == 3
      && ExpectedNode(f, 0).xExtentChildren == 5 && ExpectedNode(f, 0).xCenter == 2
      && ExpectedNode(f, 1).xExtentChildren == 2 && ExpectedNode(f, 1).xCenter == 1
      && ExpectedNode(f, 2).xExtentChildren == 3 && ExpectedNode(f, 2).xCenter == 3
  {
    var b := Node("B", false, []);
    var cc := Node("CC", false, []);
    var a := Node("A", false, [b, cc]);
    var f := [a];
    SingleRoot(a);
    SingleRootSlots(a);
    assert [b, cc][1..] == [cc] && [cc][1..] == [];
    assert Extent(b) == 2 && ForestWidth(b.children) == 0 && Width(b) == 2;
    assert Extent(cc) == 3 && ForestWidth(cc.children) == 0 && Width(cc) == 3;
    assert ForestWidth([cc]) == 3 && ForestWidth([b, cc]) == 5;
    assert Extent(a) == 2 && Width(a) == 5;
    assert Subtrees(b) == [b] && Subtrees(cc) == [cc];
    assert ForestSubtrees([cc]) == [cc] && ForestSubtrees([b, cc]) == [b, cc];
    assert Subtrees(a) == [a, b, cc];
    assert Slots(b, 0) == [0] && Slots(cc, 2) == [2];
    assert ForestSlots([cc], 2) == [2] && ForestSlots([b, cc], 0) == [0, 2];
    assert ChildrenStart(a, 0) == 0;
    assert Slots(a, 0) == [0, 0, 2];
  }
}
