# syntree_layout embedder, modelled in Dafny

This project models the embedder of `syntree_layout`. The embedder takes a `syntree` tree and
gives every node a place in the plane: a layer (`y_order`, the depth), a width for its own text
(`x_extent`), a width for its children (`x_extent_of_children`), a width for its whole subtree
(`x_extent_children`) and a horizontal center (`x_center`). It runs three passes over a table
of working records, one record per node in pre-order:

1. `create_initial_embedding_data` refuses a tree with more than one root. Otherwise it makes
   one record per node of the pre-order walk: layer = depth, `x_extent = len(text) + 1`, both
   child widths equal to `x_extent`, center 0, and the parent's `ord`.
2. `apply_children_x_extents` follows the enter/exit events of the tree. On each `Up` it adds
   up the subtree widths of the node's children and takes the larger of that sum and the
   node's own width.
3. `apply_x_center` places the layers from the root down (`x_center_layer`). In each layer it
   groups the nodes by parent and packs each group left to right. The packing starts half the
   parent's children width left of the parent's center: `x_center - x_extent_of_children / 2`.
   For the root it starts at 0. Each node is centered in a slot as wide as its subtree.

The results are then converted into the public records (`transfer_result`).

The model has five modules:

- `Wrappers` holds `Option` and `Result`.
- `Syntree` models the input tree as a recursive datatype. It defines the pre-order walk with
  depths and the `walk_events` sequence by recursion, with lemmas about the order of the `Up`
  events.
- `Node` holds the working record `InternalNode` and the public record `EmbeddedNode`. It also
  holds the table `EmbeddingHelperData`, a class whose `nodes` sequence the passes update in
  place.
- `Layout` gives an independent definition of the layout by recursion over the tree:
  - the width each subtree is allotted;
  - where each node's slot starts;
  - the record each node should end up with (`ExpectedNode`).

  Its lemmas state the layout's geometry: parents and layers, width aggregation, nesting and
  packing of slots, the root, and a worked example.
- `Embedder` holds the three passes as methods over the table, plus `Embed`. Each pass is
  proved to produce exactly the records of the reference layout. From this it follows that:
  - the internal-error paths of `x_center_layer` are never taken;
  - the subtraction at line 186 never goes below zero.

Three points of the code's behaviour are easy to misread; the model follows the code:

- **Leaves.** `walk_events` reports `Up` only when the walk leaves a node that has children.
  So a leaf keeps the first-pass value `x_extent_of_children == x_extent` (line 77), not 0.
  Only parents' `x_extent_of_children` is read later (line 186), so no center and no
  `x_extent_children` depends on it.
- **The children's cursor.** Line 186 starts the children of a node from the node's placed
  center. For "A" with leaves "B" and "CC", the root is centered at 2, the children start at
  `2 - 5 / 2 == 0`, and their centers are 1 and 3 (`Layout.TwoLeavesExample`).
- **A source comment.** The comment at line 57 says the centers are set "from leafs to root".
  The loop at lines 218-220 goes from layer 0 down, and the model does the same.

## Model

All source cells refer to `src/internal/embedder.rs`.

| member | source | states |
|---|---|---|
| Embedder.Embed | src/internal/embedder.rs:40-63 | Fails exactly when the forest has more than one root, with "Currently we support only one root". The empty tree gives `Ok([])`. Otherwise there is one public record per node, in pre-order, and record `i` is the reference layout's record for node `i`. |
| Embedder.CreateFromNode | src/internal/embedder.rs:65-97 | Its own contract: the three widths are equal and at least 1, and a parent is set iff the node has one whose record exists. Its full contract is carried by its partner `Embedder.CreateFromNodeInWalkOrder`. |
| Embedder.CreateFromNodeInWalkOrder | src/internal/embedder.rs:65-97 | Built in walk order from the records of the earlier nodes, node `i`'s record has: layer = depth, `x_extent = len + 1`, both child widths equal to `x_extent`, center 0, `ord == i`, and the parent's ord. The parent is always found among the earlier records. |
| Embedder.CreateInitialEmbeddingData | src/internal/embedder.rs:99-121 | Errs iff there is more than one root, with that message. Otherwise it returns a new table with one record per node and the first-pass record at position `i == ord`. |
| Embedder.ApplyChildrenXExtents | src/internal/embedder.rs:123-140 | Starting from the first-pass table, every record ends with its final layer, widths, text and parent. Only the center is left at 0. |
| Embedder.ChildrenExtent | src/internal/embedder.rs:126-132 | Its own contract: 0 for no children, and for a single child that child's width if it has a record, else 0. That the fold adds up the children's subtree widths is carried by its partner `Embedder.ChildrenExtentSum`. |
| Embedder.ChildrenExtentBound | src/internal/embedder.rs:126-132 | The fold is never less than the `x_extent_children` of any child that has a record. |
| Embedder.ChildrenExtentSum | src/internal/embedder.rs:126-132 | Once each child's record holds its subtree width, the fold over the children adds up those widths. |
| Embedder.UpSum | src/internal/embedder.rs:124-132 | The `Up` event goes only to a node with children. When it is reached, the fold over the node's children equals the total width of its children's subtrees. |
| Embedder.UpStep | src/internal/embedder.rs:125-137 | On `Up`, setting the node's `x_extent_of_children` to the fold, and `x_extent_children` to the max of that and its own width, makes its record final. Every other record stays where it was. |
| Embedder.OtherStep | src/internal/embedder.rs:124-125 | Events other than `Up` change nothing. |
| Embedder.ExtendedAtEnd | src/internal/embedder.rs:124-139 | After all events, every record is final: the walk goes `Up` to every node that has children. |
| Embedder.LeafExtended | src/internal/embedder.rs:76-78 | The first-pass widths of a leaf are already its final widths. |
| Embedder.WidthAggregation | src/internal/embedder.rs:126-136 | For every node of the resulting table: `x_extent_children == max(x_extent, x_extent_of_children)`. A leaf has `x_extent_of_children == x_extent`. An inner node's `x_extent_of_children` is the fold over its children's `x_extent_children`. |
| Embedder.NodesInLayer | src/internal/embedder.rs:143-153 | The ords of exactly the records in the layer, in increasing order. |
| Embedder.ParentsInLayer | src/internal/embedder.rs:155-163 | Succeeds iff every ord has a record, and otherwise fails with "Expecting existing node". On success it lists the parent of each ord, in order. |
| Embedder.NodesOfParent | src/internal/embedder.rs:166-180 | Keeps exactly the listed ords whose record has parent `p`. |
| Embedder.NodesOfParentIncreasing | src/internal/embedder.rs:166-180 | The filter keeps the order of the layer. |
| Embedder.SameShapeLayer | src/internal/embedder.rs:143-153 | Which records lie in a layer depends only on layers, so centers written earlier do not change it. |
| Embedder.SameShapeGroup | src/internal/embedder.rs:166-180 | Which records a parent's filter keeps depends only on parents, so centers written earlier do not change it. |
| Embedder.GroupIsSiblings | src/internal/embedder.rs:165-180 | The filter for the `m`-th parent of the layer yields the siblings of the `m`-th node of the layer: the nodes of that layer with that parent. |
| Embedder.SiblingsReady | src/internal/embedder.rs:165-199 | Before a group is placed: its members are unplaced, and their final centers are packed from the group's start. A parent, if any, already has its final record and `x_center >= x_extent_of_children / 2`. |
| Embedder.RepeatHarmless | src/internal/embedder.rs:165-205 | A parent that appears again in `parents_in_layer` has its group placed again with the same values, which changes nothing. Within `Embedder.XCenterLayer`, the same fact is carried by `LayerPlacedFor`, which only asks that a parent be among those done, together with `Embedder.GroupPlaced`. |
| Embedder.PlaceSiblings | src/internal/embedder.rs:200-205 | Writes to each record of the group the center of its packed slot. No record outside the group changes. |
| Embedder.PlaceGroup | src/internal/embedder.rs:182-205 | The cursor starts at `x_center - x_extent_of_children / 2` of the placed parent (0 for the root). This subtraction stays non-negative, and the "Some item expected here!" error is never returned. Afterwards exactly the group's records have their final centers. |
| Embedder.XCenterLayer | src/internal/embedder.rs:142-209 | Given the layers above already placed, it succeeds, and afterwards exactly the records of this layer have their final centers as well. |
| Embedder.LayerPlaced | src/internal/embedder.rs:165-206 | Once the group of every parent met in the layer is placed, every node of the layer is placed. |
| Embedder.Height | src/internal/embedder.rs:212-217 | The maximum layer of the table, attained by some record; 0 for an empty table. |
| Embedder.ApplyXCenter | src/internal/embedder.rs:211-222 | Succeeds, and turns the table with centers 0 into the reference table. |
| Embedder.ExpectedPlaceable | src/internal/embedder.rs:182-205 | In the reference table, every group of siblings is packed from the start of its parent's children. Its parent lies in a higher layer, and the start is not negative. |
| Embedder.RootAlone | src/internal/embedder.rs:191-197 | The only node without a parent is the root, so the `None` group is `[0]`. |
| Embedder.LayerZeroIsRoot | src/internal/embedder.rs:191-197 | Layer 0 of the reference table holds exactly the root. |
| Embedder.RootGroup | src/internal/embedder.rs:191-197 | The root's group is packed from 0. |
| Embedder.ChildrenAreGroup | src/internal/embedder.rs:165-180 | The nodes of a layer whose parent is `po` are exactly the children of `po`, in sibling order. |
| Embedder.ChildGroup | src/internal/embedder.rs:182-205 | The children of `po` are packed from `x_center - x_extent_of_children / 2` of `po`, which is not negative. `po` lies in a higher layer. |
| Embedder.TransferResult | src/internal/embedder.rs:226-235 | One public record per working record, in the same order. |
| Layout.WidthBounds | src/internal/embedder.rs:135-136 | A subtree's allotted width is at least its own text width, which is at least 1, and at least its children's total width. |
| Layout.WalkAt | src/internal/embedder.rs:111-116 | Node `i` of the pre-order walk has identifier `i`, and the text and children of the `i`-th subtree. |
| Layout.WalkRoot | src/internal/embedder.rs:80-82 | The first node of the walk has no parent and depth 0. |
| Layout.WalkParent | src/internal/embedder.rs:80-82 | Every later node of the walk has an earlier parent, one level higher, that lists it among its children. |
| Layout.ParentOf | src/internal/embedder.rs:74-82 | Only the root has no parent, and it is in layer 0. Every other node's parent has a smaller ord, is one layer higher, and lists the node among its children. |
| Layout.ChildOf | src/internal/embedder.rs:80-82 | The `k`-th child of node `i` has the pre-order id after the subtrees of the earlier children. It names `i` as its parent and lies one layer lower. |
| Layout.ChildCenter | src/internal/embedder.rs:186-203 | The center of the `k`-th child is: the parent's center, less half the parent's children width, plus the widths of the earlier children, plus half its own width. |
| Layout.NoUnderflow | src/internal/embedder.rs:186 | `x_center >= x_extent_of_children / 2` for every record, so the subtraction at line 186 cannot underflow. |
| Layout.CenterInSlot | src/internal/embedder.rs:200-203 | Every node's center lies inside its own slot, which is as wide as its subtree. |
| Layout.ChildSlotStart | src/internal/embedder.rs:182-203 | A child's slot starts at the parent's cursor plus the widths of the earlier children. |
| Layout.ChildNests | src/internal/embedder.rs:186-204 | Every child's slot lies within its parent's slot, and no slot starts left of 0. |
| Layout.SiblingsAdjacent | src/internal/embedder.rs:200-204 | Consecutive siblings are packed with no gap, and their centers strictly increase. |
| Layout.SiblingsApart | src/internal/embedder.rs:200-204 | Of any two siblings, the earlier one's span ends at or before the later one's span begins. |
| Layout.RootCenter | src/internal/embedder.rs:191-202 | The root is in layer 0, has no parent, and is centered at half its allotted width. |
| Layout.LeafRoot | src/internal/embedder.rs:76-78 | A one-node tree gets one record, in layer 0, with no parent, centered at `(len + 1) / 2`. |
| Layout.TwoLeavesExample | src/internal/embedder.rs:182-205 | For "A" with leaves "B" and "CC", the widths are 5, 2 and 3 and the centers are 2, 1 and 3. |
| Syntree.SingleRoot | src/internal/embedder.rs:105-114 | A forest of one tree is walked as that tree, from depth 0 with no parent. |
| Syntree.WalkParentAt | src/internal/embedder.rs:80-82 | In the walk of a tree, each non-first node's parent is an earlier node, one level higher, that lists it as a child. |
| Syntree.ForestUpIsInner | src/internal/embedder.rs:125 | An `Up` event names a node that has children. |
| Syntree.ForestUpCovers | src/internal/embedder.rs:124-125 | Every node that has children gets an `Up` event. |
| Syntree.ForestUpAfterChildren | src/internal/embedder.rs:124-128 | The `Up` to a node comes after the `Up` to each of its children that has children. So the children's widths are final when the node reads them. |
| Node.EmbeddingHelperData.constructor | src/internal/embedder.rs:104 | A new table is empty. |
| Node.EmbeddingHelperData.GetByOrd | src/internal/embedder.rs:159-184 | Finds a record iff the ord is in the table, and then it is the record at that position. |
| Node.EmbeddingHelperData.Insert | src/internal/embedder.rs:117 | The record is spliced in at position `ord`. |
| Node.EmbeddingHelperData.Update | src/internal/embedder.rs:133-137 | The record at `ord` is replaced if there is one; otherwise nothing changes. |

## Left out

- `src/layouter.rs`, the public builder that chooses the tree, the output file and the renderer, is not part of this model. Neither is rendering.
- `syntree` itself is not modelled: its arena, `Index`, `Width`, `Tree::children`, `walk`, `with_depths` and `walk_events`. The tree is a recursive datatype. A node's identifier is its pre-order position, which is how `syntree` numbers nodes built in order. The walk and the events are defined by recursion with `syntree`'s conventions (no `Up` for a leaf).
- The `stringify` and `emphasize` closures are not modelled. Their results are stored in each tree node's `text` and `emph`.
- `text.len()` is the byte length of a Rust `String`. The model counts the characters of a `seq<char>`.
- `usize` is modelled as `nat`. Overflow of the additions at lines 128, 202 and 203 is not modelled. The subtraction at line 186 is proved non-negative wherever it is reached.
- The `debug_assert`s at lines 49, 176, 193 and 195 are not modelled. Their facts are proved about the reference table instead. For line 193, `Layout.ParentOf` shows that only the root has no parent, and the root is in layer 0. For line 195, `Embedder.LayerZeroIsRoot` shows that layer 0 holds the root alone. For line 176, `Embedder.NodesInLayer` shows that every listed ord has a record.
- `node.rs` is not part of this model. This covers `EmbeddingHelperData`'s map from node identifier to `ord`, which the model replaces by the identity. It also covers the conversion of `InternalNode` into the public `EmbeddedNode`, which the model assumes copies layer, center, `x_extent`, `x_extent_children`, text, emphasis, `ord` and parent.
- `LayouterError` is modelled as its description string.
- Embedder.ApplyChildrenXExtents: specified only for the table the first pass builds, on a forest of at most one tree. Its effect on other tables is not described.
- Embedder.XCenterLayer and Embedder.ApplyXCenter: specified only for tables that agree with a final table in which every group is packed below its parent (`Placeable`), which the reference layout is. Their effect on other tables is not described.
- Embedder.PlaceGroup and Embedder.PlaceSiblings: specified only for groups whose final centers are packed from the cursor. On other inputs they still run, but the model does not describe what they write.
