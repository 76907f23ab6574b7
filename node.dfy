/**
 * The records of the embedder: the working record of one node, the public record handed to the
 * caller, and the working table that the three passes fill in.
 */
module Node {
  import opened Wrappers

  /** The working layout state of one tree node. */
  datatype InternalNode = InternalNode(
    yOrder: nat,
    xCenter: nat,
    xExtent: nat,
    xExtentOfChildren: nat,
    xExtentChildren: nat,
    text: string,
    isEmphasized: bool,
    parent: Option<nat>,
    ord: nat,
    nodeId: nat)

  /** The public, positioned record of one tree node. */
  datatype EmbeddedNode = EmbeddedNode(
    yOrder: nat,
    xCenter: nat,
    xExtent: nat,
    xExtentChildren: nat,
    text: string,
    isEmphasized: bool,
    ord: nat,
    parent: Option<nat>)

  type Embedding = seq<EmbeddedNode>

  /** The conversion of a working record into its public form. */
  function ToEmbedded(n: InternalNode): EmbeddedNode
  {
    EmbeddedNode(n.yOrder, n.xCenter, n.xExtent, n.xExtentChildren, n.text, n.isEmphasized, n.ord, n.parent)
  }

  /**
   * The working table: one record per node, at the position given by its `ord`. The tree's
   * node identifiers are pre-order indices, so looking a record up by node identifier is
   * looking it up by `ord`.
   */
  class EmbeddingHelperData {
    var nodes: seq<InternalNode>

    constructor ()
      ensures nodes == []
    {
      nodes := [];
    }

    /** `get_by_ord` and `get_by_node_id`. */
    function GetByOrd(ord: nat): (r: Option<InternalNode>)
      reads this
      ensures r.Some? <==> ord < |nodes|
      ensures r.Some? ==> r.value == nodes[ord]
    {
      if ord < |nodes| then Some(nodes[ord]) else None
    }

    /** `insert`: puts a record into the table at position `ord`. */
    method Insert(ord: nat, node: InternalNode)
      requires ord <= |nodes|
      modifies this
      ensures nodes == old(nodes)[..ord] + [node] + old(nodes)[ord..]
    {
      nodes := nodes[..ord] + [node] + nodes[ord..];
    }

    /** `get_mut_by_ord` / `get_mut_by_node_id` followed by writes to the record found, if any. */
    method Update(ord: nat, node: InternalNode)
      modifies this
      ensures nodes == if ord < |old(nodes)| then old(nodes)[ord := node] else old(nodes)
    {
      if ord < |nodes| {
        nodes := nodes[ord := node];
      }
    }
  }
}
