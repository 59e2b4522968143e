/**
  The abstract tensor network that the path planner reads: nodes (ordinary
  tensors and copy tensors) joined by edges. Only the queries the planner uses
  are modelled: the node set, every edge, the non-dangling edges, and per edge
  its dimension, endpoints and dangling flag.
 */
module TensorNetwork {
  import opened Wrappers

  /** Edges are named by integer identifiers. */
  type EdgeId = int

  /** A node is named by its signature, which is unique in a network. */
  type NodeId = int

  /** One tensor index: its dimension and the nodes it joins. An edge without a
      second endpoint is dangling, i.e. an output index of the network. */
  datatype Edge = Edge(dimension: int, node1: NodeId, node2: Option<NodeId>) {

    predicate IsDangling() {
      node2.None?
    }

    /** True if node `n` is one of the edge's endpoints. */
    predicate Joins(n: NodeId) {
      node1 == n || node2 == Some(n)
    }
  }

  /** A tensor: its edges in axis order, its creation-order signature, and
      whether it is a copy (generalised identity) tensor. */
  datatype Node = Node(edges: seq<EdgeId>, signature: int, isCopy: bool)

  /** The node set of the network and the description of every edge. */
  datatype Network = Network(nodesSet: set<Node>, edgeTable: map<EdgeId, Edge>)

  ghost predicate UniqueSignatures(nodes: set<Node>) {
    forall n, m :: n in nodes && m in nodes && n.signature == m.signature ==> n == m
  }

  /** What a network object guarantees: unique signatures, positive
      dimensions, and every edge of a node is known and has that node as an
      endpoint. */
  ghost predicate Valid(net: Network) {
    && UniqueSignatures(net.nodesSet)
    && (forall e :: e in net.edgeTable ==> net.edgeTable[e].dimension > 0)
    && (forall n, e :: n in net.nodesSet && e in n.edges ==>
          e in net.edgeTable && net.edgeTable[e].Joins(n.signature))
  }

  /** Edge `e` is known and not dangling. */
  predicate Bonded(net: Network, e: EdgeId) {
    e in net.edgeTable && !net.edgeTable[e].IsDangling()
  }

  /** `get_all_edges`: every edge of every node. */
  function AllEdges(net: Network): set<EdgeId> {
    set n, e | n in net.nodesSet && e in n.edges :: e
  }

  /** `get_all_nondangling`: the edges of the network that are not dangling. */
  function AllNondangling(net: Network): set<EdgeId> {
    set e | e in AllEdges(net) && Bonded(net, e)
  }

  /** The copy nodes of the network. */
  function CopyNodes(net: Network): set<Node> {
    set n | n in net.nodesSet && n.isCopy
  }

  /** Every edge of a valid network is described in its edge table, with a
      positive dimension. */
  lemma AllEdgesAreKnown(net: Network)
    requires Valid(net)
    ensures forall e :: e in AllEdges(net) ==> e in net.edgeTable && net.edgeTable[e].dimension > 0
  {
  }
}
