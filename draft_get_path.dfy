/**
  The edge remapping of the commented-out, work-in-progress `get_path`
  (utils.py, lines 106-110), kept apart from the live version so that the
  two can be compared. There every edge of a copy node is replaced, in the
  input sets of the ordinary nodes, by that copy node's first non-dangling
  edge, so all tensors on one hyperedge share one edge identity.
 */
module DraftPath {
  import opened Wrappers
  import opened TensorNetwork
  import opened Utils

  /** The edge map of lines 106-108: the copy nodes are visited in `order`
      and each maps all of its edges to its first non-dangling edge, later
      copy nodes overwriting earlier ones. So every mapped edge belongs to a
      visited copy node and maps to that node's first non-dangling edge. A
      copy node without a non-dangling edge would store `None` for its edges;
      those edges are all dangling and so belong to no ordinary node, and such
      a copy node is skipped here. */
  function DraftEdgeMap(copyNodes: map<Node, Option<EdgeId>>, order: seq<Node>): (r: map<EdgeId, EdgeId>)
    requires forall i :: 0 <= i < |order| ==> order[i] in copyNodes
    ensures forall e :: e in r ==> exists i :: 0 <= i < |order| && e in order[i].edges && copyNodes[order[i]] == Some(r[e])
  {
    if order == [] then map[]
    else
      var c := order[|order| - 1];
      DraftEdgeMap(copyNodes, order[..|order| - 1]) +
        (if copyNodes[c].Some? then map e | e in c.edges :: copyNodes[c].value else map[])
  }

  /** An edge under `edgeMap`: its image when it has one, itself otherwise. */
  function Renamed(edgeMap: map<EdgeId, EdgeId>, e: EdgeId): (r: EdgeId)
    ensures e !in edgeMap ==> r == e
    ensures e in edgeMap ==> r in edgeMap.Values
  {
    if e in edgeMap then edgeMap[e] else e
  }

  /** The input sets of lines 109-110: each node's edges, renamed. */
  function RemappedInputSets(nodes: seq<Node>, edgeMap: map<EdgeId, EdgeId>): (r: seq<set<EdgeId>>)
    ensures |r| == |nodes|
    ensures forall i, e :: 0 <= i < |nodes| && e in nodes[i].edges ==> Renamed(edgeMap, e) in r[i]
    ensures forall i, x :: 0 <= i < |nodes| && x in r[i] ==> exists e :: e in nodes[i].edges && x == Renamed(edgeMap, e)
  {
    seq(|nodes|, i requires 0 <= i < |nodes| => set e | e in nodes[i].edges :: Renamed(edgeMap, e))
  }

  /** An edge listed by exactly one copy node maps to that copy node's
      first non-dangling edge, whatever the visiting order. */
  lemma {:induction false} DraftEdgeMapAt(copyNodes: map<Node, Option<EdgeId>>, order: seq<Node>, c: Node, e: EdgeId)
    requires forall i :: 0 <= i < |order| ==> order[i] in copyNodes
    requires c in order && e in c.edges && copyNodes[c].Some?
    requires forall i :: 0 <= i < |order| && e in order[i].edges ==> order[i] == c
    ensures e in DraftEdgeMap(copyNodes, order) && DraftEdgeMap(copyNodes, order)[e] == copyNodes[c].value
  {
    var last := order[|order| - 1];
    var front := order[..|order| - 1];
    if last != c {
      assert c in front by {
        var i :| 0 <= i < |order| && order[i] == c;
        assert i < |order| - 1 && front[i] == c;
      }
      DraftEdgeMapAt(copyNodes, front, c, e);
    }
  }

  /** Every edge of every visited copy node that has a representative is
      mapped, including an edge that several copy nodes share. */
  lemma {:induction false} DraftEdgeMapCovers(copyNodes: map<Node, Option<EdgeId>>, order: seq<Node>)
    requires forall i :: 0 <= i < |order| ==> order[i] in copyNodes
    ensures forall i, e :: 0 <= i < |order| && copyNodes[order[i]].Some? && e in order[i].edges ==>
              e in DraftEdgeMap(copyNodes, order)
  {
    if order != [] {
      var front := order[..|order| - 1];
      DraftEdgeMapCovers(copyNodes, front);
      forall i, e | 0 <= i < |order| && copyNodes[order[i]].Some? && e in order[i].edges
        ensures e in DraftEdgeMap(copyNodes, order)
      {
        if i < |order| - 1 {
          assert front[i] == order[i];
          assert e in DraftEdgeMap(copyNodes, front);
        }
      }
    }
  }

  /** An edge that copy node `c` shares with an ordinary node `n` is
      non-dangling and joins only `c` and `n`, so no other copy node lists it
      and the draft maps it to `c`'s first non-dangling edge, whatever the
      visiting order. */
  lemma DraftMapsSharedEdge(net: Network, copyNodes: map<Node, Option<EdgeId>>, order: seq<Node>, c: Node, n: Node, e: EdgeId)
    requires Valid(net) && IsCopyNodeTable(net, copyNodes)
    requires forall i :: 0 <= i < |order| ==> order[i] in copyNodes
    requires forall d :: d in copyNodes ==> d in order
    requires c in copyNodes && n in net.nodesSet && !n.isCopy
    requires e in n.edges && e in c.edges
    ensures copyNodes[c].Some?
    ensures e in DraftEdgeMap(copyNodes, order) && DraftEdgeMap(copyNodes, order)[e] == copyNodes[c].value
  {
    assert c in CopyNodes(net);
    assert n.signature != c.signature;
    var j :| 0 <= j < |c.edges| && c.edges[j] == e;
    assert Bonded(net, c.edges[j]);
    forall i | 0 <= i < |order| && e in order[i].edges
      ensures order[i] == c
    {
      assert order[i] in CopyNodes(net) && net.edgeTable[e].Joins(order[i].signature);
    }
    DraftEdgeMapAt(copyNodes, order, c, e);
  }

  /** Every ordinary node that shares an edge with copy node `c` holds
      `c`'s representative edge in its remapped input set; so all of them
      hold the same one. */
  lemma DraftSharesRepresentative(net: Network, copyNodes: map<Node, Option<EdgeId>>, order: seq<Node>, c: Node, p: int, e: EdgeId)
    requires Valid(net) && IsCopyNodeTable(net, copyNodes)
    requires forall i :: 0 <= i < |order| ==> order[i] in copyNodes
    requires forall d :: d in copyNodes ==> d in order
    requires c in copyNodes
    requires 0 <= p < |SortedNodes(net)| && e in SortedNodes(net)[p].edges && e in c.edges
    ensures copyNodes[c].Some?
    ensures copyNodes[c].value in RemappedInputSets(SortedNodes(net), DraftEdgeMap(copyNodes, order))[p]
  {
    var sorted := SortedNodes(net);
    var edgeMap := DraftEdgeMap(copyNodes, order);
    assert sorted[p] in sorted;
    DraftMapsSharedEdge(net, copyNodes, order, c, sorted[p], e);
    assert Renamed(edgeMap, e) == copyNodes[c].value;
  }

  /** Renaming by an empty map changes no input set. */
  lemma RemappedByNothing(nodes: seq<Node>)
    ensures RemappedInputSets(nodes, map[]) == InputSets(nodes)
  {
    var remapped, plain := RemappedInputSets(nodes, map[]), InputSets(nodes);
    forall i | 0 <= i < |nodes|
      ensures remapped[i] == plain[i]
    {
      forall x
        ensures x in remapped[i] <==> x in plain[i]
      {
        assert Renamed(map[], x) == x;
      }
    }
  }

  /** Without copy nodes the draft computes the same input sets as the live
      version. */
  lemma DraftAgreesWithoutCopies(net: Network, copyNodes: map<Node, Option<EdgeId>>, order: seq<Node>)
    requires Valid(net) && IsCopyNodeTable(net, copyNodes) && CopyNodes(net) == {}
    requires forall i :: 0 <= i < |order| ==> order[i] in copyNodes
    ensures RemappedInputSets(SortedNodes(net), DraftEdgeMap(copyNodes, order)) == InputSets(SortedNodes(net))
  {
    assert copyNodes.Keys == {};
    assert DraftEdgeMap(copyNodes, order) == map[];
    RemappedByNothing(SortedNodes(net));
  }

  /** Without edges between copy nodes, the draft's edge map agrees with the
      live `edge_map` on every edge the live one maps. */
  lemma DraftAgreesWithEdgeMap(net: Network, copyNodes: map<Node, Option<EdgeId>>, order: seq<Node>, m: CopyMaps, e: EdgeId)
    requires Valid(net) && IsCopyNodeTable(net, copyNodes) && IsCopyMapsOf(net, copyNodes, m)
    requires NoCopyToCopyEdges(net)
    requires forall i :: 0 <= i < |order| ==> order[i] in copyNodes
    requires forall d :: d in copyNodes ==> d in order
    requires e in m.edgeMap
    ensures e in DraftEdgeMap(copyNodes, order) && DraftEdgeMap(copyNodes, order)[e] == m.edgeMap[e]
  {
    var c, i :| c in copyNodes.Keys && 0 <= i < |c.edges| && Bonded(net, c.edges[i]) && e == c.edges[i];
    EdgeMapToOwnRepresentative(net, copyNodes, m, c, i);
    DraftEdgeMapAt(copyNodes, order, c, e);
  }
}
