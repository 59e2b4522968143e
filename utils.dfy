/**
  The helpers of the contraction-path planner: removing several list positions
  at once, finding a copy node's first non-dangling edge, and `get_path`, which
  turns a tensor network into the inputs of a pairwise-contraction optimizer
  and returns the optimizer's path with the node order it indexes into.
 */
module Utils {
  import opened Wrappers
  import opened TensorNetwork

  // ---------------------------------------------------------------------------
  // multi_remove
  // ---------------------------------------------------------------------------

  /** The elements of `elems` whose position does not occur in `indices`, in
      their original order. A position is compared by value with the entries of
      `indices`, so negative or too large entries remove nothing. */
  function MultiRemove<T>(elems: seq<T>, indices: seq<int>): (r: seq<T>)
    ensures |r| <= |elems|
  {
    if elems == [] then []
    else
      var last := |elems| - 1;
      MultiRemove(elems[..last], indices) + (if last in indices then [] else [elems[last]])
  }

  /** Reference description of what `MultiRemove` keeps: the positions below
      `n` that are not listed in `indices`, in ascending order. */
  function KeptPositions(n: nat, indices: seq<int>): (r: seq<int>)
    ensures forall k :: 0 <= k < |r| ==> 0 <= r[k] < n && r[k] !in indices
    ensures forall j :: 0 <= j < n && j !in indices ==> j in r
    ensures forall k, l :: 0 <= k < l < |r| ==> r[k] < r[l]
  {
    if n == 0 then []
    else KeptPositions(n - 1, indices) + (if n - 1 in indices then [] else [n - 1])
  }

  /** The positions below `n` that `indices` lists. */
  function RemovedPositions(n: nat, indices: seq<int>): set<int> {
    set j | j in indices && 0 <= j < n
  }

  /** `MultiRemove` keeps exactly the elements at the kept positions, in order. */
  lemma {:induction false} MultiRemoveSelects<T>(elems: seq<T>, indices: seq<int>)
    ensures |MultiRemove(elems, indices)| == |KeptPositions(|elems|, indices)|
    ensures forall k :: 0 <= k < |MultiRemove(elems, indices)| ==>
              MultiRemove(elems, indices)[k] == elems[KeptPositions(|elems|, indices)[k]]
  {
    if elems != [] {
      var last := |elems| - 1;
      var front := elems[..last];
      MultiRemoveSelects(front, indices);
      var rest, kept := MultiRemove(front, indices), KeptPositions(last, indices);
      assert MultiRemove(elems, indices) == rest + (if last in indices then [] else [elems[last]]);
      assert KeptPositions(|elems|, indices) == kept + (if last in indices then [] else [last]);
      forall k | 0 <= k < |rest|
        ensures rest[k] == elems[kept[k]]
      {
        assert front[kept[k]] == elems[kept[k]];
      }
    }
  }

  /** The result is shorter than the input by the number of distinct
      in-range positions listed. */
  lemma {:induction false} MultiRemoveLength<T>(elems: seq<T>, indices: seq<int>)
    ensures |MultiRemove(elems, indices)| == |elems| - |RemovedPositions(|elems|, indices)|
  {
    if elems != [] {
      var last := |elems| - 1;
      MultiRemoveLength(elems[..last], indices);
      var before := RemovedPositions(last, indices);
      if last in indices {
        assert RemovedPositions(|elems|, indices) == before + {last};
        assert last !in before;
      } else {
        assert RemovedPositions(|elems|, indices) == before;
      }
    }
  }

  /** Only the in-range entries of `indices` matter. */
  lemma {:induction false} MultiRemoveInRangeOnly<T>(elems: seq<T>, indices: seq<int>, indices': seq<int>)
    requires forall j :: 0 <= j < |elems| ==> (j in indices <==> j in indices')
    ensures MultiRemove(elems, indices) == MultiRemove(elems, indices')
  {
    if elems != [] {
      var last := |elems| - 1;
      MultiRemoveInRangeOnly(elems[..last], indices, indices');
    }
  }

  /** With no in-range index (in particular with no index at all) nothing is
      removed. */
  lemma {:induction false} MultiRemoveIdentity<T>(elems: seq<T>, indices: seq<int>)
    requires forall j :: 0 <= j < |elems| ==> j !in indices
    ensures MultiRemove(elems, indices) == elems
  {
    if elems != [] {
      var last := |elems| - 1;
      MultiRemoveIdentity(elems[..last], indices);
      assert elems[..last] + [elems[last]] == elems;
    }
  }

  // ---------------------------------------------------------------------------
  // get_first_nondangling
  // ---------------------------------------------------------------------------

  /** `r` is what a scan of `edges` for the first non-dangling edge returns:
      `None` when every edge is dangling, otherwise the first edge that is not. */
  ghost predicate IsFirstNondangling(net: Network, edges: seq<EdgeId>, r: Option<EdgeId>) {
    match r
    case None => forall i :: 0 <= i < |edges| ==> !Bonded(net, edges[i])
    case Some(e) =>
      exists k :: 0 <= k < |edges| && edges[k] == e && Bonded(net, e) &&
                  forall j :: 0 <= j < k ==> !Bonded(net, edges[j])
  }

  /** At most one answer fits the description. */
  lemma FirstNondanglingUnique(net: Network, edges: seq<EdgeId>, r: Option<EdgeId>, r': Option<EdgeId>)
    requires IsFirstNondangling(net, edges, r) && IsFirstNondangling(net, edges, r')
    ensures r == r'
  {
    if r.Some? && r'.Some? {
      var k :| 0 <= k < |edges| && edges[k] == r.value && Bonded(net, r.value) &&
               forall j :: 0 <= j < k ==> !Bonded(net, edges[j]);
      var k' :| 0 <= k' < |edges| && edges[k'] == r'.value && Bonded(net, r'.value) &&
                forall j :: 0 <= j < k' ==> !Bonded(net, edges[j]);
      assert !(k < k') && !(k' < k);
    }
  }

  /** The first non-dangling edge of a node, or `None`. */
  method GetFirstNondangling(net: Network, node: Node) returns (r: Option<EdgeId>)
    requires forall e :: e in node.edges ==> e in net.edgeTable
    ensures IsFirstNondangling(net, node.edges, r)
    ensures r.None? <==> forall i :: 0 <= i < |node.edges| ==> net.edgeTable[node.edges[i]].IsDangling()
  {
    for i := 0 to |node.edges|
      invariant forall j :: 0 <= j < i ==> !Bonded(net, node.edges[j])
    {
      var edge := node.edges[i];
      if !net.edgeTable[edge].IsDangling() {
        return Some(edge);
      }
    }
    return None;
  }

  // ---------------------------------------------------------------------------
  // Sorting the ordinary nodes by signature
  // ---------------------------------------------------------------------------

  predicate IsMinSignature(m: Node, s: set<Node>) {
    m in s && forall x :: x in s ==> m.signature <= x.signature
  }

  lemma {:induction false} MinSignatureExists(s: set<Node>)
    requires s != {}
    ensures exists m :: IsMinSignature(m, s)
    decreases |s|
  {
    var x :| x in s;
    if s != {x} {
      MinSignatureExists(s - {x});
      var m :| IsMinSignature(m, s - {x});
      if x.signature < m.signature {
        assert IsMinSignature(x, s);
      } else {
        assert IsMinSignature(m, s);
      }
    } else {
      assert IsMinSignature(x, s);
    }
  }

  /** The node of smallest signature. */
  function MinBySignature(s: set<Node>): (m: Node)
    requires s != {} && UniqueSignatures(s)
    ensures IsMinSignature(m, s)
  {
    MinSignatureExists(s);
    var m :| IsMinSignature(m, s); m
  }

  /** `sorted(s, key=lambda n: n.signature)`: every node of `s` exactly once,
      in strictly ascending signature order. */
  function SortBySignature(s: set<Node>): (r: seq<Node>)
    requires UniqueSignatures(s)
    ensures |r| == |s|
    ensures forall n :: n in r <==> n in s
    ensures forall i, j :: 0 <= i < j < |r| ==> r[i].signature < r[j].signature
    decreases s
  {
    if s == {} then []
    else
      var m := MinBySignature(s);
      var rest := SortBySignature(s - {m});
      assert forall n :: n in rest ==> m.signature < n.signature;
      [m] + rest
  }

  /** The ordinary nodes of the network in the order the path refers to. */
  function SortedNodes(net: Network): (r: seq<Node>)
    requires Valid(net)
    ensures forall n :: n in r <==> n in net.nodesSet && !n.isCopy
    ensures forall i, j :: 0 <= i < j < |r| ==> r[i].signature < r[j].signature
  {
    SortBySignature(net.nodesSet - CopyNodes(net))
  }

  // ---------------------------------------------------------------------------
  // The copy-node maps (edge_map, node_to_copies, copy_to_nodes)
  // ---------------------------------------------------------------------------

  /** An error raised while planning. */
  datatype PyError =
    | KeyError        // `pop` from an empty set
    | AttributeError  // `add` called on a dict

  /** The three maps built from the copy nodes. Copy nodes and their
      neighbours are named by signature. */
  datatype CopyMaps = CopyMaps(
    edgeMap: map<EdgeId, EdgeId>,
    nodeToCopies: map<NodeId, set<NodeId>>,
    copyToNodes: map<NodeId, set<NodeId>>)

  /** The node on the far side of a non-dangling edge seen from copy node `c`:
      the single element of `{node1, node2} - {c}`, or `None` when that set is
      empty because the edge is a loop on `c`. */
  function OtherEnd(edge: Edge, c: NodeId): (r: Option<NodeId>)
    requires !edge.IsDangling()
    ensures r.Some? ==> r.value != c && edge.Joins(r.value)
    ensures r.None? <==> edge.node1 == c && edge.node2 == Some(c)
  {
    if edge.node1 != c then Some(edge.node1)
    else if edge.node2.value != c then Some(edge.node2.value)
    else None
  }

  /** Edge `c.edges[i]` is non-dangling and leads to a node other than `c`. */
  predicate LinkAt(net: Network, c: Node, i: int)
    requires 0 <= i < |c.edges|
  {
    Bonded(net, c.edges[i]) && OtherEnd(net.edgeTable[c.edges[i]], c.signature).Some?
  }

  /** The far endpoint of a link. */
  function LinkEnd(net: Network, c: Node, i: int): NodeId
    requires 0 <= i < |c.edges| && LinkAt(net, c, i)
  {
    OtherEnd(net.edgeTable[c.edges[i]], c.signature).value
  }

  /** The non-dangling edges among the first `k` edges of `c`. */
  ghost function BondsUpTo(net: Network, c: Node, k: nat): set<EdgeId>
    requires k <= |c.edges|
  {
    set i | 0 <= i < k && Bonded(net, c.edges[i]) :: c.edges[i]
  }

  /** All non-dangling edges of the nodes in `cs`. */
  ghost function BondedEdges(net: Network, cs: set<Node>): set<EdgeId> {
    set c, i | c in cs && 0 <= i < |c.edges| && Bonded(net, c.edges[i]) :: c.edges[i]
  }

  /** The (copy, neighbour) pairs given by the first `k` edges of `c`. */
  ghost function LinksUpTo(net: Network, c: Node, k: nat): set<(NodeId, NodeId)>
    requires k <= |c.edges|
  {
    set i | 0 <= i < k && LinkAt(net, c, i) :: (c.signature, LinkEnd(net, c, i))
  }

  /** The (copy, neighbour) pairs given by all edges of the nodes in `cs`. */
  ghost function Links(net: Network, cs: set<Node>): set<(NodeId, NodeId)> {
    set c, i | c in cs && 0 <= i < |c.edges| && LinkAt(net, c, i) :: (c.signature, LinkEnd(net, c, i))
  }

  ghost function Signatures(cs: set<Node>): set<NodeId> {
    set c | c in cs :: c.signature
  }

  /** No non-dangling edge of a node in `cs` is a loop on that node. */
  ghost predicate NoLoopsAmong(net: Network, cs: set<Node>) {
    forall c, i :: c in cs && 0 <= i < |c.edges| && Bonded(net, c.edges[i]) ==> LinkAt(net, c, i)
  }

  /** Some copy node has a non-dangling edge that is a loop on itself. */
  ghost predicate CopySelfLoop(net: Network) {
    !NoLoopsAmong(net, CopyNodes(net))
  }

  /** No edge is listed by two different copy nodes. */
  ghost predicate NoCopyToCopyEdges(net: Network) {
    forall c, d, e :: c in CopyNodes(net) && d in CopyNodes(net) && e in c.edges && e in d.edges ==> c == d
  }

  /** `copy_to_nodes` is the relation `links` read from the copy side, with an
      entry (possibly empty) for every copy in `copies`. */
  ghost predicate CopyToNodesView(ctn: map<NodeId, set<NodeId>>, copies: set<NodeId>, links: set<(NodeId, NodeId)>) {
    && ctn.Keys == copies
    && forall c :: c in ctn ==> ctn[c] == set p | p in links && p.0 == c :: p.1
  }

  /** `node_to_copies` is the relation `links` read from the neighbour side,
      with an entry exactly for the nodes that have a copy neighbour. */
  ghost predicate NodeToCopiesView(ntc: map<NodeId, set<NodeId>>, links: set<(NodeId, NodeId)>) {
    && ntc.Keys == (set p | p in links :: p.1)
    && forall n :: n in ntc ==> ntc[n] == set p | p in links && p.1 == n :: p.0
  }

  /** `rep` is the chosen edge of some copy node in `cs` that owns `e`. */
  ghost predicate RepresentedBy(net: Network, copyNodes: map<Node, Option<EdgeId>>, cs: set<Node>, e: EdgeId, rep: EdgeId) {
    exists c :: c in cs && c in copyNodes && e in c.edges && copyNodes[c] == Some(rep)
  }

  /** The state after the copy nodes `done` have been processed. */
  ghost predicate MapsAfter(net: Network, copyNodes: map<Node, Option<EdgeId>>, done: set<Node>, m: CopyMaps) {
    && m.edgeMap.Keys == BondedEdges(net, done)
    && (forall e :: e in m.edgeMap ==> RepresentedBy(net, copyNodes, done, e, m.edgeMap[e]))
    && CopyToNodesView(m.copyToNodes, Signatures(done), Links(net, done))
    && NodeToCopiesView(m.nodeToCopies, Links(net, done))
  }

  /** The maps the copy loop of `get_path` is meant to build: every
      non-dangling edge of a copy node maps to the chosen edge of a copy node
      owning it, `copy_to_nodes` lists each copy node's neighbours and
      `node_to_copies` each node's copy neighbours. */
  ghost predicate IsCopyMapsOf(net: Network, copyNodes: map<Node, Option<EdgeId>>, m: CopyMaps) {
    MapsAfter(net, copyNodes, copyNodes.Keys, m)
  }

  /** What the copy-node dictionary of `get_path` holds: each copy node with
      its first non-dangling edge. */
  ghost predicate IsCopyNodeTable(net: Network, copyNodes: map<Node, Option<EdgeId>>) {
    && copyNodes.Keys == CopyNodes(net)
    && forall c :: c in copyNodes ==> IsFirstNondangling(net, c.edges, copyNodes[c])
  }

  lemma BondsUpToStep(net: Network, c: Node, k: nat)
    requires k < |c.edges|
    ensures BondsUpTo(net, c, k + 1) ==
            BondsUpTo(net, c, k) + (if Bonded(net, c.edges[k]) then {c.edges[k]} else {})
  {
  }

  lemma LinksUpToStep(net: Network, c: Node, k: nat)
    requires k < |c.edges|
    ensures LinksUpTo(net, c, k + 1) ==
            LinksUpTo(net, c, k) + (if LinkAt(net, c, k) then {(c.signature, LinkEnd(net, c, k))} else {})
  {
  }

  lemma AddCopy(net: Network, cs: set<Node>, c: Node)
    ensures BondedEdges(net, cs + {c}) == BondedEdges(net, cs) + BondsUpTo(net, c, |c.edges|)
    ensures Links(net, cs + {c}) == Links(net, cs) + LinksUpTo(net, c, |c.edges|)
    ensures Signatures(cs + {c}) == Signatures(cs) + {c.signature}
  {
  }

  lemma CopyToNodesViewOpen(ctn: map<NodeId, set<NodeId>>, copies: set<NodeId>, links: set<(NodeId, NodeId)>, c: NodeId)
    requires CopyToNodesView(ctn, copies, links)
    requires forall p :: p in links ==> p.0 != c
    ensures CopyToNodesView(ctn[c := {}], copies + {c}, links)
  {
    var ctn' := ctn[c := {}];
    forall c' | c' in ctn'
      ensures ctn'[c'] == set p | p in links && p.0 == c' :: p.1
    {
      if c' == c {
        assert (set p | p in links && p.0 == c' :: p.1) == {};
      }
    }
  }

  lemma CopyToNodesViewAdd(ctn: map<NodeId, set<NodeId>>, copies: set<NodeId>, links: set<(NodeId, NodeId)>, c: NodeId, n: NodeId)
    requires CopyToNodesView(ctn, copies, links) && c in copies
    ensures CopyToNodesView(ctn[c := ctn[c] + {n}], copies, links + {(c, n)})
  {
    var ctn', links' := ctn[c := ctn[c] + {n}], links + {(c, n)};
    forall c' | c' in ctn'
      ensures ctn'[c'] == set p | p in links' && p.0 == c' :: p.1
    {
      if c' == c {
        assert (set p | p in links' && p.0 == c' :: p.1) == (set p | p in links && p.0 == c' :: p.1) + {n};
      } else {
        assert (set p | p in links' && p.0 == c' :: p.1) == (set p | p in links && p.0 == c' :: p.1);
      }
    }
  }

  lemma NodeToCopiesViewAdd(ntc: map<NodeId, set<NodeId>>, links: set<(NodeId, NodeId)>, c: NodeId, n: NodeId)
    requires NodeToCopiesView(ntc, links)
    ensures NodeToCopiesView(ntc[n := if n in ntc then ntc[n] + {c} else {c}], links + {(c, n)})
  {
    var ntc', links' := ntc[n := if n in ntc then ntc[n] + {c} else {c}], links + {(c, n)};
    assert (set p | p in links' :: p.1) == (set p | p in links :: p.1) + {n};
    forall n' | n' in ntc'
      ensures ntc'[n'] == set p | p in links' && p.1 == n' :: p.0
    {
      if n' == n {
        assert (set p | p in links' && p.1 == n' :: p.0) == (set p | p in links && p.1 == n' :: p.0) + {c};
        if n !in ntc {
          assert (set p | p in links && p.1 == n' :: p.0) == {};
        }
      } else {
        assert (set p | p in links' && p.1 == n' :: p.0) == (set p | p in links && p.1 == n' :: p.0);
      }
    }
  }

  /** The state in the middle of visiting copy node `copy`: the copy nodes
      `done` are complete and the first `k` edges of `copy` are processed. */
  ghost predicate Visiting(net: Network, copyNodes: map<Node, Option<EdgeId>>, done: set<Node>, copy: Node, k: nat, m: CopyMaps) {
    && k <= |copy.edges|
    && (forall i :: 0 <= i < k && Bonded(net, copy.edges[i]) ==> LinkAt(net, copy, i))
    && m.edgeMap.Keys == BondedEdges(net, done) + BondsUpTo(net, copy, k)
    && (forall e :: e in m.edgeMap ==> RepresentedBy(net, copyNodes, done + {copy}, e, m.edgeMap[e]))
    && CopyToNodesView(m.copyToNodes, Signatures(done) + {copy.signature}, Links(net, done) + LinksUpTo(net, copy, k))
    && NodeToCopiesView(m.nodeToCopies, Links(net, done) + LinksUpTo(net, copy, k))
  }

  /** No pair recorded for the nodes `done` starts at a node outside them. */
  lemma LinksAvoid(net: Network, done: set<Node>, copy: Node)
    requires UniqueSignatures(done + {copy}) && copy !in done
    ensures forall p :: p in Links(net, done) ==> p.0 != copy.signature
  {
    forall p | p in Links(net, done)
      ensures p.0 != copy.signature
    {
      var c, i :| c in done && 0 <= i < |c.edges| && LinkAt(net, c, i) && p == (c.signature, LinkEnd(net, c, i));
      assert c != copy;
    }
  }

  lemma VisitStart(net: Network, copyNodes: map<Node, Option<EdgeId>>, done: set<Node>, copy: Node, m: CopyMaps)
    requires UniqueSignatures(done + {copy}) && copy !in done
    requires MapsAfter(net, copyNodes, done, m)
    ensures Visiting(net, copyNodes, done, copy, 0, m.(copyToNodes := m.copyToNodes[copy.signature := {}]))
  {
    LinksAvoid(net, done, copy);
    CopyToNodesViewOpen(m.copyToNodes, Signatures(done), Links(net, done), copy.signature);
    assert BondsUpTo(net, copy, 0) == {} && LinksUpTo(net, copy, 0) == {};
  }

  lemma VisitUnlinked(net: Network, copyNodes: map<Node, Option<EdgeId>>, done: set<Node>, copy: Node, k: nat, m: CopyMaps)
    requires Visiting(net, copyNodes, done, copy, k, m)
    requires k < |copy.edges| && !Bonded(net, copy.edges[k])
    ensures Visiting(net, copyNodes, done, copy, k + 1, m)
  {
    BondsUpToStep(net, copy, k);
    LinksUpToStep(net, copy, k);
  }

  /** Lines 64-70 for one non-dangling edge `e` of copy node `c` whose far
      endpoint is `n`: map `e` to the representative `rep` and record `n` and
      `c` as neighbours of each other. */
  function RecordLink(m: CopyMaps, e: EdgeId, rep: EdgeId, c: NodeId, n: NodeId): (r: CopyMaps)
    requires c in m.copyToNodes
    ensures r.edgeMap.Keys == m.edgeMap.Keys + {e} && r.edgeMap[e] == rep
    ensures r.copyToNodes.Keys == m.copyToNodes.Keys && r.nodeToCopies.Keys == m.nodeToCopies.Keys + {n}
  {
    CopyMaps(m.edgeMap[e := rep],
             m.nodeToCopies[n := if n in m.nodeToCopies then m.nodeToCopies[n] + {c} else {c}],
             m.copyToNodes[c := m.copyToNodes[c] + {n}])
  }

  /** Recording one edge changes no other entry of `edge_map` and adds
      exactly the pair (`c`, `n`) to the adjacency, on both of its sides. */
  lemma RecordLinkAddsPair(m: CopyMaps, e: EdgeId, rep: EdgeId, c: NodeId, n: NodeId)
    requires c in m.copyToNodes
    ensures forall x :: x in m.edgeMap && x != e ==> RecordLink(m, e, rep, c, n).edgeMap[x] == m.edgeMap[x]
    ensures forall a, b :: (a in RecordLink(m, e, rep, c, n).copyToNodes && b in RecordLink(m, e, rep, c, n).copyToNodes[a]) <==>
                           ((a in m.copyToNodes && b in m.copyToNodes[a]) || (a, b) == (c, n))
    ensures forall a, b :: (b in RecordLink(m, e, rep, c, n).nodeToCopies && a in RecordLink(m, e, rep, c, n).nodeToCopies[b]) <==>
                           ((b in m.nodeToCopies && a in m.nodeToCopies[b]) || (a, b) == (c, n))
  {
  }

  /** The `edge_map` half of `VisitLinked`. */
  lemma VisitLinkedEdges(net: Network, copyNodes: map<Node, Option<EdgeId>>, done: set<Node>, copy: Node, k: nat, m: CopyMaps, rep: EdgeId)
    requires Visiting(net, copyNodes, done, copy, k, m)
    requires k < |copy.edges| && LinkAt(net, copy, k)
    requires copy in copyNodes && copyNodes[copy] == Some(rep)
    ensures m.edgeMap[copy.edges[k] := rep].Keys == BondedEdges(net, done) + BondsUpTo(net, copy, k + 1)
    ensures RepresentedBy(net, copyNodes, done + {copy}, copy.edges[k], rep)
  {
    BondsUpToStep(net, copy, k);
    assert copy in done + {copy} && copy.edges[k] in copy.edges;
  }

  /** The adjacency half of `VisitLinked`. */
  lemma VisitLinkedAdjacency(net: Network, copyNodes: map<Node, Option<EdgeId>>, done: set<Node>, copy: Node, k: nat, m: CopyMaps)
    requires Visiting(net, copyNodes, done, copy, k, m)
    requires k < |copy.edges| && LinkAt(net, copy, k)
    ensures copy.signature in m.copyToNodes
    ensures CopyToNodesView(m.copyToNodes[copy.signature := m.copyToNodes[copy.signature] + {LinkEnd(net, copy, k)}],
                            Signatures(done) + {copy.signature}, Links(net, done) + LinksUpTo(net, copy, k + 1))
    ensures NodeToCopiesView(m.nodeToCopies[LinkEnd(net, copy, k) :=
                               if LinkEnd(net, copy, k) in m.nodeToCopies
                               then m.nodeToCopies[LinkEnd(net, copy, k)] + {copy.signature}
                               else {copy.signature}],
                             Links(net, done) + LinksUpTo(net, copy, k + 1))
  {
    var n := LinkEnd(net, copy, k);
    LinksUpToStep(net, copy, k);
    var links := Links(net, done) + LinksUpTo(net, copy, k);
    CopyToNodesViewAdd(m.copyToNodes, Signatures(done) + {copy.signature}, links, copy.signature, n);
    NodeToCopiesViewAdd(m.nodeToCopies, links, copy.signature, n);
    assert links + {(copy.signature, n)} == Links(net, done) + LinksUpTo(net, copy, k + 1);
  }

  lemma VisitLinked(net: Network, copyNodes: map<Node, Option<EdgeId>>, done: set<Node>, copy: Node, k: nat, m: CopyMaps, rep: EdgeId)
    requires Visiting(net, copyNodes, done, copy, k, m)
    requires k < |copy.edges| && LinkAt(net, copy, k)
    requires copy in copyNodes && copyNodes[copy] == Some(rep)
    ensures copy.signature in m.copyToNodes
    ensures Visiting(net, copyNodes, done, copy, k + 1,
                     RecordLink(m, copy.edges[k], rep, copy.signature, LinkEnd(net, copy, k)))
  {
    VisitLinkedEdges(net, copyNodes, done, copy, k, m, rep);
    VisitLinkedAdjacency(net, copyNodes, done, copy, k, m);
    var r := RecordLink(m, copy.edges[k], rep, copy.signature, LinkEnd(net, copy, k));
    forall e | e in r.edgeMap
      ensures RepresentedBy(net, copyNodes, done + {copy}, e, r.edgeMap[e])
    {
      if e != copy.edges[k] {
        assert e in m.edgeMap && r.edgeMap[e] == m.edgeMap[e];
      }
    }
  }

  lemma VisitEnd(net: Network, copyNodes: map<Node, Option<EdgeId>>, done: set<Node>, copy: Node, m: CopyMaps)
    requires Visiting(net, copyNodes, done, copy, |copy.edges|, m)
    requires NoLoopsAmong(net, done)
    ensures MapsAfter(net, copyNodes, done + {copy}, m)
    ensures NoLoopsAmong(net, done + {copy})
  {
    AddCopy(net, done, copy);
  }

  /** No non-dangling edge among the first `k` edges of `copy` is a loop. */
  ghost predicate LinksOnlyUpTo(net: Network, copy: Node, k: nat)
    requires k <= |copy.edges|
  {
    forall i :: 0 <= i < k && Bonded(net, copy.edges[i]) ==> LinkAt(net, copy, i)
  }

  /** The maps after the first `k` edges of `copy` are recorded into `m`; the
      copy loop below is proved to compute exactly this. */
  ghost function Recorded(net: Network, copy: Node, rep: Option<EdgeId>, k: nat, m: CopyMaps): (r: CopyMaps)
    requires k <= |copy.edges| && LinksOnlyUpTo(net, copy, k)
    requires IsFirstNondangling(net, copy.edges, rep)
    requires copy.signature in m.copyToNodes
    ensures copy.signature in r.copyToNodes
  {
    if k == 0 then m
    else
      var prev := Recorded(net, copy, rep, k - 1, m);
      if LinkAt(net, copy, k - 1) then
        RecordLink(prev, copy.edges[k - 1], rep.value, copy.signature, LinkEnd(net, copy, k - 1))
      else prev
  }

  /** One more edge of `copy` recorded keeps the visiting invariant. */
  lemma RecordedStep(net: Network, copyNodes: map<Node, Option<EdgeId>>, done: set<Node>, copy: Node, j: nat, m: CopyMaps)
    requires j < |copy.edges| && LinksOnlyUpTo(net, copy, j + 1)
    requires copy in copyNodes && IsFirstNondangling(net, copy.edges, copyNodes[copy])
    requires copy.signature in m.copyToNodes
    requires Visiting(net, copyNodes, done, copy, j, Recorded(net, copy, copyNodes[copy], j, m))
    ensures Visiting(net, copyNodes, done, copy, j + 1, Recorded(net, copy, copyNodes[copy], j + 1, m))
  {
    var prev := Recorded(net, copy, copyNodes[copy], j, m);
    var next := Recorded(net, copy, copyNodes[copy], j + 1, m);
    if LinkAt(net, copy, j) {
      assert Bonded(net, copy.edges[j]);
      var rep := copyNodes[copy].value;
      assert next == RecordLink(prev, copy.edges[j], rep, copy.signature, LinkEnd(net, copy, j));
      VisitLinked(net, copyNodes, done, copy, j, prev, rep);
    } else {
      assert next == prev;
      VisitUnlinked(net, copyNodes, done, copy, j, prev);
    }
  }

  lemma {:induction false} RecordedIsVisiting(net: Network, copyNodes: map<Node, Option<EdgeId>>, done: set<Node>, copy: Node, k: nat, m: CopyMaps)
    requires k <= |copy.edges| && LinksOnlyUpTo(net, copy, k)
    requires copy in copyNodes && IsFirstNondangling(net, copy.edges, copyNodes[copy])
    requires Visiting(net, copyNodes, done, copy, 0, m)
    ensures Visiting(net, copyNodes, done, copy, k, Recorded(net, copy, copyNodes[copy], k, m))
  {
    if k > 0 {
      var j := k - 1;
      assert LinksOnlyUpTo(net, copy, j);
      RecordedIsVisiting(net, copyNodes, done, copy, j, m);
      RecordedStep(net, copyNodes, done, copy, j, m);
      assert j + 1 == k;
    }
  }

  /** The inner loop of the copy loop: records every non-dangling edge of
      `copy` (utils.py, lines 62-70) into the maps `m`. `Recorded` only
      names the loop's result step by step; what that result means is
      stated by `RecordedIsVisiting` (the maps so far describe exactly the
      edges seen so far) and, for the whole loop, by `IsCopyMapsOf`. */
  method VisitCopy(net: Network, copy: Node, edge: Option<EdgeId>, m: CopyMaps) returns (r: Result<CopyMaps, PyError>)
    requires forall e :: e in copy.edges ==> e in net.edgeTable
    requires IsFirstNondangling(net, copy.edges, edge)
    requires copy.signature in m.copyToNodes
    ensures r.Failure? <==> !LinksOnlyUpTo(net, copy, |copy.edges|)
    ensures r.Failure? ==> r.error == KeyError
    ensures r.Success? ==> LinksOnlyUpTo(net, copy, |copy.edges|) && r.value == Recorded(net, copy, edge, |copy.edges|, m)
  {
    var maps := m;
    for k := 0 to |copy.edges|
      invariant LinksOnlyUpTo(net, copy, k)
      invariant maps == Recorded(net, copy, edge, k, m)
    {
      var e := copy.edges[k];
      if !net.edgeTable[e].IsDangling() {
        assert edge.Some?;
        var node := OtherEnd(net.edgeTable[e], copy.signature);
        if node.None? {
          assert !LinkAt(net, copy, k);
          return Failure(KeyError);
        }
        maps := RecordLink(maps, e, edge.value, copy.signature, node.value);
      }
    }
    return Success(maps);
  }

  /** The copy loop of `get_path` (utils.py, lines 56-70), with `set()` as the
      initial neighbour collection of each copy node; the source writes `{}`,
      a dict, whose lack of `add` is modelled separately. The copy nodes are
      visited in any order. */
  method BuildCopyMaps(net: Network, copyNodes: map<Node, Option<EdgeId>>) returns (r: Result<CopyMaps, PyError>)
    requires Valid(net) && IsCopyNodeTable(net, copyNodes)
    ensures r.Failure? <==> CopySelfLoop(net)
    ensures r.Failure? ==> r.error == KeyError
    ensures r.Success? ==> IsCopyMapsOf(net, copyNodes, r.value)
  {
    var maps := CopyMaps(map[], map[], map[]);
    var todo := copyNodes.Keys;
    ghost var done: set<Node> := {};
    while todo != {}
      invariant todo + done == copyNodes.Keys && todo !! done
      invariant NoLoopsAmong(net, done)
      invariant MapsAfter(net, copyNodes, done, maps)
      decreases todo
    {
      var copy :| copy in todo;
      assert done + {copy} <= net.nodesSet;
      VisitStart(net, copyNodes, done, copy, maps);
      var started := maps.(copyToNodes := maps.copyToNodes[copy.signature := {}]);
      var visited := VisitCopy(net, copy, copyNodes[copy], started);
      if visited.Failure? {
        assert copy in CopyNodes(net);
        return visited;
      }
      RecordedIsVisiting(net, copyNodes, done, copy, |copy.edges|, started);
      maps := visited.value;
      VisitEnd(net, copyNodes, done, copy, maps);
      done := done + {copy};
      todo := todo - {copy};
    }
    assert done == CopyNodes(net);
    return Success(maps);
  }

  // ---------------------------------------------------------------------------
  // What the copy maps hold
  // ---------------------------------------------------------------------------

  /** `copy_to_nodes` and `node_to_copies` describe the same adjacency from
      its two sides. */
  lemma AdjacencyMapsAreInverse(net: Network, copyNodes: map<Node, Option<EdgeId>>, m: CopyMaps)
    requires IsCopyMapsOf(net, copyNodes, m)
    ensures forall c, n :: (c in m.copyToNodes && n in m.copyToNodes[c]) <==>
                           (n in m.nodeToCopies && c in m.nodeToCopies[n])
  {
    var links := Links(net, copyNodes.Keys);
    forall c, n
      ensures (c in m.copyToNodes && n in m.copyToNodes[c]) <==> (c, n) in links
      ensures (n in m.nodeToCopies && c in m.nodeToCopies[n]) <==> (c, n) in links
    {
      if (c, n) in links {
        var c', i :| c' in copyNodes.Keys && 0 <= i < |c'.edges| && LinkAt(net, c', i) &&
                     (c, n) == (c'.signature, LinkEnd(net, c', i));
        assert c in Signatures(copyNodes.Keys);
        assert n in (set p | p in links :: p.1);
      }
      if c in m.copyToNodes && n in m.copyToNodes[c] {
        assert exists p :: p in links && p.0 == c && p.1 == n;
      }
      if n in m.nodeToCopies && c in m.nodeToCopies[n] {
        assert exists p :: p in links && p.1 == n && p.0 == c;
      }
    }
  }

  /** Every copy node has an entry in `copy_to_nodes`, holding exactly the far
      endpoints of its non-dangling edges. */
  lemma CopyToNodesAreNeighbours(net: Network, copyNodes: map<Node, Option<EdgeId>>, m: CopyMaps, c: Node, n: NodeId)
    requires Valid(net) && IsCopyNodeTable(net, copyNodes) && IsCopyMapsOf(net, copyNodes, m)
    requires c in copyNodes
    ensures c.signature in m.copyToNodes
    ensures n in m.copyToNodes[c.signature] <==>
            exists i :: 0 <= i < |c.edges| && LinkAt(net, c, i) && LinkEnd(net, c, i) == n
  {
    var links := Links(net, copyNodes.Keys);
    assert c.signature in Signatures(copyNodes.Keys);
    if n in m.copyToNodes[c.signature] {
      var p :| p in links && p.0 == c.signature && p.1 == n;
      var c', i :| c' in copyNodes.Keys && 0 <= i < |c'.edges| && LinkAt(net, c', i) &&
                   p == (c'.signature, LinkEnd(net, c', i));
      assert c' == c;
    }
    if exists i :: 0 <= i < |c.edges| && LinkAt(net, c, i) && LinkEnd(net, c, i) == n {
      var i :| 0 <= i < |c.edges| && LinkAt(net, c, i) && LinkEnd(net, c, i) == n;
      assert (c.signature, n) in links;
    }
  }

  /** Without edges between copy nodes, every non-dangling edge of a copy node
      maps to that copy node's first non-dangling edge. */
  lemma EdgeMapToOwnRepresentative(net: Network, copyNodes: map<Node, Option<EdgeId>>, m: CopyMaps, c: Node, i: int)
    requires Valid(net) && IsCopyNodeTable(net, copyNodes) && IsCopyMapsOf(net, copyNodes, m)
    requires NoCopyToCopyEdges(net)
    requires c in copyNodes && 0 <= i < |c.edges| && Bonded(net, c.edges[i])
    ensures c.edges[i] in m.edgeMap && copyNodes[c] == Some(m.edgeMap[c.edges[i]])
  {
    var e := c.edges[i];
    assert e in BondedEdges(net, copyNodes.Keys);
    var owner :| owner in copyNodes.Keys && owner in copyNodes && e in owner.edges && copyNodes[owner] == Some(m.edgeMap[e]);
    assert owner == c;
  }

  /** Without edges between copy nodes, each copy node's representative edge
      maps to itself. */
  lemma RepresentativeMapsToItself(net: Network, copyNodes: map<Node, Option<EdgeId>>, m: CopyMaps, c: Node)
    requires Valid(net) && IsCopyNodeTable(net, copyNodes) && IsCopyMapsOf(net, copyNodes, m)
    requires NoCopyToCopyEdges(net)
    requires c in copyNodes && copyNodes[c].Some?
    ensures copyNodes[c].value in m.edgeMap && m.edgeMap[copyNodes[c].value] == copyNodes[c].value
  {
    var k :| 0 <= k < |c.edges| && c.edges[k] == copyNodes[c].value && Bonded(net, c.edges[k]) &&
             forall j :: 0 <= j < k ==> !Bonded(net, c.edges[j]);
    EdgeMapToOwnRepresentative(net, copyNodes, m, c, k);
  }

  /** A copy node whose edges are all dangling gets an empty neighbour entry
      and none of its edges is entered in `edge_map`. */
  lemma DanglingCopyContributesNothing(net: Network, copyNodes: map<Node, Option<EdgeId>>, m: CopyMaps, c: Node)
    requires Valid(net) && IsCopyNodeTable(net, copyNodes) && IsCopyMapsOf(net, copyNodes, m)
    requires c in copyNodes && copyNodes[c].None?
    ensures c.signature in m.copyToNodes && m.copyToNodes[c.signature] == {}
    ensures forall e :: e in c.edges ==> e !in m.edgeMap
  {
    forall n
      ensures n !in m.copyToNodes[c.signature]
    {
      CopyToNodesAreNeighbours(net, copyNodes, m, c, n);
    }
    forall e | e in c.edges
      ensures e !in m.edgeMap
    {
      var j :| 0 <= j < |c.edges| && c.edges[j] == e;
      assert !Bonded(net, c.edges[j]);
    }
  }

  /** A network without copy nodes yields three empty maps. */
  lemma NoCopyNodesNoMaps(net: Network, copyNodes: map<Node, Option<EdgeId>>, m: CopyMaps)
    requires IsCopyNodeTable(net, copyNodes) && IsCopyMapsOf(net, copyNodes, m)
    requires CopyNodes(net) == {}
    ensures m == CopyMaps(map[], map[], map[])
  {
    assert Links(net, copyNodes.Keys) == {};
    assert (set p | p in Links(net, copyNodes.Keys) :: p.1) == {};
    assert Signatures(copyNodes.Keys) == {};
    assert BondedEdges(net, copyNodes.Keys) == {};
  }

  // ---------------------------------------------------------------------------
  // get_path
  // ---------------------------------------------------------------------------

  /** The injected path optimizer: from one edge set per input tensor, the set
      of output edges and the dimension of every edge, a sequence of pairwise
      contractions. */
  type Algorithm = (seq<set<EdgeId>>, set<EdgeId>, map<EdgeId, int>) -> seq<(int, int)>

  /** One set per node, holding the node's own edges (line 73). */
  function InputSets(nodes: seq<Node>): (r: seq<set<EdgeId>>)
    ensures |r| == |nodes|
    ensures forall i, e :: 0 <= i < |nodes| ==> (e in r[i] <==> e in nodes[i].edges)
  {
    seq(|nodes|, i requires 0 <= i < |nodes| => set e | e in nodes[i].edges)
  }

  /** All edges minus the non-dangling ones (line 74): exactly the dangling
      edges of the network. */
  function OutputSet(net: Network): (r: set<EdgeId>)
    requires Valid(net)
    ensures forall e :: e in r <==> e in AllEdges(net) && net.edgeTable[e].IsDangling()
  {
    AllEdgesAreKnown(net);
    AllEdges(net) - AllNondangling(net)
  }

  /** The dimension of every edge of the network (line 75). */
  function SizeDict(net: Network): (r: map<EdgeId, int>)
    requires Valid(net)
    ensures r.Keys == AllEdges(net)
    ensures forall e :: e in r ==> r[e] == net.edgeTable[e].dimension && r[e] > 0
  {
    AllEdgesAreKnown(net);
    map e | e in AllEdges(net) :: net.edgeTable[e].dimension
  }

  /** Every edge handed to the optimizer in an input set has a positive entry
      in the size table. */
  lemma InputEdgesAreSized(net: Network)
    requires Valid(net)
    ensures forall i, e :: 0 <= i < |SortedNodes(net)| && e in InputSets(SortedNodes(net))[i] ==>
              e in SizeDict(net) && SizeDict(net)[e] > 0
  {
    var sorted, sizes := SortedNodes(net), SizeDict(net);
    var inputs := InputSets(sorted);
    forall i, e | 0 <= i < |sorted| && e in inputs[i]
      ensures e in sizes && sizes[e] > 0
    {
      var n := sorted[i];
      assert n in sorted;
      assert e in n.edges;
      assert e in AllEdges(net);
    }
  }

  /** The copy-node dictionary of `get_path` (lines 50-51): every copy node
      with its first non-dangling edge. */
  method CopyNodeTable(net: Network) returns (copyNodes: map<Node, Option<EdgeId>>)
    requires Valid(net)
    ensures IsCopyNodeTable(net, copyNodes)
  {
    copyNodes := map[];
    var pending := CopyNodes(net);
    while pending != {}
      invariant pending <= CopyNodes(net)
      invariant copyNodes.Keys == CopyNodes(net) - pending
      invariant forall c :: c in copyNodes ==> IsFirstNondangling(net, c.edges, copyNodes[c])
      decreases pending
    {
      var node :| node in pending;
      var first := GetFirstNondangling(net, node);
      copyNodes := copyNodes[node := first];
      pending := pending - {node};
    }
  }

  /** `get_path` (utils.py, lines 38-77): plan the contraction of `net` with
      `algorithm`. The result is the algorithm's path, unchanged, together
      with the ordinary nodes sorted by signature. It runs the corrected copy
      loop (`set()` at line 61), so it fails only with `KeyError`, exactly
      when a copy node has a non-dangling edge looping back to it; where a
      copy node has a non-dangling edge to another node the source instead
      raises `AttributeError` at line 66 (see `AsWritten`) and this model
      succeeds. */
  method GetPath(net: Network, algorithm: Algorithm) returns (r: Result<(seq<(int, int)>, seq<Node>), PyError>)
    requires Valid(net)
    ensures r.Failure? <==> CopySelfLoop(net)
    ensures r.Failure? ==> r.error == KeyError
    ensures r.Success? ==> r.value.1 == SortedNodes(net)
    ensures r.Success? ==> r.value.0 == algorithm(InputSets(SortedNodes(net)), OutputSet(net), SizeDict(net))
  {
    var copyNodes := CopyNodeTable(net);
    var sortedNodes := SortBySignature(net.nodesSet - copyNodes.Keys);
    var maps := BuildCopyMaps(net, copyNodes);
    if maps.Failure? {
      return Failure(maps.error);
    }
    var inputSets := InputSets(sortedNodes);
    var outputSet := OutputSet(net);
    var sizeDict := SizeDict(net);
    return Success((algorithm(inputSets, outputSet, sizeDict), sortedNodes));
  }
}
