/**
  The copy loop of `get_path` exactly as the source writes it. Line 61
  stores `{}`, which in Python is an empty dict, as the neighbour collection
  of each copy node, and line 66 then calls `.add` on it, which a dict does
  not have. The loop therefore raises at the first non-dangling edge of any
  copy node: `AttributeError`, or `KeyError` if line 65's `pop` already
  failed on a loop edge. `Utils.BuildCopyMaps` is the intended version, with
  `set()` at line 61, and is what `Utils.GetPath` uses.
 */
module AsWritten {
  import opened Wrappers
  import opened TensorNetwork
  import opened Utils

  /** Some copy node has a non-dangling edge. */
  ghost predicate CopyHasBond(net: Network) {
    BondedEdges(net, CopyNodes(net)) != {}
  }

  /** The copy loop of utils.py, lines 56-70, with a dict at line 61. */
  method BuildCopyMapsAsWritten(net: Network, copyNodes: map<Node, Option<EdgeId>>) returns (r: Result<CopyMaps, PyError>)
    requires Valid(net) && IsCopyNodeTable(net, copyNodes)
    ensures r.Failure? <==> CopyHasBond(net)
    ensures r == Failure(KeyError) ==> CopySelfLoop(net)
    ensures r == Failure(AttributeError) ==> Links(net, CopyNodes(net)) != {}
    ensures r.Success? ==> r.value == CopyMaps(map[], map[], map c | c in Signatures(CopyNodes(net)) :: {})
  {
    var edgeMap: map<EdgeId, EdgeId> := map[];
    var copyToNodes: map<NodeId, set<NodeId>> := map[];
    var todo := copyNodes.Keys;
    ghost var done: set<Node> := {};
    while todo != {}
      invariant todo + done == copyNodes.Keys && todo !! done
      invariant BondedEdges(net, done) == {}
      invariant edgeMap == map[]
      invariant copyToNodes == map c | c in Signatures(done) :: {}
      decreases todo
    {
      var copy :| copy in todo;
      var edge := copyNodes[copy];
      // `{}` at line 61: an empty dict, which has no neighbours yet
      copyToNodes := copyToNodes[copy.signature := {}];
      for k := 0 to |copy.edges|
        invariant forall i :: 0 <= i < k ==> !Bonded(net, copy.edges[i])
      {
        var e := copy.edges[k];
        if !net.edgeTable[e].IsDangling() {
          assert e in BondedEdges(net, CopyNodes(net));
          edgeMap := edgeMap[e := edge.value];
          var node := OtherEnd(net.edgeTable[e], copy.signature);
          if node.None? {
            assert !LinkAt(net, copy, k);
            return Failure(KeyError);
          }
          // line 66: `.add` on a dict
          assert copy in CopyNodes(net) && LinkAt(net, copy, k) && LinkEnd(net, copy, k) == node.value;
          assert (copy.signature, node.value) in Links(net, CopyNodes(net));
          return Failure(AttributeError);
        }
      }
      AddCopy(net, done, copy);
      done := done + {copy};
      todo := todo - {copy};
    }
    assert done == CopyNodes(net);
    return Success(CopyMaps(edgeMap, map[], copyToNodes));
  }

  /** An ordinary node P (signature 0) and a copy node X (signature 1)
      joined by edge 10: the smallest network with a hyperedge. */
  const P := Node([10], 0, false)
  const X := Node([10], 1, true)

  function HyperedgeWitness(): Network {
    Network({P, X}, map[10 := Edge(2, 0, Some(1))])
  }

  lemma WitnessIsValid()
    ensures Valid(HyperedgeWitness())
    ensures CopyNodes(HyperedgeWitness()) == {X}
  {
    var net := HyperedgeWitness();
    assert forall n :: n in net.nodesSet ==> n == P || n == X;
  }

  lemma WitnessLinks()
    ensures BondedEdges(HyperedgeWitness(), {X}) == {10}
    ensures Links(HyperedgeWitness(), {X}) == {(1, 0)}
    ensures NoLoopsAmong(HyperedgeWitness(), {X})
  {
    var net := HyperedgeWitness();
    assert Bonded(net, X.edges[0]) && LinkAt(net, X, 0) && LinkEnd(net, X, 0) == 0;
  }

  lemma WitnessTable(copyNodes: map<Node, Option<EdgeId>>)
    requires IsCopyNodeTable(HyperedgeWitness(), copyNodes)
    ensures copyNodes == map[X := Some(10)]
  {
    WitnessIsValid();
    var net := HyperedgeWitness();
    assert copyNodes.Keys == {X};
    assert IsFirstNondangling(net, X.edges, Some(10)) by {
      assert Bonded(net, X.edges[0]);
    }
    FirstNondanglingUnique(net, X.edges, copyNodes[X], Some(10));
  }

  lemma WitnessMaps(m: CopyMaps)
    requires IsCopyMapsOf(HyperedgeWitness(), map[X := Some(10)], m)
    ensures m == CopyMaps(map[10 := 10], map[0 := {1}], map[1 := {0}])
  {
    WitnessLinks();
    var links := Links(HyperedgeWitness(), {X});
    assert map[X := Some(10)].Keys == {X};
    assert Signatures({X}) == {1};
    assert m.edgeMap == map[10 := 10] by {
      assert m.edgeMap.Keys == {10};
      assert RepresentedBy(HyperedgeWitness(), map[X := Some(10)], {X}, 10, m.edgeMap[10]);
    }
    assert m.nodeToCopies == map[0 := {1}] by {
      assert (set q | q in links :: q.1) == {0};
      assert (set q | q in links && q.1 == 0 :: q.0) == {1};
    }
    assert m.copyToNodes == map[1 := {0}] by {
      assert (set q | q in links && q.0 == 1 :: q.1) == {0};
    }
  }

  /** On this network the loop as written raises (a copy node has a
      non-dangling edge), while the intended loop succeeds (no loop edge) and
      builds the maps a single two-node hyperedge should give. */
  lemma DictDefectWitness(copyNodes: map<Node, Option<EdgeId>>, m: CopyMaps)
    requires IsCopyNodeTable(HyperedgeWitness(), copyNodes) && IsCopyMapsOf(HyperedgeWitness(), copyNodes, m)
    ensures Valid(HyperedgeWitness())
    ensures CopyHasBond(HyperedgeWitness())
    ensures !CopySelfLoop(HyperedgeWitness())
    ensures m == CopyMaps(map[10 := 10], map[0 := {1}], map[1 := {0}])
  {
    WitnessIsValid();
    WitnessLinks();
    WitnessTable(copyNodes);
    WitnessMaps(m);
  }
}
