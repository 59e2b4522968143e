# Contraction-path helpers of TensorNetwork, in Dafny

This project models the helpers that the TensorNetwork library uses to plan the
contraction of a tensor network with an `opt_einsum` path optimizer
(`tensornetwork/contractors/opt_einsum_paths/utils.py`). It also proves
properties about that model.

- `multi_remove` drops several list positions at once.
- `get_first_nondangling` finds the first non-dangling edge of a copy node.
- `get_path` does the following:
  - splits the copy nodes from the ordinary nodes;
  - sorts the ordinary nodes by signature;
  - builds three maps from the copy nodes (`edge_map`, `node_to_copies`, `copy_to_nodes`);
  - builds the optimizer's inputs: one edge set per ordinary node, the set of output (dangling) edges, and the dimension of every edge;
  - returns the optimizer's path unchanged, together with the sorted nodes.

The network is an immutable value: edges are integer identifiers with a
dimension and one or two endpoints, and nodes are records with an ordered edge
list, a unique signature and a copy flag (`tensor_network.dfy`). The
optimizer is a function-valued parameter of `GetPath`.

Files:
- `wrappers.dfy`: `Option` and `Result`.
- `tensor_network.dfy`: the abstract network.
- `utils.dfy`: the live helpers. The scans and the nested copy loop are methods with loop invariants. The comprehensions are functions, except the copy-node table of lines 50-51 (`CopyNodeTable`), a method with a loop because it calls the scan `GetFirstNondangling`.
- `copy_loop_as_written.dfy`: the copy loop exactly as written, with a dict at line 61 (see Findings).
- `draft_get_path.dfy`: the edge remapping of the commented-out draft `get_path`, as a separate module so the two versions can be compared.

`GetPath` follows the code in building the input sets from the raw node edges
(line 73); the edge map it computes is never used. It departs from the code in
one place: it runs the copy loop with the evidently intended `set()` at line 61,
so on a network where a copy node has a non-dangling edge to another node it
succeeds where the source raises `AttributeError` (see Findings).

## Model

| member | source | states |
|---|---|---|
| Utils.MultiRemove | tensornetwork/contractors/opt_einsum_paths/utils.py:25-27 | the result is never longer than the input; what it holds is stated by `MultiRemoveSelects` against `KeptPositions` and by `MultiRemoveLength` |
| Utils.KeptPositions | tensornetwork/contractors/opt_einsum_paths/utils.py:27 | the positions `multi_remove` keeps: all in range and not listed, every such position present, strictly ascending |
| Utils.MultiRemoveSelects | tensornetwork/contractors/opt_einsum_paths/utils.py:25-27 | the result has one element per kept position, and its k-th element is the input element at the k-th kept position (exact elements, original relative order) |
| Utils.MultiRemoveLength | tensornetwork/contractors/opt_einsum_paths/utils.py:25-27 | the result length is the input length minus the number of distinct in-range listed positions |
| Utils.MultiRemoveInRangeOnly | tensornetwork/contractors/opt_einsum_paths/utils.py:27 | two index lists that agree on the in-range positions give the same result, so out-of-range or repeated indices have no effect |
| Utils.MultiRemoveIdentity | tensornetwork/contractors/opt_einsum_paths/utils.py:27 | with no in-range index (in particular an empty list) the input comes back unchanged |
| Utils.GetFirstNondangling | tensornetwork/contractors/opt_einsum_paths/utils.py:30-35 | returns None exactly when every edge of the node is dangling; otherwise returns an edge of the node that is non-dangling and preceded only by dangling edges |
| Utils.FirstNondanglingUnique | tensornetwork/contractors/opt_einsum_paths/utils.py:32-35 | at most one result fits that description, so the scan's answer is determined |
| Utils.SortBySignature | tensornetwork/contractors/opt_einsum_paths/utils.py:53-54 | holds every node of the set exactly once (same members, same count), in strictly ascending signature order |
| Utils.SortedNodes | tensornetwork/contractors/opt_einsum_paths/utils.py:50-54 | exactly the non-copy nodes of the network, in strictly ascending signature order; no copy node appears |
| Utils.OtherEnd | tensornetwork/contractors/opt_einsum_paths/utils.py:65 | the far endpoint of a non-dangling edge seen from a copy node is an endpoint other than that node; there is none (the `pop` raises) exactly when the edge loops on the copy node |
| Utils.RecordLink | tensornetwork/contractors/opt_einsum_paths/utils.py:64-70 | one non-dangling edge `e` of copy node `c` with far endpoint `n`: `e` is entered with the representative, `n` gains an entry in node_to_copies, and the copy-node keys stay the same |
| Utils.RecordLinkAddsPair | tensornetwork/contractors/opt_einsum_paths/utils.py:64-70 | recording that edge leaves the other edge_map entries alone and adds exactly the pair (`c`, `n`) to the adjacency, in both copy_to_nodes and node_to_copies |
| Utils.VisitCopy | tensornetwork/contractors/opt_einsum_paths/utils.py:62-70 | the inner loop fails with KeyError exactly when some non-dangling edge of the copy node loops on it; otherwise it records every non-dangling edge of that node, in order, into the maps |
| Utils.BuildCopyMaps | tensornetwork/contractors/opt_einsum_paths/utils.py:56-70 | whatever order the copy nodes are visited in, the loop fails with KeyError exactly when a copy node has a loop edge; otherwise edge_map's keys are exactly the non-dangling copy edges, each mapped to the first non-dangling edge of a copy node that owns it; copy_to_nodes has an entry for every copy node holding its far endpoints; node_to_copies is the same adjacency read from the other side |
| Utils.AdjacencyMapsAreInverse | tensornetwork/contractors/opt_einsum_paths/utils.py:64-70 | `n in copy_to_nodes[c]` holds exactly when `c in node_to_copies[n]` |
| Utils.CopyToNodesAreNeighbours | tensornetwork/contractors/opt_einsum_paths/utils.py:61-66 | every copy node has an entry in copy_to_nodes, and a node is in it exactly when it is the far endpoint of one of the copy node's non-dangling edges |
| Utils.EdgeMapToOwnRepresentative | tensornetwork/contractors/opt_einsum_paths/utils.py:56-64 | when no edge joins two copy nodes, every non-dangling edge of a copy node maps to that copy node's first non-dangling edge |
| Utils.RepresentativeMapsToItself | tensornetwork/contractors/opt_einsum_paths/utils.py:50-64 | when no edge joins two copy nodes, each copy node's representative edge maps to itself |
| Utils.DanglingCopyContributesNothing | tensornetwork/contractors/opt_einsum_paths/utils.py:61-64 | a copy node whose edges are all dangling gets an empty neighbour entry and puts none of its edges into edge_map |
| Utils.NoCopyNodesNoMaps | tensornetwork/contractors/opt_einsum_paths/utils.py:56-70 | a network without copy nodes yields three empty maps |
| Utils.InputSets | tensornetwork/contractors/opt_einsum_paths/utils.py:73 | one set per sorted node, and set i holds exactly the edges of node i |
| Utils.OutputSet | tensornetwork/contractors/opt_einsum_paths/utils.py:74 | exactly the dangling edges of the network; no non-dangling edge is in it |
| Utils.SizeDict | tensornetwork/contractors/opt_einsum_paths/utils.py:75 | the keys are exactly the network's edges, and each value is that edge's dimension, which is positive |
| Utils.InputEdgesAreSized | tensornetwork/contractors/opt_einsum_paths/utils.py:73-75 | every edge in an input set has a positive entry in the size table |
| Utils.CopyNodeTable | tensornetwork/contractors/opt_einsum_paths/utils.py:50-51 | the keys are exactly the copy nodes, each mapped to its first non-dangling edge or None |
| Utils.GetPath | tensornetwork/contractors/opt_einsum_paths/utils.py:38-77 | with the corrected copy loop (`set()` at line 61): fails with KeyError exactly when a copy node has a loop edge; otherwise returns the algorithm's result on (input sets, output set, size table), unchanged, paired with the ordinary nodes sorted by signature |
| AsWritten.BuildCopyMapsAsWritten | tensornetwork/contractors/opt_einsum_paths/utils.py:56-70 | the loop exactly as written fails exactly when some copy node has a non-dangling edge: KeyError only on a loop edge, AttributeError only when a copy node has a neighbour; when it succeeds, edge_map and node_to_copies are empty and every copy node has an empty entry |
| AsWritten.DictDefectWitness | tensornetwork/contractors/opt_einsum_paths/utils.py:61 | on a valid two-node network (one ordinary node and one copy node joined by an edge), the loop as written raises, but the intended loop has no loop edge and yields edge_map {10: 10}, node_to_copies {0: {1}} and copy_to_nodes {1: {0}} |
| DraftPath.RemappedInputSets | tensornetwork/contractors/opt_einsum_paths/utils.py:109-110 | one set per node, holding exactly the images of the node's edges under the renaming (an edge's map value when it has one, the edge itself otherwise) |
| DraftPath.DraftEdgeMapAt | tensornetwork/contractors/opt_einsum_paths/utils.py:106-108 | an edge listed by a single copy node maps to that node's first non-dangling edge, whatever the visiting order |
| DraftPath.DraftEdgeMap | tensornetwork/contractors/opt_einsum_paths/utils.py:106-108 | every edge the draft maps belongs to a visited copy node and maps to that node's first non-dangling edge |
| DraftPath.DraftEdgeMapCovers | tensornetwork/contractors/opt_einsum_paths/utils.py:103-108 | every edge of every visited copy node that has a representative is mapped, also when several copy nodes share it |
| DraftPath.Renamed | tensornetwork/contractors/opt_einsum_paths/utils.py:109 | an edge outside the map is kept; an edge in it is replaced by one of the map's representatives |
| DraftPath.DraftMapsSharedEdge | tensornetwork/contractors/opt_einsum_paths/utils.py:106-108 | an edge a copy node shares with an ordinary node is non-dangling and maps to the copy node's representative |
| DraftPath.DraftSharesRepresentative | tensornetwork/contractors/opt_einsum_paths/utils.py:106-110 | every ordinary node adjacent to a copy node holds that copy node's representative in its remapped input set, so all its neighbours share one edge identity |
| DraftPath.DraftAgreesWithoutCopies | tensornetwork/contractors/opt_einsum_paths/utils.py:100-112 | without copy nodes the remapped input sets equal the live version's input sets |
| DraftPath.DraftAgreesWithEdgeMap | tensornetwork/contractors/opt_einsum_paths/utils.py:56-64 | when no edge joins two copy nodes, the draft's map agrees with the live edge_map on every edge the live one maps |

## Left out

- The network classes (`nodes_set`, `get_all_edges`, `get_all_nondangling`, `is_dangling`, `node1`/`node2`, `dimension`) are not part of this model. They are modelled abstractly by `TensorNetwork.Network`, whose `Valid` states what the planner relies on: unique signatures, positive dimensions, and every edge of a node known and having that node as an endpoint. The network is a value, so `GetPath` cannot modify it.
- The `opt_einsum` path search is an external library. It is the `algorithm` parameter, a total function.
- Numeric tensor contraction is not in this file.
- Python's hash order for sets and dicts is not modelled. The loops pick the next copy node arbitrarily, and every contract holds for every order. Which copy node writes a shared edge last is therefore left open: `BuildCopyMaps` promises only "the representative of some owning copy node", and the exact representative is proved when no edge joins two copy nodes.
- Nodes and edges are compared by identity in the source. Here a node is its record, and nodes are told apart by signature.
- `BuildCopyMaps` models the evidently intended `set()` at line 61, not the `{}` of the source. This is a deliberate deviation: the behaviour as written is `AsWritten.BuildCopyMapsAsWritten`.
- GetPath: it uses the corrected copy loop `Utils.BuildCopyMaps`, so it does not model the AttributeError the source raises at line 66 whenever a copy node has a non-dangling edge to another node; there it returns a path where the source raises. That behaviour is modelled by `AsWritten.BuildCopyMapsAsWritten`. Like the source, it builds but discards the three copy maps, and its input sets use the raw edges of line 73.
- An optimizer that raises, or that returns indices out of range, is outside the model, since `algorithm` is total and its output is passed through unchecked.
- A network with no ordinary nodes raises no error: the code has no such check, so `GetPath` hands the optimizer an empty list of input sets and returns its path with an empty node list.
- Edges whose two endpoints disagree on dimension are not modelled. The source never checks this, and each edge carries a single dimension here.
- DraftPath.DraftEdgeMap: a copy node without a non-dangling edge is skipped, where the draft would store `None` for its edges. Those edges are dangling and belong to no ordinary node, so no remapped input set changes. The draft's `if copy_nodes:` fallback (line 112) coincides with the remapping when there are no copy nodes (`DraftAgreesWithoutCopies`).
- The rest of the commented-out draft (lines 81-117) is not modelled separately. Apart from the remapping it differs from the live version in two ways: it reads `net.node_set` (lines 94, 97) where the live code reads `net.nodes_set` (lines 50, 53), and it builds no `node_to_copies` or `copy_to_nodes`. Its copy-node table, sorting, output set and size table are those of the live version.

## Findings

| source | as written | input that shows it | evidently intended | confidence | as-written member | corrected member |
|---|---|---|---|---|---|---|
| tensornetwork/contractors/opt_einsum_paths/utils.py:61 | `copy_to_nodes[copy] = {}` makes an empty dict, so `copy_to_nodes[copy].add(node)` at line 66 raises AttributeError as soon as a copy node has a non-dangling edge to another node | `AsWritten.HyperedgeWitness`: ordinary node 0 and copy node 1 joined by edge 10 of dimension 2 | `copy_to_nodes[copy] = set()`, so the loop records the neighbour and yields edge_map {10: 10}, node_to_copies {0: {1}}, copy_to_nodes {1: {0}} | not executed | AsWritten.BuildCopyMapsAsWritten, AsWritten.DictDefectWitness | Utils.BuildCopyMaps |
