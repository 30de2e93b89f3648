# Digraph, modelled and verified in Dafny

This project models `Digraph`, the small directed graph of
`diskimage_builder/graph/digraph.py`:

- nodes with unique names and weighted edges;
- each node's incoming and outgoing edge lists, kept sorted by weight with
  `bisect.insort`;
- bulk construction from a name-to-targets dictionary, and export back to
  one;
- a depth-first topological sort that starts from the nodes without
  incoming edges.

The files:

- `sequences.dfy` (module `Sequences`): small facts about sequences used
  as sets (no repetitions, pigeonhole).
- `edges.dfy` (module `Edges`):
  - `Digraph.Edge` as a datatype of target name and weight;
  - `Edge.__lt__`;
  - `bisect.insort` on a list of edges (`BisectRight`, `Insort`), with
    where it puts the new edge;
  - the names at the far end of a list of edges.
- `graph_model.dfy` (module `GraphModel`):
  - the graph as a plain value (`GraphState`: the names in registration
    order, and each name's two edge lists);
  - one function per state-changing operation (`add_node`, `create_edge`,
    the two runs of `create_from_dict`, `as_dict`);
  - the invariant `create_edge` keeps;
  - the construction and round-trip lemmas.
- `traversal.dfy` (module `Traversal`):
  - the topological sort on names: `VisitFrom` is the inner `visit`,
    `VisitAll` its `for` loop, `SortFrom` the main loop and `TopSort` the
    whole sort;
  - paths, reachability, roots and cycles;
  - the invariant of the search (`DfsInv`), and the lemmas saying what
    the result of the sort holds and in which order.
- `digraph.dfy` (module `Digraphs`):
  - the classes `Node` and `Digraph`, whose methods update their fields in
    place;
  - `Digraph` keeps the dictionary `_named_nodes` as the insertion order of
    the names (`names`) beside a map from name to node (`namedNodes`);
  - every state-changing method of `Digraph` is proved against the
    value-level function of `GraphModel` for its operation, and the two
    list updates of `Node` against `Edges.Insort`;
  - `Visit` and `TopologicalSort` keep the source's lists of node objects
    and are proved against `VisitFrom` and `TopSort`;
  - the helpers `digraph_create_from_dict` and
    `node_list_to_node_name_list`.

Conventions of the model:
- An edge records the name of the node at its far end. Within a valid graph
  names and registered nodes correspond one to one (`Digraph.Valid`,
  `Digraph.InByName`).
- A raised exception is an `Outcome` of `Fail` with the error:
  - `DuplicateNode` for the `RuntimeError` of `add_node`;
  - `UnknownReference` for the `RuntimeError` of `create_from_dict`;
  - `InvalidReference` for the failing `assert`s of `create_edge`.
- A dictionary is a sequence of (key, target list) pairs in the
  dictionary's order.

## Model

| member | source | states |
|---|---|---|
| Edges.BisectRight | diskimage_builder/graph/digraph.py:75-81 | the insertion point of `bisect.insort` in `add_incoming` and `add_outgoing`, with edges ordered by `Edge.__lt__` (digraph.py:39-40): no edge before it is heavier than the new one, and on a sorted list every edge from it on is heavier |
| Edges.Less | diskimage_builder/graph/digraph.py:39-40 | `Edge.__lt__`: an edge is less than another exactly when its weight is smaller; a predicate without a contract, used by BisectRight and stated through InsortPlacement |
| Edges.Insort | diskimage_builder/graph/digraph.py:75-81 | `bisect.insort`: the list grows by one, it holds exactly the old edges and the new one, and a sorted list stays sorted |
| Edges.InsortPlacement | diskimage_builder/graph/digraph.py:75-81 | on a sorted list, which every edge list is (`Node.Valid`), the new edge goes after every edge that is not heavier, so ties keep insertion order, and before every heavier one; removing it gives back the old list in its old order; as a multiset the list grows by exactly the new edge |
| Edges.InsortHeaviest | diskimage_builder/graph/digraph.py:75-81 | an edge at least as heavy as every edge of the list is appended at the end |
| Edges.Targets | diskimage_builder/graph/digraph.py:92-96 | `__as_named_list`: one name per edge, the i-th the target of the i-th edge |
| Edges.ZeroEdges | diskimage_builder/graph/digraph.py:118-125 | the edges `create_edge(..., 0)` adds for a target list: one weight-0 edge per target, in order; TargetsOfZeroEdges names them back to the list |
| Edges.TargetsOfZeroEdges | diskimage_builder/graph/digraph.py:119-125 | naming the weight-0 edges made for a list of targets gives back the list |
| GraphModel.CreateEdgeSpec | diskimage_builder/graph/digraph.py:140-150 | `create_edge` on values: no node added or removed; exactly a's outgoing list gains (b, w) by Insort and b's incoming list gains (a, w); every other list is unchanged |
| GraphModel.Empty | diskimage_builder/graph/digraph.py:103-105 | `Digraph.__init__` on values: no names and no nodes; a definition, used by NodesFromEmpty, BuildFromEmpty and RoundTrip |
| GraphModel.AddNodeSpec | diskimage_builder/graph/digraph.py:127-138 | `add_node` on values: DuplicateNode and no change when the name is registered, otherwise the name appended with an edgeless node; a definition, whose promises Digraph.AddNode and AddNodesEffect state |
| GraphModel.CreateEdgeKeepsWellFormed | diskimage_builder/graph/digraph.py:140-150 | adding an edge keeps every list sorted and every edge on record at both of its ends, leading to registered nodes |
| GraphModel.AddNodeKeepsWellFormed | diskimage_builder/graph/digraph.py:127-138 | registering a new edgeless node keeps the graph well formed |
| GraphModel.AddNodesSpec | diskimage_builder/graph/digraph.py:110-115 | the first run of `create_from_dict` only adds names, and on success every key is registered |
| GraphModel.AddTargetsSpec | diskimage_builder/graph/digraph.py:119-125 | the edges from one key never add or remove a node or change the order |
| GraphModel.AddEdgesSpec | diskimage_builder/graph/digraph.py:117-125 | the second run never adds or removes a node or changes the order |
| GraphModel.CreateFromDictSpec | diskimage_builder/graph/digraph.py:107-125 | `create_from_dict` on values: the first run, and the second only if the first succeeded, with no rollback; a definition, whose promises BuildFromEmpty and RoundTrip state |
| GraphModel.ExportSpec | diskimage_builder/graph/digraph.py:170-177 | `as_dict` on values: each registered name in order with the targets of its outgoing list; a definition, see RoundTrip and Digraph.AsDict |
| GraphModel.AddNodesEffect | diskimage_builder/graph/digraph.py:110-115 | the first run succeeds exactly when no key is registered yet; otherwise it fails with DuplicateNode on a key already registered; on success the keys are appended to the order, each with an empty node, and the earlier nodes are unchanged |
| GraphModel.AddTargetsEffect | diskimage_builder/graph/digraph.py:119-125 | on a node whose outgoing edges all weigh at most 0, such as the fresh node of a key, the edges from that key succeed exactly when every target is registered; otherwise they fail with UnknownReference on an unregistered target; on success one weight-0 edge per target is appended in order, and no other outgoing list changes |
| GraphModel.AddEdgesEffect | diskimage_builder/graph/digraph.py:117-125 | for distinct keys whose nodes have no outgoing edges yet, as after the first run, the second run succeeds exactly when every target is registered; a key whose own and earlier targets are all registered gets its edges even when a later key fails (no rollback) |
| GraphModel.NodesFromEmpty | diskimage_builder/graph/digraph.py:110-115 | from an empty graph the first run succeeds with distinct keys, registers them in order and gives each key a node with no outgoing edges |
| GraphModel.BuildFromEmpty | diskimage_builder/graph/digraph.py:107-125 | from an empty graph the keys are registered in order; construction succeeds exactly when every target is a key, and otherwise fails on a target that is not one |
| GraphModel.RoundTrip | diskimage_builder/graph/digraph.py:170-177 | exporting the graph built from a dictionary whose targets are all keys gives back that dictionary, keys and target lists in order |
| GraphModel.ExportRebuild | diskimage_builder/graph/digraph.py:107-125 | the other direction: the export of a graph whose names are registered once each and whose edges lead to registered nodes is accepted by `create_from_dict`, and the rebuilt graph exports to the same dictionary |
| Traversal.VisitFrom | diskimage_builder/graph/digraph.py:194-202 | `visit` on names: it only ever adds names to `visited` |
| Traversal.VisitAll | diskimage_builder/graph/digraph.py:199-200 | the `for` loop of `visit` only ever adds names to `visited` |
| Traversal.SortFrom | diskimage_builder/graph/digraph.py:204-207 | the main loop only ever adds names to `visited` |
| Traversal.TopSort | diskimage_builder/graph/digraph.py:179-209 | `topological_sort` on names: the `tsort` list SortFrom builds over the given order from nothing visited; a definition, see TopSortDistinct, TopSortReached, TopSortClosed, TopSortNoRoots, TopSortComplete and TopSortOrdered |
| Traversal.VisitFromKeeps | diskimage_builder/graph/digraph.py:194-202 | a visit keeps the invariant of the search; afterwards its node is visited (and, without cycles, finished), `tsort` has only grown, and every name it marked is reachable from its node |
| Traversal.VisitAllKeeps | diskimage_builder/graph/digraph.py:199-200 | the loop over the successors leaves each of them visited (finished, without cycles) and keeps the invariant |
| Traversal.SortFromKeeps | diskimage_builder/graph/digraph.py:204-207 | the main loop marks every root and only names some root reaches |
| Traversal.AcyclicReachedFromRoot | diskimage_builder/graph/digraph.py:204-207 | in a graph without cycles every node is reached from a node without incoming edges |
| Traversal.TopSortDistinct | diskimage_builder/graph/digraph.py:197-198 | the result holds no name twice, and only names of the graph |
| Traversal.TopSortReached | diskimage_builder/graph/digraph.py:204-207 | a name is in the result exactly when some root reaches it, so only roots start a visit |
| Traversal.TopSortClosed | diskimage_builder/graph/digraph.py:199-201 | with every name, the result holds every name its edges lead to |
| Traversal.TopSortNoRoots | diskimage_builder/graph/digraph.py:204-206 | a graph in which every node has incoming edges, such as a pure cycle, gives an empty result |
| Traversal.TopSortComplete | diskimage_builder/graph/digraph.py:179-209 | in a graph without cycles the result holds every node |
| Traversal.TopSortOrdered | diskimage_builder/graph/digraph.py:179-209 | in a graph without cycles every edge leads from a node to one further back in the result |
| Traversal.CyclicOrderExample | diskimage_builder/graph/digraph.py:179-209 | with the edges R to A, A to B and B to A the result is R, A, B, and the edge from B to A points forward |
| Digraphs.Node.constructor | diskimage_builder/graph/digraph.py:57-66 | a new node has its name and two empty (sorted) lists |
| Digraphs.Node.AddIncoming | diskimage_builder/graph/digraph.py:75-77 | the incoming list becomes Insort of the old list and the new edge; the outgoing list is unchanged; both stay sorted |
| Digraphs.Node.AddOutgoing | diskimage_builder/graph/digraph.py:79-81 | the outgoing list becomes Insort of the old list and the new edge; the incoming list is unchanged; both stay sorted |
| Digraphs.Node.HasIncoming | diskimage_builder/graph/digraph.py:88-90 | `has_incoming`: whether the incoming list is non-empty; a predicate, whose meaning in the graph HasIncomingIffNotRoot states |
| Digraphs.Node.OutgoingNames | diskimage_builder/graph/digraph.py:98-101 | `get_outgoing_as_named_list`: one name per outgoing edge, the i-th the target of the i-th edge |
| Digraphs.Digraph.constructor | diskimage_builder/graph/digraph.py:103-105 | a new graph is empty and valid |
| Digraphs.Digraph.Find | diskimage_builder/graph/digraph.py:160-168 | None exactly when the name is not registered; otherwise the node stored under it, which in a valid graph carries that name |
| Digraphs.Digraph.Registered | diskimage_builder/graph/digraph.py:145-148 | the tests of the `assert`s of `create_edge`: the node is the one stored under its own name; a predicate, whose use CreateEdge states |
| Digraphs.Digraph.AddNode | diskimage_builder/graph/digraph.py:127-138 | fails with DuplicateNode exactly when the name is registered, and then changes nothing; otherwise `find` gives the new node, it is registered last, and every earlier node stays registered under its name |
| Digraphs.Digraph.CreateEdge | diskimage_builder/graph/digraph.py:140-150 | succeeds exactly when both nodes are the ones registered under their names, and otherwise changes neither; the new state is CreateEdgeSpec of the old one; the graph stays valid; the weight defaults to 0, as in the source |
| Digraphs.Digraph.AddEdge | diskimage_builder/graph/digraph.py:149-150 | `add_outgoing` then `add_incoming` on registered nodes: the graph stays valid and its new state is CreateEdgeSpec of the old one |
| Digraphs.Digraph.CreateFromDict | diskimage_builder/graph/digraph.py:107-125 | the new state and outcome are CreateFromDictSpec of the old state; the graph stays valid; the nodes registered before remain, and every other node is new |
| Digraphs.Digraph.AddNodesFor | diskimage_builder/graph/digraph.py:110-115 | the first run: the new state and outcome are AddNodesSpec of the old state and the keys |
| Digraphs.Digraph.AddNewNode | diskimage_builder/graph/digraph.py:114-115 | `node_gen_func(node_name)` then `add_node`: the new state and outcome are AddNodeSpec of the old state and the name; the graph stays valid and only a fresh node is added |
| Digraphs.Digraph.AddTargets | diskimage_builder/graph/digraph.py:118-125 | the edges from one key: the new state and outcome are AddTargetsSpec of the old state |
| Digraphs.Digraph.AsDict | diskimage_builder/graph/digraph.py:170-177 | the keys are the registered names in order, each with its node's outgoing target names; the result is ExportSpec of the state |
| Digraphs.Digraph.ExportRebuilds | diskimage_builder/graph/digraph.py:170-177 | for every valid graph, building a graph from its `as_dict` export succeeds, and that graph exports to the same dictionary |
| Digraphs.Digraph.HasIncomingIffNotRoot | diskimage_builder/graph/digraph.py:88-90 | a registered node has incoming edges exactly when some edge leads to it |
| Digraphs.Digraph.RootsWithoutIncoming | diskimage_builder/graph/digraph.py:204-206 | the nodes the main loop skips are exactly those that are not roots |
| Digraphs.Digraph.InByName | diskimage_builder/graph/digraph.py:197 | among registered nodes, membership in `visited` or `tsort` is membership of the name |
| Digraphs.Digraph.Visit | diskimage_builder/graph/digraph.py:194-202 | on the names of its lists, the visit is VisitFrom; every node it adds is registered |
| Digraphs.Digraph.TopologicalSort | diskimage_builder/graph/digraph.py:179-209 | the result consists of registered nodes, and its names are TopSort of the graph in registration order |
| Digraphs.Digraph.SortRoots | diskimage_builder/graph/digraph.py:204-207 | the main loop, on names, is SortFrom over the registration order starting from nothing visited; every node it returns is registered |
| Digraphs.Digraph.SortedNodesDistinct | diskimage_builder/graph/digraph.py:179-209 | the sorted nodes hold no node twice |
| Digraphs.Digraph.SortedNodesEmpty | diskimage_builder/graph/digraph.py:179-209 | when every node has incoming edges, the sorted list is empty |
| Digraphs.Digraph.SortedNodesComplete | diskimage_builder/graph/digraph.py:179-209 | without cycles, every registered node is in the sorted list |
| Digraphs.NamesOf | diskimage_builder/graph/digraph.py:222-228 | the names of a node list: same length, the i-th the i-th node's name |
| Digraphs.NodeListToNameList | diskimage_builder/graph/digraph.py:222-228 | the loop returns a list of the same length whose i-th element is the i-th node's name, that is NamesOf of the list |
| Digraphs.DigraphCreateFromDict | diskimage_builder/graph/digraph.py:214-219 | a new valid graph holding CreateFromDictSpec of the empty graph; with distinct keys the names are the keys and it succeeds exactly when every target is a key, in which case it exports back to the dictionary |

## Left out

- `node_gen_func` and the `issubclass` assertions: there is one node type, and a new node is made from its name.
- `__repr__`, `get_name`, `get_iter_outgoing` and `get_iter_nodes_values`: they give access to fields and iterators, which the model reads directly as sequences.
- The binary search of `bisect`: `BisectRight` finds the same insertion point by a linear walk on a sorted list, which every edge list is (`Node.Valid`). On an unsorted list the binary search could pick another index; the model never meets one.
- Object identity: an edge records the name of its far end rather than the node object. Within a valid graph the two determine each other.
- Edge weights are integers. The source accepts any comparable value, floating point included.
- Node.HasIncoming: returns a boolean where the source returns the incoming list itself; only its truth value is used.
- Digraph.AddNode: requires a node with a new name to have no edges yet. The source does not check this, but `create_from_dict`, the one caller, only adds fresh nodes, and an edge to an unregistered node would break the graph invariant.
- Digraph.CreateEdge: the source's failing `assert`s become an `InvalidReference` outcome that changes nothing, rather than an `AssertionError` the caller may not catch.
- TopSortOrdered: the order of the result is proved only for graphs without cycles. On a graph with a cycle some edge can point forward in the result, as CyclicOrderExample shows. A topological order then does not exist, so this is the documented behaviour, not an error.
- VisitFrom: a name outside the graph is left alone. No edge of a valid graph leads to such a name (`Digraph.AdjWithin`), so the search never meets one.
- Dictionaries: modelled as sequences of pairs in the dictionary's order, so equality in the round trip is also in order. A sequence may repeat a key, which a dictionary cannot. For a repeated key `create_from_dict` fails with DuplicateNode, as the source would for a key registered before the call.
- `create_from_dict` resolves targets against the whole graph, including nodes registered before the call, as the source's `find` does.
- The recursion depth of `visit` is unbounded here. A deep enough graph would exceed Python's call-depth limit.
