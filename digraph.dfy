/**
 * diskimage_builder/graph/digraph.py: a directed graph of uniquely named
 * nodes with weighted edges, its bulk construction from and export to a
 * dictionary, and a depth-first topological sort.
 *
 * A node object keeps its edge lists and updates them in place; the graph
 * object keeps its nodes in a dictionary, modelled as the insertion order
 * of the names (`names`) beside the map from name to node (`namedNodes`).
 */
module Digraphs {
  import opened Sequences
  import opened Edges
  import opened GraphModel
  import opened Traversal

  /** Digraph.Node: a name and two edge lists, each sorted by weight. */
  class Node {
    const name: string
    var incoming: seq<Edge>
    var outgoing: seq<Edge>

    /** Both edge lists are sorted by weight. */
    ghost predicate Valid()
      reads this
    {
      SortedByWeight(incoming) && SortedByWeight(outgoing)
    }

    constructor (name: string)
      ensures this.name == name && incoming == [] && outgoing == [] && Valid()
    {
      this.name := name;
      incoming := [];
      outgoing := [];
    }

    /** `add_incoming`: sorts an edge from `node` into the incoming list. */
    method AddIncoming(node: Node, weight: int)
      requires Valid()
      modifies this
      ensures Valid()
      ensures incoming == Insort(old(incoming), Edge(node.name, weight))
      ensures outgoing == old(outgoing)
    {
      incoming := Insort(incoming, Edge(node.name, weight));
    }

    /** `add_outgoing`: sorts an edge to `node` into the outgoing list. */
    method AddOutgoing(node: Node, weight: int)
      requires Valid()
      modifies this
      ensures Valid()
      ensures outgoing == Insort(old(outgoing), Edge(node.name, weight))
      ensures incoming == old(incoming)
    {
      outgoing := Insort(outgoing, Edge(node.name, weight));
    }

    /** `has_incoming`. */
    predicate HasIncoming()
      reads this
    {
      incoming != []
    }

    /** `get_outgoing_as_named_list`. */
    function OutgoingNames(): (r: seq<string>)
      reads this
      ensures |r| == |outgoing|
      ensures forall i :: 0 <= i < |outgoing| ==> r[i] == outgoing[i].target
    {
      Targets(outgoing)
    }
  }

  /** Digraph. */
  class Digraph {
    var names: seq<string>
    var namedNodes: map<string, Node>

    /** The registered nodes. */
    ghost function Nodes(): set<Node>
      reads this
    {
      namedNodes.Values
    }

    /**
     * The graph invariant: each name is registered once, in `names`, under
     * a node of that name, and the edge lists are well formed (sorted, and
     * every edge on record at both of its ends).
     */
    ghost predicate Valid()
      reads this, Nodes()
    {
      && Distinct(names)
      && (forall k :: k in namedNodes <==> k in names)
      && (forall k :: k in namedNodes ==> namedNodes[k].name == k)
      && WellFormed(State())
    }

    /** The graph as a value. */
    ghost function State(): GraphState
      reads this, Nodes()
    {
      GraphState(names, map k | k in namedNodes :: NodeState(namedNodes[k].incoming, namedNodes[k].outgoing))
    }

    /** Each node is registered under its own name. */
    ghost predicate Named()
      reads this
    {
      forall k :: k in namedNodes ==> namedNodes[k].name == k
    }

    /** `n` is the node registered under its own name. */
    predicate Registered(n: Node)
      reads this
    {
      n.name in namedNodes && namedNodes[n.name] == n
    }

    /** `Digraph.__init__`: the empty graph. */
    constructor ()
      ensures Valid() && State() == Empty() && Nodes() == {}
    {
      names := [];
      namedNodes := map[];
    }

    /** A registered node is the one under its own name. */
    lemma RegisteredNode(n: Node)
      requires Valid() && n in Nodes()
      ensures Registered(n)
    {
    }

    /**
     * `find`: the node registered under `name`, or None when there is
     * none; in a valid graph that node carries the name.
     */
    function Find(name: string): (r: Option<Node>)
      reads this, Nodes()
      ensures r.None? <==> name !in namedNodes
      ensures r.Some? ==> r.value == namedNodes[name] && r.value in Nodes()
      ensures Valid() && r.Some? ==> r.value.name == name && Registered(r.value)
    {
      if name !in namedNodes then None else Some(namedNodes[name])
    }

    /**
     * `add_node`: fails with DuplicateNode, changing nothing, when some
     * registered node has the same name; otherwise registers `anode`
     * under its name, after every node registered before.
     */
    method AddNode(anode: Node) returns (r: Outcome)
      requires Valid()
      requires anode.name !in namedNodes ==> anode.incoming == [] && anode.outgoing == []
      modifies this
      ensures Valid()
      ensures (State(), r) == AddNodeSpec(old(State()), anode.name)
      ensures r.Fail? <==> old(anode.name in namedNodes)
      ensures r.Fail? ==> names == old(names) && namedNodes == old(namedNodes)
      ensures r.Ok? ==> Find(anode.name) == Some(anode) && Nodes() == old(Nodes()) + {anode}
      ensures forall k :: k in old(namedNodes) ==> k in namedNodes && namedNodes[k] == old(namedNodes[k])
    {
      var i := 0;
      while i < |names|
        invariant 0 <= i <= |names|
        invariant forall j :: 0 <= j < i ==> namedNodes[names[j]].name != anode.name
      {
        if namedNodes[names[i]].name == anode.name {
          return Fail(DuplicateNode(anode.name));
        }
        i := i + 1;
      }
      assert anode.name !in namedNodes;
      assert anode !in Nodes() by {
        if anode in Nodes() { RegisteredNode(anode); }
      }
      namedNodes := namedNodes[anode.name := anode];
      names := names + [anode.name];
      r := Ok;
      assert State().nodes == old(State()).nodes[anode.name := NodeState([], [])];
      AddNodeKeepsWellFormed(old(State()), anode.name);
      ValuesOfUpdate(old(namedNodes), anode.name, anode);
    }

    /**
     * Helper of CreateEdge: once an edge of `w` from `anode` to `bnode` has
     * been sorted into the two lists of `g`, with no other list changed,
     * the graph is `g` with that edge added.
     */
    lemma StateAfterEdge(g: GraphState, anode: Node, bnode: Node, w: int)
      requires Registered(anode) && Registered(bnode)
      requires g.nodes.Keys == namedNodes.Keys
      requires Named()
      requires anode.outgoing == Insort(g.nodes[anode.name].outgoing, Edge(bnode.name, w))
      requires bnode.incoming == Insort(g.nodes[bnode.name].incoming, Edge(anode.name, w))
      requires anode != bnode ==>
        anode.incoming == g.nodes[anode.name].incoming && bnode.outgoing == g.nodes[bnode.name].outgoing
      requires forall k :: k in namedNodes && k != anode.name && k != bnode.name ==>
        namedNodes[k].incoming == g.nodes[k].incoming && namedNodes[k].outgoing == g.nodes[k].outgoing
      ensures State() == CreateEdgeSpec(GraphState(names, g.nodes), anode.name, bnode.name, w)
    {
      ghost var h := CreateEdgeSpec(GraphState(names, g.nodes), anode.name, bnode.name, w);
      forall k | k in namedNodes ensures State().nodes[k] == h.nodes[k] {
      }
      assert State().nodes == h.nodes;
    }

    /**
     * `create_edge`: fails with InvalidReference, changing nothing, unless
     * both nodes are the ones registered under their names; otherwise
     * sorts `(bnode, weight)` into anode's outgoing list and
     * `(anode, weight)` into bnode's incoming list, and changes nothing else.
     */
    method CreateEdge(anode: Node, bnode: Node, weight: int := 0) returns (r: Outcome)
      requires Valid()
      modifies anode, bnode
      ensures Valid()
      ensures r.Ok? <==> Registered(anode) && Registered(bnode)
      ensures r.Fail? ==> r.error == InvalidReference && unchanged(anode, bnode)
      ensures r.Ok? ==> State() == CreateEdgeSpec(old(State()), anode.name, bnode.name, weight)
    {
      if !(Registered(anode) && Registered(bnode)) {
        return Fail(InvalidReference);
      }
      r := Ok;
      AddEdge(anode, bnode, weight);
    }

    /**
     * The two list updates of `create_edge`, on nodes registered under
     * their names: the graph stays valid and gains the edge at both ends.
     */
    method AddEdge(anode: Node, bnode: Node, weight: int)
      requires Valid() && Registered(anode) && Registered(bnode)
      modifies anode, bnode
      ensures Valid()
      ensures State() == CreateEdgeSpec(old(State()), anode.name, bnode.name, weight)
    {
      ghost var g := State();
      assert g.nodes[anode.name].outgoing == anode.outgoing;
      assert g.nodes[bnode.name].incoming == bnode.incoming;
      anode.AddOutgoing(bnode, weight);
      bnode.AddIncoming(anode, weight);
      assert GraphState(names, g.nodes) == g && Named();
      StateAfterEdge(g, anode, bnode, weight);
      CreateEdgeKeepsWellFormed(g, anode.name, bnode.name, weight);
    }

    /**
     * `create_from_dict`: first a new node for every key, in order, then
     * for every key an edge of weight 0 to each of its targets, in order;
     * the first duplicate name or unknown target stops it with an error,
     * and what was built so far stays in the graph.
     */
    method CreateFromDict(d: Adjacency) returns (r: Outcome)
      requires Valid()
      modifies this, Nodes()
      ensures Valid()
      ensures (State(), r) == CreateFromDictSpec(old(State()), d)
      ensures old(Nodes()) <= Nodes() && fresh(Nodes() - old(Nodes()))
    {
      ghost var g0 := State();
      r := AddNodesFor(d);
      if r.Fail? {
        return;
      }
      ghost var g1 := State();
      assert CreateFromDictSpec(g0, d) == AddEdgesSpec(g1, d);
      ghost var named1 := namedNodes;
      forall k | 0 <= k < |d| ensures d[k].0 in g1.nodes {
        assert Keys(d)[k] in Keys(d);
      }
      var j := 0;
      while j < |d|
        invariant 0 <= j <= |d|
        invariant Valid()
        invariant names == g1.order && namedNodes == named1
        invariant AddEdgesSpec(g1, d) == AddEdgesSpec(State(), d[j..])
      {
        var from := Find(d[j].0);
        r := AddTargets(from.value, d[j].1);
        assert d[j..][0] == d[j] && d[j..][1..] == d[j + 1..];
        if r.Fail? {
          return;
        }
        j := j + 1;
      }
      assert d[|d|..] == [];
      r := Ok;
    }

    /** The first run of CreateFromDict: a new node for every key, in order. */
    method AddNodesFor(d: Adjacency) returns (r: Outcome)
      requires Valid()
      modifies this
      ensures Valid()
      ensures (State(), r) == AddNodesSpec(old(State()), Keys(d))
      ensures old(Nodes()) <= Nodes() && fresh(Nodes() - old(Nodes()))
    {
      ghost var g0 := State();
      ghost var keys := Keys(d);
      var i := 0;
      while i < |d|
        invariant 0 <= i <= |d|
        invariant Valid()
        invariant AddNodesSpec(g0, keys) == AddNodesSpec(State(), keys[i..])
        invariant old(Nodes()) <= Nodes() && fresh(Nodes() - old(Nodes()))
      {
        ghost var gi := State();
        r := AddNewNode(d[i].0);
        AddNodesStep(gi, keys, i);
        if r.Fail? {
          return;
        }
        i := i + 1;
      }
      assert keys[|d|..] == [];
      r := Ok;
    }

    /** A new node of name `name`, with no edges, passed to AddNode. */
    method AddNewNode(name: string) returns (r: Outcome)
      requires Valid()
      modifies this
      ensures Valid()
      ensures (State(), r) == AddNodeSpec(old(State()), name)
      ensures old(Nodes()) <= Nodes() && fresh(Nodes() - old(Nodes()))
    {
      ghost var g := State();
      var node := new Node(name);
      assert State() == g && Nodes() == old(Nodes());
      r := AddNode(node);
    }

    /**
     * The inner loop of the second run of CreateFromDict: an edge of
     * weight 0 from `from` to the node of each name in turn, failing at
     * the first name that is not registered.
     */
    method AddTargets(from: Node, outs: seq<string>) returns (r: Outcome)
      requires Valid() && Registered(from)
      modifies Nodes()
      ensures Valid()
      ensures (State(), r) == AddTargetsSpec(old(State()), from.name, outs)
    {
      ghost var g0 := State();
      var m := 0;
      while m < |outs|
        invariant 0 <= m <= |outs|
        invariant Valid()
        invariant AddTargetsSpec(g0, from.name, outs) == AddTargetsSpec(State(), from.name, outs[m..])
      {
        var to := Find(outs[m]);
        if to.None? {
          return Fail(UnknownReference(outs[m]));
        }
        r := CreateEdge(from, to.value, 0);
        assert outs[m..][1..] == outs[m + 1..];
        m := m + 1;
      }
      assert outs[|outs|..] == [];
      r := Ok;
    }

    /**
     * `as_dict`: every registered name, in registration order, with the
     * names at the far end of its outgoing edges, in list order.
     */
    method AsDict() returns (rval: Adjacency)
      requires Valid()
      ensures Keys(rval) == names
      ensures forall i :: 0 <= i < |rval| ==> rval[i].1 == namedNodes[names[i]].OutgoingNames()
      ensures rval == ExportSpec(State())
    {
      rval := [];
      var i := 0;
      while i < |names|
        invariant 0 <= i <= |names|
        invariant |rval| == i
        invariant forall k :: 0 <= k < i ==> rval[k] == (names[k], namedNodes[names[k]].OutgoingNames())
      {
        var node := namedNodes[names[i]];
        rval := rval + [(node.name, node.OutgoingNames())];
        i := i + 1;
      }
    }

    /**
     * The export of a valid graph is a dictionary `create_from_dict`
     * accepts, and the graph rebuilt from it exports to the same dictionary.
     */
    lemma ExportRebuilds()
      requires Valid()
      ensures var (h, r) := CreateFromDictSpec(Empty(), ExportSpec(State()));
        && r == Ok
        && (forall k :: k in h.order ==> k in h.nodes)
        && ExportSpec(h) == ExportSpec(State())
    {
      ExportRebuild(State());
    }

    // ---------------------------------------------------------------
    // `topological_sort`
    // ---------------------------------------------------------------

    /** Each registered name with the names at the far end of its outgoing edges, in list order. */
    ghost function Adj(): Adj
      reads this, Nodes()
    {
      map k | k in namedNodes :: Targets(namedNodes[k].outgoing)
    }

    /** In a valid graph nodes carry their names and every edge leads to a registered node. */
    lemma AdjWithin()
      requires Valid()
      ensures Named() && EdgesWithin(Adj()) && Adj().Keys == namedNodes.Keys
    {
    }

    /**
     * `has_incoming`: a registered node has incoming edges exactly when
     * it is not a root, that is, when some edge leads to it.
     */
    lemma HasIncomingIffNotRoot(b: Node)
      requires Valid() && Registered(b)
      ensures b.HasIncoming() <==> !IsRoot(Adj(), b.name)
    {
      assert State().nodes[b.name].incoming == b.incoming;
      if b.HasIncoming() {
        var e := b.incoming[0];
        assert e in State().nodes[b.name].incoming;
        var out := namedNodes[e.target].outgoing;
        assert State().nodes[e.target].outgoing == out;
        var m :| 0 <= m < |out| && out[m] == Edge(b.name, e.weight);
        assert Targets(out)[m] == b.name;
        assert b.name in Adj()[e.target];
      }
      if !IsRoot(Adj(), b.name) {
        var a :| a in Adj() && b.name in Adj()[a];
        var out := namedNodes[a].outgoing;
        var m :| 0 <= m < |Targets(out)| && Targets(out)[m] == b.name;
        assert State().nodes[a].outgoing == out;
        assert out[m] in State().nodes[a].outgoing;
        assert Edge(a, out[m].weight) in b.incoming;
      }
    }

    /** `has_incoming`, for every registered node at once. */
    lemma RootsWithoutIncoming()
      requires Valid()
      ensures forall k :: k in namedNodes ==> (namedNodes[k].HasIncoming() <==> !IsRoot(Adj(), k))
    {
      forall k | k in namedNodes ensures namedNodes[k].HasIncoming() <==> !IsRoot(Adj(), k) {
        HasIncomingIffNotRoot(namedNodes[k]);
      }
    }

    /** Among registered nodes, a node is in a list exactly when its name is among the list's names. */
    lemma InByName(x: Node, s: seq<Node>)
      requires Registered(x) && forall y :: y in s ==> Registered(y)
      ensures x in s <==> x.name in NamesOf(s)
    {
      if x.name in NamesOf(s) {
        var i :| 0 <= i < |s| && NamesOf(s)[i] == x.name;
        assert Registered(s[i]);
      }
      if x in s {
        var i :| 0 <= i < |s| && s[i] == x;
        assert NamesOf(s)[i] == x.name;
      }
    }

    /**
     * The inner `visit` of `topological_sort`: unless `node` has been
     * visited, marks it visited, visits the node at the far end of each of
     * its outgoing edges in list order, and then puts `node` at the front
     * of `tsort`; on names, this is VisitFrom.  `adj` is the graph's
     * adjacency (Adj), passed in so that the search does not recompute it.
     */
    method Visit(node: Node, visited: seq<Node>, tsort: seq<Node>, ghost adj: Adj)
      returns (visited': seq<Node>, tsort': seq<Node>)
      requires adj.Keys == namedNodes.Keys && EdgesWithin(adj)
      requires forall k :: k in namedNodes ==> adj[k] == Targets(namedNodes[k].outgoing)
      requires Named() && Registered(node)
      requires forall x :: x in visited ==> Registered(x)
      requires forall x :: x in tsort ==> Registered(x)
      ensures forall x :: x in visited' ==> Registered(x)
      ensures forall x :: x in tsort' ==> Registered(x)
      ensures (NamesOf(visited'), NamesOf(tsort')) == VisitFrom(adj, node.name, NamesOf(visited), NamesOf(tsort))
      decreases namedNodes.Keys - Elems(NamesOf(visited))
    {
      InByName(node, visited);
      if node in visited {
        return visited, tsort;
      }
      ghost var succ := adj[node.name];
      assert succ == Targets(node.outgoing);
      NamesOfAppend(visited, node);
      visited' := visited + [node];
      tsort' := tsort;
      ghost var start := NamesOf(visited');
      assert node.name in Elems(start) && node.name !in Elems(NamesOf(visited));
      var m := 0;
      while m < |node.outgoing|
        invariant 0 <= m <= |node.outgoing|
        invariant forall x :: x in visited' ==> Registered(x)
        invariant forall x :: x in tsort' ==> Registered(x)
        invariant Elems(start) <= Elems(NamesOf(visited'))
        invariant VisitAll(adj, succ, start, NamesOf(tsort)) == VisitAll(adj, succ[m..], NamesOf(visited'), NamesOf(tsort'))
      {
        var onode := namedNodes[node.outgoing[m].target];
        assert succ[m..][0] == succ[m] && succ[m..][1..] == succ[m + 1..];
        visited', tsort' := Visit(onode, visited', tsort', adj);
        m := m + 1;
      }
      NamesOfCons(node, tsort');
      tsort' := [node] + tsort';
    }

    /**
     * `topological_sort`: a visit from every node without incoming edges,
     * in registration order; on names, this is TopSort, whose lemmas say
     * what the result holds and in which order.
     */
    method TopologicalSort() returns (tsort: seq<Node>)
      requires Valid()
      ensures forall x :: x in tsort ==> Registered(x)
      ensures NamesOf(tsort) == TopSort(Adj(), names)
    {
      AdjWithin();
      RootsWithoutIncoming();
      ghost var adj := Adj();
      tsort := SortRoots(adj);
      assert adj == Adj();
    }

    /** The main loop of `topological_sort`, on names: SortFrom over the registration order. */
    method SortRoots(ghost adj: Adj) returns (tsort: seq<Node>)
      requires adj.Keys == namedNodes.Keys && EdgesWithin(adj)
      requires forall k :: k in namedNodes ==> adj[k] == Targets(namedNodes[k].outgoing)
      requires forall k :: k in namedNodes ==> (namedNodes[k].HasIncoming() <==> !IsRoot(adj, k))
      requires Named() && forall k :: k in names ==> k in namedNodes
      ensures forall x :: x in tsort ==> Registered(x)
      ensures NamesOf(tsort) == TopSort(adj, names)
    {
      tsort := [];
      var visited: seq<Node> := [];
      var i := 0;
      assert names[0..] == names && NamesOf([]) == [];
      while i < |names|
        invariant 0 <= i <= |names|
        invariant forall x :: x in visited ==> Registered(x)
        invariant forall x :: x in tsort ==> Registered(x)
        invariant SortFrom(adj, names, [], []) == SortFrom(adj, names[i..], NamesOf(visited), NamesOf(tsort))
      {
        var node := namedNodes[names[i]];
        assert names[i..][0] == names[i] && names[i..][1..] == names[i + 1..];
        if !node.HasIncoming() {
          visited, tsort := Visit(node, visited, tsort, adj);
        }
        i := i + 1;
      }
      assert names[i..] == [];
      assert SortFrom(adj, names[i..], NamesOf(visited), NamesOf(tsort)) == (NamesOf(visited), NamesOf(tsort));
    }

    /** The nodes `topological_sort` returns hold no node twice. */
    lemma SortedNodesDistinct(tsort: seq<Node>)
      requires Valid() && NamesOf(tsort) == TopSort(Adj(), names)
      ensures Distinct(tsort)
    {
      ghost var t := NamesOf(tsort);
      AdjWithin();
      TopSortDistinct(Adj(), names);
      forall i, j | 0 <= i < j < |tsort| ensures tsort[i] != tsort[j] {
        assert t[i] != t[j];
      }
    }

    /** When every node has incoming edges, `topological_sort` returns nothing. */
    lemma SortedNodesEmpty(tsort: seq<Node>)
      requires Valid() && NamesOf(tsort) == TopSort(Adj(), names)
      requires forall k :: k in namedNodes ==> namedNodes[k].HasIncoming()
      ensures tsort == []
    {
      AdjWithin();
      RootsWithoutIncoming();
      TopSortNoRoots(Adj(), names);
      assert |NamesOf(tsort)| == 0;
    }

    /** In a graph without cycles `topological_sort` returns every registered node. */
    lemma SortedNodesComplete(tsort: seq<Node>)
      requires Valid() && forall x :: x in tsort ==> Registered(x)
      requires NamesOf(tsort) == TopSort(Adj(), names)
      requires Acyclic(Adj())
      ensures forall k :: k in namedNodes ==> namedNodes[k] in tsort
    {
      AdjWithin();
      TopSortComplete(Adj(), names);
      forall k | k in namedNodes ensures namedNodes[k] in tsort {
        InByName(namedNodes[k], tsort);
      }
    }
  }

  /** Registering a value under a new key adds exactly that value to the map's values. */
  lemma ValuesOfUpdate<K, V>(m: map<K, V>, k: K, v: V)
    requires k !in m
    ensures m[k := v].Values == m.Values + {v}
  {
    var m' := m[k := v];
    forall x | x in m'.Values ensures x in m.Values + {v} {
      var j :| j in m' && m'[j] == x;
      if j != k {
        assert j in m && m[j] == x;
      }
    }
    assert v in m'.Values by {
      assert k in m' && m'[k] == v;
    }
    forall x | x in m.Values ensures x in m'.Values {
      var j :| j in m && m[j] == x;
      assert j in m' && m'[j] == x;
    }
  }


  /** Naming is taken element by element, so it commutes with putting a node in front. */
  lemma NamesOfCons(n: Node, s: seq<Node>)
    ensures NamesOf([n] + s) == [n.name] + NamesOf(s)
  {
  }

  /** `node_list_to_node_name_list`: the names of the nodes, in list order. */
  method NodeListToNameList(nodes: seq<Node>) returns (names: seq<string>)
    ensures |names| == |nodes|
    ensures forall i :: 0 <= i < |nodes| ==> names[i] == nodes[i].name
    ensures names == NamesOf(nodes)
  {
    names := [];
    for i := 0 to |nodes|
      invariant |names| == i
      invariant forall k :: 0 <= k < i ==> names[k] == nodes[k].name
    {
      names := names + [nodes[i].name];
    }
  }

  /**
   * `digraph_create_from_dict`: a new graph filled by `create_from_dict`.
   * For a dictionary whose keys differ it fails exactly when some target
   * is not a key, and otherwise exports back to the dictionary.
   */
  method DigraphCreateFromDict(d: Adjacency) returns (g: Digraph, r: Outcome)
    ensures fresh(g) && g.Valid()
    ensures (g.State(), r) == CreateFromDictSpec(Empty(), d)
    ensures DistinctKeys(d) ==> g.names == Keys(d) && (r.Ok? <==> Closed(d))
    ensures DistinctKeys(d) && Closed(d) ==> ExportSpec(g.State()) == d
  {
    g := new Digraph();
    r := g.CreateFromDict(d);
    if DistinctKeys(d) {
      BuildFromEmpty(d);
      if Closed(d) {
        RoundTrip(d);
      }
    }
  }

  /** Naming commutes with appending a node. */
  lemma NamesOfAppend(s: seq<Node>, n: Node)
    ensures NamesOf(s + [n]) == NamesOf(s) + [n.name]
  {
  }

  /** The names of a list of nodes, in list order. */
  function NamesOf(s: seq<Node>): (r: seq<string>)
    ensures |r| == |s|
    ensures forall i :: 0 <= i < |s| ==> r[i] == s[i].name
  {
    seq(|s|, i requires 0 <= i < |s| => s[i].name)
  }
}
