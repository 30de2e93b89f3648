/**
 * The state of a Digraph as a plain value, and what each state-changing
 * operation of diskimage_builder/graph/digraph.py does to it.
 *
 * The class Digraph (digraph.dfy) is proved against these functions; the
 * lemmas here state what the functions promise: bulk construction
 * followed by export gives back its input, construction fails exactly
 * when a target is not a key, and a failed construction keeps what it
 * built so far.
 */
module GraphModel {
  import opened Sequences
  import opened Edges

  datatype Option<T> = None | Some(value: T)

  /** The errors the source raises (all of them as RuntimeError or AssertionError). */
  datatype Error =
    | DuplicateNode(name: string)     // add_node: the name is already registered
    | UnknownReference(name: string)  // create_from_dict: a target that is not a node
    | InvalidReference                // create_edge: a node that is not the one registered under its name

  /** Success, or the error an operation raises. */
  datatype Outcome = Ok | Fail(error: Error)

  /** A node's two edge lists. */
  datatype NodeState = NodeState(incoming: seq<Edge>, outgoing: seq<Edge>)

  /**
   * A graph: the registered names in registration order (the iteration
   * order of `_named_nodes`) and the edge lists of each registered name.
   */
  datatype GraphState = GraphState(order: seq<string>, nodes: map<string, NodeState>)

  /**
   * The dictionary `create_from_dict` reads and `as_dict` writes: node
   * names, in the dictionary's order, each with its list of target names.
   */
  type Adjacency = seq<(string, seq<string>)>

  /** `Digraph.__init__`: no nodes. */
  function Empty(): GraphState {
    GraphState([], map[])
  }

  /** The keys of a dictionary, in order. */
  function Keys(d: Adjacency): (ks: seq<string>)
    ensures |ks| == |d|
    ensures forall i :: 0 <= i < |d| ==> ks[i] == d[i].0
  {
    seq(|d|, i requires 0 <= i < |d| => d[i].0)
  }

  /** A dictionary holds each key once. */
  ghost predicate DistinctKeys(d: Adjacency) {
    Distinct(Keys(d))
  }

  /** Every target name in the first `n` entries of `d` is in `known`. */
  ghost predicate TargetsIn(d: Adjacency, n: nat, known: set<string>) {
    forall i, t :: 0 <= i < n && i < |d| && t in d[i].1 ==> t in known
  }

  /** Every target name of `d` is also one of its keys. */
  ghost predicate Closed(d: Adjacency) {
    TargetsIn(d, |d|, Elems(Keys(d)))
  }

  /** `add_node` for a node that has no edges yet. */
  ghost function AddNodeSpec(g: GraphState, name: string): (GraphState, Outcome) {
    if name in g.nodes then (g, Fail(DuplicateNode(name)))
    else (GraphState(g.order + [name], g.nodes[name := NodeState([], [])]), Ok)
  }

  /**
   * `create_edge(a, b, w)` on registered nodes: `(b, w)` is sorted into
   * a's outgoing list, then `(a, w)` into b's incoming list.
   */
  ghost function CreateEdgeSpec(g: GraphState, a: string, b: string, w: int): (h: GraphState)
    requires a in g.nodes && b in g.nodes
    // no node is added or removed
    ensures h.order == g.order && h.nodes.Keys == g.nodes.Keys
    // one edge joins a's outgoing list, and no other outgoing list changes
    ensures forall x :: x in g.nodes ==>
      h.nodes[x].outgoing == if x == a then Insort(g.nodes[a].outgoing, Edge(b, w)) else g.nodes[x].outgoing
    // one edge joins b's incoming list, and no other incoming list changes
    ensures forall x :: x in g.nodes ==>
      h.nodes[x].incoming == if x == b then Insort(g.nodes[b].incoming, Edge(a, w)) else g.nodes[x].incoming
  {
    var n1 := g.nodes[a := g.nodes[a].(outgoing := Insort(g.nodes[a].outgoing, Edge(b, w)))];
    GraphState(g.order, n1[b := n1[b].(incoming := Insort(n1[b].incoming, Edge(a, w)))])
  }

  /** Every edge list of `g` is sorted by weight. */
  ghost predicate SortedLists(g: GraphState) {
    forall k :: k in g.nodes ==>
      SortedByWeight(g.nodes[k].incoming) && SortedByWeight(g.nodes[k].outgoing)
  }

  /** Every outgoing edge of a to b is on record as an incoming edge of b from a, of the same weight. */
  ghost predicate OutgoingMirrored(g: GraphState) {
    forall k, e :: k in g.nodes && e in g.nodes[k].outgoing ==>
      e.target in g.nodes && Edge(k, e.weight) in g.nodes[e.target].incoming
  }

  /** Every incoming edge of b from a is on record as an outgoing edge of a to b, of the same weight. */
  ghost predicate IncomingMirrored(g: GraphState) {
    forall k, e :: k in g.nodes && e in g.nodes[k].incoming ==>
      e.target in g.nodes && Edge(k, e.weight) in g.nodes[e.target].outgoing
  }

  /**
   * What `create_edge` keeps true of a graph: every edge list is sorted by
   * weight, and every edge leads to a registered node and is on record at
   * both of its ends.
   */
  ghost predicate WellFormed(g: GraphState) {
    SortedLists(g) && OutgoingMirrored(g) && IncomingMirrored(g)
  }

  /** Adding an edge between two registered nodes keeps a graph well formed. */
  lemma CreateEdgeKeepsWellFormed(g: GraphState, a: string, b: string, w: int)
    requires WellFormed(g) && a in g.nodes && b in g.nodes
    ensures WellFormed(CreateEdgeSpec(g, a, b, w))
  {
    var h := CreateEdgeSpec(g, a, b, w);
    assert EdgeAdded(g, h, a, b, w);
    forall k | k in h.nodes ensures SortedByWeight(h.nodes[k].incoming) && SortedByWeight(h.nodes[k].outgoing) {
      assert SortedByWeight(g.nodes[k].incoming) && SortedByWeight(g.nodes[k].outgoing);
    }
    EdgeKeepsOutgoingMirrored(g, h, a, b, w);
    EdgeKeepsIncomingMirrored(g, h, a, b, w);
  }

  /** Helper of CreateEdgeKeepsWellFormed: `h` is `g` with the edge a to b of weight w added at both ends. */
  ghost predicate EdgeAdded(g: GraphState, h: GraphState, a: string, b: string, w: int) {
    && a in g.nodes && b in g.nodes
    && h.nodes.Keys == g.nodes.Keys
    && (forall x :: x in g.nodes ==>
          h.nodes[x].outgoing == if x == a then Insort(g.nodes[a].outgoing, Edge(b, w)) else g.nodes[x].outgoing)
    && (forall x :: x in g.nodes ==>
          h.nodes[x].incoming == if x == b then Insort(g.nodes[b].incoming, Edge(a, w)) else g.nodes[x].incoming)
  }

  /** Helper of CreateEdgeKeepsWellFormed: the edges of each list of `h`, one by one. */
  lemma EdgeAddedMembers(g: GraphState, h: GraphState, a: string, b: string, w: int)
    requires EdgeAdded(g, h, a, b, w)
    ensures forall x, e :: x in g.nodes ==>
      (e in h.nodes[x].outgoing <==> e in g.nodes[x].outgoing || (x == a && e == Edge(b, w)))
    ensures forall x, e :: x in g.nodes ==>
      (e in h.nodes[x].incoming <==> e in g.nodes[x].incoming || (x == b && e == Edge(a, w)))
  {
  }

  /** Helper of CreateEdgeKeepsWellFormed: the outgoing half. */
  lemma EdgeKeepsOutgoingMirrored(g: GraphState, h: GraphState, a: string, b: string, w: int)
    requires OutgoingMirrored(g) && EdgeAdded(g, h, a, b, w)
    ensures OutgoingMirrored(h)
  {
    EdgeAddedMembers(g, h, a, b, w);
    forall k, e | k in h.nodes && e in h.nodes[k].outgoing
      ensures e.target in h.nodes && Edge(k, e.weight) in h.nodes[e.target].incoming
    {
      if !(k == a && e == Edge(b, w)) {
        assert e in g.nodes[k].outgoing;
        assert Edge(k, e.weight) in g.nodes[e.target].incoming;
      }
    }
  }

  /** Helper of CreateEdgeKeepsWellFormed: the incoming half. */
  lemma EdgeKeepsIncomingMirrored(g: GraphState, h: GraphState, a: string, b: string, w: int)
    requires IncomingMirrored(g) && EdgeAdded(g, h, a, b, w)
    ensures IncomingMirrored(h)
  {
    EdgeAddedMembers(g, h, a, b, w);
    forall k, e | k in h.nodes && e in h.nodes[k].incoming
      ensures e.target in h.nodes && Edge(k, e.weight) in h.nodes[e.target].outgoing
    {
      if !(k == b && e == Edge(a, w)) {
        assert e in g.nodes[k].incoming;
        assert Edge(k, e.weight) in g.nodes[e.target].outgoing;
      }
    }
  }

  /** Registering a new name with no edges keeps a graph well formed. */
  lemma AddNodeKeepsWellFormed(g: GraphState, name: string)
    requires WellFormed(g)
    ensures WellFormed(AddNodeSpec(g, name).0)
  {
  }

  /** The first run of `create_from_dict`: `add_node` for each key in turn, stopping at the first error. */
  ghost function AddNodesSpec(g: GraphState, keys: seq<string>): (res: (GraphState, Outcome))
    ensures g.nodes.Keys <= res.0.nodes.Keys
    ensures res.1.Ok? ==> forall k :: k in keys ==> k in res.0.nodes
    decreases keys
  {
    if keys == [] then (g, Ok)
    else
      var (g1, r1) := AddNodeSpec(g, keys[0]);
      if r1.Fail? then (g1, r1) else AddNodesSpec(g1, keys[1..])
  }

  /** One step of the first run: the `add_node` of the key at index `i`, then the rest. */
  lemma AddNodesStep(g: GraphState, keys: seq<string>, i: nat)
    requires i < |keys|
    ensures AddNodesSpec(g, keys[i..]) ==
      var (g1, r1) := AddNodeSpec(g, keys[i]);
      if r1.Fail? then (g1, r1) else AddNodesSpec(g1, keys[i + 1..])
  {
  }

  /**
   * The inner loop of the second run: an edge of weight 0 from `from` to
   * each target in turn, failing at the first target that is not a node.
   */
  ghost function AddTargetsSpec(g: GraphState, from: string, outs: seq<string>): (res: (GraphState, Outcome))
    requires from in g.nodes
    ensures res.0.nodes.Keys == g.nodes.Keys && res.0.order == g.order
    decreases outs
  {
    if outs == [] then (g, Ok)
    else if outs[0] !in g.nodes then (g, Fail(UnknownReference(outs[0])))
    else AddTargetsSpec(CreateEdgeSpec(g, from, outs[0], 0), from, outs[1..])
  }

  /** The second run of `create_from_dict`: the edges of each key in turn, stopping at the first error. */
  ghost function AddEdgesSpec(g: GraphState, d: Adjacency): (res: (GraphState, Outcome))
    requires forall i :: 0 <= i < |d| ==> d[i].0 in g.nodes
    ensures res.0.nodes.Keys == g.nodes.Keys && res.0.order == g.order
    decreases d
  {
    if d == [] then (g, Ok)
    else
      var (g1, r1) := AddTargetsSpec(g, d[0].0, d[0].1);
      if r1.Fail? then (g1, r1) else AddEdgesSpec(g1, d[1..])
  }

  /** `create_from_dict`: every node first, then every edge; no rollback on error. */
  ghost function CreateFromDictSpec(g: GraphState, d: Adjacency): (GraphState, Outcome) {
    var (g1, r1) := AddNodesSpec(g, Keys(d));
    if r1.Fail? then (g1, r1) else AddEdgesSpec(g1, d)
  }

  /** `as_dict`: each registered name, in order, with the target names of its outgoing list. */
  ghost function ExportSpec(g: GraphState): Adjacency
    requires forall k :: k in g.order ==> k in g.nodes
  {
    seq(|g.order|, i requires 0 <= i < |g.order| => (g.order[i], Targets(g.nodes[g.order[i]].outgoing)))
  }

  /**
   * The first run succeeds exactly when no key is registered yet; it then
   * appends the keys to the order and gives each an empty node.
   */
  lemma {:induction false} AddNodesEffect(g: GraphState, keys: seq<string>)
    requires Distinct(keys)
    ensures var (h, r) := AddNodesSpec(g, keys);
      && (r.Ok? <==> forall k :: k in keys ==> k !in g.nodes)
      && (r.Fail? ==> r.error.DuplicateNode? && r.error.name in keys && r.error.name in g.nodes)
      && (r.Ok? ==> h.order == g.order + keys)
      && (r.Ok? ==> forall k :: k in h.nodes <==> k in g.nodes || k in keys)
      && (r.Ok? ==> forall k :: k in keys ==> h.nodes[k] == NodeState([], []))
      && (r.Ok? ==> forall k :: k in g.nodes ==> h.nodes[k] == g.nodes[k])
    decreases keys
  {
    if keys != [] {
      var k0 := keys[0];
      assert Distinct(keys[1..]) by {
        forall i, j | 0 <= i < j < |keys[1..]| ensures keys[1..][i] != keys[1..][j] {
          assert keys[1..][i] == keys[i + 1] && keys[1..][j] == keys[j + 1];
        }
      }
      assert forall k :: k in keys <==> k == k0 || k in keys[1..];
      if k0 !in g.nodes {
        var g1 := GraphState(g.order + [k0], g.nodes[k0 := NodeState([], [])]);
        assert AddNodesSpec(g, keys) == AddNodesSpec(g1, keys[1..]);
        AddNodesEffect(g1, keys[1..]);
        assert keys == [k0] + keys[1..];
        ConcatAssociative(g.order, [k0], keys[1..]);
      } else {
        assert AddNodesSpec(g, keys) == (g, Fail(DuplicateNode(k0)));
      }
    }
  }

  /**
   * The inner loop of the second run, on a node whose outgoing edges all
   * have weight at most 0: it succeeds exactly when every target is a
   * node, appends one weight-0 edge per target to that node's outgoing
   * list (equal weights keep their order), and leaves every other
   * outgoing list alone.
   */
  lemma {:induction false} AddTargetsEffect(g: GraphState, from: string, outs: seq<string>)
    requires from in g.nodes
    requires forall e :: e in g.nodes[from].outgoing ==> e.weight <= 0
    ensures var (h, r) := AddTargetsSpec(g, from, outs);
      && (r.Ok? <==> forall t :: t in outs ==> t in g.nodes)
      && (r.Fail? ==> r.error.UnknownReference? && r.error.name in outs && r.error.name !in g.nodes)
      && (r.Ok? ==> h.nodes[from].outgoing == g.nodes[from].outgoing + ZeroEdges(outs))
      && (forall e :: e in h.nodes[from].outgoing ==> e.weight <= 0)
      && (forall x :: x in g.nodes && x != from ==> h.nodes[x].outgoing == g.nodes[x].outgoing)
    decreases outs
  {
    if outs != [] && outs[0] in g.nodes {
      var o := g.nodes[from].outgoing;
      var e0 := Edge(outs[0], 0);
      var g1 := CreateEdgeSpec(g, from, outs[0], 0);
      InsortHeaviest(o, e0);
      assert g1.nodes[from].outgoing == o + [e0];
      assert forall x :: x in g1.nodes[from].outgoing ==> x.weight <= 0;
      AddTargetsEffect(g1, from, outs[1..]);
      assert AddTargetsSpec(g, from, outs) == AddTargetsSpec(g1, from, outs[1..]);
      var (h, r) := AddTargetsSpec(g1, from, outs[1..]);
      assert forall t :: t in outs <==> t == outs[0] || t in outs[1..];
      if r.Ok? {
        assert ZeroEdges(outs) == [e0] + ZeroEdges(outs[1..]);
        assert h.nodes[from].outgoing == (o + [e0]) + ZeroEdges(outs[1..]);
        ConcatAssociative(o, [e0], ZeroEdges(outs[1..]));
      }
    }
  }

  /**
   * The second run, on nodes whose outgoing lists are empty: it succeeds
   * exactly when every target is a node; each key whose targets, and
   * whose predecessors' targets, are all nodes ends up with one weight-0
   * edge per target, in the dictionary's order (nothing is rolled back
   * when a later key fails); and no other node's outgoing list changes.
   */
  lemma {:induction false} AddEdgesEffect(g: GraphState, d: Adjacency)
    requires DistinctKeys(d)
    requires forall i :: 0 <= i < |d| ==> d[i].0 in g.nodes && g.nodes[d[i].0].outgoing == []
    ensures var (h, r) := AddEdgesSpec(g, d);
      && (r.Ok? <==> TargetsIn(d, |d|, g.nodes.Keys))
      && (r.Fail? ==> r.error.UnknownReference? && r.error.name !in g.nodes)
      && (forall j :: 0 <= j < |d| && TargetsIn(d, j + 1, g.nodes.Keys) ==>
            h.nodes[d[j].0].outgoing == ZeroEdges(d[j].1))
      && (forall x :: x in g.nodes && x !in Keys(d) ==> h.nodes[x].outgoing == g.nodes[x].outgoing)
    decreases d
  {
    if d != [] {
      var (from, outs) := d[0];
      AddTargetsEffect(g, from, outs);
      var (g1, r1) := AddTargetsSpec(g, from, outs);
      var rest := d[1..];
      if r1.Ok? {
        KeysTail(d);
        assert forall i :: 0 <= i < |rest| ==> rest[i] == d[i + 1];
        AddEdgesEffect(g1, rest);
        var (h, r) := AddEdgesSpec(g1, rest);
        assert AddEdgesSpec(g, d) == (h, r);
        forall n: nat | n <= |rest|
          ensures TargetsIn(d, n + 1, g.nodes.Keys) <==> TargetsIn(rest, n, g.nodes.Keys)
        {
          TargetsInTail(d, n, g.nodes.Keys);
        }
        forall j | 0 <= j < |d| && TargetsIn(d, j + 1, g.nodes.Keys)
          ensures h.nodes[d[j].0].outgoing == ZeroEdges(d[j].1)
        {
          if j > 0 {
            assert d[j] == rest[j - 1];
            assert TargetsIn(rest, (j - 1) + 1, g.nodes.Keys);
          }
        }
      } else {
        forall n: nat | 1 <= n <= |d| ensures !TargetsIn(d, n, g.nodes.Keys) {
          assert r1.error.name in d[0].1 && r1.error.name !in g.nodes.Keys;
        }
      }
    }
  }

  /** The keys of a non-empty dictionary: the first, then those of the rest. */
  lemma KeysTail(d: Adjacency)
    requires d != [] && DistinctKeys(d)
    ensures Keys(d[1..]) == Keys(d)[1..]
    ensures DistinctKeys(d[1..]) && d[0].0 !in Keys(d[1..])
    ensures forall x :: x in Keys(d) <==> x == d[0].0 || x in Keys(d[1..])
  {
  }

  /** The targets of the first n + 1 entries of `d`: those of `d[0]`, then those of n entries of the rest. */
  lemma TargetsInTail(d: Adjacency, n: nat, known: set<string>)
    requires d != []
    ensures TargetsIn(d, n + 1, known) <==>
      (forall t :: t in d[0].1 ==> t in known) && TargetsIn(d[1..], n, known)
  {
  }

  /** The first run of `create_from_dict` from the empty graph registers every key, in order, with no edges. */
  lemma NodesFromEmpty(d: Adjacency)
    requires DistinctKeys(d)
    ensures var (g1, r1) := AddNodesSpec(Empty(), Keys(d));
      && r1.Ok? && g1.order == Keys(d) && g1.nodes.Keys == Elems(Keys(d))
      && forall i :: 0 <= i < |d| ==> d[i].0 in g1.nodes && g1.nodes[d[i].0].outgoing == []
  {
    var keys := Keys(d);
    var (g1, r1) := AddNodesSpec(Empty(), keys);
    assert r1.Ok? && g1.order == keys && (forall k :: k in g1.nodes <==> k in keys)
      && (forall k :: k in keys ==> g1.nodes[k] == NodeState([], [])) by {
      AddNodesEffect(Empty(), keys);
      assert Empty().nodes == map[];
      assert [] + keys == keys;
    }
    assert g1.nodes.Keys == Elems(keys) by {
      forall k ensures k in g1.nodes <==> k in Elems(keys) {
        assert k in g1.nodes <==> k in keys;
      }
    }
    forall i | 0 <= i < |d| ensures d[i].0 in g1.nodes && g1.nodes[d[i].0].outgoing == [] {
      assert d[i].0 == keys[i] && keys[i] in keys;
      assert g1.nodes[keys[i]] == NodeState([], []);
    }
  }

  /**
   * `digraph_create_from_dict`, from the empty graph: the keys are
   * registered in order; the construction succeeds exactly when every
   * target is a key, and otherwise fails on a target that is not one;
   * and every key whose own and earlier targets are all keys has its
   * targets, in order, as its outgoing list, also on failure.
   */
  lemma BuildFromEmpty(d: Adjacency)
    requires DistinctKeys(d)
    ensures var (h, r) := CreateFromDictSpec(Empty(), d);
      && h.order == Keys(d)
      && (forall k :: k in h.nodes <==> k in Keys(d))
      && (r.Ok? <==> Closed(d))
      && (r.Fail? ==> r.error.UnknownReference? && r.error.name !in Keys(d))
      && (forall j :: 0 <= j < |d| && TargetsIn(d, j + 1, Elems(Keys(d))) ==>
            Targets(h.nodes[d[j].0].outgoing) == d[j].1)
  {
    var (g1, r1) := AddNodesSpec(Empty(), Keys(d));
    NodesFromEmpty(d);
    AddEdgesEffect(g1, d);
    var (h, r) := AddEdgesSpec(g1, d);
    assert CreateFromDictSpec(Empty(), d) == (h, r);
    assert h.order == Keys(d);
    assert h.nodes.Keys == Elems(Keys(d));
    assert r.Ok? <==> Closed(d) by {
      assert Closed(d) == TargetsIn(d, |d|, g1.nodes.Keys);
    }
    forall j | 0 <= j < |d| && TargetsIn(d, j + 1, Elems(Keys(d)))
      ensures Targets(h.nodes[d[j].0].outgoing) == d[j].1
    {
      assert TargetsIn(d, j + 1, g1.nodes.Keys);
      TargetsOfZeroEdges(d[j].1);
    }
  }

  /**
   * Round trip: building a graph from a dictionary whose targets are all
   * keys and exporting it gives back the dictionary, in order.
   */
  lemma RoundTrip(d: Adjacency)
    requires DistinctKeys(d) && Closed(d)
    ensures var (h, r) := CreateFromDictSpec(Empty(), d);
      && r == Ok
      && (forall k :: k in h.order ==> k in h.nodes)
      && ExportSpec(h) == d
  {
    BuildFromEmpty(d);
    var (h, r) := CreateFromDictSpec(Empty(), d);
    forall j | 0 <= j < |d| ensures ExportSpec(h)[j] == d[j] {
      assert TargetsIn(d, j + 1, Elems(Keys(d)));
    }
  }

  /**
   * The other direction of the round trip: the export of a graph whose
   * names are registered once each and whose edges lead to registered
   * nodes is a dictionary `create_from_dict` accepts, and exporting the
   * rebuilt graph gives the same dictionary (weights are not exported).
   */
  lemma ExportRebuild(g: GraphState)
    requires Distinct(g.order) && (forall k :: k in g.nodes <==> k in g.order) && OutgoingMirrored(g)
    ensures var (h, r) := CreateFromDictSpec(Empty(), ExportSpec(g));
      && r == Ok
      && (forall k :: k in h.order ==> k in h.nodes)
      && ExportSpec(h) == ExportSpec(g)
  {
    var d := ExportSpec(g);
    assert Keys(d) == g.order;
    forall i, t | 0 <= i < |d| && t in d[i].1 ensures t in Elems(Keys(d)) {
      var out := g.nodes[g.order[i]].outgoing;
      var m :| 0 <= m < |Targets(out)| && Targets(out)[m] == t;
      assert out[m] in out;
    }
    RoundTrip(d);
  }
}
