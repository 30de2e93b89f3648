/**
 * The graph theory behind `Digraph.topological_sort`, on a plain value:
 * each registered name mapped to the names at the far end of its outgoing
 * edges, in list order.
 *
 * DfsInv is what holds of the lists `visited` and `tsort` between two
 * steps of the depth-first search; the lemmas are the facts the search
 * needs and the facts its result has.
 */
module Traversal {
  import opened Sequences

  /** Each name with the names its outgoing edges lead to. */
  type Adj = map<string, seq<string>>

  /** Every edge leads to a name of the graph. */
  ghost predicate EdgesWithin(adj: Adj) {
    forall a, b :: a in adj && b in adj[a] ==> b in adj
  }

  /** An edge leads from `a` to `b`. */
  ghost predicate Linked(adj: Adj, a: string, b: string) {
    a in adj && b in adj[a]
  }

  /** A non-empty sequence of names of the graph, each linked to the next one. */
  ghost predicate IsPath(adj: Adj, p: seq<string>) {
    && |p| > 0
    && (forall i :: 0 <= i < |p| ==> p[i] in adj)
    && (forall i :: 0 < i < |p| ==> Linked(adj, p[i - 1], p[i]))
  }

  /** Some path leads from `a` to `b`. */
  ghost predicate Reaches(adj: Adj, a: string, b: string) {
    exists p :: IsPath(adj, p) && p[0] == a && p[|p| - 1] == b
  }

  /** No path of two or more nodes leads back to where it started. */
  ghost predicate Acyclic(adj: Adj) {
    forall p :: IsPath(adj, p) && |p| >= 2 ==> p[0] != p[|p| - 1]
  }

  /** A name of the graph that no edge leads to. */
  ghost predicate IsRoot(adj: Adj, r: string) {
    r in adj && forall a :: a in adj ==> r !in adj[a]
  }

  /** Some root reaches `x`. */
  ghost predicate ReachedFromRoot(adj: Adj, x: string) {
    exists r :: IsRoot(adj, r) && Reaches(adj, r, x)
  }

  /** A path that returns to one of its nodes is a cycle. */
  lemma RepeatOnPath(adj: Adj, p: seq<string>, i: nat, j: nat)
    requires IsPath(adj, p) && i < j < |p| && p[i] == p[j]
    ensures !Acyclic(adj)
  {
    var q := p[i..j + 1];
    assert forall k :: 0 <= k < |q| ==> q[k] == p[i + k];
    assert IsPath(adj, q) && |q| >= 2 && q[0] == q[|q| - 1];
  }

  /** A node that is linked to a node reaching `x` reaches `x` too. */
  lemma ReachesStep(adj: Adj, a: string, b: string, x: string)
    requires Linked(adj, a, b) && Reaches(adj, b, x)
    ensures Reaches(adj, a, x)
  {
    var p :| IsPath(adj, p) && p[0] == b && p[|p| - 1] == x;
    var q := [a] + p;
    assert forall k :: 0 < k < |q| ==> q[k] == p[k - 1];
    assert IsPath(adj, q);
  }

  /** A path followed by a node its last node is linked to is a path. */
  lemma PathExtend(adj: Adj, p: seq<string>, b: string)
    requires IsPath(adj, p) && Linked(adj, p[|p| - 1], b) && b in adj
    ensures IsPath(adj, p + [b])
  {
  }

  /** Every name of the graph reaches itself. */
  lemma ReachesSelf(adj: Adj, a: string)
    requires a in adj
    ensures Reaches(adj, a, a)
  {
    assert IsPath(adj, [a]);
  }

  /**
   * In a graph without cycles, walking backwards from the front of a path
   * ends in a root, since no node can be passed twice.
   */
  lemma {:induction false} RootAbove(adj: Adj, p: seq<string>)
    requires Acyclic(adj) && IsPath(adj, p)
    ensures ReachedFromRoot(adj, p[|p| - 1])
    decreases |adj.Keys| + 1 - |p|
  {
    if |p| > |adj.Keys| {
      var i, j := Pigeonhole(p, adj.Keys);
      RepeatOnPath(adj, p, i, j);
    } else if IsRoot(adj, p[0]) {
    } else {
      var a :| a in adj && p[0] in adj[a];
      var q := [a] + p;
      assert forall k :: 0 < k < |q| ==> q[k] == p[k - 1];
      assert IsPath(adj, q);
      RootAbove(adj, q);
    }
  }

  /** In a graph without cycles every node is reached from a root. */
  lemma AcyclicReachedFromRoot(adj: Adj, x: string)
    requires Acyclic(adj) && x in adj
    ensures ReachedFromRoot(adj, x)
  {
    assert IsPath(adj, [x]);
    RootAbove(adj, [x]);
  }

  /** A path that starts in a set of names closed under edges stays in it. */
  lemma {:induction false} PathStaysIn(adj: Adj, p: seq<string>, s: seq<string>)
    requires IsPath(adj, p) && p[0] in s
    requires forall a, b :: a in s && Linked(adj, a, b) ==> b in s
    ensures p[|p| - 1] in s
    decreases |p|
  {
    if |p| > 1 {
      var q := p[..|p| - 1];
      assert forall k :: 0 <= k < |q| ==> q[k] == p[k];
      assert IsPath(adj, q);
      PathStaysIn(adj, q, s);
      assert Linked(adj, p[|p| - 2], p[|p| - 1]);
    }
  }

  /**
   * Between two steps of the search, with `visited` and `tsort` the
   * search's lists and `stack` the nodes whose visit has begun and not yet
   * ended: a node is visited exactly when its visit has ended (it is in
   * `tsort`, once) or is under way; every node linked from a node in
   * `tsort` has been visited; and, in a graph without cycles, every such
   * node is in `tsort`, after the node it is linked from.
   */
  ghost predicate DfsInv(adj: Adj, visited: seq<string>, tsort: seq<string>, stack: seq<string>) {
    && (forall x :: x in visited ==> x in adj && (x in tsort || x in stack))
    && (forall x :: x in tsort ==> x in visited && x !in stack)
    && (forall x :: x in stack ==> x in visited)
    && Distinct(tsort)
    && (forall a, b :: a in tsort && Linked(adj, a, b) ==> b in visited)
    && (Acyclic(adj) ==> forall a, b :: a in tsort && Linked(adj, a, b) ==> b in tsort)
    && (Acyclic(adj) ==> forall i, j :: 0 <= j <= i < |tsort| ==> !Linked(adj, tsort[i], tsort[j]))
  }

  /** Before the search nothing is visited. */
  lemma DfsStart(adj: Adj)
    ensures DfsInv(adj, [], [], [])
  {
  }

  /**
   * The visit of `n` begins: once `n` is marked visited it is under way,
   * on top of the nodes whose visit it was reached from.
   */
  lemma DfsEnter(adj: Adj, visited: seq<string>, tsort: seq<string>, stack: seq<string>, n: string)
    requires DfsInv(adj, visited, tsort, stack) && n in adj && n !in visited
    ensures DfsInv(adj, visited + [n], tsort, stack + [n])
  {
  }

  /**
   * The visit of `n`, the last node of the path `stack + [n]`, ends once
   * every node it is linked to has been visited (and, in a graph without
   * cycles, has ended its visit): `n` joins the front of `tsort`.
   */
  lemma DfsFinish(adj: Adj, visited: seq<string>, tsort: seq<string>, stack: seq<string>, n: string)
    requires DfsInv(adj, visited, tsort, stack + [n]) && IsPath(adj, stack + [n])
    requires n !in stack
    requires forall b :: Linked(adj, n, b) ==> b in visited
    requires Acyclic(adj) ==> forall b :: Linked(adj, n, b) ==> b in tsort
    ensures DfsInv(adj, visited, [n] + tsort, stack)
  {
  }

  /**
   * A node met again while its own visit is under way closes a cycle; so
   * in a graph without cycles a visited node at the end of a path of
   * nodes under way has ended its visit.
   */
  lemma DfsRevisit(adj: Adj, visited: seq<string>, tsort: seq<string>, stack: seq<string>, n: string)
    requires DfsInv(adj, visited, tsort, stack) && IsPath(adj, stack + [n])
    requires n in visited && Acyclic(adj)
    ensures n in tsort
  {
    if n !in tsort {
      var path := stack + [n];
      var k :| 0 <= k < |stack| && stack[k] == n;
      assert path[k] == path[|stack|];
      RepeatOnPath(adj, path, k, |stack|);
    }
  }

  /**
   * When the search is over (no visit under way), every node it ended is
   * linked only to nodes it ended, and every node reached from one of
   * them is in `tsort`.
   */
  lemma DfsDone(adj: Adj, visited: seq<string>, tsort: seq<string>, a: string, x: string)
    requires DfsInv(adj, visited, tsort, []) && a in tsort && Reaches(adj, a, x)
    ensures x in tsort
  {
    var p :| IsPath(adj, p) && p[0] == a && p[|p| - 1] == x;
    PathStaysIn(adj, p, tsort);
  }

  /**
   * The inner `visit` of `topological_sort`, on names: the lists `visited`
   * and `tsort` after the visit of `n`.  Unless `n` has been visited, it
   * is marked visited, the names its edges lead to are visited in list
   * order, and `n` is put at the front of `tsort`.  Every name an edge of
   * the graph leads to is a name of the graph, so the search never meets
   * a name outside `adj`; such a name is left alone.
   */
  ghost function VisitFrom(adj: Adj, n: string, visited: seq<string>, tsort: seq<string>): (r: (seq<string>, seq<string>))
    ensures Elems(visited) <= Elems(r.0)
    decreases adj.Keys - Elems(visited), 0
  {
    if n in visited || n !in adj then (visited, tsort)
    else
      assert Elems(visited + [n]) == Elems(visited) + {n};
      var r := VisitAll(adj, adj[n], visited + [n], tsort);
      (r.0, [n] + r.1)
  }

  /** The `for` loop of `visit`: a visit from each of `succs`, in order. */
  ghost function VisitAll(adj: Adj, succs: seq<string>, visited: seq<string>, tsort: seq<string>): (r: (seq<string>, seq<string>))
    ensures Elems(visited) <= Elems(r.0)
    decreases adj.Keys - Elems(visited), 1, |succs|
  {
    if succs == [] then (visited, tsort)
    else
      var r := VisitFrom(adj, succs[0], visited, tsort);
      VisitAll(adj, succs[1..], r.0, r.1)
  }

  /** The main loop of `topological_sort`: a visit from each root among `ns`, in order. */
  ghost function SortFrom(adj: Adj, ns: seq<string>, visited: seq<string>, tsort: seq<string>): (r: (seq<string>, seq<string>))
    ensures Elems(visited) <= Elems(r.0)
    decreases |ns|
  {
    if ns == [] then (visited, tsort)
    else if IsRoot(adj, ns[0]) then
      var r := VisitFrom(adj, ns[0], visited, tsort);
      SortFrom(adj, ns[1..], r.0, r.1)
    else SortFrom(adj, ns[1..], visited, tsort)
  }

  /** `topological_sort` on names, with the nodes taken in the order `order`. */
  ghost function TopSort(adj: Adj, order: seq<string>): seq<string> {
    SortFrom(adj, order, [], []).1
  }

  /**
   * A visit keeps the invariant of the search; afterwards `n` is visited
   * (and, in a graph without cycles, has ended its visit), `tsort` has
   * only grown, and every name it marked is reached from `n`.
   */
  lemma {:induction false} VisitFromKeeps(adj: Adj, n: string, visited: seq<string>, tsort: seq<string>, stack: seq<string>)
    requires EdgesWithin(adj) && DfsInv(adj, visited, tsort, stack) && IsPath(adj, stack + [n])
    ensures var r := VisitFrom(adj, n, visited, tsort);
      && DfsInv(adj, r.0, r.1, stack)
      && n in r.0
      && (Acyclic(adj) ==> n in r.1)
      && (forall x :: x in tsort ==> x in r.1)
      && (forall x :: x in r.0 && x !in visited ==> Reaches(adj, n, x))
    decreases adj.Keys - Elems(visited), 0
  {
    assert (stack + [n])[|stack|] == n;
    if n in visited {
      if Acyclic(adj) {
        DfsRevisit(adj, visited, tsort, stack, n);
      }
    } else {
      DfsEnter(adj, visited, tsort, stack, n);
      assert Elems(visited + [n]) == Elems(visited) + {n};
      VisitAllKeeps(adj, adj[n], visited + [n], tsort, stack + [n]);
      var r := VisitAll(adj, adj[n], visited + [n], tsort);
      DfsFinish(adj, r.0, r.1, stack, n);
      ReachesSelf(adj, n);
    }
  }

  /**
   * The visits from the names `path`'s last node is linked to keep the
   * invariant of the search, with `path` under way; afterwards each of
   * them is visited (and, in a graph without cycles, has ended its
   * visit), `tsort` has only grown, and every name marked is reached
   * from the last node of `path`.
   */
  lemma {:induction false} VisitAllKeeps(adj: Adj, succs: seq<string>, visited: seq<string>, tsort: seq<string>, path: seq<string>)
    requires EdgesWithin(adj) && DfsInv(adj, visited, tsort, path) && IsPath(adj, path)
    requires forall s :: s in succs ==> Linked(adj, path[|path| - 1], s)
    ensures var r := VisitAll(adj, succs, visited, tsort);
      && DfsInv(adj, r.0, r.1, path)
      && (forall s :: s in succs ==> s in r.0)
      && (Acyclic(adj) ==> forall s :: s in succs ==> s in r.1)
      && (forall x :: x in tsort ==> x in r.1)
      && (forall x :: x in r.0 && x !in visited ==> Reaches(adj, path[|path| - 1], x))
    decreases adj.Keys - Elems(visited), 1, |succs|
  {
    if succs != [] {
      var last := path[|path| - 1];
      var s := succs[0];
      assert s in succs;
      PathExtend(adj, path, s);
      VisitFromKeeps(adj, s, visited, tsort, path);
      var r1 := VisitFrom(adj, s, visited, tsort);
      assert forall t :: t in succs[1..] ==> t in succs;
      VisitAllKeeps(adj, succs[1..], r1.0, r1.1, path);
      var r := VisitAll(adj, succs[1..], r1.0, r1.1);
      assert Elems(r1.0) <= Elems(r.0);
      forall x | x in r.0 && x !in visited ensures Reaches(adj, last, x) {
        if x in r1.0 {
          ReachesStep(adj, last, s, x);
        }
      }
    }
  }

  /**
   * The main loop keeps the invariant of the search with nothing under
   * way; every name marked is reached from a root, and every root among
   * `ns` is marked.
   */
  lemma {:induction false} SortFromKeeps(adj: Adj, ns: seq<string>, visited: seq<string>, tsort: seq<string>)
    requires EdgesWithin(adj) && DfsInv(adj, visited, tsort, [])
    requires forall x :: x in visited ==> ReachedFromRoot(adj, x)
    ensures var r := SortFrom(adj, ns, visited, tsort);
      && DfsInv(adj, r.0, r.1, [])
      && (forall x :: x in r.0 ==> ReachedFromRoot(adj, x))
      && (forall x :: x in ns && IsRoot(adj, x) ==> x in r.0)
    decreases |ns|
  {
    if ns != [] {
      assert forall x :: x in ns ==> x == ns[0] || x in ns[1..];
      if IsRoot(adj, ns[0]) {
        assert IsPath(adj, [] + [ns[0]]);
        VisitFromKeeps(adj, ns[0], visited, tsort, []);
        var r1 := VisitFrom(adj, ns[0], visited, tsort);
        forall x | x in r1.0 ensures ReachedFromRoot(adj, x) {
          if x !in visited {
            assert IsRoot(adj, ns[0]) && Reaches(adj, ns[0], x);
          }
        }
        SortFromKeeps(adj, ns[1..], r1.0, r1.1);
        var r := SortFrom(adj, ns[1..], r1.0, r1.1);
        assert ns[0] in Elems(r1.0) && Elems(r1.0) <= Elems(r.0);
        assert SortFrom(adj, ns, visited, tsort) == r;
      } else {
        SortFromKeeps(adj, ns[1..], visited, tsort);
      }
    }
  }

  /** What the search leaves behind: its invariant, with nothing under way, and the marked names. */
  lemma TopSortInv(adj: Adj, order: seq<string>) returns (visited: seq<string>)
    requires EdgesWithin(adj)
    ensures DfsInv(adj, visited, TopSort(adj, order), [])
    ensures forall x :: x in visited ==> ReachedFromRoot(adj, x)
    ensures forall x :: x in order && IsRoot(adj, x) ==> x in visited
  {
    DfsStart(adj);
    SortFromKeeps(adj, order, [], []);
    visited := SortFrom(adj, order, [], []).0;
  }

  /** The result holds only names of the graph, none of them twice. */
  lemma TopSortDistinct(adj: Adj, order: seq<string>)
    requires EdgesWithin(adj)
    ensures Distinct(TopSort(adj, order))
    ensures forall x :: x in TopSort(adj, order) ==> x in adj
  {
    var visited := TopSortInv(adj, order);
  }

  /**
   * When `order` lists every node, a name is in the result exactly when
   * a root reaches it: the search starts from roots only, and it finds
   * everything they reach.
   */
  lemma TopSortReached(adj: Adj, order: seq<string>)
    requires EdgesWithin(adj) && forall k :: k in adj ==> k in order
    ensures forall k :: k in TopSort(adj, order) <==> k in adj && ReachedFromRoot(adj, k)
  {
    var visited := TopSortInv(adj, order);
    var t := TopSort(adj, order);
    forall k | k in adj && ReachedFromRoot(adj, k) ensures k in t {
      var r :| IsRoot(adj, r) && Reaches(adj, r, k);
      DfsDone(adj, visited, t, r, k);
    }
  }

  /** With every name, the result holds the names its edges lead to. */
  lemma TopSortClosed(adj: Adj, order: seq<string>)
    requires EdgesWithin(adj)
    ensures forall a, b :: a in TopSort(adj, order) && Linked(adj, a, b) ==> b in TopSort(adj, order)
  {
    var visited := TopSortInv(adj, order);
  }

  /** A graph without roots, such as a pure cycle, has an empty result. */
  lemma TopSortNoRoots(adj: Adj, order: seq<string>)
    requires EdgesWithin(adj) && forall k :: !IsRoot(adj, k)
    ensures TopSort(adj, order) == []
  {
    var visited := TopSortInv(adj, order);
    var t := TopSort(adj, order);
    assert forall x :: !ReachedFromRoot(adj, x);
    FirstElement(t);
  }

  /** When `order` lists every node of a graph without cycles, the result holds every node. */
  lemma TopSortComplete(adj: Adj, order: seq<string>)
    requires EdgesWithin(adj) && forall k :: k in adj ==> k in order
    requires Acyclic(adj)
    ensures forall k :: k in adj ==> k in TopSort(adj, order)
  {
    TopSortReached(adj, order);
    forall k | k in adj ensures k in TopSort(adj, order) {
      AcyclicReachedFromRoot(adj, k);
    }
  }

  /** In a graph without cycles every edge leads to a name further back in the result. */
  lemma TopSortOrdered(adj: Adj, order: seq<string>)
    requires EdgesWithin(adj) && Acyclic(adj)
    ensures var t := TopSort(adj, order);
      forall i, j :: 0 <= j <= i < |t| ==> !Linked(adj, t[i], t[j])
  {
    var visited := TopSortInv(adj, order);
  }

  /**
   * Why TopSortOrdered asks for a graph without cycles: with the edges R
   * to A, A to B and B to A, the search returns R, A, B, and the edge from
   * B to A leads to a name further forward in the result.
   */
  lemma CyclicOrderExample()
    ensures var adj := map["R" := ["A"], "A" := ["B"], "B" := ["A"]];
      && TopSort(adj, ["R", "A", "B"]) == ["R", "A", "B"]
      && Linked(adj, "B", "A")
  {
    var adj := map["R" := ["A"], "A" := ["B"], "B" := ["A"]];
    var all := ["R", "A", "B"];
    assert "R" != "A" && "R" != "B" && "A" != "B";
    assert forall a :: a in adj ==> a in all;
    assert IsRoot(adj, "R");
    assert Linked(adj, "R", "A") && Linked(adj, "A", "B");
    assert ["R", "A"] + ["B"] == all && ["R"] + ["A"] == ["R", "A"] && [] + ["R"] == ["R"];
    assert ["B"] + [] == ["B"] && ["A"] + ["B"] == ["A", "B"] && ["R"] + ["A", "B"] == all;
    // the visit of B, inside that of A, inside that of R
    assert "B" !in ["R", "A"] && "A" !in ["R"] && adj["B"] == ["A"] && adj["A"] == ["B"];
    assert VisitAll(adj, ["A"], all, []) == (all, []);
    assert VisitFrom(adj, "B", ["R", "A"], []) == (all, ["B"]);
    assert VisitAll(adj, ["B"], ["R", "A"], []) == (all, ["B"]);
    assert VisitFrom(adj, "A", ["R"], []) == (all, ["A", "B"]);
    assert VisitAll(adj, ["A"], ["R"], []) == (all, ["A", "B"]);
    assert VisitFrom(adj, "R", [], []) == (all, all);
    assert SortFrom(adj, ["A", "B"], all, all) == (all, all);
  }
}
