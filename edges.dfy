/**
 * Digraph.Edge and the sorted edge lists of Digraph.Node.
 *
 * A node keeps its incoming and its outgoing edges in lists that are
 * sorted by weight; a new edge is put in place with `bisect.insort`,
 * which goes through `Edge.__lt__` and so compares weights only.
 */
module Edges {

  /**
   * One entry of a node's incoming or outgoing list: the name of the
   * node at the far end of the edge and the edge's weight.  Two edges
   * are equal exactly when target and weight are (`Edge.__eq__`).
   */
  datatype Edge = Edge(target: string, weight: int)

  /** `Edge.__lt__`: an edge is smaller than another when its weight is. */
  predicate Less(a: Edge, b: Edge) {
    a.weight < b.weight
  }

  /** The edges are in non-decreasing order of weight. */
  ghost predicate SortedByWeight(s: seq<Edge>) {
    forall i, j :: 0 <= i < j < |s| ==> !Less(s[j], s[i])
  }

  /**
   * The index at which `bisect.insort` (that is, `insort_right`) puts `e`
   * into `s`: past every edge that is not heavier than `e`, so that `e`
   * lands after the edges of equal weight, and before every heavier one.
   */
  function BisectRight(s: seq<Edge>, e: Edge): (k: nat)
    ensures k <= |s|
    ensures forall i :: 0 <= i < k ==> !Less(e, s[i])
    ensures SortedByWeight(s) ==> forall i :: k <= i < |s| ==> Less(e, s[i])
  {
    if s == [] || Less(e, s[0]) then 0 else 1 + BisectRight(s[1..], e)
  }

  /**
   * `bisect.insort(s, e)`: `e` inserted into `s` at `BisectRight(s, e)`.
   * The list grows by exactly `e` and stays sorted; InsortPlacement says
   * where `e` goes.
   */
  function Insort(s: seq<Edge>, e: Edge): (r: seq<Edge>)
    ensures |r| == |s| + 1
    ensures forall x :: x in r <==> x in s || x == e
    ensures SortedByWeight(s) ==> SortedByWeight(r)
  {
    var k := BisectRight(s, e);
    InsertAtFacts(s, e, k);
    InsertAtSorted(s, e, k);
    s[..k] + [e] + s[k..]
  }

  /**
   * Where `bisect.insort` puts the new edge: after every edge that is not
   * heavier (so an edge of equal weight that was there first stays in
   * front: ties keep insertion order) and, on a sorted list, before every
   * heavier edge; taking the new edge out again gives back the old list
   * in its old order, so as a multiset the list grows by exactly `e`.
   */
  lemma InsortPlacement(s: seq<Edge>, e: Edge) returns (k: nat)
    ensures k == BisectRight(s, e) && k < |Insort(s, e)|
    ensures Insort(s, e)[k] == e
    ensures Insort(s, e)[..k] + Insort(s, e)[k + 1..] == s
    ensures forall i :: 0 <= i < k ==> !Less(e, Insort(s, e)[i])
    ensures SortedByWeight(s) ==> forall i :: k < i < |Insort(s, e)| ==> Less(e, Insort(s, e)[i])
    ensures multiset(Insort(s, e)) == multiset(s) + multiset{e}
  {
    k := BisectRight(s, e);
    InsertAtFacts(s, e, k);
    InsertAtSorted(s, e, k);
  }

  /** Helper of Insort: what putting `e` at index `k` of `s` keeps. */
  lemma InsertAtFacts(s: seq<Edge>, e: Edge, k: nat)
    requires k <= |s|
    ensures var r := s[..k] + [e] + s[k..];
      && r[..k] + r[k + 1..] == s
      && (forall x :: x in r <==> x in s || x == e)
      && multiset(r) == multiset(s) + multiset{e}
  {
    var r := s[..k] + [e] + s[k..];
    assert r[..k] == s[..k];
    assert r[k + 1..] == s[k..];
    assert s == s[..k] + s[k..];
  }

  /** Helper of Insort: inserting at the right place keeps a list sorted. */
  lemma InsertAtSorted(s: seq<Edge>, e: Edge, k: nat)
    requires k <= |s|
    requires forall i :: 0 <= i < k ==> !Less(e, s[i])
    requires SortedByWeight(s) ==> forall i :: k <= i < |s| ==> Less(e, s[i])
    ensures var r := s[..k] + [e] + s[k..];
      && (forall i :: 0 <= i < k ==> r[i] == s[i])
      && r[k] == e
      && (forall i :: k < i < |r| ==> r[i] == s[i - 1])
      && (SortedByWeight(s) ==> SortedByWeight(r))
  {
  }

  /** An edge that is at least as heavy as every edge of `s` is appended. */
  lemma {:induction false} InsortHeaviest(s: seq<Edge>, e: Edge)
    requires forall x :: x in s ==> !Less(e, x)
    ensures Insort(s, e) == s + [e]
  {
    BisectRightPastAll(s, e);
    assert s[..|s|] == s;
  }

  /** Helper of InsortHeaviest: the insertion point of such an edge is the end. */
  lemma {:induction false} BisectRightPastAll(s: seq<Edge>, e: Edge)
    requires forall x :: x in s ==> !Less(e, x)
    ensures BisectRight(s, e) == |s|
  {
    if s != [] {
      assert s[0] in s;
      assert forall x :: x in s[1..] ==> x in s;
      BisectRightPastAll(s[1..], e);
    }
  }

  /**
   * `Node.__as_named_list`: the names at the far end of the edges, in
   * list order.
   */
  function Targets(s: seq<Edge>): (r: seq<string>)
    ensures |r| == |s|
    ensures forall i :: 0 <= i < |s| ==> r[i] == s[i].target
  {
    if s == [] then [] else [s[0].target] + Targets(s[1..])
  }

  /** The edges `create_edge` makes for a list of target names with the default weight 0. */
  function ZeroEdges(names: seq<string>): (r: seq<Edge>)
    ensures |r| == |names|
    ensures forall i :: 0 <= i < |names| ==> r[i] == Edge(names[i], 0)
  {
    if names == [] then [] else [Edge(names[0], 0)] + ZeroEdges(names[1..])
  }

  /** Naming the targets of default-weight edges gives back the names. */
  lemma TargetsOfZeroEdges(names: seq<string>)
    ensures Targets(ZeroEdges(names)) == names
  {
  }
}
