/** Nodes of the search arena and the facts about a node list that do not
    depend on the expansion strategy: the index/parent invariants, the
    parent-chain hop count and the largest weight. */
module Nodes {
  import opened Seqs
  import opened Geometry

  /** One discovered cell. `index` is the node's own slot in the arena and
      `parent` the slot of the node it was expanded from (None for a root). */
  datatype Node = Node(parent: Option<nat>, index: nat, weight: int, pos: Pos)

  /** A root node at `start` with weight 0, as `new_node` builds it. */
  function RootAt(start: Pos, index: nat): Node {
    Node(None, index, 0, start)
  }

  /** Every node knows its own slot and its parent sits in an earlier slot,
      so parent chains cannot cycle. */
  predicate NodesValid(nodes: seq<Node>) {
    forall i :: 0 <= i < |nodes| ==> nodes[i].index == i && (nodes[i].parent.Some? ==> nodes[i].parent.value < i)
  }

  /** Node 0 is the only node without a parent. */
  predicate Rooted(nodes: seq<Node>) {
    forall i :: 0 <= i < |nodes| ==> (nodes[i].parent.None? <==> i == 0)
  }

  /** No two nodes share a position. */
  predicate DistinctPositions(nodes: seq<Node>) {
    forall i, j :: 0 <= i < j < |nodes| ==> nodes[i].pos != nodes[j].pos
  }

  /** `Arena::exists`: some node sits at `p`. */
  function ExistsPos(nodes: seq<Node>, p: Pos): (r: bool)
    ensures r <==> exists i :: 0 <= i < |nodes| && nodes[i].pos == p
  {
    if nodes == [] then false
    else if nodes[0].pos == p then true
    else
      var r := ExistsPos(nodes[1..], p);
      assert forall i :: 1 <= i < |nodes| ==> nodes[i] == nodes[1..][i - 1];
      r
  }

  /** The number of parent links from node `i` up to a node without a parent. */
  function Hops(nodes: seq<Node>, i: nat): nat
    requires NodesValid(nodes) && i < |nodes|
    decreases i
  {
    match nodes[i].parent
    case None => 0
    case Some(p) => 1 + Hops(nodes, p)
  }

  function ParentRank(n: Node): nat {
    match n.parent
    case None => 0
    case Some(p) => p + 1
  }

  /** `Node::total_steps`: follows the parent chain of `n` through the
      arena, adding one to the accumulator per link. */
  function TotalSteps(nodes: seq<Node>, n: Node, acc: nat): (r: nat)
    requires NodesValid(nodes) && (n.parent.Some? ==> n.parent.value < |nodes|)
    ensures n.parent.None? ==> r == acc
    ensures n.parent.Some? ==> r == acc + 1 + Hops(nodes, n.parent.value)
    decreases ParentRank(n)
  {
    match n.parent
    case None => acc
    case Some(p) => TotalSteps(nodes, nodes[p], acc + 1)
  }

  /** A chain from node `i` has at most `i` links. */
  lemma {:induction false} HopsBound(nodes: seq<Node>, i: nat)
    requires NodesValid(nodes) && i < |nodes|
    ensures Hops(nodes, i) <= i
    decreases i
  {
    match nodes[i].parent
    case None =>
    case Some(p) => HopsBound(nodes, p);
  }

  /** Appending nodes does not change the hop count of existing ones. */
  lemma {:induction false} HopsOfPrefix(nodes: seq<Node>, n: nat, i: nat)
    requires NodesValid(nodes) && i < n <= |nodes|
    ensures NodesValid(nodes[..n]) && Hops(nodes[..n], i) == Hops(nodes, i)
    decreases i
  {
    assert nodes[..n][i] == nodes[i];
    match nodes[i].parent
    case None =>
    case Some(p) => HopsOfPrefix(nodes, n, p);
  }

  /** The node reached from node `i` by following `k` parent links. */
  function Ancestor(nodes: seq<Node>, i: nat, k: nat): (a: nat)
    requires NodesValid(nodes) && i < |nodes| && k <= Hops(nodes, i)
    ensures a <= i && Hops(nodes, a) == Hops(nodes, i) - k
    decreases k
  {
    if k == 0 then i else Ancestor(nodes, nodes[i].parent.value, k - 1)
  }

  /** Every parent chain reaches a root after exactly `Hops` links and not
      before; in a rooted arena that root is node 0. */
  lemma ChainEndsAtRoot(nodes: seq<Node>, i: nat)
    requires NodesValid(nodes) && i < |nodes|
    ensures nodes[Ancestor(nodes, i, Hops(nodes, i))].parent.None?
    ensures forall k :: 0 <= k < Hops(nodes, i) ==> nodes[Ancestor(nodes, i, k)].parent.Some?
    ensures Rooted(nodes) ==> Ancestor(nodes, i, Hops(nodes, i)) == 0
  {
  }

  function Max(a: int, b: int): int {
    if a < b then b else a
  }

  /** The largest node weight, and 0 for an empty arena or when all weights
      are lower (`greatest_weight` starts at 0). */
  function MaxWeight(nodes: seq<Node>): (m: int)
    ensures m >= 0
    ensures forall i :: 0 <= i < |nodes| ==> nodes[i].weight <= m
    ensures m == 0 || exists i :: 0 <= i < |nodes| && nodes[i].weight == m
  {
    if nodes == [] then 0
    else
      var init := nodes[..|nodes| - 1];
      assert forall i :: 0 <= i < |init| ==> init[i] == nodes[i];
      Max(MaxWeight(init), nodes[|nodes| - 1].weight)
  }

  /** Appending a node folds its weight into the maximum. */
  lemma MaxWeightAppend(nodes: seq<Node>, n: Node)
    ensures MaxWeight(nodes + [n]) == Max(MaxWeight(nodes), n.weight)
  {
    assert (nodes + [n])[..|nodes|] == nodes;
  }
}
