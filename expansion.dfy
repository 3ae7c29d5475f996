/** The expansion step shared by the three search strategies, as pure
    functions over the node list. The methods of the arena are proved to
    compute exactly these functions; the lemmas here state what they
    guarantee. */
module Expansion {
  import opened Seqs
  import opened Geometry
  import opened Nodes
  import opened Growth

  /** The three interchangeable strategies. */
  datatype Strategy = BreadthFirst | BestFirst | AStar

  /** The weight a strategy gives the child at `np` of node `i`:
      breadth-first stores the parent's hop count, best-first the distance
      to the objective, A* (hops of the parent + 2) cells plus that
      distance. */
  function ChildWeight(s: Strategy, nodes: seq<Node>, i: nat, np: Pos, objective: Pos): (w: int)
    requires NodesValid(nodes) && i < |nodes|
    ensures s == BreadthFirst ==> w == Hops(nodes, i)
    ensures s == BestFirst ==> w == Heuristic(objective, np)
    ensures s == AStar ==> w == (Hops(nodes, i) + 2) * Scale + Heuristic(objective, np)
  {
    match s
    case BreadthFirst => TotalSteps(nodes, nodes[i], 0)
    case BestFirst => Heuristic(objective, np)
    case AStar => (TotalSteps(nodes, nodes[i], 1) + 1) * Scale + Heuristic(objective, np)
  }

  /** A child's weight depends only on the nodes that existed when it was
      created. */
  lemma ChildWeightPrefix(s: Strategy, nodes: seq<Node>, n: nat, i: nat, np: Pos, objective: Pos)
    requires NodesValid(nodes) && i < n <= |nodes|
    ensures NodesValid(nodes[..n])
    ensures ChildWeight(s, nodes[..n], i, np, objective) == ChildWeight(s, nodes, i, np, objective)
  {
    HopsOfPrefix(nodes, n, i);
  }

  /** A* creates a child only if its weight beats the parent's or the
      parent is a root; the other strategies have no such guard. */
  predicate Admits(s: Strategy, nodes: seq<Node>, i: nat, w: int): (r: bool)
    requires i < |nodes|
    ensures s != AStar ==> r
    ensures s == AStar ==> (r <==> w < nodes[i].weight || nodes[i].parent.None?)
  {
    s == AStar ==> w < nodes[i].weight || nodes[i].parent.None?
  }

  /** The node list during a call, and whether the last node created is at
      the objective. */
  datatype Expansion = Expansion(nodes: seq<Node>, found: bool)

  /** The neighbours of node `i` from direction `d` on: a child is
      appended when the cell holds no node and no wall and the strategy
      admits it, and the expansion stops at the first child created on the
      objective. */
  function ExpandFrom(e: Expansion, s: Strategy, i: nat, walls: seq<Pos>, objective: Pos, d: nat): (r: Expansion)
    requires NodesValid(e.nodes) && i < |e.nodes| && d <= |DeltaDirs|
    ensures NodesValid(r.nodes) && |e.nodes| <= |r.nodes|
    decreases |DeltaDirs| - d
  {
    if d == |DeltaDirs| then e
    else
      var v := Visit(e, s, i, walls, objective, d);
      if v.found then v else ExpandFrom(v, s, i, walls, objective, d + 1)
  }

  /** One direction on its own: the node list after looking at the cell in
      direction `d` from node `i`, and whether a child was created there on
      the objective. */
  function Visit(e: Expansion, s: Strategy, i: nat, walls: seq<Pos>, objective: Pos, d: nat): (v: Expansion)
    requires NodesValid(e.nodes) && i < |e.nodes| && d < |DeltaDirs|
    ensures NodesValid(v.nodes) && |e.nodes| <= |v.nodes| <= |e.nodes| + 1
  {
    var np := Step(e.nodes[i].pos, DeltaDirs[d]);
    var w := ChildWeight(s, e.nodes, i, np, objective);
    if !ExistsPos(e.nodes, np) && np !in walls && Admits(s, e.nodes, i, w) then
      Expansion(e.nodes + [Node(Some(i), |e.nodes|, w, np)], np == objective)
    else Expansion(e.nodes, false)
  }

  /** `Visit` in terms of its two outcomes: `next` is the node list with
      the child appended, or unchanged when the cell is skipped. */
  lemma VisitEffect(e: Expansion, s: Strategy, i: nat, walls: seq<Pos>, objective: Pos, d: nat, next: seq<Node>, found: bool)
    requires NodesValid(e.nodes) && i < |e.nodes| && d < |DeltaDirs|
    requires var np := Step(e.nodes[i].pos, DeltaDirs[d]);
             var w := ChildWeight(s, e.nodes, i, np, objective);
             if !ExistsPos(e.nodes, np) && np !in walls && Admits(s, e.nodes, i, w)
             then next == e.nodes + [Node(Some(i), |e.nodes|, w, np)] && found == (np == objective)
             else next == e.nodes && !found
    ensures Visit(e, s, i, walls, objective, d) == Expansion(next, found)
  {
  }

  /** The first `d` directions of an expansion of node `i`, in the order a
      loop over them meets them, stopping at a child on the objective. */
  function ExpandUpTo(e: Expansion, s: Strategy, i: nat, walls: seq<Pos>, objective: Pos, d: nat): (r: Expansion)
    requires NodesValid(e.nodes) && i < |e.nodes| && d <= |DeltaDirs|
    ensures NodesValid(r.nodes) && |e.nodes| <= |r.nodes| <= |e.nodes| + d
    decreases d
  {
    if d == 0 then e
    else
      var p := ExpandUpTo(e, s, i, walls, objective, d - 1);
      if p.found then p else Visit(p, s, i, walls, objective, d - 1)
  }

  /** One more direction, when the objective is not reached yet. */
  lemma ExpandUpToStep(e: Expansion, s: Strategy, i: nat, walls: seq<Pos>, objective: Pos, d: nat)
    requires NodesValid(e.nodes) && i < |e.nodes| && d < |DeltaDirs|
    ensures var p := ExpandUpTo(e, s, i, walls, objective, d);
            !p.found ==> ExpandUpTo(e, s, i, walls, objective, d + 1) == Visit(p, s, i, walls, objective, d)
  {
  }

  /** Looking at the first `d` directions and then expanding from direction
      `d` on, unless the objective was already reached, is the whole
      expansion. */
  lemma {:induction false} ExpandUpToFrom(e: Expansion, s: Strategy, i: nat, walls: seq<Pos>, objective: Pos, d: nat)
    requires NodesValid(e.nodes) && i < |e.nodes| && d <= |DeltaDirs| && !e.found
    ensures var p := ExpandUpTo(e, s, i, walls, objective, d);
            ExpandFrom(e, s, i, walls, objective, 0) == if p.found then p else ExpandFrom(p, s, i, walls, objective, d)
    decreases d
  {
    if d > 0 {
      ExpandUpToFrom(e, s, i, walls, objective, d - 1);
      var p := ExpandUpTo(e, s, i, walls, objective, d - 1);
      if p.found {
        assert ExpandUpTo(e, s, i, walls, objective, d) == p;
      } else {
        ExpandUpToNext(e, s, i, walls, objective, d - 1);
      }
    }
  }

  /** Direction `d` taken by the loop is direction `d` of the expansion. */
  lemma ExpandUpToNext(e: Expansion, s: Strategy, i: nat, walls: seq<Pos>, objective: Pos, d: nat)
    requires NodesValid(e.nodes) && i < |e.nodes| && d < |DeltaDirs|
    requires !ExpandUpTo(e, s, i, walls, objective, d).found
    ensures var p := ExpandUpTo(e, s, i, walls, objective, d);
            var q := ExpandUpTo(e, s, i, walls, objective, d + 1);
            ExpandFrom(p, s, i, walls, objective, d) == if q.found then q else ExpandFrom(q, s, i, walls, objective, d + 1)
  {
    var p := ExpandUpTo(e, s, i, walls, objective, d);
    var v := Visit(p, s, i, walls, objective, d);
    assert ExpandUpTo(e, s, i, walls, objective, d + 1) == v;
  }

  /** Once the objective is reached or all four directions are looked at,
      the directions looked at so far are the whole expansion. */
  lemma ExpandUpToDone(e: Expansion, s: Strategy, i: nat, walls: seq<Pos>, objective: Pos, d: nat)
    requires NodesValid(e.nodes) && i < |e.nodes| && d <= |DeltaDirs| && !e.found
    requires ExpandUpTo(e, s, i, walls, objective, d).found || d == |DeltaDirs|
    ensures ExpandFrom(e, s, i, walls, objective, 0) == ExpandUpTo(e, s, i, walls, objective, d)
  {
    ExpandUpToFrom(e, s, i, walls, objective, d);
  }

  /** Breadth-first: the frontier entries from slot `k` on, expanded in
      order, stopping at the first child created on the objective. */
  function LayerFrom(e: Expansion, frontier: seq<nat>, walls: seq<Pos>, objective: Pos, k: nat): (r: Expansion)
    requires NodesValid(e.nodes) && k <= |frontier|
    requires forall j :: 0 <= j < |frontier| ==> frontier[j] < |e.nodes|
    ensures NodesValid(r.nodes) && |e.nodes| <= |r.nodes|
    decreases |frontier| - k
  {
    if k == |frontier| then e
    else
      var e' := ExpandFrom(e, BreadthFirst, frontier[k], walls, objective, 0);
      if e'.found then e' else LayerFrom(e', frontier, walls, objective, k + 1)
  }

  /** Node `k`, if it has a parent, carries the strategy's weight and passed
      the strategy's guard. */
  ghost predicate WeightOk(s: Strategy, nodes: seq<Node>, k: nat, objective: Pos)
    requires NodesValid(nodes) && k < |nodes|
  {
    var n := nodes[k];
    n.parent.Some? ==>
      n.weight == ChildWeight(s, nodes, n.parent.value, n.pos, objective) &&
      Admits(s, nodes, n.parent.value, n.weight)
  }

  ghost predicate Weighted(s: Strategy, nodes: seq<Node>, from: nat, objective: Pos)
    requires NodesValid(nodes)
  {
    forall k :: from <= k < |nodes| ==> WeightOk(s, nodes, k, objective)
  }

  /** Appending to the node list keeps the weights of earlier children
      valid. */
  lemma WeightedTrans(s: Strategy, a: seq<Node>, b: seq<Node>, from: nat, objective: Pos)
    requires NodesValid(a) && NodesValid(b) && Prefix(a, b) && from <= |a|
    requires Weighted(s, a, from, objective) && Weighted(s, b, |a|, objective)
    ensures Weighted(s, b, from, objective)
  {
    forall k | from <= k < |a|
      ensures WeightOk(s, b, k, objective)
    {
      assert WeightOk(s, a, k, objective);
      assert b[k] == a[k];
      if a[k].parent.Some? {
        var p := a[k].parent.value;
        assert b[p] == a[p];
        ChildWeightPrefix(s, b, |a|, p, a[k].pos, objective);
      }
    }
  }

  /** One child: it carries the strategy's weight when `w` is that weight
      and the strategy admits it. */
  lemma ChildWeighted(e: Expansion, s: Strategy, i: nat, np: Pos, w: int, objective: Pos)
    requires NodesValid(e.nodes) && i < |e.nodes|
    requires w == ChildWeight(s, e.nodes, i, np, objective) && Admits(s, e.nodes, i, w)
    ensures var b := e.nodes + [Node(Some(i), |e.nodes|, w, np)];
            NodesValid(b) && Weighted(s, b, |e.nodes|, objective)
  {
    var b := e.nodes + [Node(Some(i), |e.nodes|, w, np)];
    assert b[..|e.nodes|] == e.nodes;
    assert b[i] == e.nodes[i];
    ChildWeightPrefix(s, b, |e.nodes|, i, np, objective);
    assert WeightOk(s, b, |e.nodes|, objective);
  }

  /** One direction appends at most one child, next to node `i` and off
      the walls, on a cell no node held; `found` says whether it is on the
      objective. */
  lemma VisitExtends(e: Expansion, s: Strategy, i: nat, walls: seq<Pos>, objective: Pos, d: nat)
    requires NodesValid(e.nodes) && i < |e.nodes| && d < |DeltaDirs|
    ensures var v := Visit(e, s, i, walls, objective, d);
            Extends(e.nodes, v.nodes, v.found, [i], walls, objective)
  {
    var np := Step(e.nodes[i].pos, DeltaDirs[d]);
    var v := Visit(e, s, i, walls, objective, d);
    assert v.nodes[..|e.nodes|] == e.nodes;
    if |v.nodes| > |e.nodes| {
      DeltaDirsAreNeighbours(e.nodes[i].pos, d);
      assert v.nodes[i] == e.nodes[i];
      assert ChildOk(v.nodes, |e.nodes|, [i], walls);
      if Rooted(e.nodes) {
        RootedTrans(e.nodes, v.nodes);
      }
    }
  }

  /** The child one direction appends carries the strategy's weight and
      passed its guard. */
  lemma VisitWeighted(e: Expansion, s: Strategy, i: nat, walls: seq<Pos>, objective: Pos, d: nat)
    requires NodesValid(e.nodes) && i < |e.nodes| && d < |DeltaDirs|
    ensures var v := Visit(e, s, i, walls, objective, d);
            Prefix(e.nodes, v.nodes) && Weighted(s, v.nodes, |e.nodes|, objective)
  {
    var np := Step(e.nodes[i].pos, DeltaDirs[d]);
    var w := ChildWeight(s, e.nodes, i, np, objective);
    var v := Visit(e, s, i, walls, objective, d);
    assert v.nodes[..|e.nodes|] == e.nodes;
    if |v.nodes| > |e.nodes| {
      ChildWeighted(e, s, i, np, w, objective);
    }
  }

  /** What one expansion of node `i` creates: at most one child per
      remaining direction, with the guarantees of `Extends`. */
  lemma {:induction false} ExpandFromSound(e: Expansion, s: Strategy, i: nat, walls: seq<Pos>, objective: Pos, d: nat)
    requires NodesValid(e.nodes) && i < |e.nodes| && d <= |DeltaDirs| && !e.found
    ensures var r := ExpandFrom(e, s, i, walls, objective, d);
            |r.nodes| <= |e.nodes| + |DeltaDirs| - d &&
            Extends(e.nodes, r.nodes, r.found, [i], walls, objective)
    decreases |DeltaDirs| - d
  {
    if d < |DeltaDirs| {
      var v := Visit(e, s, i, walls, objective, d);
      VisitExtends(e, s, i, walls, objective, d);
      if v.found {
        assert ExpandFrom(e, s, i, walls, objective, d) == v;
      } else {
        var r := ExpandFrom(v, s, i, walls, objective, d + 1);
        assert ExpandFrom(e, s, i, walls, objective, d) == r;
        ExpandFromSound(v, s, i, walls, objective, d + 1);
        ExtendsTrans(e.nodes, v.nodes, r.nodes, r.found, [i], walls, objective);
      }
    } else {
      assert e.nodes[..|e.nodes|] == e.nodes;
    }
  }

  /** Every child one expansion creates carries the strategy's weight and
      passed its guard. */
  lemma {:induction false} ExpandFromWeighted(e: Expansion, s: Strategy, i: nat, walls: seq<Pos>, objective: Pos, d: nat)
    requires NodesValid(e.nodes) && i < |e.nodes| && d <= |DeltaDirs|
    ensures var r := ExpandFrom(e, s, i, walls, objective, d);
            Prefix(e.nodes, r.nodes) && Weighted(s, r.nodes, |e.nodes|, objective)
    decreases |DeltaDirs| - d
  {
    if d < |DeltaDirs| {
      var v := Visit(e, s, i, walls, objective, d);
      VisitWeighted(e, s, i, walls, objective, d);
      if !v.found {
        var r := ExpandFrom(v, s, i, walls, objective, d + 1);
        ExpandFromWeighted(v, s, i, walls, objective, d + 1);
        WeightedTrans(s, v.nodes, r.nodes, |e.nodes|, objective);
        PrefixTrans(e.nodes, v.nodes, r.nodes);
      }
    } else {
      assert e.nodes[..|e.nodes|] == e.nodes;
    }
  }

  /** One breadth-first layer creates at most four children per frontier
      entry still to expand. */
  lemma {:induction false} LayerFromBound(e: Expansion, frontier: seq<nat>, walls: seq<Pos>, objective: Pos, k: nat)
    requires NodesValid(e.nodes) && k <= |frontier| && !e.found
    requires forall j :: 0 <= j < |frontier| ==> frontier[j] < |e.nodes|
    ensures |LayerFrom(e, frontier, walls, objective, k).nodes| <= |e.nodes| + |DeltaDirs| * (|frontier| - k)
    decreases |frontier| - k
  {
    if k < |frontier| {
      var e' := ExpandFrom(e, BreadthFirst, frontier[k], walls, objective, 0);
      ExpandFromSound(e, BreadthFirst, frontier[k], walls, objective, 0);
      assert |DeltaDirs| * (|frontier| - k) == |DeltaDirs| + |DeltaDirs| * (|frontier| - (k + 1));
      if !e'.found {
        LayerFromBound(e', frontier, walls, objective, k + 1);
      }
    }
  }

  /** What one breadth-first layer creates: the guarantees of `Extends`
      with the frontier as parents. */
  lemma {:induction false} LayerFromSound(e: Expansion, frontier: seq<nat>, walls: seq<Pos>, objective: Pos, k: nat)
    requires NodesValid(e.nodes) && k <= |frontier| && !e.found
    requires forall j :: 0 <= j < |frontier| ==> frontier[j] < |e.nodes|
    ensures var r := LayerFrom(e, frontier, walls, objective, k);
            Extends(e.nodes, r.nodes, r.found, frontier, walls, objective)
    decreases |frontier| - k
  {
    if k < |frontier| {
      var e' := ExpandFrom(e, BreadthFirst, frontier[k], walls, objective, 0);
      ExpandFromSound(e, BreadthFirst, frontier[k], walls, objective, 0);
      ExtendsWiden(e.nodes, e'.nodes, e'.found, frontier, k, walls, objective);
      if e'.found {
        assert LayerFrom(e, frontier, walls, objective, k) == e';
      } else {
        var r := LayerFrom(e', frontier, walls, objective, k + 1);
        assert LayerFrom(e, frontier, walls, objective, k) == r;
        LayerFromSound(e', frontier, walls, objective, k + 1);
        ExtendsTrans(e.nodes, e'.nodes, r.nodes, r.found, frontier, walls, objective);
      }
    } else {
      assert e.nodes[..|e.nodes|] == e.nodes;
    }
  }

  /** Expanding one node keeps positions distinct and node 0 the only root. */
  lemma ExpandFromKeepsSound(e: Expansion, s: Strategy, i: nat, walls: seq<Pos>, objective: Pos)
    requires NodesValid(e.nodes) && i < |e.nodes| && !e.found
    ensures var r := ExpandFrom(e, s, i, walls, objective, 0);
            DistinctPositions(e.nodes) && Rooted(e.nodes) ==> DistinctPositions(r.nodes) && Rooted(r.nodes)
  {
    ExpandFromSound(e, s, i, walls, objective, 0);
  }

  /** A breadth-first layer keeps positions distinct and node 0 the only
      root. */
  lemma LayerFromKeepsSound(e: Expansion, frontier: seq<nat>, walls: seq<Pos>, objective: Pos)
    requires NodesValid(e.nodes) && !e.found
    requires forall j :: 0 <= j < |frontier| ==> frontier[j] < |e.nodes|
    ensures var r := LayerFrom(e, frontier, walls, objective, 0);
            DistinctPositions(e.nodes) && Rooted(e.nodes) ==> DistinctPositions(r.nodes) && Rooted(r.nodes)
  {
    LayerFromSound(e, frontier, walls, objective, 0);
  }

  /** Every node of a breadth-first layer stores its parent's hop count. */
  lemma {:induction false} LayerFromWeighted(e: Expansion, frontier: seq<nat>, walls: seq<Pos>, objective: Pos, k: nat)
    requires NodesValid(e.nodes) && k <= |frontier|
    requires forall j :: 0 <= j < |frontier| ==> frontier[j] < |e.nodes|
    ensures var r := LayerFrom(e, frontier, walls, objective, k);
            Prefix(e.nodes, r.nodes) && Weighted(BreadthFirst, r.nodes, |e.nodes|, objective)
    decreases |frontier| - k
  {
    if k < |frontier| {
      var e' := ExpandFrom(e, BreadthFirst, frontier[k], walls, objective, 0);
      ExpandFromWeighted(e, BreadthFirst, frontier[k], walls, objective, 0);
      if !e'.found {
        var r := LayerFrom(e', frontier, walls, objective, k + 1);
        LayerFromWeighted(e', frontier, walls, objective, k + 1);
        WeightedTrans(BreadthFirst, e'.nodes, r.nodes, |e.nodes|, objective);
        assert r.nodes[..|e.nodes|] == r.nodes[..|e'.nodes|][..|e.nodes|];
      }
    } else {
      assert e.nodes[..|e.nodes|] == e.nodes;
    }
  }

  /** On the grid, the A* guard turns down every child of a node that has
      a parent and carries its A* weight: the child's weight is that
      node's weight plus one cell and plus or minus one cell of heuristic,
      never less. */
  lemma AStarRejects(nodes: seq<Node>, i: nat, objective: Pos, d: nat)
    requires NodesValid(nodes) && i < |nodes| && d < |DeltaDirs|
    requires nodes[i].parent.Some? && WeightOk(AStar, nodes, i, objective)
    requires Aligned(objective) && Aligned(nodes[i].pos)
    ensures var np := Step(nodes[i].pos, DeltaDirs[d]);
            var w := ChildWeight(AStar, nodes, i, np, objective);
            w >= nodes[i].weight && !Admits(AStar, nodes, i, w)
  {
    HeuristicStep(objective, nodes[i].pos, d);
  }

  /** So A* expands nothing from a node that has a parent: only the start
      node ever gets children. */
  lemma {:induction false} AStarExpandsOnlyRoots(e: Expansion, i: nat, walls: seq<Pos>, objective: Pos, d: nat)
    requires NodesValid(e.nodes) && i < |e.nodes| && d <= |DeltaDirs| && !e.found
    requires e.nodes[i].parent.Some? && WeightOk(AStar, e.nodes, i, objective)
    requires Aligned(objective) && Aligned(e.nodes[i].pos)
    ensures ExpandFrom(e, AStar, i, walls, objective, d) == e
    decreases |DeltaDirs| - d
  {
    if d < |DeltaDirs| {
      AStarRejects(e.nodes, i, objective, d);
      assert Visit(e, AStar, i, walls, objective, d) == e;
      AStarExpandsOnlyRoots(e, i, walls, objective, d + 1);
    }
  }

  /** `min_by` over the weights of the frontier entries: the slot of the
      first entry of least weight. */
  function FirstMin(nodes: seq<Node>, open: seq<nat>): (k: nat)
    requires |open| > 0 && forall j :: 0 <= j < |open| ==> open[j] < |nodes|
    ensures k < |open|
    ensures forall j :: 0 <= j < |open| ==> nodes[open[k]].weight <= nodes[open[j]].weight
    ensures forall j :: 0 <= j < k ==> nodes[open[j]].weight > nodes[open[k]].weight
  {
    if |open| == 1 then 0
    else
      var m := FirstMin(nodes, open[..|open| - 1]);
      assert forall j :: 0 <= j < |open| - 1 ==> open[..|open| - 1][j] == open[j];
      if nodes[open[|open| - 1]].weight < nodes[open[m]].weight then |open| - 1 else m
  }

  /** Looking the chosen entry up again by value (`position`) finds the
      same slot, even if the node index occurs more than once. */
  lemma FirstMinIsFirstOccurrence(nodes: seq<Node>, open: seq<nat>)
    requires |open| > 0 && forall j :: 0 <= j < |open| ==> open[j] < |nodes|
    ensures IndexOf(open, open[FirstMin(nodes, open)]) == Some(FirstMin(nodes, open))
  {
  }
}
