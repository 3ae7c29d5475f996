/** The search arena: the node list the three strategies grow one step at a
    time, the open list of nodes still to expand, and the slot of the node
    that reached the objective. Each search step is proved to compute the
    pure expansion of the `Expansion` module. */
module Search {
  import opened Seqs
  import opened Geometry
  import opened Obstacles
  import opened Nodes
  import opened Growth
  import opened Expansion

  /** The node list after a reset: one root at the start cell. */
  lemma StartSound(start: Pos)
    ensures var nodes := [RootAt(start, 0)];
            NodesValid(nodes) && MaxWeight(nodes) == 0 && DistinctPositions(nodes) && Rooted(nodes)
  {
  }

  class Arena {
    var nodes: seq<Node>
    var startPos: Pos
    var greatestWeight: int
    var foundObjective: Option<nat>
    var open: seq<nat>

    /** Every node knows its slot, parents come first, the greatest weight
        is the largest node weight and the found slot is a real node. */
    ghost predicate Valid()
      reads this`nodes, this`greatestWeight, this`foundObjective
    {
      NodesValid(nodes) &&
      greatestWeight == MaxWeight(nodes) &&
      (foundObjective.Some? ==> foundObjective.value < |nodes|)
    }

    /** Valid, and every open entry names a node, so a search step can run. */
    ghost predicate Ready()
      reads this`nodes, this`greatestWeight, this`foundObjective, this`open
    {
      Valid() && forall j :: 0 <= j < |open| ==> open[j] < |nodes|
    }

    /** Ready, no two nodes share a cell and node 0 is the only root. */
    ghost predicate Sound()
      reads this`nodes, this`greatestWeight, this`foundObjective, this`open
    {
      Ready() && DistinctPositions(nodes) && Rooted(nodes)
    }

    /** The recorded objective slot is the last node created. */
    ghost predicate FoundLast()
      reads this`nodes, this`foundObjective
    {
      foundObjective.Some? && foundObjective.value == |nodes| - 1
    }

    /** `found` says the last node created is on the objective and is
        recorded there; otherwise the recorded slot is still `before`. */
    ghost predicate Recorded(found: bool, before: Option<nat>)
      reads this`nodes, this`foundObjective
    {
      foundObjective == if found then Some(|nodes| - 1) else before
    }

    /** `Arena::new`: no nodes yet, but the open list already names slot 0,
        where the start node is expected. */
    constructor (start: Pos)
      ensures Valid()
      ensures nodes == [] && startPos == start && greatestWeight == 0
      ensures foundObjective == None && open == [0]
    {
      nodes := [];
      startPos := start;
      greatestWeight := 0;
      foundObjective := None;
      open := [0];
    }

    /** `new_node`: appends a root node of weight 0 and returns its slot. */
    method NewNode(pos: Pos) returns (idx: nat)
      modifies this`nodes
      ensures idx == old(|nodes|)
      ensures nodes == old(nodes) + [RootAt(pos, idx)]
      ensures old(Valid()) ==> Valid()
    {
      idx := |nodes|;
      MaxWeightAppend(nodes, RootAt(pos, idx));
      nodes := nodes + [RootAt(pos, idx)];
    }

    /** `new_child`: appends a child of `parent` and folds its weight into
        the greatest weight. */
    method NewChild(parent: nat, pos: Pos, weight: int) returns (idx: nat)
      modifies this`nodes, this`greatestWeight
      ensures idx == old(|nodes|)
      ensures nodes == old(nodes) + [Node(Some(parent), idx, weight, pos)]
      ensures greatestWeight == Max(old(greatestWeight), weight)
      ensures old(Valid()) && parent < idx ==> Valid()
    {
      idx := |nodes|;
      MaxWeightAppend(nodes, Node(Some(parent), idx, weight, pos));
      if weight > greatestWeight {
        greatestWeight := weight;
      }
      nodes := nodes + [Node(Some(parent), idx, weight, pos)];
    }

    /** `exists`: some node sits at `pos`. */
    function Exists(pos: Pos): (r: bool)
      reads this
      ensures r <==> exists k :: 0 <= k < |nodes| && nodes[k].pos == pos
    {
      ExistsPos(nodes, pos)
    }

    /** `distance_from_start`: the Manhattan distance from the start cell. */
    function DistanceFromStart(pos: Pos): (r: nat)
      reads this
      ensures r == Heuristic(startPos, pos)
      ensures r == 0 <==> pos == startPos
    {
      Abs(startPos.x - pos.x) + Abs(startPos.y - pos.y)
    }

    /** One pass of the neighbour loop: the cell in direction `d` from
        node `i` gets a child when no node and no wall is there and the
        strategy admits it; a child on the objective is recorded. The
        result is `Visit` of that direction. */
    method Neighbour(i: nat, s: Strategy, d: nat, walls: Walls, objective: Pos) returns (found: bool)
      requires Valid() && i < |nodes| && d < |DeltaDirs|
      modifies this`nodes, this`greatestWeight, this`foundObjective
      ensures Valid()
      ensures Expansion(nodes, found) == Visit(Expansion(old(nodes), false), s, i, walls.walls, objective, d)
      ensures Recorded(found, old(foundObjective))
    {
      var node := nodes[i];
      var newPos := Step(node.pos, DeltaDirs[d]);
      var weight := ChildWeight(s, nodes, i, newPos, objective);
      ghost var e := Expansion(nodes, false);
      var free := !Exists(newPos) && !walls.Exists(newPos) && Admits(s, nodes, i, weight);
      found := false;
      if free {
        var idx := NewChild(i, newPos, weight);
        found := newPos == objective;
        if found {
          foundObjective := Some(idx);
        }
      }
      VisitEffect(e, s, i, walls.walls, objective, d, nodes, found);
    }

    /** The loop over the four neighbours of node `i` shared by the three
        strategies, ending early at the objective. Returns the slots
        created, in order. */
    method ExpandNode(i: nat, s: Strategy, walls: Walls, objective: Pos) returns (created: seq<nat>, found: bool)
      requires Valid() && i < |nodes|
      modifies this`nodes, this`greatestWeight, this`foundObjective
      ensures var r := ExpandFrom(Expansion(old(nodes), false), s, i, walls.walls, objective, 0);
              nodes == r.nodes && found == r.found
      ensures Valid() && created == Range(old(|nodes|), |nodes|)
      ensures Recorded(found, old(foundObjective))
    {
      ghost var e0 := Expansion(nodes, false);
      ghost var before := foundObjective;
      var n0 := |nodes|;
      found := false;
      var d := 0;
      while d < |DeltaDirs| && !found
        invariant 0 <= d <= |DeltaDirs|
        invariant Valid() && Expansion(nodes, found) == ExpandUpTo(e0, s, i, walls.walls, objective, d)
        invariant Recorded(found, before)
        decreases |DeltaDirs| - d
      {
        ExpandUpToStep(e0, s, i, walls.walls, objective, d);
        found := Neighbour(i, s, d, walls, objective);
        d := d + 1;
      }
      ExpandUpToDone(e0, s, i, walls.walls, objective, d);
      created := Range(n0, |nodes|);
    }

    /** `breadth_first_search`: expands every open node in order, stopping
        at the first child on the objective; the children created become
        the new open list. Returns whether the search is over: nothing is
        left to expand or the objective was reached. */
    method BreadthFirstSearch(walls: Walls, objective: Pos) returns (done: bool)
      requires Ready()
      modifies this`nodes, this`greatestWeight, this`foundObjective, this`open
      ensures var r := LayerFrom(Expansion(old(nodes), false), old(open), walls.walls, objective, 0);
              nodes == r.nodes &&
              open == Range(old(|nodes|), |nodes|) &&
              done == (open == [] || r.found) &&
              (r.found ==> FoundLast()) && (!r.found ==> foundObjective == old(foundObjective))
      ensures Ready()
      ensures old(Sound()) ==> Sound()
    {
      ghost var target := LayerFrom(Expansion(nodes, false), open, walls.walls, objective, 0);
      ghost var n0 := |nodes|;
      LayerFromKeepsSound(Expansion(nodes, false), open, walls.walls, objective);
      var frontier := open;
      var justSearched: seq<nat> := [];
      var found := false;
      var k := 0;
      while k < |frontier| && !found
        invariant 0 <= k <= |frontier|
        invariant Valid() && n0 <= |nodes|
        invariant forall j :: 0 <= j < |frontier| ==> frontier[j] < |nodes|
        invariant (if found then Expansion(nodes, true) else LayerFrom(Expansion(nodes, false), frontier, walls.walls, objective, k)) == target
        invariant justSearched == Range(n0, |nodes|)
        invariant found ==> FoundLast()
        invariant !found ==> foundObjective == old(foundObjective)
        invariant frontier == old(open)
        decreases |frontier| - k
      {
        ghost var before := |nodes|;
        var created, f := ExpandNode(frontier[k], BreadthFirst, walls, objective);
        RangeConcat(n0, before, |nodes|);
        justSearched := justSearched + created;
        found := f;
        k := k + 1;
      }
      open := justSearched;
      done := |open| == 0 || found;
    }

    /** The step shared by best-first and A*: the first open entry of least
        weight is taken off the open list and expanded; unless a child
        reached the objective, the children created join the end of the
        open list. */
    method ExpandCheapest(s: Strategy, walls: Walls, objective: Pos) returns (done: bool)
      requires Ready() && |open| > 0
      modifies this`nodes, this`greatestWeight, this`foundObjective, this`open
      ensures var k := FirstMin(old(nodes), old(open));
              var r := ExpandFrom(Expansion(old(nodes), false), s, old(open)[k], walls.walls, objective, 0);
              nodes == r.nodes && done == r.found &&
              open == RemoveAt(old(open), k) + (if done then [] else Range(old(|nodes|), |nodes|)) &&
              (done ==> FoundLast()) && (!done ==> foundObjective == old(foundObjective))
      ensures Ready()
      ensures old(Sound()) ==> Sound()
    {
      var i := TakeCheapest();
      ExpandFromKeepsSound(Expansion(nodes, false), s, i, walls.walls, objective);
      var created;
      created, done := ExpandNode(i, s, walls, objective);
      if !done {
        RangeBelow(old(|nodes|), |nodes|);
        open := open + created;
      }
    }

    /** The `min_by` over the open list followed by `position` and
        `remove`: the first open entry of least weight is taken off the
        open list and returned. */
    method TakeCheapest() returns (i: nat)
      requires Ready() && |open| > 0
      modifies this`open
      ensures var k := FirstMin(nodes, old(open));
              i == old(open)[k] && open == RemoveAt(old(open), k)
      ensures Ready() && i < |nodes|
    {
      var k := FirstMin(nodes, open);
      i := open[k];
      FirstMinIsFirstOccurrence(nodes, open);
      var p := IndexOf(open, i).value;
      open := RemoveAt(open, p);
    }

    /** `best_first_search`: one expansion of the open node closest to the
        objective. The source unwraps the minimum of the open list, so the
        list must not be empty. */
    method BestFirstSearch(walls: Walls, objective: Pos) returns (done: bool)
      requires Ready() && |open| > 0
      modifies this`nodes, this`greatestWeight, this`foundObjective, this`open
      ensures var k := FirstMin(old(nodes), old(open));
              var r := ExpandFrom(Expansion(old(nodes), false), BestFirst, old(open)[k], walls.walls, objective, 0);
              nodes == r.nodes && done == r.found &&
              open == RemoveAt(old(open), k) + (if done then [] else Range(old(|nodes|), |nodes|)) &&
              (done ==> FoundLast()) && (!done ==> foundObjective == old(foundObjective))
      ensures Ready()
      ensures old(Sound()) ==> Sound()
    {
      done := ExpandCheapest(BestFirst, walls, objective);
    }

    /** `a_search_star`: with nothing open the search is over and nothing
        changes; otherwise one expansion of the open node of least
        estimated path length. */
    method AStarSearch(walls: Walls, objective: Pos) returns (done: bool)
      requires Ready()
      modifies this`nodes, this`greatestWeight, this`foundObjective, this`open
      ensures old(open) == [] ==> done && unchanged(this)
      ensures old(open) != [] ==>
              var k := FirstMin(old(nodes), old(open));
              var r := ExpandFrom(Expansion(old(nodes), false), AStar, old(open)[k], walls.walls, objective, 0);
              nodes == r.nodes && done == r.found &&
              open == RemoveAt(old(open), k) + (if done then [] else Range(old(|nodes|), |nodes|)) &&
              (done ==> FoundLast()) && (!done ==> foundObjective == old(foundObjective))
      ensures Ready()
      ensures old(Sound()) ==> Sound()
    {
      if |open| == 0 {
        return true;
      }
      done := ExpandCheapest(AStar, walls, objective);
    }

    /** `cached_search`: records the slot of the first node at the
        objective, or None when no node is there. */
    method CachedSearch(objective: Pos)
      modifies this`foundObjective
      ensures foundObjective.None? <==> !Exists(objective)
      ensures foundObjective.Some? ==>
              var f := foundObjective.value;
              f < |nodes| && nodes[f].pos == objective && forall j :: 0 <= j < f ==> nodes[j].pos != objective
      ensures old(Valid()) ==> Valid()
    {
      var f: Option<nat> := None;
      var i := 0;
      while i < |nodes|
        invariant 0 <= i <= |nodes|
        invariant forall j :: 0 <= j < i ==> nodes[j].pos != objective
        decreases |nodes| - i
      {
        if nodes[i].pos == objective {
          f := Some(i);
          break;
        }
        i := i + 1;
      }
      foundObjective := f;
    }

    /** The state right after a reset: only the start node, open on it. */
    ghost predicate IsReset()
      reads this
    {
      nodes == [RootAt(startPos, 0)] && open == [0] && foundObjective == None && greatestWeight == 0
    }

    /** `reset`: back to the start node alone. */
    method Reset()
      modifies this`nodes, this`greatestWeight, this`foundObjective, this`open
      ensures IsReset() && Sound()
    {
      nodes := [];
      var _ := NewNode(startPos);
      foundObjective := None;
      greatestWeight := 0;
      open := [0];
      StartSound(startPos);
    }

    /** `smart_reset`: resets exactly when a node sits at `placed`, and
        says whether it did. */
    method SmartReset(placed: Pos) returns (r: bool)
      modifies this`nodes, this`greatestWeight, this`foundObjective, this`open
      ensures r == old(Exists(placed))
      ensures r ==> IsReset() && Sound()
      ensures !r ==> unchanged(this)
    {
      if Exists(placed) {
        Reset();
        return true;
      }
      return false;
    }

    /** `i_smart_reset`: resets exactly when no node sits at `placed`, and
        says whether it did. */
    method ISmartReset(placed: Pos) returns (r: bool)
      modifies this`nodes, this`greatestWeight, this`foundObjective, this`open
      ensures r == !old(Exists(placed))
      ensures r ==> IsReset() && Sound()
      ensures !r ==> unchanged(this)
    {
      if !Exists(placed) {
        Reset();
        return true;
      }
      return false;
    }
  }

  /** The set-up of the driver: a fresh arena at `start` with its start
      node, ready for the first search step. */
  method Start(start: Pos) returns (a: Arena)
    ensures fresh(a)
    ensures a.IsReset() && a.Sound() && a.startPos == start
  {
    a := new Arena(start);
    var _ := a.NewNode(start);
  }
}
