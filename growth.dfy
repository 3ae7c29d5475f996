/** What growing a node list by appending children guarantees, and how
    these guarantees compose. */
module Growth {
  import opened Seqs
  import opened Geometry
  import opened Nodes

  /** `b` starts with `a`: nodes already in the arena are never changed. */
  predicate Prefix(a: seq<Node>, b: seq<Node>) {
    |a| <= |b| && b[..|a|] == a
  }

  /** Node `k` is a child created by an expansion of one of `parents`: it
      sits next to its parent, off the walls and on a cell no earlier node
      holds. */
  ghost predicate ChildOk(nodes: seq<Node>, k: nat, parents: seq<nat>, walls: seq<Pos>)
    requires NodesValid(nodes) && k < |nodes|
  {
    var n := nodes[k];
    n.parent.Some? && n.parent.value in parents &&
    Adjacent(nodes[n.parent.value].pos, n.pos) &&
    n.pos !in walls &&
    forall j :: 0 <= j < k ==> nodes[j].pos != n.pos
  }

  /** Every node from slot `from` on is such a child. */
  ghost predicate Created(nodes: seq<Node>, from: nat, parents: seq<nat>, walls: seq<Pos>)
    requires NodesValid(nodes)
  {
    forall k :: from <= k < |nodes| ==> ChildOk(nodes, k, parents, walls)
  }

  /** Only the last node from slot `from` on may be at the objective, and
      `found` says whether it is. */
  ghost predicate StopsAt(nodes: seq<Node>, from: nat, found: bool, objective: Pos) {
    (forall k :: from <= k < |nodes| - 1 ==> nodes[k].pos != objective) &&
    (found <==> from < |nodes| && nodes[|nodes| - 1].pos == objective)
  }

  /** What a call that grew the node list from `a` to `b` guarantees:
      the new nodes are children of `parents` on free cells, only the last
      may be at the objective and `found` says whether it is, positions
      stay distinct and node 0 stays the only root. */
  ghost predicate Extends(a: seq<Node>, b: seq<Node>, found: bool, parents: seq<nat>, walls: seq<Pos>, objective: Pos)
    requires NodesValid(b)
  {
    Prefix(a, b) &&
    Created(b, |a|, parents, walls) &&
    StopsAt(b, |a|, found, objective) &&
    (DistinctPositions(a) ==> DistinctPositions(b)) &&
    (Rooted(a) ==> Rooted(b))
  }

  lemma PrefixTrans(a: seq<Node>, b: seq<Node>, c: seq<Node>)
    ensures Prefix(a, b) && Prefix(b, c) ==> Prefix(a, c)
  {
    if Prefix(a, b) && Prefix(b, c) {
      assert c[..|a|] == c[..|b|][..|a|];
    }
  }

  lemma CreatedTrans(a: seq<Node>, b: seq<Node>, from: nat, parents: seq<nat>, walls: seq<Pos>)
    requires NodesValid(a) && NodesValid(b)
    ensures Prefix(a, b) && from <= |a| && Created(a, from, parents, walls) && Created(b, |a|, parents, walls) ==>
            Created(b, from, parents, walls)
  {
    if Prefix(a, b) && from <= |a| && Created(a, from, parents, walls) {
      forall k | from <= k < |a|
        ensures ChildOk(b, k, parents, walls)
      {
        assert ChildOk(a, k, parents, walls);
        assert b[k] == a[k] && b[a[k].parent.value] == a[a[k].parent.value];
      }
    }
  }

  lemma StopsTrans(a: seq<Node>, b: seq<Node>, from: nat, found: bool, objective: Pos)
    ensures Prefix(a, b) && from <= |a| && StopsAt(a, from, false, objective) && StopsAt(b, |a|, found, objective) ==>
            StopsAt(b, from, found, objective)
  {
    if Prefix(a, b) && from <= |a| {
      forall k | from <= k < |a|
        ensures b[k] == a[k]
      {
      }
    }
  }

  lemma RootedTrans(a: seq<Node>, b: seq<Node>)
    requires Prefix(a, b) && Rooted(a) && |a| > 0
    requires forall k :: |a| <= k < |b| ==> b[k].parent.Some?
    ensures Rooted(b)
  {
    forall k | 0 <= k < |a|
      ensures b[k] == a[k]
    {
    }
  }

  lemma ExtendsTrans(a: seq<Node>, b: seq<Node>, c: seq<Node>, found: bool, parents: seq<nat>, walls: seq<Pos>, objective: Pos)
    requires NodesValid(b) && NodesValid(c)
    ensures Extends(a, b, false, parents, walls, objective) && Extends(b, c, found, parents, walls, objective) ==>
            Extends(a, c, found, parents, walls, objective)
  {
    if Extends(a, b, false, parents, walls, objective) && Extends(b, c, found, parents, walls, objective) {
      PrefixTrans(a, b, c);
      CreatedTrans(b, c, |a|, parents, walls);
      StopsTrans(b, c, |a|, found, objective);
    }
  }

  /** A child of one frontier entry is a child of the frontier. */
  lemma ExtendsWiden(a: seq<Node>, b: seq<Node>, found: bool, frontier: seq<nat>, k: nat, walls: seq<Pos>, objective: Pos)
    requires NodesValid(b) && k < |frontier|
    requires Extends(a, b, found, [frontier[k]], walls, objective)
    ensures Extends(a, b, found, frontier, walls, objective)
  {
    forall j | |a| <= j < |b|
      ensures ChildOk(b, j, frontier, walls)
    {
      assert ChildOk(b, j, [frontier[k]], walls);
    }
  }
}
