/** Grid geometry: cell size, positions, the four neighbour offsets in the
    order the search expands them, and the Manhattan heuristic. */
module Geometry {

  /** The side of one grid cell (SQUARE_SCALE). Every coordinate the
      engine sees is a multiple of it. */
  const Scale: int := 20

  datatype Pos = Pos(x: int, y: int)

  /** The neighbour offsets in expansion order: up, right, down, left. */
  const DeltaDirs: seq<Pos> := [Pos(0, -Scale), Pos(Scale, 0), Pos(0, Scale), Pos(-Scale, 0)]

  function Step(p: Pos, d: Pos): Pos {
    Pos(p.x + d.x, p.y + d.y)
  }

  function Abs(a: int): nat {
    if a < 0 then -a else a
  }

  /** The position lies on the grid. */
  predicate Aligned(p: Pos) {
    p.x % Scale == 0 && p.y % Scale == 0
  }

  /** Two positions are one cell apart along exactly one axis. */
  predicate Adjacent(p: Pos, q: Pos) {
    (Abs(p.x - q.x) == Scale && p.y == q.y) || (p.x == q.x && Abs(p.y - q.y) == Scale)
  }

  /** Manhattan distance between two positions. */
  function Heuristic(p1: Pos, p2: Pos): (r: nat)
    ensures r == 0 <==> p1 == p2
  {
    Abs(p1.x - p2.x) + Abs(p1.y - p2.y)
  }

  lemma HeuristicSymmetric(p1: Pos, p2: Pos)
    ensures Heuristic(p1, p2) == Heuristic(p2, p1)
  {
  }

  /** The heuristic obeys the triangle inequality. */
  lemma HeuristicTriangle(p: Pos, q: Pos, r: Pos)
    ensures Heuristic(p, r) <= Heuristic(p, q) + Heuristic(q, r)
  {
  }

  /** Each of the four offsets leads to an adjacent cell, the four cells are
      distinct, and a step keeps a position on the grid. */
  lemma DeltaDirsAreNeighbours(p: Pos, k: nat)
    requires k < |DeltaDirs|
    ensures Adjacent(p, Step(p, DeltaDirs[k]))
    ensures Aligned(p) ==> Aligned(Step(p, DeltaDirs[k]))
    ensures forall j :: 0 <= j < |DeltaDirs| && j != k ==> Step(p, DeltaDirs[j]) != Step(p, DeltaDirs[k])
  {
  }

  /** Conversely, every adjacent cell is reached by one of the four offsets. */
  lemma AdjacentIsDelta(p: Pos, q: Pos)
    requires Adjacent(p, q)
    ensures exists k :: 0 <= k < |DeltaDirs| && q == Step(p, DeltaDirs[k])
  {
    if q.y < p.y {
      assert q == Step(p, DeltaDirs[0]);
    } else if q.x > p.x {
      assert q == Step(p, DeltaDirs[1]);
    } else if q.y > p.y {
      assert q == Step(p, DeltaDirs[2]);
    } else {
      assert q == Step(p, DeltaDirs[3]);
    }
  }

  /** On the grid, one step changes the distance to any grid cell by
      exactly one cell size, closer or farther. */
  lemma HeuristicStep(t: Pos, p: Pos, k: nat)
    requires Aligned(t) && Aligned(p) && k < |DeltaDirs|
    ensures var h, h' := Heuristic(t, p), Heuristic(t, Step(p, DeltaDirs[k]));
            h' == h + Scale || h == h' + Scale
  {
    var dx, dy := t.x - p.x, t.y - p.y;
    assert dx % Scale == 0 && dy % Scale == 0;
    assert dx == 0 || dx >= Scale || dx <= -Scale;
    assert dy == 0 || dy >= Scale || dy <= -Scale;
  }

  /** The position reached by taking the offsets in `path` one after another. */
  function Walk(p: Pos, path: seq<Pos>): Pos
    decreases |path|
  {
    if path == [] then p else Walk(Step(p, path[0]), path[1..])
  }

  /** Admissibility: a walk of n unit steps covers a Manhattan distance of
      at most n cells, so the heuristic never exceeds the length of any
      path on the grid. */
  lemma {:induction false} HeuristicAdmissible(p: Pos, path: seq<Pos>)
    requires forall j :: 0 <= j < |path| ==> path[j] in DeltaDirs
    ensures Heuristic(p, Walk(p, path)) <= |path| * Scale
    decreases |path|
  {
    if path != [] {
      var q := Step(p, path[0]);
      HeuristicAdmissible(q, path[1..]);
      HeuristicTriangle(p, q, Walk(q, path[1..]));
    }
  }
}
