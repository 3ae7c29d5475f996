/** The obstacle set: a list of blocked cells without duplicates, edited
    in place by the driver and consulted by every expansion. */
module Obstacles {
  import opened Seqs
  import opened Geometry

  /** The list after `try_add(p)`: unchanged if `p` is already blocked,
      otherwise `p` appended at the end. */
  function Added(s: seq<Pos>, p: Pos): (r: seq<Pos>)
    ensures p in r
    ensures forall q :: q in r <==> q in s || q == p
    ensures |s| <= |r| <= |s| + 1
    ensures p in s ==> r == s
    ensures r[..|s|] == s
    ensures NoDuplicates(s) ==> NoDuplicates(r)
  {
    if p in s then s else s + [p]
  }

  /** The list after `try_remove(p)`: the first occurrence of `p` dropped,
      the other cells in their old order. */
  function RemoveFirst(s: seq<Pos>, p: Pos): (r: seq<Pos>)
    ensures p !in s ==> r == s
    ensures p in s ==> exists k :: 0 <= k < |s| && s[k] == p && p !in s[..k] && r == RemoveAt(s, k)
    ensures multiset(r) == multiset(s) - multiset{p}
    ensures NoDuplicates(s) ==> NoDuplicates(r) && p !in r
  {
    match IndexOf(s, p)
    case None => s
    case Some(k) =>
      RemoveAtMultiset(s, k);
      RemoveAtNoDuplicates(s, k);
      RemoveAt(s, k)
  }

  /** Removing a cell leaves every other cell's membership as it was. */
  lemma RemoveFirstKeepsOthers(s: seq<Pos>, p: Pos, q: Pos)
    requires q != p
    ensures q in RemoveFirst(s, p) <==> q in s
  {
    var r := RemoveFirst(s, p);
    assert q in r <==> q in multiset(r);
    assert q in s <==> q in multiset(s);
  }

  /** Adding a cell that was free and then removing it restores the list. */
  lemma RemoveUndoesAdd(s: seq<Pos>, p: Pos)
    requires p !in s
    ensures RemoveFirst(Added(s, p), p) == s
  {
    var t := s + [p];
    assert IndexOf(t, p) == Some(|s|);
    assert RemoveAt(t, |s|) == s;
  }

  /** Adding is idempotent. */
  lemma AddedIdempotent(s: seq<Pos>, p: Pos)
    ensures Added(Added(s, p), p) == Added(s, p)
  {
  }

  class Walls {
    var walls: seq<Pos>

    /** The list never holds a cell twice. */
    ghost predicate Valid()
      reads this
    {
      NoDuplicates(walls)
    }

    constructor ()
      ensures Valid() && walls == []
    {
      walls := [];
    }

    method TryAdd(pos: Pos)
      requires Valid()
      modifies this
      ensures Valid()
      ensures walls == Added(old(walls), pos)
    {
      if !(pos in walls) {
        walls := walls + [pos];
      }
    }

    method TryRemove(pos: Pos)
      requires Valid()
      modifies this
      ensures Valid()
      ensures walls == RemoveFirst(old(walls), pos)
    {
      var i := IndexOf(walls, pos);
      if i.Some? {
        walls := RemoveAt(walls, i.value);
      }
    }

    /** The number of stored cells, which is the number of blocked cells. */
    function Len(): (r: nat)
      reads this
      requires Valid()
      ensures r == |set q | q in walls|
    {
      DistinctCardinality(walls);
      |walls|
    }

    /** Whether a cell is blocked. This is the membership primitive; what
        adding and removing do to it is stated by `Added` and `RemoveFirst`. */
    function Exists(pos: Pos): (r: bool)
      reads this
      ensures r <==> exists k :: 0 <= k < |walls| && walls[k] == pos
    {
      pos in walls
    }
  }
}
