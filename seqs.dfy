/** Sequence helpers shared by the obstacle set and the node arena: the
    `Vec` operations the search engine relies on (position, remove) stated
    over Dafny sequences. */
module Seqs {

  datatype Option<+T> = None | Some(value: T)

  /** No value occurs twice in `s`. */
  predicate NoDuplicates<T(==)>(s: seq<T>) {
    forall i, j :: 0 <= i < j < |s| ==> s[i] != s[j]
  }

  /** `Iterator::position` with an equality test: the index of the first
      occurrence of `x` in `s`, or None when `x` does not occur. */
  function IndexOf<T(==)>(s: seq<T>, x: T): (r: Option<nat>)
    ensures r.None? <==> x !in s
    ensures r.Some? ==> r.value < |s| && s[r.value] == x
    ensures r.Some? ==> forall j :: 0 <= j < r.value ==> s[j] != x
  {
    if |s| == 0 then None
    else if s[0] == x then Some(0)
    else match IndexOf(s[1..], x)
      case None => None
      case Some(k) => Some(k + 1)
  }

  /** `Vec::remove(k)`: the entry at `k` is dropped and the others keep
      their order. */
  function RemoveAt<T>(s: seq<T>, k: nat): (r: seq<T>)
    requires k < |s|
    ensures |r| == |s| - 1
    ensures forall j :: 0 <= j < k ==> r[j] == s[j]
    ensures forall j :: k <= j < |r| ==> r[j] == s[j + 1]
  {
    s[..k] + s[k + 1..]
  }

  /** Removing one entry takes exactly that one value out of the multiset
      of entries. */
  lemma RemoveAtMultiset<T>(s: seq<T>, k: nat)
    requires k < |s|
    ensures multiset(RemoveAt(s, k)) == multiset(s) - multiset{s[k]}
  {
    assert s == s[..k] + [s[k]] + s[k + 1..];
  }

  /** Removing an entry keeps a sequence free of duplicates, and the removed
      value is then gone. */
  lemma RemoveAtNoDuplicates<T>(s: seq<T>, k: nat)
    requires k < |s|
    ensures NoDuplicates(s) ==> NoDuplicates(RemoveAt(s, k)) && s[k] !in RemoveAt(s, k)
  {
    var r := RemoveAt(s, k);
    if NoDuplicates(s) {
      forall j | 0 <= j < |r|
        ensures r[j] != s[k]
      {
        if j < k { assert r[j] == s[j]; } else { assert r[j] == s[j + 1]; }
      }
    }
  }

  /** The consecutive indices lo, lo+1, ..., hi-1, in increasing order. */
  function Range(lo: nat, hi: nat): (r: seq<nat>)
    requires lo <= hi
    ensures |r| == hi - lo
    ensures forall k :: 0 <= k < |r| ==> r[k] == lo + k
  {
    seq(hi - lo, k requires 0 <= k < hi - lo => lo + k)
  }

  /** Every entry of a range lies below its upper end. */
  lemma RangeBelow(lo: nat, hi: nat)
    requires lo <= hi
    ensures forall k :: 0 <= k < hi - lo ==> Range(lo, hi)[k] < hi
  {
  }

  lemma RangeConcat(lo: nat, mid: nat, hi: nat)
    requires lo <= mid <= hi
    ensures Range(lo, mid) + Range(mid, hi) == Range(lo, hi)
  {
  }

  /** A duplicate-free sequence has as many entries as distinct values. */
  lemma {:induction false} DistinctCardinality<T>(s: seq<T>)
    requires NoDuplicates(s)
    ensures |set x | x in s| == |s|
  {
    if |s| > 0 {
      var t := s[..|s| - 1];
      var last := s[|s| - 1];
      assert NoDuplicates(t);
      DistinctCardinality(t);
      assert (set x | x in s) == (set x | x in t) + {last};
      assert last !in (set x | x in t);
    }
  }
}
