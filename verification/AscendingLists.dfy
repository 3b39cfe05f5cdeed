/** Lists of positions in strictly ascending order, as `sorted` makes them. */
module AscendingLists {
  import opened Listing
  import opened Sorting

  predicate StrictlyAscending(p: seq<nat>) {
    forall i, j :: 0 <= i < j < |p| ==> p[i] < p[j]
  }

  predicate NatLe(a: nat, b: nat) { a <= b }

  /** Sorting a duplicate-free list of positions. */
  lemma SortedNoDup(slice: seq<nat>)
    requires NoDup(slice)
    ensures StrictlyAscending(Sort(slice, NatLe))
    ensures forall q: nat :: q in Sort(slice, NatLe) <==> q in slice
  {
    var p := Sort(slice, NatLe);
    SortSorted(slice, NatLe);
    hide Sort;
    NoDupCounts(slice);
    NoDupCounts(p);
    forall q: nat ensures q in p <==> q in slice {
      assert q in p <==> q in multiset(p);
      assert q in slice <==> q in multiset(slice);
    }
  }

  /** Two lists in strictly ascending order with the same elements are the same. */
  lemma AscendingUnique(a: seq<nat>, b: seq<nat>)
    requires StrictlyAscending(a) && StrictlyAscending(b) && forall q :: q in a <==> q in b
    ensures a == b
  {
    SameElements(a, b);
    SortedUnique(a, b, NatLe);
  }
}
