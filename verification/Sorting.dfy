/** `sorted` on lists: insertion into an ordered list, and the fact everything else rests on, that
    under a total order the sorted list is determined by the multiset of its elements. */
module Sorting {
  import opened Text

  ghost predicate TotalPreorder<T(!new)>(le: (T, T) -> bool) {
    && (forall a, b :: le(a, b) || le(b, a))
    && (forall a, b, c :: le(a, b) && le(b, c) ==> le(a, c))
  }

  ghost predicate TotalOrder<T(!new)>(le: (T, T) -> bool) {
    TotalPreorder(le) && forall a, b :: le(a, b) && le(b, a) ==> a == b
  }

  ghost predicate Sorted<T>(s: seq<T>, le: (T, T) -> bool) {
    forall i, j :: 0 <= i < j < |s| ==> le(s[i], s[j])
  }

  function Insert<T>(x: T, s: seq<T>, le: (T, T) -> bool): (r: seq<T>)
    ensures |r| == |s| + 1
  {
    if s == [] || le(x, s[0]) then [x] + s else [s[0]] + Insert(x, s[1..], le)
  }

  function Sort<T>(s: seq<T>, le: (T, T) -> bool): (r: seq<T>)
    ensures |r| == |s|
  {
    if s == [] then [] else Insert(s[0], Sort(s[1..], le), le)
  }

  lemma {:induction false} InsertElements<T>(x: T, s: seq<T>, le: (T, T) -> bool)
    ensures multiset(Insert(x, s, le)) == multiset(s) + multiset{x}
  {
    if s != [] && !le(x, s[0]) {
      InsertElements(x, s[1..], le);
      assert s == [s[0]] + s[1..];
    }
  }

  lemma {:induction false} InsertSorted<T(!new)>(x: T, s: seq<T>, le: (T, T) -> bool)
    requires TotalPreorder(le) && Sorted(s, le)
    ensures Sorted(Insert(x, s, le), le)
  {
    if s != [] && !le(x, s[0]) {
      var t := Insert(x, s[1..], le);
      InsertSorted(x, s[1..], le);
      InsertElements(x, s[1..], le);
      forall y | y in t ensures le(s[0], y) {
        assert y in multiset(t);
      }
    }
  }

  lemma {:induction false} SortSorted<T(!new)>(s: seq<T>, le: (T, T) -> bool)
    requires TotalPreorder(le)
    ensures Sorted(Sort(s, le), le)
    ensures multiset(Sort(s, le)) == multiset(s)
  {
    if s != [] {
      SortSorted(s[1..], le);
      InsertSorted(s[0], Sort(s[1..], le), le);
      InsertElements(s[0], Sort(s[1..], le), le);
      assert s == [s[0]] + s[1..];
    }
  }

  lemma {:induction false} SortedUnique<T(!new)>(a: seq<T>, b: seq<T>, le: (T, T) -> bool)
    requires TotalOrder(le) && Sorted(a, le) && Sorted(b, le)
    requires multiset(a) == multiset(b)
    ensures a == b
  {
    assert |multiset(a)| == |multiset(b)|;
    if a != [] {
      SameLeast(a, b, le);
      assert a == [a[0]] + a[1..] && b == [b[0]] + b[1..];
      assert multiset(a[1..]) == multiset(a) - multiset{a[0]};
      hide TotalOrder;
      SortedUnique(a[1..], b[1..], le);
    }
  }

  lemma SameLeast<T(!new)>(a: seq<T>, b: seq<T>, le: (T, T) -> bool)
    requires TotalOrder(le) && Sorted(a, le) && Sorted(b, le)
    requires multiset(a) == multiset(b) && a != [] && b != []
    ensures a[0] == b[0]
  {
    assert a[0] in multiset(b) && b[0] in multiset(a);
    assert le(a[0], b[0]) && le(b[0], a[0]);
  }

  /** Sorting forgets the order in which the elements arrived. */
  lemma SortCanonical<T(!new)>(a: seq<T>, b: seq<T>, le: (T, T) -> bool)
    requires TotalOrder(le) && multiset(a) == multiset(b)
    ensures Sort(a, le) == Sort(b, le)
  {
    SortSorted(a, le);
    SortSorted(b, le);
    SortedUnique(Sort(a, le), Sort(b, le), le);
  }

  // ---------------------------------------------------------------- tuple orders

  predicate StringLe(a: string, b: string) { !Less(b, a) }

  /** Pairs of a kind and a colour. */
  predicate TextPairLe(a: (string, string), b: (string, string)) {
    Less(a.0, b.0) || (a.0 == b.0 && StringLe(a.1, b.1))
  }

  /** Pairs of a rank and a kind. */
  predicate RankPairLe(a: (nat, string), b: (nat, string)) {
    a.0 < b.0 || (a.0 == b.0 && StringLe(a.1, b.1))
  }

  /** Nodes by colour, ties by index: what a stable sort on the colour yields. */
  predicate ColouredLe(a: (string, nat), b: (string, nat)) {
    Less(a.0, b.0) || (a.0 == b.0 && a.1 <= b.1)
  }

  lemma StringOrder()
    ensures forall a: string, b: string :: Less(a, b) ==> !Less(b, a) && a != b
    ensures forall a: string, b: string :: a == b || Less(a, b) || Less(b, a)
    ensures forall a: string, b: string, c: string :: Less(a, b) && Less(b, c) ==> Less(a, c)
  {
    forall a: string, b: string ensures a == b || Less(a, b) || Less(b, a) { LessTotal(a, b); }
    forall a: string, b: string, c: string | Less(a, b) && Less(b, c) ensures Less(a, c) {
      LessTransitive(a, b, c);
    }
    forall a: string, b: string | Less(a, b) ensures !Less(b, a) && a != b {
      LessIrreflexive(a);
      if Less(b, a) { LessTransitive(a, b, a); }
    }
  }

  lemma StringsTotal()
    ensures TotalOrder(StringLe)
  {
    StringOrder();
  }

  lemma TextPairsTotal()
    ensures TotalOrder(TextPairLe)
  {
    StringOrder();
  }

  lemma RankPairsTotal()
    ensures TotalOrder(RankPairLe)
  {
    StringOrder();
  }

  lemma ColouredTotal()
    ensures TotalOrder(ColouredLe)
  {
    StringOrder();
  }

  // ---------------------------------------------------------------- what comes out

  /** Pairs of texts come out by kind, those of one kind by colour. */
  lemma TextPairsAscend(l: seq<(string, string)>, i: nat, j: nat)
    requires i < j < |l|
    ensures var a, b := Sort(l, TextPairLe)[i], Sort(l, TextPairLe)[j];
            (a.0 == b.0 || Less(a.0, b.0)) && (a.0 == b.0 ==> a.1 == b.1 || Less(a.1, b.1))
  {
    TextPairsTotal();
    SortSorted(l, TextPairLe);
    StringOrder();
  }

  /** Ranked pairs come out by rank, those of one rank by kind. */
  lemma RankPairsAscend(l: seq<(nat, string)>, i: nat, j: nat)
    requires i < j < |l|
    ensures var a, b := Sort(l, RankPairLe)[i], Sort(l, RankPairLe)[j];
            a.0 <= b.0 && (a.0 == b.0 ==> a.1 == b.1 || Less(a.1, b.1))
  {
    RankPairsTotal();
    SortSorted(l, RankPairLe);
    StringOrder();
  }

  /** Coloured nodes come out by colour, those of one colour by index. */
  lemma ColouredAscend(l: seq<(string, nat)>, i: nat, j: nat)
    requires i < j < |l|
    ensures var a, b := Sort(l, ColouredLe)[i], Sort(l, ColouredLe)[j];
            (a.0 == b.0 || Less(a.0, b.0)) && (a.0 == b.0 ==> a.1 <= b.1)
  {
    ColouredTotal();
    SortSorted(l, ColouredLe);
    StringOrder();
  }

  /** Texts come out in ascending order. */
  lemma StringsAscend(l: seq<string>, i: nat, j: nat)
    requires i < j < |l|
    ensures var a, b := Sort(l, StringLe)[i], Sort(l, StringLe)[j]; a == b || Less(a, b)
  {
    StringsTotal();
    SortSorted(l, StringLe);
    StringOrder();
  }
}
