/** The branching rule of the search: which colour class is split, what its children are, and how a
    colouring without ties is written down. Everything here commutes with an isomorphism. */
module Individualisation {
  import opened Text
  import opened Sorting
  import opened Rendering
  import opened Listing
  import opened ColourRefinement

  predicate Tied(c: Colours) { !NoDup(c) }

  // ------------------------------------------------------------ the target class

  /** A repeated colour that is rarest, then smallest. */
  ghost predicate IsTarget(c: Colours, x: string) {
    && multiset(c)[x] >= 2
    && forall y :: multiset(c)[y] >= 2 ==> Precedes(c, x, y)
  }

  ghost predicate Precedes(c: Colours, x: string, y: string) {
    multiset(c)[x] < multiset(c)[y] || (multiset(c)[x] == multiset(c)[y] && !Less(y, x))
  }

  lemma TargetUnique(c: Colours, x: string, y: string)
    requires IsTarget(c, x) && IsTarget(c, y)
    ensures x == y
  {
    StringOrder();
    assert Precedes(c, x, y) && Precedes(c, y, x);
  }

  lemma PrecedesTransitive(c: Colours, x: string, y: string, z: string)
    requires Precedes(c, x, y) && Precedes(c, y, z)
    ensures Precedes(c, x, z)
  {
    StringOrder();
  }

  lemma PrecedesTotal(c: Colours, x: string, y: string)
    ensures Precedes(c, x, y) || Precedes(c, y, x)
  {
    StringOrder();
  }

  lemma TiedMeansRepeated(c: Colours)
    ensures Tied(c) <==> exists x :: multiset(c)[x] >= 2
  {
    NoDupCounts(c);
  }

  /** The best repeated colour among the first `k` nodes. */
  lemma {:induction false} BestAmong(c: Colours, k: nat) returns (found: bool, x: string)
    requires k <= |c|
    ensures !found ==> forall i :: 0 <= i < k ==> multiset(c)[c[i]] < 2
    ensures found ==> multiset(c)[x] >= 2
    ensures found ==> forall i :: 0 <= i < k && multiset(c)[c[i]] >= 2 ==> Precedes(c, x, c[i])
  {
    if k == 0 {
      return false, "";
    }
    found, x := BestAmong(c, k - 1);
    var y := c[k - 1];
    if multiset(c)[y] >= 2 && (!found || !Precedes(c, x, y)) {
      PrecedesTotal(c, y, y);
      if found {
        PrecedesTotal(c, x, y);
        forall i | 0 <= i < k - 1 && multiset(c)[c[i]] >= 2 ensures Precedes(c, y, c[i]) {
          PrecedesTransitive(c, y, x, c[i]);
        }
      }
      found, x := true, y;
    }
  }

  lemma TargetExists(c: Colours)
    requires Tied(c)
    ensures exists x :: IsTarget(c, x)
  {
    TiedMeansRepeated(c);
    var found, x := BestAmong(c, |c|);
    var z :| multiset(c)[z] >= 2;
    assert z in c;
    forall y | multiset(c)[y] >= 2 ensures Precedes(c, x, y) {
      assert y in c;
    }
    assert IsTarget(c, x);
  }

  ghost function Target(c: Colours): (x: string)
    requires Tied(c)
    ensures IsTarget(c, x)
  {
    TargetExists(c);
    var x :| IsTarget(c, x);
    x
  }

  /** The nodes of colour `x` below `k`, in index order. */
  function Members(c: Colours, x: string, k: nat): (r: seq<nat>)
    requires k <= |c|
    ensures forall n :: n in r <==> 0 <= n < k && c[n] == x
    ensures NoDup(r)
  {
    if k == 0 then []
    else if c[k - 1] == x then Members(c, x, k - 1) + [k - 1] else Members(c, x, k - 1)
  }

  lemma {:induction false} MembersCount(c: Colours, x: string, k: nat)
    requires k <= |c|
    ensures |Members(c, x, k)| == multiset(c[..k])[x]
  {
    if k != 0 {
      MembersCount(c, x, k - 1);
      assert c[..k] == c[..k - 1] + [c[k - 1]];
    }
  }

  // ------------------------------------------------------------ children

  /** Individualise node `n`, then refine. */
  function Child(a: Adjacency, c: Colours, n: nat): (r: Colours)
    requires a.Valid() && |c| == |a.labels| && n < |c|
    ensures |r| == |c|
  {
    Refined(a, c[n := c[n] + "!"])
  }

  /** Individualising a tied node adds a class, and refinement keeps it. */
  lemma ChildSplits(a: Adjacency, c: Colours, n: nat)
    requires a.Valid() && |c| == |a.labels| && n < |c| && Numerals(c)
    requires multiset(c)[c[n]] >= 2
    ensures Numerals(Child(a, c, n))
    ensures Classes(Child(a, c, n)) > Classes(c)
  {
    hide Rounds;
    var x := c[n] + "!";
    var d := c[n := x];
    MarkedSplits(c, n);
    UnmarkedMarked(c, n);
    RefinedNumerals(a, d);
    RoundsFiner(a, d, |d|);
    FinerHasMore(Refined(a, d), d);
  }

  lemma UnmarkedMarked(c: Colours, n: nat)
    requires n < |c| && Numerals(c)
    ensures Unmarked(c[n := c[n] + "!"])
  {
    var d := c[n := c[n] + "!"];
    forall x | x in d ensures '<' !in x {
      assert x in c || x == c[n] + "!";
      assert c[n] in c;
    }
  }

  lemma MarkedSplits(c: Colours, n: nat)
    requires n < |c| && Numerals(c) && multiset(c)[c[n]] >= 2
    ensures Classes(c[n := c[n] + "!"]) == Classes(c) + 1
  {
    var x := c[n] + "!";
    var d := c[n := x];
    assert x !in c by {
      assert x[|x| - 1] == '!' && x[|x| - 1] in x;
    }
    var others := Without(c, n);
    assert others == c[..n] + c[n + 1..];
    assert c[n] in multiset(others);
    assert d[n] == x;
    forall y ensures y in Elements(d) <==> y in Elements(c) + {x} {
      if y in c && y != c[n] {
        var i :| 0 <= i < |c| && c[i] == y;
        assert d[i] == y;
      } else if y == c[n] {
        var i :| 0 <= i < |others| && others[i] == y;
        assert d[if i < n then i else i + 1] == y;
      }
    }
    assert Elements(d) == Elements(c) + {x};
  }

  lemma ClassesBounded(c: Colours)
    ensures Classes(c) <= |c|
  {
    if c != [] {
      ClassesBounded(c[..|c| - 1]);
      ElementsLast(c);
    }
  }

  // ------------------------------------------------------------ writing a colouring down

  function Coloured(c: Colours): (r: seq<(string, nat)>)
    ensures |r| == |c|
  {
    seq(|c|, n requires 0 <= n < |c| => (c[n], n))
  }

  function Node(): ((string, nat)) -> nat { (p: (string, nat)) => p.1 }

  /** The nodes by colour, ties by index. */
  function Order(c: Colours): (r: seq<nat>)
    ensures |r| == |c|
  {
    MapSeq(Node(), Sort(Coloured(c), ColouredLe))
  }

  function LookRank(rank: seq<nat>): Arc -> (nat, string) {
    (e: Arc) => (if e.0 < |rank| then rank[e.0] else e.0, e.1)
  }

  lemma OrderPerm(c: Colours)
    ensures Perm(Order(c), |c|)
    ensures forall p :: 0 <= p < |c| ==> Sort(Coloured(c), ColouredLe)[p] == (c[Order(c)[p]], Order(c)[p])
  {
    var s := Sort(Coloured(c), ColouredLe);
    ColouredTotal();
    SortSorted(Coloured(c), ColouredLe);
    forall p | 0 <= p < |s| ensures 0 <= s[p].1 < |c| && s[p].0 == c[s[p].1] {
      assert s[p] in multiset(s);
      assert s[p] in multiset(Coloured(c));
    }
    var ids := MapSeq(Node(), Coloured(c));
    MapSeqMultiset(Node(), s, Coloured(c));
    assert forall i :: 0 <= i < |ids| ==> ids[i] == i;
    NoDupCounts(ids);
    NoDupCounts(Order(c));
  }

  function Lines(a: Adjacency, c: Colours): (r: seq<Line>)
    requires a.Valid() && |c| == |a.labels|
    ensures |r| == |c|
  {
    OrderPerm(c);
    var order := Order(c);
    var rank := Inverse(order);
    seq(|c|, p requires 0 <= p < |c| =>
      Line(a.labels[order[p]], Sort(MapSeq(LookRank(rank), a.preds[order[p]]), RankPairLe)))
  }

  function Emit(a: Adjacency, c: Colours): string
    requires a.Valid() && |c| == |a.labels|
  {
    FormText(Lines(a, c))
  }

  // ------------------------------------------------------------ leaves of isomorphic graphs agree

  function MoveNode(f: seq<nat>): ((string, nat)) -> (string, nat) {
    (p: (string, nat)) => (p.0, if p.1 < |f| then f[p.1] else p.1)
  }

  lemma OrderEquivariant(c: Colours, d: Colours, f: seq<nat>)
    requires SameColours(c, d, f) && !Tied(c)
    ensures forall p :: 0 <= p < |c| ==> 0 <= Order(c)[p] < |c| && Order(d)[p] == f[Order(c)[p]]
  {
    var s, t := Sort(Coloured(c), ColouredLe), Sort(Coloured(d), ColouredLe);
    var moved := MapSeq(MoveNode(f), s);
    OrderPerm(c);
    OrderPerm(d);
    ColouredTotal();
    SortSorted(Coloured(c), ColouredLe);
    SortSorted(Coloured(d), ColouredLe);
    MovedSorted(c, f);
    MovedElements(c, d, f);
    SortedUnique(moved, t, ColouredLe);
  }

  lemma MovedSorted(c: Colours, f: seq<nat>)
    requires Perm(f, |c|) && !Tied(c)
    ensures Sorted(MapSeq(MoveNode(f), Sort(Coloured(c), ColouredLe)), ColouredLe)
  {
    var s := Sort(Coloured(c), ColouredLe);
    OrderPerm(c);
    ColouredTotal();
    SortSorted(Coloured(c), ColouredLe);
    forall i, j | 0 <= i < j < |s| ensures Less(s[i].0, s[j].0) {
      assert Order(c)[i] != Order(c)[j];
      assert ColouredLe(s[i], s[j]);
    }
  }

  lemma MovedMembers(c: Colours, d: Colours, f: seq<nat>, x: (string, nat))
    requires SameColours(c, d, f)
    ensures x in MapSeq(MoveNode(f), Coloured(c)) <==> x in Coloured(d)
  {
    var u, v := MapSeq(MoveNode(f), Coloured(c)), Coloured(d);
    if x in v {
      PermOnto(f, |c|);
      var m :| 0 <= m < |v| && v[m] == x;
      assert m in f;
      var n :| 0 <= n < |f| && f[n] == m;
      assert u[n] == x;
    }
    if x in u {
      var n :| 0 <= n < |u| && u[n] == x;
      assert v[f[n]] == x;
    }
  }

  lemma MovedDistinct(c: Colours, d: Colours, f: seq<nat>)
    requires SameColours(c, d, f)
    ensures NoDup(MapSeq(MoveNode(f), Coloured(c))) && NoDup(Coloured(d))
  {}

  lemma MovedElements(c: Colours, d: Colours, f: seq<nat>)
    requires SameColours(c, d, f)
    ensures multiset(MapSeq(MoveNode(f), Sort(Coloured(c), ColouredLe))) == multiset(Coloured(d))
  {
    ColouredTotal();
    SortSorted(Coloured(c), ColouredLe);
    MapSeqMultiset(MoveNode(f), Sort(Coloured(c), ColouredLe), Coloured(c));
    MovedDistinct(c, d, f);
    var u, v := MapSeq(MoveNode(f), Coloured(c)), Coloured(d);
    hide Coloured, Sort, NoDup, SameColours;
    forall x ensures x in u <==> x in v {
      MovedMembers(c, d, f, x);
    }
    SameElements(u, v);
  }

  lemma IncomingAgree(l: seq<Arc>, m: seq<Arc>, f: seq<nat>, rank: seq<nat>, rank': seq<nat>)
    requires |rank| == |rank'| == |f| && Perm(f, |f|)
    requires forall n :: 0 <= n < |f| ==> rank'[f[n]] == rank[n]
    requires forall e <- l :: e.0 < |f|
    requires multiset(MapSeq(Move(f), l)) == multiset(m)
    ensures Sort(MapSeq(LookRank(rank), l), RankPairLe) == Sort(MapSeq(LookRank(rank'), m), RankPairLe)
  {
    var moved := MapSeq(Move(f), l);
    assert MapSeq(LookRank(rank'), moved) == MapSeq(LookRank(rank), l);
    MapSeqMultiset(LookRank(rank'), moved, m);
    RankPairsTotal();
    SortCanonical(MapSeq(LookRank(rank), l), MapSeq(LookRank(rank'), m), RankPairLe);
  }

  lemma RanksEquivariant(c: Colours, d: Colours, f: seq<nat>)
    requires SameColours(c, d, f) && !Tied(c)
    ensures forall n :: 0 <= n < |c| ==> Inverse(Order(d))[f[n]] == Inverse(Order(c))[n]
  {
    OrderPerm(c);
    OrderPerm(d);
    OrderEquivariant(c, d, f);
    InverseOf(Order(c), |c|);
    InverseOf(Order(d), |c|);
    forall n | 0 <= n < |c| ensures Inverse(Order(d))[f[n]] == Inverse(Order(c))[n] {
      var p := Inverse(Order(c))[n];
      assert Order(c)[p] == n && Order(d)[p] == f[n];
    }
  }

  lemma LeafEquivariant(a: Adjacency, b: Adjacency, f: seq<nat>, c: Colours, d: Colours)
    requires Carries(a, b, f) && SameColours(c, d, f) && |c| == |a.labels| && !Tied(c)
    ensures Lines(a, c) == Lines(b, d)
  {
    OrderPerm(c);
    OrderPerm(d);
    OrderEquivariant(c, d, f);
    RanksEquivariant(c, d, f);
    var rank, rank' := Inverse(Order(c)), Inverse(Order(d));
    forall p | 0 <= p < |c| ensures Lines(a, c)[p] == Lines(b, d)[p] {
      var n := Order(c)[p];
      IncomingAgree(a.preds[n], b.preds[f[n]], f, rank, rank');
    }
  }

  lemma TargetEquivariant(c: Colours, d: Colours, f: seq<nat>)
    requires SameColours(c, d, f)
    ensures multiset(c) == multiset(d)
    ensures Tied(c) <==> Tied(d)
    ensures Tied(c) ==> Target(c) == Target(d)
  {
    var look := (n: nat) => if n < |d| then d[n] else "";
    var ids: seq<nat> := seq(|c|, i requires 0 <= i < |c| => i);
    PermOnto(f, |c|);
    PermOnto(ids, |c|);
    MapSeqMultiset<nat, string>(look, f, ids);
    assert MapSeq(look, f) == c && MapSeq(look, ids) == d;
    NoDupCounts(c);
    NoDupCounts(d);
    hide SameColours, MapSeq, NoDup;
    if Tied(c) {
      SameTarget(c, d, Target(c));
      TargetUnique(d, Target(c), Target(d));
    }
  }

  lemma SameTarget(c: Colours, d: Colours, x: string)
    requires multiset(c) == multiset(d) && IsTarget(c, x)
    ensures IsTarget(d, x)
  {
    forall y | multiset(d)[y] >= 2 ensures Precedes(d, x, y) {
      assert Precedes(c, x, y);
    }
  }
}
