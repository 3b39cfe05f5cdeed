/** The longest-first covering: place every repeat of length n, drop to n - 1, continue to 2. */
module Cascade {
  import opened Listing
  import opened Packing
  import opened PatternCover
  import opened CoverGuarantees
  import opened Segments

  /** What is covered: the segments, which windows are admissible, their key, and how often a key
      must be placeable. */
  datatype Search<K> = Search(segments: seq<Window>, keep: Window -> bool, key: Window -> K, minimum: nat)

  ghost predicate Legal<K>(r: Search<K>) {
    Runs(r.segments) && r.segments != [] && r.minimum >= 1
  }

  /** The length of the longest segment. */
  function Longest(segments: seq<Window>): (n: nat)
    requires segments != []
    ensures forall s <- segments :: |s| <= n
    ensures exists s <- segments :: |s| == n
  {
    if |segments| == 1 then |segments[0]| else
      var rest := Longest(segments[1..]);
      if |segments[0]| > rest then |segments[0]| else rest
  }

  // ------------------------------------------------------------ the candidates of one length

  /** Keys with fewer windows than the minimum are dropped. */
  function Kept<K>(groups: Candidates<K>, minimum: nat): Candidates<K> {
    if groups == [] then [] else
      (if |groups[0].1| >= minimum then [groups[0]] else []) + Kept(groups[1..], minimum)
  }

  function Admissible<K>(r: Search<K>, n: nat): seq<Window>
    requires n >= 1
  {
    Filter(Windows(r.segments, n), r.keep)
  }

  function PoolAt<K(==)>(r: Search<K>, n: nat): Candidates<K>
    requires n >= 1
  {
    Kept(Grouped(Admissible(r, n), r.key), r.minimum)
  }

  lemma {:induction false} KeptMember<K>(groups: Candidates<K>, minimum: nat, g: (K, seq<Window>))
    ensures g in Kept(groups, minimum) <==> g in groups && |g.1| >= minimum
  {
    if groups != [] {
      KeptMember(groups[1..], minimum, g);
    }
  }

  lemma {:induction false} KeptDistinct<K>(groups: Candidates<K>, minimum: nat)
    requires DistinctKeys(groups)
    ensures DistinctKeys(Kept(groups, minimum))
  {
    if groups != [] {
      var rest := Kept(groups[1..], minimum);
      KeptDistinct(groups[1..], minimum);
      forall j | 0 <= j < |rest| ensures rest[j].0 != groups[0].0 {
        KeptMember(groups[1..], minimum, rest[j]);
        var i :| 0 <= i < |groups[1..]| && groups[1..][i] == rest[j];
        assert groups[i + 1] == rest[j];
      }
    }
  }

  lemma AdmissibleInOrder<K>(r: Search<K>, n: nat)
    requires Legal(r) && n >= 1
    ensures InStartOrder(Admissible(r, n), n)
    ensures forall w :: w in Admissible(r, n) <==> w in Windows(r.segments, n) && r.keep(w)
  {
    WindowsInOrder(r.segments, n);
    FilterInOrder(Windows(r.segments, n), n, r.keep);
    FilterMembers(Windows(r.segments, n), r.keep);
  }

  lemma PoolMember<K(!new)>(r: Search<K>, n: nat, i: nat)
    requires Legal(r) && n >= 1 && i < |PoolAt(r, n)|
    ensures PoolAt(r, n)[i].1 == OfKey(Admissible(r, n), r.key, PoolAt(r, n)[i].0)
    ensures PoolAt(r, n)[i].1 != [] && InStartOrder(PoolAt(r, n)[i].1, n) && Width(PoolAt(r, n)[i].1) == n
  {
    var ws, pool := Admissible(r, n), PoolAt(r, n);
    AdmissibleInOrder(r, n);
    GroupedExact(ws, r.key);
    KeptMember(Grouped(ws, r.key), r.minimum, pool[i]);
    var j :| 0 <= j < |Grouped(ws, r.key)| && Grouped(ws, r.key)[j] == pool[i];
    OfKeyInOrder(ws, n, r.key, pool[i].0);
  }

  /** The candidates meet what the greedy cover needs. */
  lemma PoolOrderly<K(!new)>(r: Search<K>, n: nat)
    requires Legal(r) && n >= 1
    ensures Orderly(PoolAt(r, n)) && AllOfLength(PoolAt(r, n), n) && DistinctKeys(PoolAt(r, n))
  {
    var pool := PoolAt(r, n);
    GroupedExact(Admissible(r, n), r.key);
    KeptDistinct(Grouped(Admissible(r, n), r.key), r.minimum);
    hide PoolAt, InStartOrder, Width;
    forall i | 0 <= i < |pool|
      ensures InStartOrder(pool[i].1, Width(pool[i].1)) && pool[i].1 != [] && Width(pool[i].1) == n
    {
      PoolMember(r, n, i);
    }
  }

  lemma {:induction false} KeptByFirstUse<K>(groups: Candidates<K>, minimum: nat)
    requires ByFirstUse(groups)
    ensures ByFirstUse(Kept(groups, minimum))
  {
    if groups != [] {
      var rest := Kept(groups[1..], minimum);
      KeptByFirstUse(groups[1..], minimum);
      forall j | 0 <= j < |rest| ensures FirstStart(groups[0].1) < FirstStart(rest[j].1) {
        KeptMember(groups[1..], minimum, rest[j]);
        var i :| 0 <= i < |groups[1..]| && groups[1..][i] == rest[j];
        assert groups[i + 1] == rest[j];
      }
    }
  }

  /** The candidates come in the order in which their first windows start. With the first of the largest
      packings picked in every round, this is how ties are broken. */
  lemma PoolByFirstUse<K(!new)>(r: Search<K>, n: nat)
    requires Legal(r) && n >= 1
    ensures ByFirstUse(PoolAt(r, n))
  {
    AdmissibleInOrder(r, n);
    GroupedByFirstUse(Admissible(r, n), n, r.key);
    KeptByFirstUse(Grouped(Admissible(r, n), r.key), r.minimum);
  }

  // ------------------------------------------------------------ the cascade

  /** The placements at each length, longest first. */
  type Layers<K> = seq<(nat, Placements<K>)>

  ghost function CascadeFrom<K(!new)>(r: Search<K>, n: nat, covered: set<nat>): Layers<K>
    requires Legal(r)
  {
    if n < 2 then [] else
      PoolOrderly(r, n);
      var placed := Cover(PoolAt(r, n), covered, r.minimum);
      (if placed == [] then [] else [(n, placed)]) + CascadeFrom(r, n - 1, covered + Claimed(placed))
  }

  ghost function LayerClaims<K>(layers: Layers<K>): set<nat> {
    if layers == [] then {} else LayerClaims(layers[..|layers| - 1]) + Claimed(layers[|layers| - 1].1)
  }

  /** Sums over layers: instructions placed, placements, distinct repeats. */
  function Instructions<K>(layers: Layers<K>): nat {
    if layers == [] then 0 else
      Instructions(layers[..|layers| - 1]) + layers[|layers| - 1].0 * Uses(layers[|layers| - 1].1)
  }

  function PlacementCount<K>(layers: Layers<K>): nat {
    if layers == [] then 0 else PlacementCount(layers[..|layers| - 1]) + Uses(layers[|layers| - 1].1)
  }

  function LemmaCount<K>(layers: Layers<K>): nat {
    if layers == [] then 0 else LemmaCount(layers[..|layers| - 1]) + |layers[|layers| - 1].1|
  }

  /** The first layer of a cascade, and the cascade below it. */
  lemma CascadeStep<K(!new)>(r: Search<K>, n: nat, covered: set<nat>, placed: Placements<K>, below: Layers<K>)
    requires Legal(r) && n >= 2 && Orderly(PoolAt(r, n))
    requires placed == Cover(PoolAt(r, n), covered, r.minimum)
    requires below == CascadeFrom(r, n - 1, covered + Claimed(placed))
    ensures CascadeFrom(r, n, covered) == (if placed == [] then [] else [(n, placed)]) + below
    ensures covered + LayerClaims(CascadeFrom(r, n, covered)) == covered + Claimed(placed) + LayerClaims(below)
    ensures placed == [] ==> covered + Claimed(placed) == covered
  {
    var layers := CascadeFrom(r, n, covered);
    hide PoolAt, Cover, Orderly;
    assert layers == (if placed == [] then [] else [(n, placed)]) + below;
    hide CascadeFrom;
    if placed == [] {
      NothingClaimed<K>();
      assert layers == below;
    } else {
      hide Claimed;
      ClaimsFirst(layers);
      assert layers[1..] == below;
    }
  }

  /** Every layer is the greedy cover of its length, given what the longer lengths claimed. */
  lemma {:induction false} CascadePrefix<K(!new)>(r: Search<K>, n: nat, covered: set<nat>, i: nat)
    requires Legal(r) && i < |CascadeFrom(r, n, covered)|
    ensures LayerAt(r, n, covered, CascadeFrom(r, n, covered), i)
    decreases n
  {
    var layers := CascadeFrom(r, n, covered);
    PoolOrderly(r, n);
    var placed := Cover(PoolAt(r, n), covered, r.minimum);
    var below := CascadeFrom(r, n - 1, covered + Claimed(placed));
    CascadeStep(r, n, covered, placed, below);
    hide PoolAt, Cover, Orderly, AllOfLength, DistinctKeys, Claimed, CascadeFrom, Legal;
    if placed == [] {
      assert layers == below;
      CascadePrefix(r, n - 1, covered, i);
    } else if i == 0 {
      assert layers[..0] == [] && covered + LayerClaims(layers[..0]) == covered;
    } else {
      CascadePrefix(r, n - 1, covered + Claimed(placed), i - 1);
      assert layers[i] == below[i - 1] && layers[1..] == below && layers[0].1 == placed;
      LayerShift(r, n, covered, layers, i);
    }
  }

  ghost predicate LayerAt<K(!new)>(r: Search<K>, n: nat, covered: set<nat>, layers: Layers<K>, i: nat)
    requires Legal(r) && i < |layers|
  {
    && 2 <= layers[i].0 <= n
    && Orderly(PoolAt(r, layers[i].0)) && AllOfLength(PoolAt(r, layers[i].0), layers[i].0)
    && layers[i].1 == Cover(PoolAt(r, layers[i].0), covered + LayerClaims(layers[..i]), r.minimum)
    && layers[i].1 != []
  }

  lemma LayerShift<K(!new)>(r: Search<K>, n: nat, covered: set<nat>, layers: Layers<K>, i: nat)
    requires Legal(r) && 0 < i < |layers| && n >= 1
    requires LayerAt(r, n - 1, covered + Claimed(layers[0].1), layers[1..], i - 1)
    ensures LayerAt(r, n, covered, layers, i)
  {
    PrefixClaims(covered, layers, i);
    hide PoolAt, Cover, Orderly, AllOfLength, Claimed, LayerClaims, Legal;
  }

  lemma PrefixClaims<K>(covered: set<nat>, layers: Layers<K>, i: nat)
    requires 0 < i <= |layers|
    ensures covered + LayerClaims(layers[..i]) == covered + Claimed(layers[0].1) + LayerClaims(layers[1..][..i - 1])
  {
    ClaimsFirst(layers[..i]);
    assert layers[..i][1..] == layers[1..][..i - 1];
  }

  lemma NothingClaimed<K>()
    ensures Claimed<K>([]) == {}
  {}

  lemma {:induction false} ClaimsFirst<K>(layers: Layers<K>)
    requires layers != []
    ensures LayerClaims(layers) == Claimed(layers[0].1) + LayerClaims(layers[1..])
  {
    if |layers| > 1 {
      var last := |layers| - 1;
      ClaimsFirst(layers[..last]);
      assert layers[..last][1..] == layers[1..][..last - 1];
    }
  }

  /** Conservation, at every point of the cascade: the cells claimed so far are new, and their
      number is the sum over the layers of length times placements. */
  lemma {:induction false} CascadeConserves<K(!new)>(r: Search<K>, n: nat, covered: set<nat>, m: nat)
    requires Legal(r) && m <= |CascadeFrom(r, n, covered)|
    ensures var so_far := CascadeFrom(r, n, covered)[..m];
            LayerClaims(so_far) !! covered && |LayerClaims(so_far)| == Instructions(so_far)
    decreases m
  {
    var layers := CascadeFrom(r, n, covered);
    if m > 0 {
      var i := m - 1;
      CascadeConserves(r, n, covered, i);
      CascadePrefix(r, n, covered, i);
      hide CascadeFrom, PoolAt, Cover, Claimed, Orderly, AllOfLength;
      CoverClaims(PoolAt(r, layers[i].0), covered + LayerClaims(layers[..i]), r.minimum, layers[i].0);
      LayerAdds(layers, covered, i);
    }
  }

  lemma LayerAdds<K>(layers: Layers<K>, covered: set<nat>, i: nat)
    requires i < |layers|
    requires LayerClaims(layers[..i]) !! covered && |LayerClaims(layers[..i])| == Instructions(layers[..i])
    requires Claimed(layers[i].1) !! (covered + LayerClaims(layers[..i]))
    requires |Claimed(layers[i].1)| == layers[i].0 * Uses(layers[i].1)
    ensures LayerClaims(layers[..i + 1]) !! covered
    ensures |LayerClaims(layers[..i + 1])| == Instructions(layers[..i + 1])
  {
    hide Claimed, Uses;
    assert layers[..i + 1][..i] == layers[..i] && layers[..i + 1][i] == layers[i];
    var before, here := LayerClaims(layers[..i]), Claimed(layers[i].1);
    assert before !! here && LayerClaims(layers[..i + 1]) == before + here;
  }

  // ------------------------------------------------------------ nothing is left

  /** Disjoint uncovered admissible windows of one length and key. */
  ghost predicate Placeable<K>(r: Search<K>, n: nat, k: K, covered: set<nat>, family: set<Window>)
    requires n >= 1
  {
    && (forall w :: w in family ==> w in Windows(r.segments, n) && r.keep(w) && r.key(w) == k && Free(w, covered))
    && (forall u, w :: u in family && w in family && u != w ==> Apart(u, w))
  }

  lemma SolutionShrinks(family: set<Window>, ws: seq<Window>, covered: set<nat>, less: set<nat>)
    requires Solution(family, ws, covered) && less <= covered
    ensures Solution(family, ws, less)
  {
    hide Apart;
  }

  lemma {:induction false} FewWindows(family: set<Window>, ws: seq<Window>)
    requires forall w :: w in family ==> w in ws
    ensures |family| <= |ws|
  {
    if ws == [] {
      assert family == {};
    } else {
      var last := ws[|ws| - 1];
      FewWindows(family - {last}, ws[..|ws| - 1]);
      SubsetSize(family, family - {last} + {last});
    }
  }

  /** A key with enough windows is a candidate. */
  lemma PoolHolds<K(!new)>(r: Search<K>, n: nat, k: K) returns (j: nat)
    requires Legal(r) && n >= 1 && |OfKey(Admissible(r, n), r.key, k)| >= r.minimum
    ensures j < |PoolAt(r, n)| && PoolAt(r, n)[j].1 == OfKey(Admissible(r, n), r.key, k)
  {
    var ws := Admissible(r, n);
    var groups := Grouped(ws, r.key);
    GroupedExact(ws, r.key);
    var i :| 0 <= i < |groups| && groups[i].0 == k;
    KeptMember(groups, r.minimum, groups[i]);
    j :| 0 <= j < |PoolAt(r, n)| && PoolAt(r, n)[j] == groups[i];
  }

  lemma PlaceableSolves<K(!new)>(r: Search<K>, n: nat, k: K, covered: set<nat>, family: set<Window>)
    requires Legal(r) && n >= 1 && Placeable(r, n, k, covered, family)
    ensures Solution(family, OfKey(Admissible(r, n), r.key, k), covered)
  {
    AdmissibleInOrder(r, n);
    OfKeyMembers(Admissible(r, n), r.key, k);
    hide Apart, Free, Admissible, OfKey;
  }

  /** At one length: after the cover, no key has enough disjoint uncovered windows. */
  lemma LengthExhausted<K(!new)>(r: Search<K>, n: nat, k: K, covered: set<nat>, later: set<nat>, family: set<Window>)
    requires Legal(r) && n >= 1 && Orderly(PoolAt(r, n)) && Placeable(r, n, k, later, family)
    requires covered + Claimed(Cover(PoolAt(r, n), covered, r.minimum)) <= later
    ensures |family| < r.minimum
  {
    var mine := OfKey(Admissible(r, n), r.key, k);
    PlaceableSolves(r, n, k, later, family);
    if |mine| < r.minimum {
      FewWindows(family, mine);
    } else {
      var pool := PoolAt(r, n);
      var now := covered + Claimed(Cover(pool, covered, r.minimum));
      var j := PoolHolds(r, n, k);
      CoverExhausts(pool, covered, r.minimum, j);
      SolutionShrinks(family, mine, later, now);
      hide PoolAt, Admissible, OfKey, Solution, Placeable;
      assert AtMost(mine, now, r.minimum - 1);
    }
  }

  /** No admissible repeat of any length from 2 to `n` remains placeable at the end. */
  lemma {:induction false} NothingPlaceable<K(!new)>(r: Search<K>, n: nat, covered: set<nat>, m: nat, k: K, family: set<Window>)
    requires Legal(r) && 2 <= m <= n
    requires Placeable(r, m, k, covered + LayerClaims(CascadeFrom(r, n, covered)), family)
    ensures |family| < r.minimum
    decreases n
  {
    var layers := CascadeFrom(r, n, covered);
    PoolOrderly(r, n);
    var placed := Cover(PoolAt(r, n), covered, r.minimum);
    var below := CascadeFrom(r, n - 1, covered + Claimed(placed));
    CascadeStep(r, n, covered, placed, below);
    hide PoolAt, Cover, Orderly, AllOfLength, DistinctKeys, Claimed, Placeable, CascadeFrom, LayerClaims;
    if m == n {
      LengthExhausted(r, n, k, covered, covered + LayerClaims(layers), family);
    } else {
      NothingPlaceable(r, n - 1, covered + Claimed(placed), m, k, family);
    }
  }

  /** Longer windows than the longest segment do not exist. */
  lemma {:induction false} NoLongerWindows(segments: seq<Window>, m: nat)
    requires m >= 1 && forall s <- segments :: |s| < m
    ensures Windows(segments, m) == []
  {
    if segments != [] {
      NoLongerWindows(segments[1..], m);
    }
  }

  /** Maximality: when the cascade ends, no repeat of any length has `minimum` placeable windows. */
  lemma CascadeMaximal<K(!new)>(r: Search<K>, covered: set<nat>, m: nat, k: K, family: set<Window>)
    requires Legal(r) && m >= 2
    requires Placeable(r, m, k, covered + LayerClaims(CascadeFrom(r, Longest(r.segments), covered)), family)
    ensures |family| < r.minimum
  {
    var longest := Longest(r.segments);
    if m <= longest {
      NothingPlaceable(r, longest, covered, m, k, family);
    } else {
      NoLongerWindows(r.segments, m);
      assert family == {};
    }
  }
}
