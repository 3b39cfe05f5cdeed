/** `greedy_cover`: repeatedly place the candidate with the most disjoint unclaimed windows. */
module PatternCover {
  import opened Listing
  import opened Packing

  type Candidates<K> = seq<(K, seq<Window>)>      // the dictionary, in insertion order
  type Placements<K> = seq<(K, seq<Window>)>

  function Width(ws: seq<Window>): nat { if ws == [] then 1 else |ws[0]| }

  /** Each candidate's windows have one length and come in start order. */
  predicate Orderly<K>(cs: Candidates<K>) {
    forall i :: 0 <= i < |cs| ==> InStartOrder(cs[i].1, Width(cs[i].1))
  }

  /** A candidate's greedy packing among what is not covered. */
  function Chosen(ws: seq<Window>, covered: set<nat>): seq<Window>
    requires InStartOrder(ws, Width(ws))
  {
    Pack(ws, Width(ws), covered, -1)
  }

  // ------------------------------------------------------------ the choice of one round

  /** The first of the candidates with the largest packing, among the first `m`. */
  function Best<K>(cs: Candidates<K>, covered: set<nat>, m: nat): (b: nat)
    requires Orderly(cs) && 1 <= m <= |cs|
    ensures b < m
    ensures forall j :: 0 <= j < m ==> |Chosen(cs[j].1, covered)| <= |Chosen(cs[b].1, covered)|
    ensures forall j :: 0 <= j < b ==> |Chosen(cs[j].1, covered)| < |Chosen(cs[b].1, covered)|
  {
    if m == 1 then 0 else
      var b := Best(cs, covered, m - 1);
      if |Chosen(cs[m - 1].1, covered)| > |Chosen(cs[b].1, covered)| then m - 1 else b
  }

  function AllCells<K>(cs: Candidates<K>): set<nat> {
    if cs == [] then {} else Cells(cs[0].1) + AllCells(cs[1..])
  }

  lemma {:induction false} CandidateCells<K>(cs: Candidates<K>, j: nat)
    requires j < |cs|
    ensures Cells(cs[j].1) <= AllCells(cs)
  {
    if j > 0 {
      CandidateCells(cs[1..], j - 1);
    }
  }

  /** How many of the candidates' cells are free. */
  ghost function Unclaimed<K>(cs: Candidates<K>, covered: set<nat>): nat {
    |AllCells(cs) - covered|
  }

  /** Placing a non-empty packing claims a cell of the candidates that was free. */
  lemma PlacingClaims<K>(cs: Candidates<K>, covered: set<nat>, b: nat)
    requires Orderly(cs) && b < |cs| && Chosen(cs[b].1, covered) != []
    ensures Unclaimed(cs, covered + Cells(Chosen(cs[b].1, covered))) < Unclaimed(cs, covered)
  {
    var x := FreshCell(cs[b].1, covered);
    CandidateCells(cs, b);
    hide Orderly, Chosen, Cells, AllCells;
    var before, after := AllCells(cs) - covered, AllCells(cs) - (covered + Cells(Chosen(cs[b].1, covered)));
    assert x in before && x !in after;
    SubsetSize(after, before - {x});
  }

  lemma FreshCell(ws: seq<Window>, covered: set<nat>) returns (x: nat)
    requires InStartOrder(ws, Width(ws)) && Chosen(ws, covered) != []
    ensures x in Cells(ws) && x in Cells(Chosen(ws, covered)) && x !in covered
  {
    var chosen := Chosen(ws, covered);
    PackMembers(ws, Width(ws), covered, -1);
    var w := chosen[0];
    assert w in chosen;
    x := w[0];
    InCells(chosen, x);
    InCells(ws, x);
  }

  // ------------------------------------------------------------ the cover

  function Cover<K>(cs: Candidates<K>, covered: set<nat>, minimum: nat): Placements<K>
    requires Orderly(cs) && minimum >= 1
    decreases Unclaimed(cs, covered)
  {
    if cs == [] then [] else
      var b := Best(cs, covered, |cs|);
      var chosen := Chosen(cs[b].1, covered);
      if |chosen| < minimum then [] else
        PlacingClaims(cs, covered, b);
        [(cs[b].0, chosen)] + Cover(cs, covered + Cells(chosen), minimum)
  }

  lemma CoverUnfolds<K>(cs: Candidates<K>, covered: set<nat>, minimum: nat)
    requires Orderly(cs) && minimum >= 1
    ensures cs == [] ==> Cover(cs, covered, minimum) == []
    ensures cs != [] ==>
              var b := Best(cs, covered, |cs|);
              var chosen := Chosen(cs[b].1, covered);
              Cover(cs, covered, minimum) ==
              if |chosen| < minimum then [] else [(cs[b].0, chosen)] + Cover(cs, covered + Cells(chosen), minimum)
  {}

  /** All the cells of the placements. */
  function Claimed<K>(placements: Placements<K>): set<nat> {
    if placements == [] then {} else Cells(placements[0].1) + Claimed(placements[1..])
  }

  lemma {:induction false} ClaimedAppend<K>(a: Placements<K>, b: Placements<K>)
    ensures Claimed(a + b) == Claimed(a) + Claimed(b)
  {
    if a == [] {
      assert a + b == b;
    } else {
      assert (a + b)[1..] == a[1..] + b;
      ClaimedAppend(a[1..], b);
    }
  }

  lemma ClaimedOne<K>(before: set<nat>, placements: Placements<K>, key: K, chosen: seq<Window>)
    ensures before + Claimed(placements + [(key, chosen)]) == before + Claimed(placements) + Cells(chosen)
  {
    ClaimedAppend(placements, [(key, chosen)]);
  }

  lemma AppendOne<T>(a: seq<T>, x: T, b: seq<T>)
    ensures a + ([x] + b) == a + [x] + b
  {}

  /** What is covered, shared with the caller and extended in place. */
  class Coverage {
    var claimed: set<nat>

    constructor (initial: set<nat>)
      ensures claimed == initial
    {
      claimed := initial;
    }

    method Claim(window: Window)
      modifies this
      ensures claimed == old(claimed) + set x: nat | x in window
    {
      claimed := claimed + set x: nat | x in window;
    }
  }

  /** Claim every window of a chosen packing. */
  method ClaimAll(coverage: Coverage, chosen: seq<Window>)
    modifies coverage
    ensures coverage.claimed == old(coverage.claimed) + Cells(chosen)
  {
    assert chosen[0..] == chosen;
    for i := 0 to |chosen|
      invariant coverage.claimed + Cells(chosen[i..]) == old(coverage.claimed) + Cells(chosen)
    {
      assert chosen[i..][0] == chosen[i] && chosen[i..][1..] == chosen[i + 1..];
      coverage.Claim(chosen[i]);
    }
  }

  method GreedyCover<K>(candidates: Candidates<K>, coverage: Coverage, minimum: nat) returns (placements: Placements<K>)
    requires Orderly(candidates) && minimum >= 1
    modifies coverage
    ensures placements == Cover(candidates, old(coverage.claimed), minimum)
    ensures coverage.claimed == old(coverage.claimed) + Claimed(placements)
  {
    placements := [];
    ghost var before := coverage.claimed;
    ghost var rest := Cover(candidates, before, minimum);
    ghost var all := rest;
    assert Claimed<K>([]) == {};
    hide *;
    while true
      invariant coverage.claimed == before + Claimed(placements)
      invariant rest == Cover(candidates, coverage.claimed, minimum) && all == placements + rest
      decreases Unclaimed(candidates, coverage.claimed)
    {
      var best, chosen := Round(candidates, coverage.claimed, minimum);
      if best == |candidates| || |chosen| < minimum {
        break;
      }
      var placed := (candidates[best].0, chosen);
      ClaimedOne(before, placements, placed.0, chosen);
      ClaimAll(coverage, chosen);
      rest := Cover(candidates, coverage.claimed, minimum);
      AppendOne(placements, placed, rest);
      placements := placements + [placed];
    }
  }

  /** The best candidate of a round, and what placing it leaves to do. */
  method Round<K>(candidates: Candidates<K>, covered: set<nat>, minimum: nat) returns (best: nat, chosen: seq<Window>)
    requires Orderly(candidates) && minimum >= 1
    ensures best <= |candidates|
    ensures best == |candidates| || |chosen| < minimum ==> Cover(candidates, covered, minimum) == []
    ensures best < |candidates| && |chosen| >= minimum ==>
              && Unclaimed(candidates, covered + Cells(chosen)) < Unclaimed(candidates, covered)
              && Cover(candidates, covered, minimum) ==
                 [(candidates[best].0, chosen)] + Cover(candidates, covered + Cells(chosen), minimum)
  {
    best, chosen := PickBest(candidates, covered);
    hide *;
    CoverUnfolds(candidates, covered, minimum);
    if best < |candidates| && |chosen| >= minimum {
      PlacingClaims(candidates, covered, best);
    }
  }

  /** One pass over the candidates; `best` is their number when there are none. */
  method PickBest<K>(candidates: Candidates<K>, covered: set<nat>) returns (best: nat, chosen: seq<Window>)
    requires Orderly(candidates)
    ensures candidates == [] ==> best == |candidates|
    ensures candidates != [] ==>
              best == Best(candidates, covered, |candidates|) && chosen == Chosen(candidates[best].1, covered)
  {
    best, chosen := |candidates|, [];
    for i := 0 to |candidates|
      invariant i == 0 ==> best == |candidates|
      invariant i > 0 ==> best == Best(candidates, covered, i) && chosen == Chosen(candidates[best].1, covered)
    {
      var windows := candidates[i].1;
      var here := Scan(windows, Width(windows), covered);
      if best == |candidates| || |here| > |chosen| {
        best, chosen := i, here;
      }
    }
  }
}
