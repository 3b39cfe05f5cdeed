/** `motif_leverage`: a second covering loop, written separately, that must place what the cascade
    places; its tally splits the placements by the kind of repetition they exploit. */
module Leverage {
  import opened Packing
  import opened PatternCover
  import opened CoverGuarantees
  import opened Segments
  import opened Cascade
  import opened Dashboard

  datatype Bucket = AcrossFunctions | InsideInstance | SameFunction

  /** The instance that owns an instruction, and the function an instance is of. */
  datatype Owners = Owners(owner: nat -> string, nameOf: string -> string)

  function Hosts(owners: Owners, chosen: seq<Window>): set<string> {
    set w | w in chosen && w != [] :: owners.owner(w[0])
  }

  function Named(owners: Owners, chosen: seq<Window>): set<string> {
    set h | h in Hosts(owners, chosen) :: owners.nameOf(h)
  }

  function BucketOf(owners: Owners, chosen: seq<Window>): Bucket {
    if |Hosts(owners, chosen)| == 1 then InsideInstance
    else if |Named(owners, chosen)| == 1 then SameFunction
    else AcrossFunctions
  }

  // ------------------------------------------------------------ what the buckets mean

  /** The two windows start in the same instance. */
  ghost predicate SameHost(owners: Owners, u: Window, w: Window) {
    u != [] && w != [] ==> owners.owner(u[0]) == owners.owner(w[0])
  }

  /** The two windows start in instances of the same function. */
  ghost predicate SameName(owners: Owners, u: Window, w: Window) {
    u != [] && w != [] ==> owners.nameOf(owners.owner(u[0])) == owners.nameOf(owners.owner(w[0]))
  }

  /** A placement lies inside one instance when all its windows start there; in several instances of one
      function when it starts in two of them and in no other function; and across functions when two of
      its windows start in different ones. */
  ghost predicate Falls(owners: Owners, chosen: seq<Window>, b: Bucket) {
    match b
    case InsideInstance => forall u, w :: u in chosen && w in chosen ==> SameHost(owners, u, w)
    case SameFunction =>
      && (exists u, w :: u in chosen && w in chosen && !SameHost(owners, u, w))
      && (forall u, w :: u in chosen && w in chosen ==> SameName(owners, u, w))
    case AcrossFunctions => exists u, w :: u in chosen && w in chosen && !SameName(owners, u, w)
  }

  /** Every placement falls into exactly one bucket. */
  lemma FallsOnce(owners: Owners, chosen: seq<Window>)
    ensures var inside, same, across := Falls(owners, chosen, InsideInstance), Falls(owners, chosen, SameFunction),
                                        Falls(owners, chosen, AcrossFunctions);
            (inside || same || across) && !(inside && same) && !(inside && across) && !(same && across)
  {
    if u, w :| u in chosen && w in chosen && !SameName(owners, u, w) {
      assert !SameHost(owners, u, w);
    }
  }

  lemma OneHost(owners: Owners, chosen: seq<Window>)
    requires chosen != [] && forall w <- chosen :: w != []
    ensures |Hosts(owners, chosen)| == 1 <==> Falls(owners, chosen, InsideInstance)
  {
    assert chosen[0] in chosen;
    var hosts, h := Hosts(owners, chosen), owners.owner(chosen[0][0]);
    assert h in hosts;
    if |hosts| == 1 {
      OnlyOne(hosts, h);
      forall u, w | u in chosen && w in chosen ensures SameHost(owners, u, w) {
        assert owners.owner(u[0]) in hosts && owners.owner(w[0]) in hosts;
      }
    }
    if Falls(owners, chosen, InsideInstance) {
      assert forall w <- chosen :: SameHost(owners, w, chosen[0]);
      assert hosts == {h};
    }
  }

  lemma OneName(owners: Owners, chosen: seq<Window>)
    requires chosen != [] && forall w <- chosen :: w != []
    ensures |Named(owners, chosen)| == 1 <==> !Falls(owners, chosen, AcrossFunctions)
  {
    assert chosen[0] in chosen;
    var names, h := Named(owners, chosen), owners.owner(chosen[0][0]);
    var name := owners.nameOf(h);
    assert h in Hosts(owners, chosen) && name in names;
    if |names| == 1 {
      OnlyOne(names, name);
      forall u, w | u in chosen && w in chosen ensures SameName(owners, u, w) {
        assert owners.nameOf(owners.owner(u[0])) in names && owners.nameOf(owners.owner(w[0])) in names by {
          assert owners.owner(u[0]) in Hosts(owners, chosen) && owners.owner(w[0]) in Hosts(owners, chosen);
        }
      }
    }
    if !Falls(owners, chosen, AcrossFunctions) {
      assert forall w <- chosen :: SameName(owners, w, chosen[0]);
      assert names == {name};
    }
  }

  lemma OnlyOne(s: set<string>, x: string)
    requires |s| == 1 && x in s
    ensures s == {x}
  {
    assert |s - {x}| == 0;
  }

  /** The two counts decide where a placement falls. */
  lemma BucketFalls(owners: Owners, chosen: seq<Window>, b: Bucket)
    requires chosen != [] && forall w <- chosen :: w != []
    ensures BucketOf(owners, chosen) == b <==> Falls(owners, chosen, b)
  {
    OneHost(owners, chosen);
    OneName(owners, chosen);
    FallsOnce(owners, chosen);
    hide Falls, Hosts, Named;
  }

  /** A repetition that one instance makes on its own: a b a b. */
  lemma TwiceInOneInstance(owners: Owners)
    requires owners.owner(0) == owners.owner(2)
    ensures BucketOf(owners, [[0, 1], [2, 3]]) == InsideInstance
  {
    var chosen: seq<Window> := [[0, 1], [2, 3]];
    BucketFalls(owners, chosen, InsideInstance);
  }

  datatype Entry = Entry(lemmas: nat, instructions: nat)

  type Tally = map<Bucket, Entry>

  ghost predicate Total(tally: Tally) { forall b: Bucket :: b in tally }

  // ------------------------------------------------------------ what the tally should say

  /** How many placements fall into `b`. */
  ghost function BucketLemmas<K>(owners: Owners, placed: Placements<K>, b: Bucket): nat {
    if placed == [] then 0 else
      var last := placed[|placed| - 1].1;
      BucketLemmas(owners, placed[..|placed| - 1], b) + if Falls(owners, last, b) then 1 else 0
  }

  /** How many windows the placements that fall into `b` have. */
  ghost function BucketUses<K>(owners: Owners, placed: Placements<K>, b: Bucket): nat {
    if placed == [] then 0 else
      var last := placed[|placed| - 1].1;
      BucketUses(owners, placed[..|placed| - 1], b) + if Falls(owners, last, b) then |last| else 0
  }

  ghost function LayerLemmas<K>(owners: Owners, layers: Layers<K>, b: Bucket): nat {
    if layers == [] then 0 else
      LayerLemmas(owners, layers[..|layers| - 1], b) + BucketLemmas(owners, layers[|layers| - 1].1, b)
  }

  ghost function LayerInstructions<K>(owners: Owners, layers: Layers<K>, b: Bucket): nat {
    if layers == [] then 0 else
      var last := layers[|layers| - 1];
      LayerInstructions(owners, layers[..|layers| - 1], b) + last.0 * BucketUses(owners, last.1, b)
  }

  /** The tally counts each bucket's placements. */
  ghost predicate Tallied<K>(owners: Owners, tally: Tally, layers: Layers<K>) {
    forall b: Bucket :: b in tally && tally[b] == Entry(LayerLemmas(owners, layers, b), LayerInstructions(owners, layers, b))
  }

  // ------------------------------------------------------------ the loops

  lemma PickNext<K>(candidates: Candidates<K>, covered: set<nat>, i: nat)
    requires Orderly(candidates) && i < |candidates|
    ensures var before := if i == 0 then [] else Chosen(candidates[Best(candidates, covered, i)].1, covered);
            var chosen := Chosen(candidates[i].1, covered);
            Chosen(candidates[Best(candidates, covered, i + 1)].1, covered) == if |chosen| > |before| then chosen else before
  {
    hide Chosen, Orderly;
  }

  /** The best packing of a round; an empty one stands for none. */
  method Pick<K>(candidates: Candidates<K>, covered: set<nat>) returns (best: seq<Window>, bestSize: nat)
    requires Orderly(candidates)
    ensures bestSize == |best|
    ensures best == if candidates == [] then [] else Chosen(candidates[Best(candidates, covered, |candidates|)].1, covered)
  {
    best, bestSize := [], 0;
    hide Best;
    for i := 0 to |candidates|
      invariant bestSize == |best|
      invariant best == if i == 0 then [] else Chosen(candidates[Best(candidates, covered, i)].1, covered)
    {
      var chosen := Scan(candidates[i].1, Width(candidates[i].1), covered);
      PickNext(candidates, covered, i);
      if |chosen| > bestSize {
        best, bestSize := chosen, |chosen|;
      }
    }
  }

  /** What one bucket of the tally gains from the placements of one length. */
  ghost predicate Gained<K>(owners: Owners, before: Tally, after: Tally, n: nat, placed: Placements<K>) {
    forall b: Bucket :: b in before && b in after &&
      after[b] == Entry(before[b].lemmas + BucketLemmas(owners, placed, b),
                        before[b].instructions + n * BucketUses(owners, placed, b))
  }

  lemma BucketGrows<K>(owners: Owners, n: nat, placed: Placements<K>, key: K, best: seq<Window>, b: Bucket)
    ensures var all := placed + [(key, best)];
            && BucketLemmas(owners, all, b) == BucketLemmas(owners, placed, b) + (if Falls(owners, best, b) then 1 else 0)
            && n * BucketUses(owners, all, b) ==
               n * BucketUses(owners, placed, b) + if Falls(owners, best, b) then n * |best| else 0
  {
    var all := placed + [(key, best)];
    assert all[..|all| - 1] == placed;
    assert n * (BucketUses(owners, placed, b) + |best|) == n * BucketUses(owners, placed, b) + n * |best|;
  }

  /** The bucket of a placement counts one more lemma and the instructions it covers. */
  function Recorded(owners: Owners, tally: Tally, n: nat, best: seq<Window>): Tally
    requires BucketOf(owners, best) in tally
  {
    var b := BucketOf(owners, best);
    tally[b := Entry(tally[b].lemmas + 1, tally[b].instructions + n * |best|)]
  }

  lemma GainedOne<K>(owners: Owners, before: Tally, tally: Tally, n: nat, placed: Placements<K>, key: K, best: seq<Window>)
    requires Gained(owners, before, tally, n, placed)
    requires best != [] && forall w <- best :: w != []
    ensures BucketOf(owners, best) in tally
    ensures Gained(owners, before, Recorded(owners, tally, n, best), n, placed + [(key, best)])
  {
    var bucket, all := BucketOf(owners, best), placed + [(key, best)];
    hide BucketOf, Falls, BucketLemmas, BucketUses;
    assert bucket in tally;
    var after := Recorded(owners, tally, n, best);
    forall b: Bucket
      ensures b in before && b in after
      ensures after[b] == Entry(before[b].lemmas + BucketLemmas(owners, all, b),
                                before[b].instructions + n * BucketUses(owners, all, b))
    {
      BucketGrows(owners, n, placed, key, best, b);
      BucketFalls(owners, best, b);
      assert b in tally;
    }
  }

  /** What placing the best packing of a round keeps. */
  lemma LayerRound<K>(candidates: Candidates<K>, n: nat, minimum: nat, owners: Owners, before: set<nat>, claimed: set<nat>,
                      start: Tally, tally: Tally, placed: Placements<K>, all: Placements<K>, best: seq<Window>)
    requires Orderly(candidates) && minimum >= 1 && claimed == before + Claimed(placed)
    requires all == placed + Cover(candidates, claimed, minimum) && Gained(owners, start, tally, n, placed)
    requires best == if candidates == [] then [] else Chosen(candidates[Best(candidates, claimed, |candidates|)].1, claimed)
    requires |best| >= minimum
    ensures candidates != [] && BucketOf(owners, best) in tally
    ensures var more := placed + [(candidates[Best(candidates, claimed, |candidates|)].0, best)];
            && claimed + Cells(best) == before + Claimed(more)
            && all == more + Cover(candidates, claimed + Cells(best), minimum)
            && Gained(owners, start, Recorded(owners, tally, n, best), n, more)
    ensures Unclaimed(candidates, claimed + Cells(best)) < Unclaimed(candidates, claimed)
  {
    hide *;
    PickStep(candidates, claimed, minimum);
    var key := candidates[Best(candidates, claimed, |candidates|)].0;
    ClaimedOne(before, placed, key, best);
    GainedOne(owners, start, tally, n, placed, key, best);
    AppendOne(placed, (key, best), Cover(candidates, claimed + Cells(best), minimum));
  }

  /** The rounds at one length. */
  method LeverageLayer<K>(candidates: Candidates<K>, n: nat, coverage: Coverage, minimum: nat, owners: Owners, tally: Tally)
    returns (tally': Tally, ghost placed: Placements<K>)
    requires Orderly(candidates) && minimum >= 1 && Total(tally)
    modifies coverage
    ensures placed == Cover(candidates, old(coverage.claimed), minimum)
    ensures coverage.claimed == old(coverage.claimed) + Claimed(placed)
    ensures Gained(owners, tally, tally', n, placed)
  {
    tally', placed := tally, [];
    ghost var before := coverage.claimed;
    ghost var rest := Cover(candidates, before, minimum);
    ghost var all := rest;
    NothingClaimed<K>();
    GainedNothing<K>(owners, tally, n);
    hide *;
    while true
      invariant coverage.claimed == before + Claimed(placed)
      invariant rest == Cover(candidates, coverage.claimed, minimum) && all == placed + rest
      invariant Gained(owners, tally, tally', n, placed)
      decreases Unclaimed(candidates, coverage.claimed)
    {
      var best, bestSize := Pick(candidates, coverage.claimed);
      if bestSize < minimum {
        PickStep(candidates, coverage.claimed, minimum);
        break;
      }
      LayerRound(candidates, n, minimum, owners, before, coverage.claimed, tally, tally', placed, all, best);
      ghost var key := candidates[Best(candidates, coverage.claimed, |candidates|)].0;
      ClaimAll(coverage, best);
      tally' := Recorded(owners, tally', n, best);
      rest := Cover(candidates, coverage.claimed, minimum);
      placed := placed + [(key, best)];
    }
  }

  lemma GainedNothing<K>(owners: Owners, tally: Tally, n: nat)
    requires Total(tally)
    ensures Gained<K>(owners, tally, tally, n, [])
  {}

  lemma PickStep<K>(cs: Candidates<K>, covered: set<nat>, minimum: nat)
    requires Orderly(cs) && minimum >= 1
    ensures var best := if cs == [] then [] else Chosen(cs[Best(cs, covered, |cs|)].1, covered);
            if |best| < minimum then Cover(cs, covered, minimum) == []
            else
              && cs != [] && (forall w <- best :: w != [])
              && Unclaimed(cs, covered + Cells(best)) < Unclaimed(cs, covered)
              && Cover(cs, covered, minimum) ==
                 [(cs[Best(cs, covered, |cs|)].0, best)] + Cover(cs, covered + Cells(best), minimum)
  {
    hide Best, Chosen, Cells, Unclaimed, Cover, InStartOrder;
    CoverUnfolds(cs, covered, minimum);
    if cs != [] && |Chosen(cs[Best(cs, covered, |cs|)].1, covered)| >= minimum {
      PlacingClaims(cs, covered, Best(cs, covered, |cs|));
      ChosenNonEmpty(cs[Best(cs, covered, |cs|)].1, covered);
    }
  }

  lemma ChosenNonEmpty(ws: seq<Window>, covered: set<nat>)
    requires InStartOrder(ws, Width(ws))
    ensures forall w <- Chosen(ws, covered) :: w != []
  {
    PackMembers(ws, Width(ws), covered, -1);
  }

  lemma TalliedGrows<K>(owners: Owners, before: Tally, after: Tally, layers: Layers<K>, n: nat, placed: Placements<K>)
    requires Tallied(owners, before, layers) && Gained(owners, before, after, n, placed)
    ensures Tallied(owners, after, layers + if placed == [] then [] else [(n, placed)])
  {
    if placed == [] {
      assert layers + [] == layers;
      forall b: Bucket ensures BucketLemmas(owners, placed, b) == 0 && n * BucketUses(owners, placed, b) == 0 {}
    } else {
      var all := layers + [(n, placed)];
      assert all[..|all| - 1] == layers;
      hide BucketLemmas, BucketUses;
    }
  }

  lemma NothingTallied<K>(owners: Owners)
    ensures Tallied<K>(owners, map[AcrossFunctions := Entry(0, 0), InsideInstance := Entry(0, 0), SameFunction := Entry(0, 0)], [])
  {
    var tally := map[AcrossFunctions := Entry(0, 0), InsideInstance := Entry(0, 0), SameFunction := Entry(0, 0)];
    forall b: Bucket ensures b in tally && tally[b] == Entry(0, 0) {
      match b
      case AcrossFunctions =>
      case InsideInstance =>
      case SameFunction =>
    }
  }

  /** The placements of one length, tallied. */
  method TallyLayer<K(==,!new)>(r: Search<K>, n: nat, candidates: Candidates<K>, coverage: Coverage, owners: Owners, tally: Tally,
                                ghost layers: Layers<K>)
    returns (tally': Tally, ghost layers': Layers<K>)
    requires n >= 2 && Orderly(candidates) && r.minimum >= 1 && candidates == PoolAt(r, n) && Tallied(owners, tally, layers)
    modifies coverage
    ensures Tallied(owners, tally', layers')
    ensures var placed := Cover(PoolAt(r, n), old(coverage.claimed), r.minimum);
            && coverage.claimed == old(coverage.claimed) + Claimed(placed)
            && layers' == layers + if placed == [] then [] else [(n, placed)]
  {
    hide *;
    ghost var placed;
    TalliedTotal(owners, tally, layers);
    tally', placed := LeverageLayer(candidates, n, coverage, r.minimum, owners, tally);
    TalliedGrows(owners, tally, tally', layers, n, placed);
    layers' := layers + if placed == [] then [] else [(n, placed)];
  }

  /** One turn of the loop: the candidates of one length, if there are any. */
  method TallyTurn<K(==,!new)>(r: Search<K>, n: nat, pool: map<nat, Candidates<K>>, coverage: Coverage, owners: Owners,
                               tally: Tally, ghost layers: Layers<K>)
    returns (tally': Tally, ghost layers': Layers<K>)
    requires Legal(r) && r.segments != [] && r.minimum >= 1
    requires 2 <= n <= Longest(r.segments) && Computed(r, pool, Longest(r.segments)) && Tallied(owners, tally, layers)
    modifies coverage
    ensures Tallied(owners, tally', layers')
    ensures Complete(r, layers', n - 1, coverage.claimed) == Complete(r, layers, n, old(coverage.claimed))
  {
    hide *;
    CompleteStep(r, layers, n, coverage.claimed);
    ComputedAt(r, pool, Longest(r.segments), n);
    tally', layers' := tally, layers;
    if n in pool {
      tally', layers' := TallyLayer(r, n, pool[n], coverage, owners, tally, layers);
    }
  }

  /** `motif_leverage`. */
  method MotifLeverage<K(==,!new)>(r: Search<K>, owners: Owners) returns (tally: Tally)
    requires Legal(r)
    ensures Tallied(owners, tally, CascadeFrom(r, Longest(r.segments), {}))
  {
    LegalSearch(r);
    hide *;
    var pool := Precompute(r);
    var coverage := new Coverage({});
    tally := map[AcrossFunctions := Entry(0, 0), InsideInstance := Entry(0, 0), SameFunction := Entry(0, 0)];
    ghost var layers: Layers<K> := [];
    var n: nat := Longest(r.segments);
    NothingCounted(r, n, {});
    NothingTallied<K>(owners);
    while n >= 2
      invariant n <= Longest(r.segments) && fresh(coverage)
      invariant Complete(r, [], Longest(r.segments), {}) == Complete(r, layers, n, coverage.claimed)
      invariant Tallied(owners, tally, layers)
      decreases n
    {
      tally, layers := TallyTurn(r, n, pool, coverage, owners, tally, layers);
      n := n - 1;
    }
    CompleteStops(r, layers, n, coverage.claimed);
  }

  lemma TalliedTotal<K>(owners: Owners, tally: Tally, layers: Layers<K>)
    requires Tallied(owners, tally, layers)
    ensures Total(tally)
  {}

  // ------------------------------------------------------------ the buckets partition the cascade

  function AllInstructions(tally: Tally): nat
    requires AcrossFunctions in tally && InsideInstance in tally && SameFunction in tally
  {
    tally[AcrossFunctions].instructions + tally[InsideInstance].instructions + tally[SameFunction].instructions
  }

  lemma {:induction false} UsesSplit<K>(owners: Owners, placed: Placements<K>)
    ensures Uses(placed) == BucketUses(owners, placed, AcrossFunctions) + BucketUses(owners, placed, InsideInstance)
                            + BucketUses(owners, placed, SameFunction)
  {
    if placed != [] {
      UsesSplit(owners, placed[..|placed| - 1]);
      UsesLast(placed);
      FallsOnce(owners, placed[|placed| - 1].1);
      hide Falls;
    }
  }

  lemma TimesThree(n: nat, a: nat, b: nat, c: nat)
    ensures n * (a + b + c) == n * a + n * b + n * c
  {}

  lemma {:induction false} InstructionsSplit<K>(owners: Owners, layers: Layers<K>)
    ensures Instructions(layers) ==
            LayerInstructions(owners, layers, AcrossFunctions) + LayerInstructions(owners, layers, InsideInstance)
            + LayerInstructions(owners, layers, SameFunction)
  {
    if layers != [] {
      var last := layers[|layers| - 1];
      InstructionsSplit(owners, layers[..|layers| - 1]);
      UsesSplit(owners, last.1);
      hide BucketUses, Uses;
      TimesThree(last.0, BucketUses(owners, last.1, AcrossFunctions), BucketUses(owners, last.1, InsideInstance),
                 BucketUses(owners, last.1, SameFunction));
    }
  }

  /** The bucket totals sum to what the cascade's rows claim, and both to what is covered. */
  lemma BucketsSumToCascade<K(!new)>(r: Search<K>, owners: Owners, tally: Tally, rows: seq<Row>, layers: Layers<K>)
    requires Legal(r) && layers == CascadeFrom(r, Longest(r.segments), {})
    requires Tallied(owners, tally, layers) && RowsFor(rows, layers, {})
    ensures AcrossFunctions in tally && InsideInstance in tally && SameFunction in tally
    ensures AllInstructions(tally) == RowInstructions(rows) == |LayerClaims(layers)|
  {
    InstructionsSplit(owners, layers);
    RowSums(rows, layers, {}, |rows|);
    assert rows[..|rows|] == rows && layers[..|layers|] == layers;
    CascadeConserves(r, Longest(r.segments), {}, |layers|);
    hide CascadeFrom, LayerClaims, RowsFor, Instructions, LayerInstructions, LayerLemmas, RowInstructions;
  }
}
