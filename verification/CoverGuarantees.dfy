/** What a greedy cover guarantees: disjointness, a maximum choice at every round, no candidate
    twice, and nothing left to place. */
module CoverGuarantees {
  import opened Listing
  import opened Packing
  import opened PatternCover

  /** All placed windows, in order of placement. */
  ghost function Placed<K>(placements: Placements<K>): seq<Window> {
    if placements == [] then [] else placements[0].1 + Placed(placements[1..])
  }

  lemma {:induction false} CellsAppend(a: seq<Window>, b: seq<Window>)
    ensures Cells(a + b) == Cells(a) + Cells(b)
  {
    if a == [] {
      assert a + b == b;
    } else {
      assert (a + b)[1..] == a[1..] + b;
      CellsAppend(a[1..], b);
    }
  }

  lemma {:induction false} PlacedCells<K>(placements: Placements<K>)
    ensures Cells(Placed(placements)) == Claimed(placements)
  {
    if placements != [] {
      PlacedCells(placements[1..]);
      CellsAppend(placements[0].1, Placed(placements[1..]));
    }
  }

  /** Packings of disjoint territory combine. */
  lemma PackingsCombine(a: seq<Window>, b: seq<Window>, covered: set<nat>)
    requires IsPacking(a, covered) && IsPacking(b, covered + Cells(a))
    ensures IsPacking(a + b, covered)
  {
    var all := a + b;
    forall i | 0 <= i < |b| ensures Free(b[i], covered) {
      assert Free(b[i], covered + Cells(a));
    }
    forall i, j | 0 <= i < |a| && 0 <= j < |b| ensures Apart(a[i], b[j]) {
      forall x | x in a[i] ensures x !in b[j] {
        InCells(a, x);
        assert Free(b[j], covered + Cells(a));
      }
    }
    hide Free, Apart;
    forall i, j | 0 <= i < j < |all| ensures Apart(all[i], all[j]) {
      if i < |a| <= j {
        assert all[i] == a[i] && all[j] == b[j - |a|];
      } else if |a| <= i {
        assert all[i] == b[i - |a|] && all[j] == b[j - |a|];
      }
    }
  }

  /** Placed windows are pairwise disjoint and avoid earlier claims. */
  lemma {:induction false} CoverIsPacking<K>(cs: Candidates<K>, covered: set<nat>, minimum: nat)
    requires Orderly(cs) && minimum >= 1
    ensures IsPacking(Placed(Cover(cs, covered, minimum)), covered)
    decreases Unclaimed(cs, covered)
  {
    var placements := Cover(cs, covered, minimum);
    if placements != [] {
      var b := Best(cs, covered, |cs|);
      var chosen := Chosen(cs[b].1, covered);
      PlacingClaims(cs, covered, b);
      CoverIsPacking(cs, covered + Cells(chosen), minimum);
      PackIsPacking(cs[b].1, Width(cs[b].1), covered, -1);
      PackingsCombine(chosen, Placed(placements[1..]), covered);
    }
  }

  // ------------------------------------------------------------ every round

  /** No solution for the windows, clear of what is covered, has more than `most` members. */
  ghost predicate AtMost(ws: seq<Window>, covered: set<nat>, most: nat) {
    forall family: set<Window> :: Solution(family, ws, covered) ==> |family| <= most
  }

  lemma ChosenAtMost(ws: seq<Window>, covered: set<nat>)
    requires InStartOrder(ws, Width(ws))
    ensures AtMost(ws, covered, |Chosen(ws, covered)|)
  {
    forall family: set<Window> | Solution(family, ws, covered) ensures |family| <= |Chosen(ws, covered)| {
      PackMaximum(ws, Width(ws), covered, family);
    }
  }

  /** One placement, given what was covered: a solution of the required size for one candidate that
      no solution for any candidate exceeds. */
  ghost predicate LargestPlacement<K>(cs: Candidates<K>, covered: set<nat>, minimum: nat, p: (K, seq<Window>)) {
    && |p.1| >= minimum
    && (exists c :: 0 <= c < |cs| && cs[c].0 == p.0 && Solution((set w | w in p.1), cs[c].1, covered))
    && |set w | w in p.1| == |p.1|
    && (forall j :: 0 <= j < |cs| ==> AtMost(cs[j].1, covered, |p.1|))
  }

  lemma BestIsLargest<K>(cs: Candidates<K>, covered: set<nat>, minimum: nat)
    requires Orderly(cs) && cs != []
    ensures var b := Best(cs, covered, |cs|);
            var chosen := Chosen(cs[b].1, covered);
            |chosen| >= minimum ==> LargestPlacement(cs, covered, minimum, (cs[b].0, chosen))
  {
    var b := Best(cs, covered, |cs|);
    var chosen := Chosen(cs[b].1, covered);
    PackSolves(cs[b].1, Width(cs[b].1), covered);
    assert (set w: Window | w in chosen) == (set w | w in chosen);
    forall j | 0 <= j < |cs| ensures AtMost(cs[j].1, covered, |chosen|) {
      ChosenAtMost(cs[j].1, covered);
    }
  }

  /** Every placement is largest among what was free when it was made. */
  lemma {:induction false} EveryPlacementLargest<K>(cs: Candidates<K>, covered: set<nat>, minimum: nat, i: nat)
    requires Orderly(cs) && minimum >= 1 && i < |Cover(cs, covered, minimum)|
    ensures var placements := Cover(cs, covered, minimum);
            LargestPlacement(cs, covered + Claimed(placements[..i]), minimum, placements[i])
    decreases i
  {
    var placements := Cover(cs, covered, minimum);
    var b := Best(cs, covered, |cs|);
    var chosen := Chosen(cs[b].1, covered);
    if i == 0 {
      BestIsLargest(cs, covered, minimum);
      assert covered + Claimed(placements[..0]) == covered;
    } else {
      EveryPlacementLargest(cs, covered + Cells(chosen), minimum, i - 1);
      assert placements[..i][0] == placements[0] && placements[..i][1..] == placements[1..][..i - 1];
      assert covered + Cells(chosen) + Claimed(placements[1..][..i - 1]) == covered + Claimed(placements[..i]);
    }
  }

  /** At the end no candidate has the required number of disjoint unclaimed windows. */
  lemma {:induction false} CoverExhausts<K>(cs: Candidates<K>, covered: set<nat>, minimum: nat, j: nat)
    requires Orderly(cs) && minimum >= 1 && j < |cs|
    ensures AtMost(cs[j].1, covered + Claimed(Cover(cs, covered, minimum)), minimum - 1)
    decreases Unclaimed(cs, covered)
  {
    var placements := Cover(cs, covered, minimum);
    var b := Best(cs, covered, |cs|);
    var chosen := Chosen(cs[b].1, covered);
    if |chosen| < minimum {
      assert covered + Claimed(placements) == covered;
      ChosenAtMost(cs[j].1, covered);
    } else {
      PlacingClaims(cs, covered, b);
      CoverExhausts(cs, covered + Cells(chosen), minimum, j);
      assert covered + Cells(chosen) + Claimed(placements[1..]) == covered + Claimed(placements);
    }
  }

  // ------------------------------------------------------------ no candidate twice

  predicate DistinctKeys<K(==)>(cs: Candidates<K>) {
    forall i, j :: 0 <= i < j < |cs| ==> cs[i].0 != cs[j].0
  }

  /** A candidate that was packed out is never placed. */
  lemma {:induction false} PackedOutNeverPlaced<K>(cs: Candidates<K>, covered: set<nat>, minimum: nat, c: nat, done: set<nat>)
    requires Orderly(cs) && DistinctKeys(cs) && minimum >= 1 && c < |cs|
    requires done + Cells(Chosen(cs[c].1, done)) <= covered
    ensures forall p <- Cover(cs, covered, minimum) :: p.0 != cs[c].0
    decreases Unclaimed(cs, covered)
  {
    var placements := Cover(cs, covered, minimum);
    if placements != [] {
      var b := Best(cs, covered, |cs|);
      var chosen := Chosen(cs[b].1, covered);
      PackedOut(cs[c].1, Width(cs[c].1), done, covered);
      PlacingClaims(cs, covered, b);
      PackedOutNeverPlaced(cs, covered + Cells(chosen), minimum, c, done);
    }
  }

  /** No candidate is placed twice. */
  lemma {:induction false} NoCandidateTwice<K>(cs: Candidates<K>, covered: set<nat>, minimum: nat)
    requires Orderly(cs) && DistinctKeys(cs) && minimum >= 1
    ensures DistinctKeys(Cover(cs, covered, minimum))
    decreases Unclaimed(cs, covered)
  {
    var placements := Cover(cs, covered, minimum);
    if placements != [] {
      var b := Best(cs, covered, |cs|);
      var chosen := Chosen(cs[b].1, covered);
      PlacingClaims(cs, covered, b);
      NoCandidateTwice(cs, covered + Cells(chosen), minimum);
      PackedOutNeverPlaced(cs, covered + Cells(chosen), minimum, b, covered);
      forall j | 0 < j < |placements| ensures placements[j].0 != placements[0].0 {
        assert placements[j] == placements[1..][j - 1];
      }
    }
  }

  // ------------------------------------------------------------ conservation within one length

  /** How many windows were placed. */
  function Uses<K>(placements: Placements<K>): nat {
    if placements == [] then 0 else |placements[0].1| + Uses(placements[1..])
  }

  /** All windows of all candidates have length `n`. */
  predicate AllOfLength<K>(cs: Candidates<K>, n: nat) {
    forall i :: 0 <= i < |cs| ==> cs[i].1 != [] && Width(cs[i].1) == n
  }

  /** Placing `u` windows of length `n` claims exactly `n * u` cells that were free. */
  lemma {:induction false} CoverClaims<K>(cs: Candidates<K>, covered: set<nat>, minimum: nat, n: nat)
    requires Orderly(cs) && minimum >= 1 && AllOfLength(cs, n)
    ensures var placements := Cover(cs, covered, minimum);
            Claimed(placements) !! covered && |Claimed(placements)| == n * Uses(placements)
    decreases Unclaimed(cs, covered)
  {
    var placements := Cover(cs, covered, minimum);
    if placements == [] {
      assert n * Uses(placements) == 0;
    } else {
      var b := Best(cs, covered, |cs|);
      var chosen := Chosen(cs[b].1, covered);
      PlacingClaims(cs, covered, b);
      CoverClaims(cs, covered + Cells(chosen), minimum, n);
      PackIsPacking(cs[b].1, n, covered, -1);
      CellsCount(chosen, n, covered);
      ClaimsAdd(chosen, placements, n);
    }
  }

  lemma ClaimsAdd<K>(chosen: seq<Window>, placements: Placements<K>, n: nat)
    requires placements != [] && placements[0].1 == chosen
    requires Cells(chosen) !! Claimed(placements[1..])
    requires |Cells(chosen)| == n * |chosen| && |Claimed(placements[1..])| == n * Uses(placements[1..])
    ensures |Claimed(placements)| == n * Uses(placements)
  {
    hide Cells;
    assert n * (|chosen| + Uses(placements[1..])) == n * |chosen| + n * Uses(placements[1..]);
  }
}
