/** The two loops that run the cascade: the dashboard's rows, and the leverage tally. */
module Dashboard {
  import opened Packing
  import opened PatternCover
  import opened CoverGuarantees
  import opened Segments
  import opened Cascade

  // ------------------------------------------------------------ precomputing the candidates

  /** The dictionary holds the candidates of every length up to `upto` that has any. */
  ghost predicate Computed<K>(r: Search<K>, pool: map<nat, Candidates<K>>, upto: nat) {
    forall n: nat :: 2 <= n <= upto ==> if PoolAt(r, n) == [] then n !in pool else n in pool && pool[n] == PoolAt(r, n)
  }

  method Precompute<K(==)>(r: Search<K>) returns (pool: map<nat, Candidates<K>>)
    requires r.segments != []
    ensures Computed(r, pool, Longest(r.segments))
  {
    pool := map[];
    hide PoolAt;
    var n := 1;
    while n < Longest(r.segments)
      invariant n >= 1 && Computed(r, pool, n) && forall m <- pool :: m <= n
    {
      n := n + 1;
      var kept := KeptGroups(r, n);
      if kept != [] {
        pool := pool[n := kept];
      }
    }
  }

  method KeptGroups<K(==)>(r: Search<K>, n: nat) returns (kept: Candidates<K>)
    requires n >= 1
    ensures kept == PoolAt(r, n)
  {
    var grouped := Groups(Filter(Windows(r.segments, n), r.keep), r.key);
    kept := Kept(grouped, r.minimum);
  }

  // ------------------------------------------------------------ the rows of the cascade

  datatype Row = Row(n: nat, lemmas: nat, placements: nat, instructionsClaimed: nat, topPlacements: nat,
                     lemmasCumulative: nat, coverCumulative: nat, savedCumulative: int)

  /** The most windows any one repeat was placed at. */
  function Top<K>(placed: Placements<K>): nat {
    if placed == [] then 0 else
      var t := Top(placed[..|placed| - 1]);
      if |placed[|placed| - 1].1| > t then |placed[|placed| - 1].1| else t
  }

  lemma {:induction false} UsesLast<K>(placed: Placements<K>)
    requires placed != []
    ensures Uses(placed) == Uses(placed[..|placed| - 1]) + |placed[|placed| - 1].1|
  {
    if |placed| > 1 {
      UsesLast(placed[1..]);
      assert placed[1..][..|placed| - 2] == placed[..|placed| - 1][1..];
    }
  }

  /** What one row says, in terms of the layers and of what was claimed beforehand. */
  ghost predicate RowFor<K>(row: Row, layers: Layers<K>, i: nat, preclaimed: set<nat>)
    requires i < |layers|
  {
    && row.n == layers[i].0 && row.lemmas == |layers[i].1| && row.placements == Uses(layers[i].1)
    && row.instructionsClaimed == row.n * row.placements
    && row.topPlacements == Top(layers[i].1)
    && row.lemmasCumulative == LemmaCount(layers[..i + 1])
    && row.coverCumulative == |preclaimed + LayerClaims(layers[..i + 1])|
    && row.savedCumulative == Instructions(layers[..i + 1]) - PlacementCount(layers[..i + 1])
  }

  /** Counting the placements of one length. The windows are claimed again, which changes nothing:
      the greedy cover has claimed them in the same array. */
  method CountLayer<K>(placed: Placements<K>, n: nat, coverage: Coverage, lemmas: nat, saved: int)
    returns (here: nat, uses: nat, top: nat, lemmas': nat, saved': int)
    requires Claimed(placed) <= coverage.claimed
    modifies coverage
    ensures coverage.claimed == old(coverage.claimed)
    ensures here == |placed| && uses == Uses(placed) && top == Top(placed)
    ensures lemmas' == lemmas + |placed| && saved' == saved + n * Uses(placed) - Uses(placed)
  {
    here, uses, top, lemmas', saved' := 0, 0, 0, lemmas, saved;
    NoUses<K>();
    hide Uses, Claimed, Cells;
    assert placed[..0] == [];
    for i := 0 to |placed|
      invariant coverage.claimed == old(coverage.claimed)
      invariant here == i && uses == Uses(placed[..i]) && top == Top(placed[..i])
      invariant lemmas' == lemmas + i && saved' == saved + n * uses - uses
    {
      var chosen := placed[i].1;
      ClaimedIn(placed, i);
      ClaimAll(coverage, chosen);
      CountsGrow(placed, i);
      Distribute(n, uses, |chosen|);
      if |chosen| > top {
        top := |chosen|;
      }
      here := here + 1;
      uses := uses + |chosen|;
      saved' := saved' + |chosen| * (n - 1);
      lemmas' := lemmas' + 1;
    }
    assert placed[..|placed|] == placed;
  }

  lemma CountsGrow<K>(placed: Placements<K>, i: nat)
    requires i < |placed|
    ensures Uses(placed[..i + 1]) == Uses(placed[..i]) + |placed[i].1|
    ensures Top(placed[..i + 1]) == if |placed[i].1| > Top(placed[..i]) then |placed[i].1| else Top(placed[..i])
  {
    assert placed[..i + 1][..i] == placed[..i];
    UsesLast(placed[..i + 1]);
  }

  lemma Distribute(n: nat, uses: nat, more: nat)
    ensures n * (uses + more) - (uses + more) == n * uses - uses + more * (n - 1)
  {}

  lemma {:induction false} ClaimedIn<K>(placed: Placements<K>, i: nat)
    requires i < |placed|
    ensures Cells(placed[i].1) <= Claimed(placed)
  {
    if i > 0 {
      ClaimedIn(placed[1..], i - 1);
    }
  }

  ghost predicate RowsFor<K>(rows: seq<Row>, layers: Layers<K>, preclaimed: set<nat>) {
    |rows| == |layers| && forall i :: 0 <= i < |rows| ==> RowFor(rows[i], layers, i, preclaimed)
  }

  lemma RowsGrow<K>(rows: seq<Row>, layers: Layers<K>, preclaimed: set<nat>, row: Row, layer: (nat, Placements<K>))
    requires RowsFor(rows, layers, preclaimed)
    requires RowFor(row, layers + [layer], |layers|, preclaimed)
    ensures RowsFor(rows + [row], layers + [layer], preclaimed)
  {
    var all := layers + [layer];
    forall i | 0 <= i < |rows| ensures RowFor(rows[i], all, i, preclaimed) {
      assert all[..i + 1] == layers[..i + 1] && all[i] == layers[i];
    }
  }

  lemma SumsGrow<K>(layers: Layers<K>, n: nat, placed: Placements<K>)
    ensures var all := layers + [(n, placed)];
            && LayerClaims(all) == LayerClaims(layers) + Claimed(placed)
            && Instructions(all) == Instructions(layers) + n * Uses(placed)
            && PlacementCount(all) == PlacementCount(layers) + Uses(placed)
            && LemmaCount(all) == LemmaCount(layers) + |placed|
  {
    var all := layers + [(n, placed)];
    assert all[..|all| - 1] == layers;
  }

  /** The rows and the running totals agree with the layers placed so far. */
  ghost predicate Counted<K>(rows: seq<Row>, layers: Layers<K>, lemmas: nat, saved: int, claimed: set<nat>,
                             preclaimed: set<nat>) {
    && RowsFor(rows, layers, preclaimed)
    && lemmas == LemmaCount(layers) && saved == Instructions(layers) - PlacementCount(layers)
    && claimed == preclaimed + LayerClaims(layers)
  }

  /** `saved` after placing these, and the row they make. */
  function Saved<K>(saved: int, n: nat, placed: Placements<K>): int {
    saved + n * Uses(placed) - Uses(placed)
  }

  function NextRow<K>(n: nat, placed: Placements<K>, lemmas: nat, saved: int, cover: nat): Row {
    Row(n, |placed|, Uses(placed), Uses(placed) * n, Top(placed), lemmas + |placed|, cover, Saved(saved, n, placed))
  }

  lemma NextRowIs<K>(layers: Layers<K>, lemmas: nat, saved: int, claimed: set<nat>, preclaimed: set<nat>, n: nat,
                     placed: Placements<K>)
    requires lemmas == LemmaCount(layers) && saved == Instructions(layers) - PlacementCount(layers)
    requires claimed == preclaimed + LayerClaims(layers)
    ensures var all := layers + [(n, placed)];
            && RowFor(NextRow(n, placed, lemmas, saved, |claimed + Claimed(placed)|), all, |layers|, preclaimed)
            && lemmas + |placed| == LemmaCount(all)
            && Saved(saved, n, placed) == Instructions(all) - PlacementCount(all)
            && claimed + Claimed(placed) == preclaimed + LayerClaims(all)
  {
    var layer := (n, placed);
    hide LayerClaims, Instructions, PlacementCount, LemmaCount, Uses, Top, Claimed;
    SumsGrow(layers, n, placed);
    TakeAll(layers, layer);
    UnionAssociates(preclaimed, LayerClaims(layers), Claimed(placed));
  }

  lemma UnionAssociates<T>(a: set<T>, b: set<T>, c: set<T>)
    ensures a + (b + c) == a + b + c
  {}

  lemma TakeAll<T>(a: seq<T>, x: T)
    ensures (a + [x])[..|a| + 1] == a + [x] && (a + [x])[|a|] == x
  {}

  lemma CountedGrows<K>(rows: seq<Row>, layers: Layers<K>, lemmas: nat, saved: int, claimed: set<nat>,
                        preclaimed: set<nat>, n: nat, placed: Placements<K>)
    requires Counted(rows, layers, lemmas, saved, claimed, preclaimed)
    ensures Counted(rows + [NextRow(n, placed, lemmas, saved, |claimed + Claimed(placed)|)], layers + [(n, placed)],
                    lemmas + |placed|, Saved(saved, n, placed), claimed + Claimed(placed), preclaimed)
  {
    hide RowsFor, LemmaCount, Instructions, PlacementCount, LayerClaims, Claimed, NextRow, Saved, RowFor;
    NextRowIs(layers, lemmas, saved, claimed, preclaimed, n, placed);
    RowsGrow(rows, layers, preclaimed, NextRow(n, placed, lemmas, saved, |claimed + Claimed(placed)|), (n, placed));
  }

  /** One turn of the cascade's loop. */
  method TakeLayer<K(==,!new)>(r: Search<K>, n: nat, candidates: Candidates<K>, coverage: Coverage, rows: seq<Row>,
                               layers: Layers<K>, lemmas: nat, saved: int, ghost preclaimed: set<nat>)
    returns (rows': seq<Row>, layers': Layers<K>, lemmas': nat, saved': int)
    requires Legal(r) && n >= 2 && Orderly(PoolAt(r, n)) && candidates == PoolAt(r, n)
    requires Counted(rows, layers, lemmas, saved, coverage.claimed, preclaimed)
    modifies coverage
    ensures Counted(rows', layers', lemmas', saved', coverage.claimed, preclaimed)
    ensures var placed := Cover(PoolAt(r, n), old(coverage.claimed), r.minimum);
            && coverage.claimed == old(coverage.claimed) + Claimed(placed)
            && layers' == layers + if placed == [] then [] else [(n, placed)]
  {
    assert r.minimum >= 1;
    hide *;
    var placed := GreedyCover(candidates, coverage, r.minimum);
    rows', layers', lemmas', saved' := AddLayer(n, placed, old(coverage.claimed), coverage, rows, layers, lemmas, saved, preclaimed);
  }

  /** The bookkeeping for the placements of one length. */
  method AddLayer<K>(n: nat, placed: Placements<K>, ghost before: set<nat>, coverage: Coverage, rows: seq<Row>,
                     layers: Layers<K>, lemmas: nat, saved: int, ghost preclaimed: set<nat>)
    returns (rows': seq<Row>, layers': Layers<K>, lemmas': nat, saved': int)
    requires Counted(rows, layers, lemmas, saved, before, preclaimed)
    requires coverage.claimed == before + Claimed(placed)
    modifies coverage
    ensures coverage.claimed == before + Claimed(placed)
    ensures Counted(rows', layers', lemmas', saved', coverage.claimed, preclaimed)
    ensures layers' == layers + if placed == [] then [] else [(n, placed)]
  {
    hide Counted, Claimed;
    CountedGrows(rows, layers, lemmas, saved, before, preclaimed, n, placed);
    var here, uses, top;
    here, uses, top, lemmas', saved' := CountLayer(placed, n, coverage, lemmas, saved);
    if here > 0 {
      rows' := rows + [Row(n, here, uses, uses * n, top, lemmas', |coverage.claimed|, saved')];
      layers' := layers + [(n, placed)];
    } else {
      rows', layers' := rows, layers;
      NothingClaimed<K>();
      NoUses<K>();
    }
  }

  lemma NoUses<K>()
    ensures Uses<K>([]) == 0
  {}

  /** The layers placed so far, and those the cascade from `n` down will add. */
  ghost function Complete<K(!new)>(r: Search<K>, layers: Layers<K>, n: nat, covered: set<nat>): Layers<K>
    requires Legal(r)
  {
    layers + CascadeFrom(r, n, covered)
  }

  lemma CompleteStep<K(!new)>(r: Search<K>, layers: Layers<K>, n: nat, covered: set<nat>)
    requires Legal(r) && n >= 2
    ensures Orderly(PoolAt(r, n))
    ensures var placed := Cover(PoolAt(r, n), covered, r.minimum);
            && Complete(r, layers, n, covered) ==
               Complete(r, layers + if placed == [] then [] else [(n, placed)], n - 1, covered + Claimed(placed))
            && (PoolAt(r, n) == [] ==> placed == [] && layers + [] == layers && covered + Claimed(placed) == covered)
  {
    PoolOrderly(r, n);
    var placed := Cover(PoolAt(r, n), covered, r.minimum);
    var below := CascadeFrom(r, n - 1, covered + Claimed(placed));
    CascadeStep(r, n, covered, placed, below);
    hide PoolAt, Cover, CascadeFrom, Claimed, Legal, Orderly, AllOfLength, DistinctKeys, LayerClaims;
    CoverUnfolds(PoolAt(r, n), covered, r.minimum);
    Concatenates(layers, if placed == [] then [] else [(n, placed)], below);
    assert layers + [] == layers;
  }

  lemma Concatenates<T>(a: seq<T>, b: seq<T>, c: seq<T>)
    ensures a + (b + c) == a + b + c
  {}

  lemma CompleteStops<K(!new)>(r: Search<K>, layers: Layers<K>, n: nat, covered: set<nat>)
    requires Legal(r) && n < 2
    ensures Complete(r, layers, n, covered) == layers
  {}

  lemma ComputedAt<K>(r: Search<K>, pool: map<nat, Candidates<K>>, upto: nat, n: nat)
    requires Computed(r, pool, upto) && 2 <= n <= upto
    ensures n in pool ==> pool[n] == PoolAt(r, n)
    ensures n !in pool ==> PoolAt(r, n) == []
  {
    hide PoolAt;
  }

  lemma NothingCounted<K(!new)>(r: Search<K>, n: nat, preclaimed: set<nat>)
    requires Legal(r)
    ensures Counted<K>([], [], 0, 0, preclaimed, preclaimed)
    ensures Complete(r, [], n, preclaimed) == CascadeFrom(r, n, preclaimed)
  {}

  /** One turn of the loop: the candidates of one length, if there are any. */
  method Turn<K(==,!new)>(r: Search<K>, n: nat, precomputed: map<nat, Candidates<K>>, coverage: Coverage, rows: seq<Row>,
                          layers: Layers<K>, lemmas: nat, saved: int, ghost preclaimed: set<nat>)
    returns (rows': seq<Row>, layers': Layers<K>, lemmas': nat, saved': int)
    requires Legal(r) && r.segments != [] && 2 <= n <= Longest(r.segments) && Computed(r, precomputed, Longest(r.segments))
    requires Counted(rows, layers, lemmas, saved, coverage.claimed, preclaimed)
    modifies coverage
    ensures Counted(rows', layers', lemmas', saved', coverage.claimed, preclaimed)
    ensures Complete(r, layers', n - 1, coverage.claimed) == Complete(r, layers, n, old(coverage.claimed))
  {
    hide *;
    CompleteStep(r, layers, n, coverage.claimed);
    ComputedAt(r, precomputed, Longest(r.segments), n);
    rows', layers', lemmas', saved' := rows, layers, lemmas, saved;
    if n in precomputed {
      rows', layers', lemmas', saved' :=
        TakeLayer(r, n, precomputed[n], coverage, rows, layers, lemmas, saved, preclaimed);
    }
  }

  lemma LegalSearch<K(!new)>(r: Search<K>)
    requires Legal(r)
    ensures r.segments != [] && r.minimum >= 1
  {}

  /** `cascade`. */
  method CascadeRows<K(==,!new)>(r: Search<K>, preclaimed: set<nat>) returns (rows: seq<Row>, layers: Layers<K>)
    requires Legal(r)
    ensures layers == CascadeFrom(r, Longest(r.segments), preclaimed)
    ensures RowsFor(rows, layers, preclaimed)
  {
    LegalSearch(r);
    hide *;
    var precomputed := Precompute(r);
    var coverage := new Coverage(preclaimed);
    var lemmas: nat, saved := 0, 0;
    rows, layers := [], [];
    var n: nat := Longest(r.segments);
    ghost var all := Complete(r, layers, n, preclaimed);
    NothingCounted(r, n, preclaimed);
    while n >= 2
      invariant n <= Longest(r.segments) && fresh(coverage)
      invariant all == Complete(r, layers, n, coverage.claimed)
      invariant Counted(rows, layers, lemmas, saved, coverage.claimed, preclaimed)
      decreases n
    {
      rows, layers, lemmas, saved := Turn(r, n, precomputed, coverage, rows, layers, lemmas, saved, preclaimed);
      n := n - 1;
    }
    CompleteStops(r, layers, n, coverage.claimed);
    CountedRows(rows, layers, lemmas, saved, coverage.claimed, preclaimed);
  }

  lemma CountedRows<K>(rows: seq<Row>, layers: Layers<K>, lemmas: nat, saved: int, claimed: set<nat>, preclaimed: set<nat>)
    requires Counted(rows, layers, lemmas, saved, claimed, preclaimed)
    ensures RowsFor(rows, layers, preclaimed)
  {}

  // ------------------------------------------------------------ conservation, row by row

  /** Each row's running totals: the cover is what was claimed beforehand and every instruction
      claimed so far, and the saving is those instructions less one per placement. */
  lemma RowsConserve<K(!new)>(r: Search<K>, preclaimed: set<nat>, rows: seq<Row>, layers: Layers<K>, i: nat)
    requires Legal(r) && layers == CascadeFrom(r, Longest(r.segments), preclaimed)
    requires RowsFor(rows, layers, preclaimed) && i < |rows|
    ensures rows[i].coverCumulative == |preclaimed| + RowInstructions(rows[..i + 1])
    ensures rows[i].savedCumulative == rows[i].coverCumulative - |preclaimed| - RowPlacements(rows[..i + 1])
  {
    var so_far := layers[..i + 1];
    CascadeConserves(r, Longest(r.segments), preclaimed, i + 1);
    assert |preclaimed + LayerClaims(so_far)| == |preclaimed| + |LayerClaims(so_far)|;
    assert RowFor(rows[i], layers, i, preclaimed);
    hide CascadeFrom, LayerClaims;
    RowSums(rows, layers, preclaimed, i + 1);
  }

  /** Column sums of the rows. */
  function RowInstructions(rows: seq<Row>): nat {
    if rows == [] then 0 else RowInstructions(rows[..|rows| - 1]) + rows[|rows| - 1].instructionsClaimed
  }

  function RowPlacements(rows: seq<Row>): nat {
    if rows == [] then 0 else RowPlacements(rows[..|rows| - 1]) + rows[|rows| - 1].placements
  }

  lemma {:induction false} RowSums<K>(rows: seq<Row>, layers: Layers<K>, preclaimed: set<nat>, m: nat)
    requires RowsFor(rows, layers, preclaimed) && m <= |rows|
    ensures RowInstructions(rows[..m]) == Instructions(layers[..m])
    ensures RowPlacements(rows[..m]) == PlacementCount(layers[..m])
  {
    if m > 0 {
      RowSums(rows, layers, preclaimed, m - 1);
      assert RowFor(rows[m - 1], layers, m - 1, preclaimed);
      assert rows[..m][..m - 1] == rows[..m - 1] && layers[..m][..m - 1] == layers[..m - 1];
      hide LayerClaims, LemmaCount, Top;
    }
  }
}
