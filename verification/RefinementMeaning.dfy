/** Colour refinement said without its texts: two nodes keep one colour exactly as long as their
    neighbours can be counted off against each other, kind by kind and colour by colour. */
module RefinementMeaning {
  import opened Text
  import opened Sorting
  import opened Listing
  import opened ColourRefinement
  import opened RefinementStability
  import opened CanonicalForm
  import opened Windows
  import opened DagGraph

  // ------------------------------------------------------------ counting neighbours

  /** How many arcs have that kind and lead to a node of that colour. */
  ghost function CountArcs(l: seq<Arc>, c: Colours, kind: string, colour: string): nat {
    if l == [] then 0 else
      var last := l[|l| - 1];
      CountArcs(l[..|l| - 1], c, kind, colour) + if last.1 == kind && last.0 < |c| && c[last.0] == colour then 1 else 0
  }

  /** The two nodes have equally many neighbours of every kind and colour, in both directions. */
  ghost predicate Alike(a: Adjacency, c: Colours, i: nat, j: nat)
    requires a.Valid() && i < |a.labels| && j < |a.labels|
  {
    forall kind, colour ::
      && CountArcs(a.preds[i], c, kind, colour) == CountArcs(a.preds[j], c, kind, colour)
      && CountArcs(a.succs[i], c, kind, colour) == CountArcs(a.succs[j], c, kind, colour)
  }

  /** Nodes of one colour are alike. */
  ghost predicate Balanced(a: Adjacency, c: Colours)
    requires a.Valid() && |c| == |a.labels|
  {
    forall i, j :: 0 <= i < |c| && 0 <= j < |c| && c[i] == c[j] ==> Alike(a, c, i, j)
  }

  lemma {:induction false} CountIsMultiplicity(l: seq<Arc>, c: Colours, kind: string, colour: string)
    requires forall k :: 0 <= k < |l| ==> l[k].0 < |c|
    ensures multiset(MapSeq(Look(c), l))[(kind, colour)] == CountArcs(l, c, kind, colour)
  {
    if l != [] {
      var n := |l| - 1;
      CountIsMultiplicity(l[..n], c, kind, colour);
      assert MapSeq(Look(c), l) == MapSeq(Look(c), l[..n]) + [(l[n].1, c[l[n].0])];
    }
  }

  lemma InRange(a: Adjacency, n: nat)
    requires a.Valid() && n < |a.labels|
    ensures forall k :: 0 <= k < |a.preds[n]| ==> a.preds[n][k].0 < |a.labels|
    ensures forall k :: 0 <= k < |a.succs[n]| ==> a.succs[n][k].0 < |a.labels|
  {
    forall k | 0 <= k < |a.preds[n]| ensures a.preds[n][k].0 < |a.labels| {
      assert a.preds[n][k] in a.preds[n];
    }
    forall k | 0 <= k < |a.succs[n]| ensures a.succs[n][k].0 < |a.labels| {
      assert a.succs[n][k] in a.succs[n];
    }
  }

  ghost predicate SameCounts(l: seq<Arc>, m: seq<Arc>, c: Colours) {
    forall kind, colour :: CountArcs(l, c, kind, colour) == CountArcs(m, c, kind, colour)
  }

  lemma CountsDecide(l: seq<Arc>, m: seq<Arc>, c: Colours)
    requires (forall k :: 0 <= k < |l| ==> l[k].0 < |c|) && (forall k :: 0 <= k < |m| ==> m[k].0 < |c|)
    ensures multiset(MapSeq(Look(c), l)) == multiset(MapSeq(Look(c), m)) <==> SameCounts(l, m, c)
  {
    var x, y := MapSeq(Look(c), l), MapSeq(Look(c), m);
    forall kind, colour
      ensures multiset(x)[(kind, colour)] == CountArcs(l, c, kind, colour)
      ensures multiset(y)[(kind, colour)] == CountArcs(m, c, kind, colour)
    {
      CountIsMultiplicity(l, c, kind, colour);
      CountIsMultiplicity(m, c, kind, colour);
    }
    hide Look, CountArcs, MapSeq;
    if SameCounts(l, m, c) {
      forall p: (string, string) ensures multiset(x)[p] == multiset(y)[p] {
        assert p == (p.0, p.1);
      }
    }
  }

  lemma SortDecides(x: seq<(string, string)>, y: seq<(string, string)>)
    ensures Sort(x, TextPairLe) == Sort(y, TextPairLe) <==> multiset(x) == multiset(y)
  {
    TextPairsTotal();
    SortSorted(x, TextPairLe);
    SortSorted(y, TextPairLe);
    hide TextPairLe, Sort;
    if multiset(x) == multiset(y) {
      SortCanonical(x, y, TextPairLe);
    }
  }

  /** Equal sorted lists of neighbours are equal counts. */
  lemma PartsAlike(a: Adjacency, c: Colours, i: nat, j: nat)
    requires a.Valid() && |c| == |a.labels| && i < |c| && j < |c|
    ensures Ups(a, c, i) == Ups(a, c, j) && Downs(a, c, i) == Downs(a, c, j) <==> Alike(a, c, i, j)
  {
    InRange(a, i);
    InRange(a, j);
    CountsDecide(a.preds[i], a.preds[j], c);
    CountsDecide(a.succs[i], a.succs[j], c);
    SortDecides(MapSeq(Look(c), a.preds[i]), MapSeq(Look(c), a.preds[j]));
    SortDecides(MapSeq(Look(c), a.succs[i]), MapSeq(Look(c), a.succs[j]));
    hide Look, TextPairLe, CountArcs, Sort, MapSeq;
    assert Alike(a, c, i, j) <==> SameCounts(a.preds[i], a.preds[j], c) && SameCounts(a.succs[i], a.succs[j], c);
  }

  // ------------------------------------------------------------ balanced is stable

  lemma StableIsBalanced(a: Adjacency, c: Colours)
    requires a.Valid() && |c| == |a.labels| && PlainAdjacency(a) && PlainColours(c) && Finer(c, Round(a, c))
    ensures Balanced(a, c)
  {
    hide Round, Alike, PlainAdjacency, PlainColours, Ups, Downs;
    forall i, j | 0 <= i < |c| && 0 <= j < |c| && c[i] == c[j] ensures Alike(a, c, i, j) {
      RoundEqual(a, c, i, j);
      SignatureRead(a, c, i, j);
      PartsAlike(a, c, i, j);
    }
  }

  lemma BalancedIsStable(a: Adjacency, c: Colours)
    requires a.Valid() && |c| == |a.labels| && Balanced(a, c)
    ensures Finer(c, Round(a, c))
  {
    hide Round, Alike, Ups, Downs, Signature;
    forall i, j | 0 <= i < |c| && 0 <= j < |c| && c[i] == c[j] ensures Round(a, c)[i] == Round(a, c)[j] {
      PartsAlike(a, c, i, j);
      SignatureParts(a, c, i);
      SignatureParts(a, c, j);
      RoundEqual(a, c, i, j);
    }
  }

  // ------------------------------------------------------------ what refinement computes

  /** Nodes that share a refined colour shared one before and have equally many neighbours of every
      kind and refined colour. */
  lemma RefinedBalanced(a: Adjacency, c: Colours)
    requires a.Valid() && |c| == |a.labels| && PlainAdjacency(a) && PlainColours(c)
    ensures Finer(Refined(a, c), c) && Balanced(a, Refined(a, c))
  {
    RefinedStable(a, c);
    RoundsPlain(a, c, 0);
    NextRound(a, c, 0);
    RoundsFiner(a, c, |c|);
    RoundsPlain(a, c, |c|);
    hide Finer, Round, Rounds, Balanced, PlainAdjacency, PlainColours, Unmarked;
    StableIsBalanced(a, Refined(a, c));
  }

  /** The colours of `d` replaced by numbers. */
  ghost function Numbered(d: Colours): (c: Colours)
    ensures |c| == |d|
  {
    seq(|d|, i requires 0 <= i < |d| => Decimal(IndexOf(d, d[i])))
  }

  lemma NumberedSame(d: Colours, i: nat, j: nat)
    requires i < |d| && j < |d|
    ensures Numbered(d)[i] == Numbered(d)[j] <==> d[i] == d[j]
  {
    if Numbered(d)[i] == Numbered(d)[j] {
      DecimalInjective(IndexOf(d, d[i]), IndexOf(d, d[j]));
      assert d[i] in d && d[j] in d;
    }
  }

  lemma NumberedPlain(d: Colours)
    ensures PlainColours(Numbered(d)) && Finer(Numbered(d), d) && Finer(d, Numbered(d))
  {
    forall i, j | 0 <= i < |d| && 0 <= j < |d| ensures Numbered(d)[i] == Numbered(d)[j] <==> d[i] == d[j] {
      NumberedSame(d, i, j);
    }
    forall x | x in Numbered(d) ensures Undelimited(x) {}
  }

  lemma {:induction false} NumberedCounts(l: seq<Arc>, d: Colours, kind: string, n: nat)
    requires n < |d|
    ensures CountArcs(l, Numbered(d), kind, Numbered(d)[n]) == CountArcs(l, d, kind, d[n])
  {
    if l != [] {
      NumberedCounts(l[..|l| - 1], d, kind, n);
      if l[|l| - 1].0 < |d| {
        NumberedSame(d, l[|l| - 1].0, n);
      }
    }
  }

  lemma {:induction false} UnusedColour(l: seq<Arc>, c: Colours, kind: string, colour: string)
    requires colour !in c
    ensures CountArcs(l, c, kind, colour) == 0
  {
    if l != [] {
      UnusedColour(l[..|l| - 1], c, kind, colour);
    }
  }

  lemma NumberedCountsEqual(l: seq<Arc>, m: seq<Arc>, d: Colours, kind: string, colour: string)
    requires forall x :: CountArcs(l, d, kind, x) == CountArcs(m, d, kind, x)
    ensures CountArcs(l, Numbered(d), kind, colour) == CountArcs(m, Numbered(d), kind, colour)
  {
    hide CountArcs, Numbered;
    if colour in Numbered(d) {
      var n: nat :| n < |d| && Numbered(d)[n] == colour;
      NumberedCounts(l, d, kind, n);
      NumberedCounts(m, d, kind, n);
    } else {
      UnusedColour(l, Numbered(d), kind, colour);
      UnusedColour(m, Numbered(d), kind, colour);
    }
  }

  lemma NumberedBalanced(a: Adjacency, d: Colours)
    requires a.Valid() && |d| == |a.labels| && Balanced(a, d)
    ensures Balanced(a, Numbered(d))
  {
    var c := Numbered(d);
    hide CountArcs, Numbered;
    forall i, j | 0 <= i < |c| && 0 <= j < |c| && c[i] == c[j] ensures Alike(a, c, i, j) {
      NumberedSame(d, i, j);
      assert Alike(a, d, i, j);
      forall kind, colour
        ensures CountArcs(a.preds[i], c, kind, colour) == CountArcs(a.preds[j], c, kind, colour)
        ensures CountArcs(a.succs[i], c, kind, colour) == CountArcs(a.succs[j], c, kind, colour)
      {
        NumberedCountsEqual(a.preds[i], a.preds[j], d, kind, colour);
        NumberedCountsEqual(a.succs[i], a.succs[j], d, kind, colour);
      }
    }
  }

  /** Whatever splits the first colouring and counts its neighbours alike splits the refined one. */
  lemma RefinedCoarsestBalanced(a: Adjacency, c: Colours, d: Colours)
    requires a.Valid() && |c| == |d| == |a.labels| && PlainAdjacency(a)
    requires Finer(d, c) && Balanced(a, d)
    ensures Finer(d, Refined(a, c))
  {
    hide Finer, Balanced, Rounds, Round, Numbered, PlainAdjacency, PlainColours;
    var n := Numbered(d);
    NumberedPlain(d);
    NumberedBalanced(a, d);
    BalancedIsStable(a, n);
    FinerTransitive(n, d, c);
    RefinedCoarsest(a, c, n, |c|);
    FinerTransitive(d, n, Refined(a, c));
  }

  // ------------------------------------------------------------ over the edges of a graph

  /** The nodes of a colour from which an edge of a kind leads to `n`, and to which one leads from it. */
  ghost function Sources(g: Graph, c: Colours, n: nat, kind: string, colour: string): set<nat> {
    set m: nat | m < |c| && (m, n, kind) in g.edges && c[m] == colour
  }

  ghost function Sinks(g: Graph, c: Colours, n: nat, kind: string, colour: string): set<nat> {
    set m: nat | m < |c| && (n, m, kind) in g.edges && c[m] == colour
  }

  ghost function Ends(l: seq<Arc>, c: Colours, kind: string, colour: string): set<nat> {
    set m: nat | m < |c| && (m, kind) in l && c[m] == colour
  }

  lemma {:induction false} CountIsSize(l: seq<Arc>, c: Colours, kind: string, colour: string)
    requires NoDup(l)
    ensures CountArcs(l, c, kind, colour) == |Ends(l, c, kind, colour)|
  {
    if l == [] {
      assert Ends(l, c, kind, colour) == {};
    } else {
      CountIsSize(l[..|l| - 1], c, kind, colour);
      EndsNext(l, c, kind, colour);
      hide Ends, NoDup;
    }
  }

  lemma EndsNext(l: seq<Arc>, c: Colours, kind: string, colour: string)
    requires NoDup(l) && l != []
    ensures var before, last := l[..|l| - 1], l[|l| - 1];
            |Ends(l, c, kind, colour)| ==
            |Ends(before, c, kind, colour)| + if last.1 == kind && last.0 < |c| && c[last.0] == colour then 1 else 0
  {
    var before, last := l[..|l| - 1], l[|l| - 1];
    assert l == before + [last] && last !in before && last == (last.0, last.1);
    var all, some := Ends(l, c, kind, colour), Ends(before, c, kind, colour);
    if last.1 == kind && last.0 < |c| && c[last.0] == colour {
      hide NoDup;
      assert all == some + {last.0} && last.0 !in some;
    } else {
      hide NoDup;
      assert all == some;
    }
  }

  lemma SourcesCounted(a: Adjacency, g: Graph, c: Colours, n: nat, kind: string, colour: string)
    requires Represents(a, g) && |c| == |g.labels| && n < |c|
    ensures CountArcs(a.preds[n], c, kind, colour) == |Sources(g, c, n, kind, colour)|
    ensures CountArcs(a.succs[n], c, kind, colour) == |Sinks(g, c, n, kind, colour)|
  {
    CountIsSize(a.preds[n], c, kind, colour);
    CountIsSize(a.succs[n], c, kind, colour);
    assert Ends(a.preds[n], c, kind, colour) == Sources(g, c, n, kind, colour);
    assert Ends(a.succs[n], c, kind, colour) == Sinks(g, c, n, kind, colour);
  }

  lemma PlainGraphAdjacency(a: Adjacency, g: Graph)
    requires Represents(a, g) && forall e <- g.edges :: Undelimited(e.2)
    ensures PlainAdjacency(a)
  {
    forall l | l in a.preds ensures PlainArcs(l) {
      var n: nat :| n < |a.preds| && a.preds[n] == l;
      forall e | e in l ensures Undelimited(e.1) {
        assert (e.0, n, e.1) in g.edges;
      }
    }
    forall l | l in a.succs ensures PlainArcs(l) {
      var n: nat :| n < |a.succs| && a.succs[n] == l;
      forall e | e in l ensures Undelimited(e.1) {
        assert (n, e.0, e.1) in g.edges;
      }
    }
  }

  /** Two nodes that share a refined colour have equally many edges of every kind from, and to, nodes of
      every refined colour, and shared their first colour. */
  lemma SameColourSameNeighbours(a: Adjacency, g: Graph, c: Colours, i: nat, j: nat, kind: string, colour: string)
    requires Represents(a, g) && |c| == |g.labels| && i < |c| && j < |c|
    requires PlainColours(c) && forall e <- g.edges :: Undelimited(e.2)
    requires Refined(a, c)[i] == Refined(a, c)[j]
    ensures c[i] == c[j]
    ensures var r := Refined(a, c);
            && |Sources(g, r, i, kind, colour)| == |Sources(g, r, j, kind, colour)|
            && |Sinks(g, r, i, kind, colour)| == |Sinks(g, r, j, kind, colour)|
  {
    PlainGraphAdjacency(a, g);
    RefinedBalanced(a, c);
    var r := Refined(a, c);
    hide Represents, Sources, Sinks, PlainColours, Refined, PlainAdjacency;
    assert Alike(a, r, i, j);
    SourcesCounted(a, g, r, i, kind, colour);
    SourcesCounted(a, g, r, j, kind, colour);
  }

  /** So a node with an edge of some kind is separated from every node without. */
  lemma KindsSeparate(a: Adjacency, g: Graph, c: Colours, i: nat, j: nat, m: nat, kind: string)
    requires Represents(a, g) && |c| == |g.labels| && i < |c| && j < |c| && m < |c|
    requires PlainColours(c) && forall e <- g.edges :: Undelimited(e.2)
    requires (i, m, kind) in g.edges && forall x: nat :: (j, x, kind) !in g.edges
    ensures Refined(a, c)[i] != Refined(a, c)[j]
  {
    var r := Refined(a, c);
    if r[i] == r[j] {
      SameColourSameNeighbours(a, g, c, i, j, kind, r[m]);
      hide Refined, Represents;
      SomeSinks(g, r, i, j, m, kind);
    }
  }

  lemma SomeSinks(g: Graph, c: Colours, i: nat, j: nat, m: nat, kind: string)
    requires m < |c| && (i, m, kind) in g.edges && forall x: nat :: (j, x, kind) !in g.edges
    ensures |Sinks(g, c, i, kind, c[m])| > 0 && |Sinks(g, c, j, kind, c[m])| == 0
  {
    assert m in Sinks(g, c, i, kind, c[m]);
    assert Sinks(g, c, j, kind, c[m]) == {};
  }

  // ------------------------------------------------------------ the graphs of windows

  lemma NumeralPlain(s: nat)
    ensures Undelimited("in" + Decimal(s)) && Undelimited("in*")
  {
    var kind := "in" + Decimal(s);
    forall ch | ch in kind ensures ch != '\'' && ch != '|' && ch != '<' {
      assert ch == 'i' || ch == 'n' || ch in Decimal(s);
    }
  }

  lemma EdgeKindPlain(w: Window, g: Graph, live: seq<Reg>, m: nat, n: nat, kind: string)
    requires IsDagGraph(w, g, live) && (m, n, kind) in g.edges
    ensures Undelimited(kind)
  {
    if IsEdge(w, m, n, kind) {
      assert kind == RAW || kind == WAW || kind == WAR || kind == MEM || kind == TERMINATOR;
    } else {
      UseKinds(w[n], live[m - |w|], kind);
      NumeralPlain(0);
      if s: nat :| kind == "in" + Decimal(s) {
        NumeralPlain(s);
      }
    }
  }

  /** With plain mnemonics the graph of a window has plain labels and kinds. */
  lemma WindowGraphPlain(w: Window, g: Graph, live: seq<Reg>)
    requires IsDagGraph(w, g, live) && forall i <- w :: Undelimited(i.mnemonic)
    ensures PlainColours(g.labels) && forall e <- g.edges :: Undelimited(e.2)
  {
    forall e | e in g.edges ensures Undelimited(e.2) {
      assert (e.0, e.1, e.2) == e;
      EdgeKindPlain(w, g, live, e.0, e.1, e.2);
    }
    hide IsEdge;
    forall x | x in g.labels ensures Undelimited(x) {
      var n :| 0 <= n < |g.labels| && g.labels[n] == x;
      if n < |w| {
        assert w[n] in w && x == w[n].mnemonic;
      } else {
        LiveLabelPlain(live[n - |w|]);
        assert x == LiveLabel(live[n - |w|]);
      }
    }
  }

  lemma LiveLabelPlain(r: Reg)
    ensures Undelimited(LiveLabel(r))
  {
    if r in PINNED {
      assert LiveLabel(r)[..3] == "in:" && LiveLabel(r)[3..] == r;
      assert Undelimited(r);
      forall ch | ch in LiveLabel(r) ensures ch != '\'' && ch != '|' && ch != '<' {
        assert ch in "in:" || ch in r;
      }
    }
  }

  /** Refinement tells an operand in one slot from an operand that is nowhere in that slot. */
  lemma OperandsSeparated(w: Window, g: Graph, live: seq<Reg>, a: Adjacency, i: nat, j: nat, n: nat, slot: nat)
    requires IsDagGraph(w, g, live) && Represents(a, g) && forall x <- w :: Undelimited(x.mnemonic)
    requires i < |g.labels| && j < |g.labels| && n < |g.labels|
    requires (i, n, "in" + Decimal(slot)) in g.edges && forall x: nat :: (j, x, "in" + Decimal(slot)) !in g.edges
    ensures Refined(a, g.labels)[i] != Refined(a, g.labels)[j]
  {
    WindowGraphPlain(w, g, live);
    hide IsDagGraph, Decimal;
    KindsSeparate(a, g, g.labels, i, j, n, "in" + Decimal(slot));
  }

  // ------------------------------------------------------------ colours number the signatures

  lemma TableOrders(sigs: seq<string>, v: string, w: string)
    requires v in sigs && w in sigs
    ensures TableIndex(sigs, v) < TableIndex(sigs, w) <==> Less(v, w)
  {
    StringOrder();
    var x, y := (set u | u in sigs && Less(u, v)), (set u | u in sigs && Less(u, w));
    if Less(v, w) {
      assert x <= y && v in y && v !in x;
      ProperSubsetSize(x, y);
    } else {
      assert y <= x;
      SubsetSize(y, x);
    }
  }

  /** The largest of some strings. */
  lemma {:induction false} Largest(s: set<string>) returns (v: string)
    requires s != {}
    ensures v in s && forall w <- s :: w == v || Less(w, v)
    decreases |s|
  {
    StringOrder();
    v :| v in s;
    if s != {v} {
      var w := Largest(s - {v});
      v := if Less(v, w) then w else v;
    }
  }

  /** No number is left out. */
  lemma {:induction false} TableDense(sigs: seq<string>, v: string, k: nat) returns (w: string)
    requires v in sigs && k <= TableIndex(sigs, v)
    ensures w in sigs && TableIndex(sigs, w) == k
    decreases TableIndex(sigs, v)
  {
    if k == TableIndex(sigs, v) {
      w := v;
    } else {
      var below := set u | u in sigs && Less(u, v);
      var u := Largest(below);
      StringOrder();
      assert (set x | x in sigs && Less(x, u)) == below - {u};
      w := TableDense(sigs, u, k);
    }
  }

  /** After a round colours, read as numbers, count up from 0 in the order of the signatures. */
  lemma RoundNumbers(a: Adjacency, c: Colours, i: nat, j: nat, k: nat)
    requires a.Valid() && |c| == |a.labels| && i < |c| && j < |c|
    ensures forall ch <- Round(a, c)[i] :: '0' <= ch <= '9'
    ensures forall ch <- Round(a, c)[j] :: '0' <= ch <= '9'
    ensures ReadDecimal(Round(a, c)[i]) < ReadDecimal(Round(a, c)[j]) <==> Less(Signature(a, c, i), Signature(a, c, j))
    ensures k <= ReadDecimal(Round(a, c)[i]) ==> exists n: nat :: n < |c| && Round(a, c)[n] == Decimal(k)
  {
    var s := Signatures(a, c);
    assert s[i] == Signature(a, c, i) && s[j] == Signature(a, c, j);
    hide Signature, Signatures, TableIndex, ReadDecimal;
    DecimalReads(TableIndex(s, s[i]));
    DecimalReads(TableIndex(s, s[j]));
    TableOrders(s, s[i], s[j]);
    if k <= TableIndex(s, s[i]) {
      var w := TableDense(s, s[i], k);
      var n: nat :| n < |s| && s[n] == w;
      assert Round(a, c)[n] == Decimal(k);
    }
  }
}
