/** What refinement is for: after as many rounds as there are nodes no further round splits a class, and
    the result is the coarsest such colouring below the one it started from. */
module RefinementStability {
  import opened Text
  import opened Sorting
  import opened Rendering
  import opened Listing
  import opened ColourRefinement

  // ------------------------------------------------------------ signatures can be read back

  /** Colours and kinds without the delimiters of a signature. */
  predicate Undelimited(x: string) { '\'' !in x && '|' !in x && '<' !in x }

  predicate PlainColours(c: Colours) { forall x <- c :: Undelimited(x) }

  predicate PlainPairs(l: seq<(string, string)>) {
    forall p <- l :: Undelimited(p.0) && Undelimited(p.1)
  }

  /** What follows the first pair of a list. */
  ghost function PairRest(l: seq<(string, string)>): string
    requires l != []
  {
    if |l| == 1 then "" else ", " + TextPairItems(l[1..])
  }

  lemma PairSplit(l: seq<(string, string)>)
    requires l != []
    ensures |TextPairItems(l)| >= 2
    ensures TextPairItems(l)[2..] == l[0].0 + ['\''] + (", '" + l[0].1 + "')" + PairRest(l))
    ensures (", '" + l[0].1 + "')" + PairRest(l))[3..] == l[0].1 + ['\''] + (")" + PairRest(l))
  {
    var k, colour, rest := l[0].0, l[0].1, PairRest(l);
    assert TextPairItems(l) == "('" + k + "', '" + colour + "')" + rest;
    hide *;
    FirstQuote(k, colour, rest);
    LastQuote(colour, rest);
  }

  lemma FirstQuote(k: string, colour: string, rest: string)
    ensures ("('" + k + "', '" + colour + "')" + rest)[2..] == k + ['\''] + (", '" + colour + "')" + rest)
  {
    assert "('" + k + "', '" + colour + "')" + rest == "('" + (k + ['\''] + (", '" + colour + "')" + rest));
  }

  lemma LastQuote(colour: string, rest: string)
    ensures (", '" + colour + "')" + rest)[3..] == colour + ['\''] + (")" + rest)
  {
    assert ", '" + colour + "')" + rest == ", '" + (colour + ['\''] + (")" + rest));
  }

  lemma PairHeadInjective(l: seq<(string, string)>, m: seq<(string, string)>)
    requires l != [] && m != [] && TextPairItems(l) == TextPairItems(m)
    requires Undelimited(l[0].0) && Undelimited(l[0].1) && Undelimited(m[0].0) && Undelimited(m[0].1)
    ensures l[0] == m[0] && PairRest(l) == PairRest(m)
  {
    PairSplit(l);
    PairSplit(m);
    hide TextPairItems, PairRest;
    var u, v := ", '" + l[0].1 + "')" + PairRest(l), ", '" + m[0].1 + "')" + PairRest(m);
    SplitAt(l[0].0, m[0].0, '\'', u, v);
    SplitAt(l[0].1, m[0].1, '\'', ")" + PairRest(l), ")" + PairRest(m));
    assert PairRest(l) == (")" + PairRest(l))[1..] && PairRest(m) == (")" + PairRest(m))[1..];
  }

  lemma PairRestInjective(l: seq<(string, string)>, m: seq<(string, string)>)
    requires l != [] && m != [] && PairRest(l) == PairRest(m)
    ensures |l| > 1 <==> |m| > 1
    ensures |l| > 1 ==> TextPairItems(l[1..]) == TextPairItems(m[1..])
  {
    hide TextPairItems;
    if |l| > 1 && |m| > 1 {
      assert TextPairItems(l[1..]) == PairRest(l)[2..] && TextPairItems(m[1..]) == PairRest(m)[2..];
    }
  }

  lemma {:induction false} PairItemsInjective(l: seq<(string, string)>, m: seq<(string, string)>)
    requires PlainPairs(l) && PlainPairs(m) && TextPairItems(l) == TextPairItems(m)
    ensures l == m
  {
    if l != [] && m != [] {
      assert l[0] in l && m[0] in m;
      PairHeadInjective(l, m);
      PairRestInjective(l, m);
      hide TextPairItems;
      if |l| > 1 {
        PairItemsInjective(l[1..], m[1..]);
      }
      assert l == [l[0]] + l[1..] && m == [m[0]] + m[1..];
    }
  }

  lemma {:induction false} PairItemsPlain(l: seq<(string, string)>)
    requires PlainPairs(l)
    ensures '|' !in TextPairItems(l)
  {
    if l != [] {
      assert l[0] in l;
      PairItemsPlain(l[1..]);
    }
  }

  /** A signature determines the colour and both neighbour lists. */
  lemma PairListsInjective(u: seq<(string, string)>, v: seq<(string, string)>, u': seq<(string, string)>, v': seq<(string, string)>)
    requires PlainPairs(u) && PlainPairs(v) && PlainPairs(u') && PlainPairs(v')
    requires TextPairList(u) + "|" + TextPairList(v) + ">" == TextPairList(u') + "|" + TextPairList(v') + ">"
    ensures u == u' && v == v'
  {
    PairItemsPlain(u);
    PairItemsPlain(u');
    hide TextPairItems;
    var x, y := TextPairList(v) + ">", TextPairList(v') + ">";
    assert TextPairList(u) + "|" + TextPairList(v) + ">" == TextPairList(u) + ['|'] + x;
    assert TextPairList(u') + "|" + TextPairList(v') + ">" == TextPairList(u') + ['|'] + y;
    SplitAt(TextPairList(u), TextPairList(u'), '|', x, y);
    Brackets(u, u');
    assert TextPairList(v) == x[..|x| - 1] && TextPairList(v') == y[..|y| - 1];
    Brackets(v, v');
  }

  lemma Brackets(u: seq<(string, string)>, v: seq<(string, string)>)
    requires PlainPairs(u) && PlainPairs(v) && TextPairList(u) == TextPairList(v)
    ensures u == v
  {
    var a, b := TextPairItems(u), TextPairItems(v);
    assert a == ("[" + a + "]")[1..|a| + 1] && b == ("[" + b + "]")[1..|b| + 1];
    PairItemsInjective(u, v);
  }

  // ------------------------------------------------------------ a round respects what is finer

  predicate PlainArcs(l: seq<Arc>) { forall e <- l :: Undelimited(e.1) }

  predicate PlainAdjacency(a: Adjacency) {
    (forall l <- a.preds :: PlainArcs(l)) && (forall l <- a.succs :: PlainArcs(l))
  }

  lemma LooksPlain(c: Colours, l: seq<Arc>)
    requires PlainColours(c) && PlainArcs(l) && forall e <- l :: e.0 < |c|
    ensures PlainPairs(Sort(MapSeq(Look(c), l), TextPairLe))
  {
    var looks := MapSeq(Look(c), l);
    TextPairsTotal();
    SortSorted(looks, TextPairLe);
    forall p | p in Sort(looks, TextPairLe) ensures Undelimited(p.0) && Undelimited(p.1) {
      assert p in multiset(Sort(looks, TextPairLe));
      assert p in looks;
      var k :| 0 <= k < |looks| && looks[k] == p;
      assert l[k] in l && c[l[k].0] in c;
    }
  }

  /** The colour in `d` of what has colour `x` in `c`. */
  ghost function Coarsened(c: Colours, d: Colours, x: string): string
    requires |c| == |d|
  {
    if x in c then d[IndexOf(c, x)] else ""
  }

  ghost function CoarsenPair(c: Colours, d: Colours): ((string, string)) -> (string, string)
    requires |c| == |d|
  {
    (p: (string, string)) => (p.0, Coarsened(c, d, p.1))
  }

  /** Neighbours that look alike in a finer colouring do in a coarser one. */
  lemma LooksTransport(c: Colours, d: Colours, l: seq<Arc>, m: seq<Arc>)
    requires Finer(c, d) && (forall e <- l :: e.0 < |c|) && (forall e <- m :: e.0 < |c|)
    requires Sort(MapSeq(Look(c), l), TextPairLe) == Sort(MapSeq(Look(c), m), TextPairLe)
    ensures Sort(MapSeq(Look(d), l), TextPairLe) == Sort(MapSeq(Look(d), m), TextPairLe)
  {
    var x, y := MapSeq(Look(c), l), MapSeq(Look(c), m);
    TextPairsTotal();
    SortSorted(x, TextPairLe);
    SortSorted(y, TextPairLe);
    CoarsenedLooks(c, d, l);
    CoarsenedLooks(c, d, m);
    MapSeqMultiset(CoarsenPair(c, d), x, y);
    hide Look, TextPairLe, CoarsenPair;
    SortCanonical(MapSeq(Look(d), l), MapSeq(Look(d), m), TextPairLe);
  }

  lemma CoarsenedLooks(c: Colours, d: Colours, l: seq<Arc>)
    requires Finer(c, d) && forall e <- l :: e.0 < |c|
    ensures MapSeq(Look(d), l) == MapSeq(CoarsenPair(c, d), MapSeq(Look(c), l))
  {
    forall k | 0 <= k < |l| ensures Look(d)(l[k]) == CoarsenPair(c, d)(Look(c)(l[k])) {
      assert l[k] in l;
      assert c[l[k].0] in c;
    }
  }

  ghost function Ups(a: Adjacency, c: Colours, n: nat): seq<(string, string)>
    requires a.Valid() && |c| == |a.labels| && n < |c|
  {
    Sort(MapSeq(Look(c), a.preds[n]), TextPairLe)
  }

  ghost function Downs(a: Adjacency, c: Colours, n: nat): seq<(string, string)>
    requires a.Valid() && |c| == |a.labels| && n < |c|
  {
    Sort(MapSeq(Look(c), a.succs[n]), TextPairLe)
  }

  lemma SignatureParts(a: Adjacency, c: Colours, n: nat)
    requires a.Valid() && |c| == |a.labels| && n < |c|
    ensures Signature(a, c, n) == c[n] + ['<'] + (TextPairList(Ups(a, c, n)) + "|" + TextPairList(Downs(a, c, n)) + ">")
  {}

  lemma NodePlain(a: Adjacency, c: Colours, n: nat)
    requires a.Valid() && |c| == |a.labels| && n < |c| && PlainAdjacency(a) && PlainColours(c)
    ensures Undelimited(c[n]) && PlainPairs(Ups(a, c, n)) && PlainPairs(Downs(a, c, n))
  {
    assert a.preds[n] in a.preds && a.succs[n] in a.succs && c[n] in c;
    LooksPlain(c, a.preds[n]);
    LooksPlain(c, a.succs[n]);
  }

  lemma SignatureRead(a: Adjacency, c: Colours, i: nat, j: nat)
    requires a.Valid() && |c| == |a.labels| && i < |c| && j < |c| && PlainAdjacency(a) && PlainColours(c)
    requires Signature(a, c, i) == Signature(a, c, j)
    ensures c[i] == c[j] && Ups(a, c, i) == Ups(a, c, j) && Downs(a, c, i) == Downs(a, c, j)
  {
    SignatureParts(a, c, i);
    SignatureParts(a, c, j);
    NodePlain(a, c, i);
    NodePlain(a, c, j);
    hide Signature, Ups, Downs, TextPairList, PlainPairs;
    var u, v := Ups(a, c, i), Ups(a, c, j);
    var x, y := Downs(a, c, i), Downs(a, c, j);
    SplitAt(c[i], c[j], '<', TextPairList(u) + "|" + TextPairList(x) + ">", TextPairList(v) + "|" + TextPairList(y) + ">");
    PairListsInjective(u, x, v, y);
  }

  lemma SignatureTransport(a: Adjacency, c: Colours, d: Colours, i: nat, j: nat)
    requires a.Valid() && |c| == |a.labels| && i < |c| && j < |c| && PlainAdjacency(a) && PlainColours(c)
    requires Finer(c, d) && Signature(a, c, i) == Signature(a, c, j)
    ensures Signature(a, d, i) == Signature(a, d, j)
  {
    SignatureRead(a, c, i, j);
    LooksTransport(c, d, a.preds[i], a.preds[j]);
    LooksTransport(c, d, a.succs[i], a.succs[j]);
    SignatureParts(a, d, i);
    SignatureParts(a, d, j);
    hide Signature, TextPairList, Sort, Look;
  }

  lemma RoundEqual(a: Adjacency, c: Colours, i: nat, j: nat)
    requires a.Valid() && |c| == |a.labels| && i < |c| && j < |c|
    ensures Round(a, c)[i] == Round(a, c)[j] <==> Signature(a, c, i) == Signature(a, c, j)
  {
    var s := Signatures(a, c);
    assert s[i] == Signature(a, c, i) && s[j] == Signature(a, c, j);
    hide Signature, Signatures, TableIndex;
    if Round(a, c)[i] == Round(a, c)[j] {
      DecimalInjective(TableIndex(s, s[i]), TableIndex(s, s[j]));
      TableIndexInjective(s, s[i], s[j]);
    }
  }

  /** A round of a finer colouring is finer than a round of a coarser one. */
  lemma RoundMonotone(a: Adjacency, c: Colours, d: Colours)
    requires a.Valid() && |c| == |a.labels| && PlainAdjacency(a) && PlainColours(c) && Finer(c, d)
    ensures Finer(Round(a, c), Round(a, d))
  {
    hide Round, Signature, PlainAdjacency, PlainColours;
    var x, y := Round(a, c), Round(a, d);
    forall i, j | 0 <= i < |c| && 0 <= j < |c| && x[i] == x[j] ensures y[i] == y[j] {
      RoundEqual(a, c, i, j);
      RoundEqual(a, d, i, j);
      SignatureTransport(a, c, d, i, j);
    }
  }

  // ------------------------------------------------------------ the number of rounds is enough

  lemma NumeralsPlain(c: Colours)
    requires Numerals(c)
    ensures PlainColours(c)
  {
    forall x | x in c ensures Undelimited(x) {}
  }

  lemma {:induction false} RoundsPlain(a: Adjacency, c: Colours, k: nat)
    requires a.Valid() && |c| == |a.labels| && PlainColours(c)
    ensures PlainColours(Rounds(a, c, k)) && Unmarked(Rounds(a, c, k))
  {
    if k > 0 {
      RoundsNumerals(a, c, k);
      NumeralsPlain(Rounds(a, c, k));
    }
  }

  lemma {:induction false} RoundLast(a: Adjacency, c: Colours, k: nat)
    requires a.Valid() && |c| == |a.labels|
    ensures Rounds(a, c, k + 1) == Round(a, Rounds(a, c, k))
    decreases k
  {
    hide Round;
    if k > 0 {
      RoundLast(a, Round(a, c), k - 1);
    }
  }

  /** As many classes as in a finer colouring: the same classes. */
  lemma {:induction false} SameCountSame(d: Colours, c: Colours)
    requires Finer(d, c) && Classes(d) == Classes(c)
    ensures Finer(c, d)
  {
    if c != [] {
      var k := |c| - 1;
      ElementsLast(c);
      ElementsLast(d);
      FinerPrefix(d, c);
      FinerHasMore(d[..k], c[..k]);
      OldOrNew(c[..k], c[k], Elements(c));
      OldOrNew(d[..k], d[k], Elements(d));
      hide Elements, Finer;
      SameCountSame(d[..k], c[..k]);
      FinerFromPrefix(d, c);
    }
  }

  lemma FinerFromPrefix(d: Colours, c: Colours)
    requires var k := |c| - 1; |d| == |c| && k >= 0 && Finer(c[..k], d[..k]) && Finer(d, c)
    requires var k := |c| - 1; d[k] in Elements(d[..k]) <==> c[k] in Elements(c[..k])
    ensures Finer(c, d)
  {
    var k := |c| - 1;
    hide Elements;
    forall i, j | 0 <= i < |c| && 0 <= j < |c| && c[i] == c[j] ensures d[i] == d[j] {
      if i < k && j < k {
        assert c[..k][i] == c[..k][j];
        assert d[..k][i] == d[..k][j];
      } else if i < k {
        SameAsLast(d, c, i);
      } else if j < k {
        SameAsLast(d, c, j);
      }
    }
  }

  lemma OldOrNew(s: Colours, x: string, all: set<string>)
    requires all == Elements(s) + {x}
    ensures |all| == Classes(s) + if x in Elements(s) then 0 else 1
  {
    assert x in Elements(s) ==> all == Elements(s);
    assert x !in Elements(s) ==> |all| == |Elements(s)| + 1;
  }

  /** The last node shares its class with an earlier one in both or in neither. */
  lemma SameAsLast(d: Colours, c: Colours, i: nat)
    requires var k := |c| - 1; |d| == |c| && i < k && c[i] == c[k] && Finer(c[..k], d[..k]) && Finer(d, c)
    requires var k := |c| - 1; d[k] in Elements(d[..k]) <==> c[k] in Elements(c[..k])
    ensures d[i] == d[|c| - 1]
  {
    var k := |c| - 1;
    assert c[..k][i] == c[k];
    var j :| 0 <= j < k && d[..k][j] == d[k];
    assert c[j] == c[k];
    assert c[..k][j] == c[..k][i];
    assert d[..k][j] == d[..k][i];
  }

  lemma ClassesBound(c: Colours)
    ensures Classes(c) <= |c|
  {
    ElementsBound(c);
  }

  lemma {:induction false} ElementsBound(c: Colours)
    ensures |Elements(c)| <= |c|
  {
    if c != [] {
      ElementsLast(c);
      ElementsBound(c[..|c| - 1]);
      OldOrNew(c[..|c| - 1], c[|c| - 1], Elements(c));
    }
  }

  /** A round that splits something adds a class; and before it, every round did. */
  lemma {:induction false} SplittingRounds(a: Adjacency, c: Colours, k: nat)
    requires a.Valid() && |c| == |a.labels| && PlainAdjacency(a) && PlainColours(c) && c != []
    requires !Finer(Rounds(a, c, k), Rounds(a, c, k + 1))
    ensures Classes(Rounds(a, c, k)) >= k + 1
    decreases k
  {
    hide Finer, Round, Rounds, PlainColours, Elements;
    if k == 0 {
      SomeClass(Rounds(a, c, 0));
    } else {
      var before, here := Rounds(a, c, k - 1), Rounds(a, c, k);
      RoundLast(a, c, k - 1);
      RoundLast(a, c, k);
      RoundsPlain(a, c, k - 1);
      RoundFiner(a, before);
      FinerHasMore(here, before);
      if Finer(before, here) {
        RoundMonotone(a, before, here);
      } else {
        SplittingRounds(a, c, k - 1);
        if Classes(here) == Classes(before) {
          SameCountSame(here, before);
        }
      }
    }
  }

  lemma SomeClass(c: Colours)
    requires c != []
    ensures Classes(c) >= 1
  {
    assert c[0] in Elements(c);
  }

  /** One more round splits no class of the refined colouring. */
  lemma RefinedStable(a: Adjacency, c: Colours)
    requires a.Valid() && |c| == |a.labels| && PlainAdjacency(a) && PlainColours(c)
    ensures Finer(Refined(a, c), Round(a, Refined(a, c))) && Finer(Round(a, Refined(a, c)), Refined(a, c))
  {
    var k := |c|;
    RoundLast(a, c, k);
    RoundsPlain(a, c, k);
    RoundFiner(a, Rounds(a, c, k));
    ClassesBound(Rounds(a, c, k));
    if c != [] && !Finer(Rounds(a, c, k), Rounds(a, c, k + 1)) {
      SplittingRounds(a, c, k);
    }
  }

  lemma SameLength(d: Colours, c: Colours)
    requires Finer(d, c)
    ensures |d| == |c|
  {}

  lemma FinerTransitive(x: Colours, y: Colours, z: Colours)
    requires Finer(x, y) && Finer(y, z)
    ensures Finer(x, z)
  {}

  /** And any colouring below the first that no round splits is below the refined one. */
  lemma {:induction false} RefinedCoarsest(a: Adjacency, c: Colours, d: Colours, k: nat)
    requires a.Valid() && |c| == |a.labels| && PlainAdjacency(a) && PlainColours(d)
    requires Finer(d, c) && Finer(d, Round(a, d))
    ensures Finer(d, Rounds(a, c, k))
    decreases k
  {
    hide *;
    NextRound(a, c, 0);
    SameLength(d, c);
    if k > 0 {
      RefinedCoarsest(a, c, d, k - 1);
      RoundLast(a, c, k - 1);
      RoundMonotone(a, d, Rounds(a, c, k - 1));
      FinerTransitive(d, Round(a, d), Rounds(a, c, k));
    }
  }
}
