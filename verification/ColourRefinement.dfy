/** Weisfeiler-Leman colour refinement on a labelled graph held as predecessor and successor
    lists: it never separates what an isomorphism identifies and never merges two colours. */
module ColourRefinement {
  import opened Text
  import opened Sorting
  import opened Rendering
  import opened Listing

  type Arc = (nat, string)

  /** Node labels with, per node, the `(neighbour, kind)` lists in both directions. */
  datatype Adjacency = Adjacency(labels: seq<string>, preds: seq<seq<Arc>>, succs: seq<seq<Arc>>) {
    predicate Valid() {
      && |preds| == |labels| && |succs| == |labels|
      && (forall n, e :: 0 <= n < |labels| && e in preds[n] ==> e.0 < |labels|)
      && (forall n, e :: 0 <= n < |labels| && e in succs[n] ==> e.0 < |labels|)
    }
  }

  type Colours = seq<string>

  // ------------------------------------------------------------ one round

  /** The kind of an arc and the colour at its other end; the default is never used on a valid adjacency. */
  function Look(c: Colours): Arc -> (string, string) {
    (e: Arc) => (e.1, if e.0 < |c| then c[e.0] else "")
  }

  function Signature(a: Adjacency, c: Colours, n: nat): string
    requires a.Valid() && |c| == |a.labels| && n < |c|
  {
    c[n] + "<" + TextPairList(Sort(MapSeq(Look(c), a.preds[n]), TextPairLe))
    + "|" + TextPairList(Sort(MapSeq(Look(c), a.succs[n]), TextPairLe)) + ">"
  }

  function Signatures(a: Adjacency, c: Colours): (r: seq<string>)
    requires a.Valid() && |c| == |a.labels|
    ensures |r| == |c|
  {
    seq(|c|, n requires 0 <= n < |c| => Signature(a, c, n))
  }

  /** The index of `v` in the sorted list of the distinct signatures. */
  function TableIndex(sigs: seq<string>, v: string): nat {
    |set w | w in sigs && Less(w, v)|
  }

  function Recolour(sigs: seq<string>): (c: Colours)
    ensures |c| == |sigs|
  {
    seq(|sigs|, n requires 0 <= n < |sigs| => Decimal(TableIndex(sigs, sigs[n])))
  }

  function Round(a: Adjacency, c: Colours): (r: Colours)
    requires a.Valid() && |c| == |a.labels|
    ensures |r| == |c|
  {
    Recolour(Signatures(a, c))
  }

  /** So many rounds. */
  function Rounds(a: Adjacency, c: Colours, rounds: nat): (r: Colours)
    requires a.Valid() && |c| == |a.labels|
    ensures |r| == |c|
    decreases rounds
  {
    if rounds == 0 then c else Rounds(a, Round(a, c), rounds - 1)
  }

  /** A round that changes nothing is the last that matters. */
  lemma {:induction false} RoundsSettled(a: Adjacency, c: Colours, rounds: nat)
    requires a.Valid() && |c| == |a.labels| && Round(a, c) == c
    ensures Rounds(a, c, rounds) == c
    decreases rounds
  {
    hide Round;
    if rounds != 0 {
      RoundsSettled(a, c, rounds - 1);
    }
  }

  /** As many rounds as there are nodes. */
  function Refined(a: Adjacency, c: Colours): (r: Colours)
    requires a.Valid() && |c| == |a.labels|
    ensures |r| == |c|
  {
    Rounds(a, c, |c|)
  }

  /** The refinement loop, which stops early when a round changes nothing. */
  method Refine(a: Adjacency, start: Colours) returns (colour: Colours)
    requires a.Valid() && |start| == |a.labels|
    ensures colour == Refined(a, start)
  {
    hide Recolour, Signature, Rounds;
    colour := start;
    var size := |start|;
    for k := 0 to size
      invariant |colour| == size
      invariant Refined(a, start) == Rounds(a, colour, size - k)
    {
      var refined: seq<string> := [];
      for node := 0 to size
        invariant |refined| == node
        invariant forall n :: 0 <= n < node ==> refined[n] == Signature(a, colour, n)
      {
        refined := refined + [Signature(a, colour, node)];
      }
      assert refined == Signatures(a, colour);
      var newColour := Recolour(refined);
      NextRound(a, colour, size - k);
      if newColour == colour {
        RoundsSettled(a, colour, size - k);
        break;
      }
      colour := newColour;
    }
    NextRound(a, colour, 0);
  }

  lemma NextRound(a: Adjacency, c: Colours, rounds: nat)
    requires a.Valid() && |c| == |a.labels|
    ensures Rounds(a, c, 0) == c
    ensures rounds > 0 ==> Rounds(a, c, rounds) == Rounds(a, Round(a, c), rounds - 1)
  {}

  // ------------------------------------------------------------ isomorphic graphs

  function Move(f: seq<nat>): Arc -> Arc {
    (e: Arc) => (if e.0 < |f| then f[e.0] else e.0, e.1)
  }

  /** Renaming the nodes of `a` by `f` gives `b`. */
  ghost predicate Carries(a: Adjacency, b: Adjacency, f: seq<nat>)
  {
    && a.Valid() && b.Valid()
    && |b.labels| == |a.labels| && Perm(f, |a.labels|)
    && forall n {:trigger f[n]} :: 0 <= n < |a.labels| ==>
         && b.labels[f[n]] == a.labels[n]
         && multiset(MapSeq(Move(f), a.preds[n])) == multiset(b.preds[f[n]])
         && multiset(MapSeq(Move(f), a.succs[n])) == multiset(b.succs[f[n]])
  }

  ghost predicate SameColours(c: Colours, d: Colours, f: seq<nat>) {
    |c| == |d| && Perm(f, |c|) && forall n {:trigger f[n]} :: 0 <= n < |c| ==> d[f[n]] == c[n]
  }

  lemma NeighboursAgree(l: seq<Arc>, m: seq<Arc>, c: Colours, d: Colours, f: seq<nat>)
    requires SameColours(c, d, f)
    requires forall e <- l :: e.0 < |c|
    requires multiset(MapSeq(Move(f), l)) == multiset(m)
    ensures Sort(MapSeq(Look(c), l), TextPairLe) == Sort(MapSeq(Look(d), m), TextPairLe)
  {
    var moved := MapSeq(Move(f), l);
    assert MapSeq(Look(d), moved) == MapSeq(Look(c), l);
    MapSeqMultiset(Look(d), moved, m);
    TextPairsTotal();
    SortCanonical(MapSeq(Look(c), l), MapSeq(Look(d), m), TextPairLe);
  }

  lemma SameElementsUnder(c: Colours, d: Colours, f: seq<nat>)
    requires SameColours(c, d, f)
    ensures forall x :: x in c <==> x in d
  {
    PermOnto(f, |c|);
    forall x | x in d ensures x in c {
      var m :| 0 <= m < |d| && d[m] == x;
      assert m in f;
      var n :| 0 <= n < |f| && f[n] == m;
      assert c[n] == x;
    }
    forall x | x in c ensures x in d {
      var n :| 0 <= n < |c| && c[n] == x;
      assert d[f[n]] == x;
    }
  }

  lemma RoundEquivariant(a: Adjacency, b: Adjacency, f: seq<nat>, c: Colours, d: Colours)
    requires Carries(a, b, f) && SameColours(c, d, f) && |c| == |a.labels|
    ensures SameColours(Round(a, c), Round(b, d), f)
    ensures Round(a, c) == c <==> Round(b, d) == d
  {
    var s, t := Signatures(a, c), Signatures(b, d);
    forall n | 0 <= n < |c| ensures t[f[n]] == s[n] {
      NeighboursAgree(a.preds[n], b.preds[f[n]], c, d, f);
      NeighboursAgree(a.succs[n], b.succs[f[n]], c, d, f);
    }
    SameElementsUnder(s, t, f);
    var c', d' := Recolour(s), Recolour(t);
    forall n | 0 <= n < |c| ensures d'[f[n]] == c'[n] {
      assert (set w | w in s && Less(w, s[n])) == (set w | w in t && Less(w, s[n]));
    }
    PermOnto(f, |c|);
    if c' == c {
      forall m | 0 <= m < |d| ensures d'[m] == d[m] {
        assert m in f;
      }
    }
  }

  lemma {:induction false} RoundsEquivariant(
      a: Adjacency, b: Adjacency, f: seq<nat>, c: Colours, d: Colours, rounds: nat)
    requires Carries(a, b, f) && SameColours(c, d, f) && |c| == |a.labels|
    ensures SameColours(Rounds(a, c, rounds), Rounds(b, d, rounds), f)
    decreases rounds
  {
    hide Round, SameColours;
    RoundEquivariant(a, b, f, c, d);
    if rounds != 0 {
      RoundsEquivariant(a, b, f, Round(a, c), Round(b, d), rounds - 1);
    }
  }

  // ------------------------------------------------------------ refinement only splits classes

  /** Digits only, as every colour is after a round. */
  predicate Numerals(c: Colours) {
    forall x <- c :: forall ch <- x :: '0' <= ch <= '9'
  }

  /** Nodes that share a colour in `d` share one in `c`. */
  ghost predicate Finer(d: Colours, c: Colours) {
    |d| == |c| && forall i, j :: 0 <= i < |c| && 0 <= j < |c| && d[i] == d[j] ==> c[i] == c[j]
  }

  ghost function Classes(c: Colours): nat { |Elements(c)| }

  ghost function Elements(c: Colours): set<string> { set x | x in c }

  lemma ElementsLast(c: Colours)
    requires c != []
    ensures Elements(c) == Elements(c[..|c| - 1]) + {c[|c| - 1]}
  {
    assert c == c[..|c| - 1] + [c[|c| - 1]];
  }

  lemma FinerPrefix(d: Colours, c: Colours)
    requires Finer(d, c) && c != []
    ensures Finer(d[..|c| - 1], c[..|c| - 1])
    ensures d[|c| - 1] in Elements(d[..|c| - 1]) ==> c[|c| - 1] in Elements(c[..|c| - 1])
  {
    var k := |c| - 1;
    if d[k] in Elements(d[..k]) {
      var i :| 0 <= i < k && d[..k][i] == d[k];
      assert c[..k][i] == c[k];
    }
  }

  lemma {:induction false} FinerHasMore(d: Colours, c: Colours)
    requires |d| == |c| && Finer(d, c)
    ensures Classes(d) >= Classes(c)
  {
    hide Finer, Elements;
    if c != [] {
      var k := |c| - 1;
      ElementsLast(c);
      ElementsLast(d);
      FinerPrefix(d, c);
      FinerHasMore(d[..k], c[..k]);
      if c[k] in Elements(c[..k]) {
        assert Elements(c) == Elements(c[..k]);
        SubsetSize(Elements(d[..k]), Elements(d));
      }
    } else {
      assert c == d;
    }
  }

  /** Positions in the table of distinct signatures are distinct. */
  lemma TableIndexInjective(sigs: seq<string>, v: string, w: string)
    requires v in sigs && w in sigs && TableIndex(sigs, v) == TableIndex(sigs, w)
    ensures v == w
  {
    StringOrder();
    var x, y := (set u | u in sigs && Less(u, v)), (set u | u in sigs && Less(u, w));
    if Less(v, w) {
      assert x <= y && v in y && v !in x;
      SubsetOfEqualSize(x, y);
    } else if Less(w, v) {
      assert y <= x && w in x && w !in y;
      SubsetOfEqualSize(y, x);
    }
  }

  predicate Unmarked(c: Colours) {
    forall x <- c :: '<' !in x
  }

  lemma RoundFiner(a: Adjacency, c: Colours)
    requires a.Valid() && |c| == |a.labels| && Unmarked(c)
    ensures Finer(Round(a, c), c)
  {
    var s := Signatures(a, c);
    forall i, j | 0 <= i < |c| && 0 <= j < |c| && Round(a, c)[i] == Round(a, c)[j]
      ensures c[i] == c[j]
    {
      DecimalInjective(TableIndex(s, s[i]), TableIndex(s, s[j]));
      TableIndexInjective(s, s[i], s[j]);
      var u, v := SignatureTail(a, c, i), SignatureTail(a, c, j);
      assert c[i] in c && c[j] in c;
      SplitAt(c[i], c[j], '<', u, v);
    }
  }

  ghost function SignatureTail(a: Adjacency, c: Colours, n: nat): (t: string)
    requires a.Valid() && |c| == |a.labels| && n < |c|
    ensures Signature(a, c, n) == c[n] + ['<'] + t
  {
    TextPairList(Sort(MapSeq(Look(c), a.preds[n]), TextPairLe))
    + "|" + TextPairList(Sort(MapSeq(Look(c), a.succs[n]), TextPairLe)) + ">"
  }

  lemma RoundNumerals(a: Adjacency, c: Colours)
    requires a.Valid() && |c| == |a.labels|
    ensures Numerals(Round(a, c))
  {}

  lemma {:induction false} RoundsFiner(a: Adjacency, c: Colours, rounds: nat)
    requires a.Valid() && |c| == |a.labels| && Unmarked(c)
    ensures Finer(Rounds(a, c, rounds), c)
    decreases rounds
  {
    hide Round;
    if rounds != 0 {
      RoundFiner(a, c);
      RoundNumerals(a, c);
      RoundsFiner(a, Round(a, c), rounds - 1);
    }
  }

  lemma {:induction false} RoundsNumerals(a: Adjacency, c: Colours, rounds: nat)
    requires a.Valid() && |c| == |a.labels| && (rounds > 0 || Numerals(c))
    ensures Numerals(Rounds(a, c, rounds))
    decreases rounds
  {
    hide Round, Numerals;
    if rounds != 0 {
      RoundNumerals(a, c);
      RoundsNumerals(a, Round(a, c), rounds - 1);
    }
  }

  /** Whatever the labels, the refined colours are numerals. */
  lemma RefinedNumerals(a: Adjacency, c: Colours)
    requires a.Valid() && |c| == |a.labels|
    ensures Numerals(Refined(a, c))
  {
    RoundsNumerals(a, c, |c|);
  }
}
