/** What the canonical form says: below the leaf budget two forms are equal exactly for isomorphic
    graphs, isomorphic graphs get the same verdict, and equal answers always mean isomorphic. */
module CanonicalAnswer {
  import opened Text
  import opened Sorting
  import opened Rendering
  import opened Listing
  import opened ColourRefinement
  import opened Individualisation
  import opened CanonicalForm
  import opened CanonicalSearch

  // ------------------------------------------------------------ the leaves of a graph

  /** The leaves of the whole search tree; they do not depend on how the lists are ordered. */
  ghost function Leaves(g: Graph): multiset<string>
    requires g.Valid()
  {
    var a := Lists(g);
    RefinedNumerals(a, a.labels);
    LeafForms(a, Refined(a, a.labels))
  }

  ghost function Lists(g: Graph): (a: Adjacency)
    requires g.Valid()
    ensures Represents(a, g)
  {
    assert exists a :: Represents(a, g) by {
      var a := RepresentableEdges(g.labels, g.edges);
    }
    var a :| Represents(a, g);
    a
  }

  lemma LeavesAgree(g: Graph, h: Graph, f: seq<nat>, a: Adjacency, b: Adjacency)
    requires g.Valid() && h.Valid() && Isomorphism(g, h, f) && Represents(a, g) && Represents(b, h)
    requires Numerals(Refined(a, a.labels)) && Numerals(Refined(b, b.labels))
    ensures LeafForms(a, Refined(a, a.labels)) == LeafForms(b, Refined(b, b.labels))
  {
    IsomorphismCarries(g, h, f, a, b);
    assert SameColours(a.labels, b.labels, f);
    RoundsEquivariant(a, b, f, a.labels, b.labels, |a.labels|);
    LeavesEquivariant(a, b, f, Refined(a, a.labels), Refined(b, b.labels));
  }

  lemma LeavesOf(g: Graph, a: Adjacency)
    requires g.Valid() && Represents(a, g)
    ensures Numerals(Refined(a, a.labels))
    ensures LeafForms(a, Refined(a, a.labels)) == Leaves(g)
  {
    var same: seq<nat> := seq(|g.labels|, i requires 0 <= i < |g.labels| => i);
    RefinedNumerals(a, a.labels);
    RefinedNumerals(Lists(g), Lists(g).labels);
    assert Isomorphism(g, g, same);
    LeavesAgree(g, g, same, a, Lists(g));
  }

  /** Isomorphic graphs have the same leaves, so the same leaf count and the same verdict. */
  lemma LeavesInvariant(g: Graph, h: Graph)
    requires g.Valid() && h.Valid() && Isomorphic(g, h)
    ensures Leaves(g) == Leaves(h)
  {
    var f :| Isomorphism(g, h, f);
    RefinedNumerals(Lists(g), Lists(g).labels);
    RefinedNumerals(Lists(h), Lists(h).labels);
    LeavesAgree(g, h, f, Lists(g), Lists(h));
  }

  // ------------------------------------------------------------ the answer

  /** An exact answer is the least leaf; an approximate one is some way of writing the graph down,
      marked as such. */
  ghost predicate IsAnswer(g: Graph, budget: nat, form: string)
    requires g.Valid()
  {
    if |Leaves(g)| < budget then IsLeast(Leaves(g), form) && WrittenFrom(g, form)
    else exists s :: WrittenFrom(g, s) && form == APPROX + s
  }

  ghost predicate WrittenFrom(g: Graph, s: string)
    requires g.Valid()
  {
    exists a :: Represents(a, g) && Written(a, s)
  }

  method DagCanonicalForm(g: Graph, budget: nat) returns (form: string)
    requires g.Valid()
    ensures IsAnswer(g, budget, form)
  {
    var a := Adjacent(g);
    LeavesOf(g, a);
    var start := Refine(a, a.labels);
    var search := new Search(a, budget);
    var found := search.Explore(start);
    assert WrittenFrom(g, found);
    form := if search.leaves < budget then found else APPROX + found;
  }

  // ------------------------------------------------------------ equal texts, isomorphic graphs

  lemma LinesPlain(a: Adjacency, g: Graph, c: Colours)
    requires g.Valid() && g.Plain() && Represents(a, g) && |c| == |a.labels|
    ensures forall l <- Lines(a, c) :: PlainLine(l)
  {
    OrderPerm(c);
    forall l | l in Lines(a, c) ensures PlainLine(l) {
      var p :| 0 <= p < |c| && Lines(a, c)[p] == l;
      var n := Order(c)[p];
      assert a.labels[n] in a.labels;
      forall x | x in l.incoming ensures PlainKind(x.1) {
        var e := IncomingSource(a, c, p, x);
        assert (e.0, n, e.1) in g.edges;
      }
    }
  }

  /** A listed predecessor comes from an edge. */
  lemma IncomingSource(a: Adjacency, c: Colours, p: nat, x: (nat, string)) returns (e: Arc)
    requires a.Valid() && |c| == |a.labels| && p < |c|
    requires x in Lines(a, c)[p].incoming
    ensures 0 <= Order(c)[p] < |c| && e in a.preds[Order(c)[p]] && e.0 < |c|
    ensures Perm(Inverse(Order(c)), |c|)
    ensures x == (Inverse(Order(c))[e.0], e.1)
  {
    OrderPerm(c);
    InverseOf(Order(c), |c|);
    var l := a.preds[Order(c)[p]];
    var mapped := MapSeq(LookRank(Inverse(Order(c))), l);
    RankPairsTotal();
    SortSorted(mapped, RankPairLe);
    assert x in multiset(Sort(mapped, RankPairLe));
    assert x in multiset(mapped);
    var i :| 0 <= i < |mapped| && mapped[i] == x;
    e := l[i];
  }

  lemma IncomingTarget(a: Adjacency, c: Colours, p: nat, e: Arc)
    requires a.Valid() && |c| == |a.labels| && p < |c|
    requires 0 <= Order(c)[p] < |c| && e in a.preds[Order(c)[p]] && e.0 < |c|
    ensures (Inverse(Order(c))[e.0], e.1) in Lines(a, c)[p].incoming
  {
    OrderPerm(c);
    InverseOf(Order(c), |c|);
    var l := a.preds[Order(c)[p]];
    var mapped := MapSeq(LookRank(Inverse(Order(c))), l);
    RankPairsTotal();
    SortSorted(mapped, RankPairLe);
    var i :| 0 <= i < |l| && l[i] == e;
    assert mapped[i] in multiset(mapped);
    assert mapped[i] in multiset(Sort(mapped, RankPairLe));
  }

  /** An edge of one graph, read off its lines, is an edge of the other. */
  lemma EdgeThroughLines(a: Adjacency, g: Graph, c: Colours, b: Adjacency, h: Graph, d: Colours,
                         m: nat, n: nat, k: string)
    requires Represents(a, g) && Represents(b, h)
    requires |c| == |a.labels| && |d| == |b.labels| && Lines(a, c) == Lines(b, d)
    requires m < |c| && n < |c| && (m, n, k) in g.edges
    ensures Perm(Inverse(Order(c)), |c|) && Perm(Order(d), |c|)
    ensures (Order(d)[Inverse(Order(c))[m]], Order(d)[Inverse(Order(c))[n]], k) in h.edges
  {
    OrderPerm(c);
    OrderPerm(d);
    InverseOf(Order(c), |c|);
    InverseOf(Order(d), |c|);
    var p := Inverse(Order(c))[n];
    IncomingTarget(a, c, p, (m, k));
    var e := IncomingSource(b, d, p, (Inverse(Order(c))[m], k));
    assert (e.0, Order(d)[p], e.1) in h.edges;
  }

  lemma LineName(a: Adjacency, c: Colours, p: nat)
    requires a.Valid() && |c| == |a.labels| && p < |c|
    ensures 0 <= Order(c)[p] < |c| && Lines(a, c)[p].name == a.labels[Order(c)[p]]
  {
    OrderPerm(c);
  }

  /** The node of `d` written on the line of node `n` of `c`. */
  ghost function Match(c: Colours, d: Colours): (f: seq<nat>)
    requires |c| == |d|
    ensures Perm(f, |c|)
    ensures Perm(Inverse(Order(c)), |c|) && Perm(Order(d), |c|)
    ensures forall n :: 0 <= n < |c| ==> f[n] == Order(d)[Inverse(Order(c))[n]]
    ensures forall n :: 0 <= n < |c| ==> Inverse(Order(d))[f[n]] == Inverse(Order(c))[n]
    ensures forall n :: 0 <= n < |c| ==> Order(c)[Inverse(Order(c))[n]] == n
  {
    OrderPerm(c);
    OrderPerm(d);
    InverseOf(Order(c), |c|);
    InverseOf(Order(d), |c|);
    seq(|c|, n requires 0 <= n < |c| => Order(d)[Inverse(Order(c))[n]])
  }

  /** Two graphs written down alike are isomorphic: follow a line to the node it stands for. */
  lemma LinesIsomorphic(a: Adjacency, g: Graph, c: Colours, b: Adjacency, h: Graph, d: Colours)
    requires g.Valid() && h.Valid() && Represents(a, g) && Represents(b, h)
    requires |c| == |a.labels| && |d| == |b.labels| && Lines(a, c) == Lines(b, d)
    ensures Isomorphic(g, h)
  {
    assert a.Valid() && b.Valid() && a.labels == g.labels && b.labels == h.labels;
    hide Lines, Order, Inverse, Represents;
    var f, f' := Match(c, d), Match(d, c);
    forall n | 0 <= n < |c| ensures h.labels[f[n]] == g.labels[n] && f'[f[n]] == n {
      LineName(a, c, Inverse(Order(c))[n]);
      LineName(b, d, Inverse(Order(c))[n]);
    }
    forall m: nat, n: nat, k | m < |f| && n < |f|
      ensures (m, n, k) in g.edges <==> (f[m], f[n], k) in h.edges
    {
      if (m, n, k) in g.edges {
        EdgeThroughLines(a, g, c, b, h, d, m, n, k);
      }
      if (f[m], f[n], k) in h.edges {
        EdgeThroughLines(b, h, d, a, g, c, f[m], f[n], k);
      }
    }
    assert Isomorphism(g, h, f);
  }

  /** A text determines the graph it was written from. */
  lemma WrittenDetermines(g: Graph, h: Graph, s: string)
    requires g.Valid() && h.Valid() && g.Plain() && h.Plain()
    requires WrittenFrom(g, s) && WrittenFrom(h, s)
    ensures Isomorphic(g, h)
  {
    var a :| Represents(a, g) && Written(a, s);
    var b :| Represents(b, h) && Written(b, s);
    var c: Colours :| |c| == |a.labels| && s == Emit(a, c);
    var d: Colours :| |d| == |b.labels| && s == Emit(b, d);
    LinesPlain(a, g, c);
    LinesPlain(b, h, d);
    FormTextInjective(Lines(a, c), Lines(b, d));
    LinesIsomorphic(a, g, c, b, h, d);
  }

  lemma ExactIsNotApprox(g: Graph, h: Graph, s: string, t: string)
    requires g.Valid() && h.Valid() && g.Plain() && h.Plain()
    requires WrittenFrom(g, s) && WrittenFrom(h, t)
    ensures s != APPROX + t
  {
    var a :| Represents(a, g) && Written(a, s);
    var b :| Represents(b, h) && Written(b, t);
    var c: Colours :| |c| == |a.labels| && s == Emit(a, c);
    var d: Colours :| |d| == |b.labels| && t == Emit(b, d);
    LinesPlain(a, g, c);
    LinesPlain(b, h, d);
    FormNotApprox(Lines(a, c), Lines(b, d));
  }

  // ------------------------------------------------------------ main results

  /** Equal answers, exact or approximate, come only from isomorphic graphs. */
  lemma EqualAnswersIsomorphic(g: Graph, h: Graph, budget: nat, x: string, y: string)
    requires g.Valid() && h.Valid() && g.Plain() && h.Plain()
    requires IsAnswer(g, budget, x) && IsAnswer(h, budget, y)
    requires x == y
    ensures Isomorphic(g, h)
  {
    var s := Body(g, budget, x);
    var t := Body(h, budget, y);
    if |Leaves(g)| < budget && |Leaves(h)| >= budget {
      ExactIsNotApprox(g, h, s, t);
    } else if |Leaves(h)| < budget && |Leaves(g)| >= budget {
      ExactIsNotApprox(h, g, t, s);
    } else {
      assert |Leaves(g)| >= budget ==> s == x[|APPROX|..] && t == y[|APPROX|..];
      WrittenDetermines(g, h, s);
    }
  }

  ghost function Body(g: Graph, budget: nat, form: string): (s: string)
    requires g.Valid() && IsAnswer(g, budget, form)
    ensures WrittenFrom(g, s)
    ensures form == if |Leaves(g)| < budget then s else APPROX + s
  {
    if |Leaves(g)| < budget then form
    else
      var s :| WrittenFrom(g, s) && form == APPROX + s;
      s
  }

  /** The invariance and the completeness of the exact form in one statement. */
  lemma ExactFormsEqualIffIsomorphic(g: Graph, h: Graph, budget: nat, x: string, y: string)
    requires g.Valid() && h.Valid() && g.Plain() && h.Plain()
    requires IsAnswer(g, budget, x) && IsAnswer(h, budget, y)
    requires |Leaves(g)| < budget
    ensures x == y <==> Isomorphic(g, h)
  {
    if x == y {
      EqualAnswersIsomorphic(g, h, budget, x, y);
    }
    if Isomorphic(g, h) {
      LeavesInvariant(g, h);
      LessTotal(x, y);
    }
  }
}
