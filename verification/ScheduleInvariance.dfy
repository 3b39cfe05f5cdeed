/** The graph of a window, and so its canonical form, does not depend on the schedule. */
module ScheduleInvariance {
  import opened Listing
  import opened Rendering
  import opened CanonicalForm
  import opened CanonicalAnswer
  import opened Windows
  import opened Schedules
  import opened DagGraph

  /** Every transfer is ordered before everything after it, so that no schedule can move it back. */
  ghost predicate TransfersFixed(w: Window) {
    forall j: nat, k: nat :: j < k < |w| && Transfers(w[j]) ==> Ordered(w, j, k)
  }

  lemma StraightLineFixed(w: Window)
    requires StraightLine(w)
    ensures TransfersFixed(w)
  {}

  // ------------------------------------------------------------ positions

  lemma BeforePositions(order: seq<nat>, p: nat, q: nat)
    requires NoDup(order) && p < |order| && q < |order|
    ensures Before(order, order[p], order[q]) <==> p < q
  {}

  /** Conflicting instructions stand in the same order in both schedules. */
  lemma SameOrder(w: Window, order: seq<nat>, p: nat, q: nat)
    requires Respects(w, order) && p < |w| && q < |w| && p != q
    requires Conflict(w[order[p]], w[order[q]])
    ensures p < q <==> order[p] < order[q]
  {
    BeforePositions(order, p, q);
    BeforePositions(order, q, p);
    ConflictSymmetric(w[order[p]], w[order[q]]);
    if order[p] < order[q] {
      ConflictsKeepOrder(w, order, order[p], order[q]);
    } else {
      ConflictsKeepOrder(w, order, order[q], order[p]);
    }
  }

  ghost predicate Accesses(i: Instruction, l: Location) { Reads(i, l) || Writes(i, l) }

  lemma WriterKeepsSide(w: Window, order: seq<nat>, p: nat, k: nat, l: Location)
    requires Respects(w, order) && p < |w| && k < |w| && p != k
    requires Accesses(w[order[p]], l) && Writes(w[order[k]], l)
    ensures p < k <==> order[p] < order[k]
  {
    assert ConflictAt(w[order[p]], w[order[k]], l);
    SameOrder(w, order, p, k);
  }

  /** Nothing writes between two accesses in one schedule exactly when nothing does in the other. */
  lemma QuietTransport(w: Window, order: seq<nat>, p: nat, q: nat, l: Location)
    requires Respects(w, order) && p < q < |w| && order[p] < order[q]
    requires Accesses(w[order[p]], l) && Accesses(w[order[q]], l)
    ensures Quiet(Permute(w, order), p, q, l) <==> Quiet(w, order[p], order[q], l)
  {
    var w' := Permute(w, order);
    PermOnto(order, |w|);
    if !Quiet(w', p, q, l) {
      var k :| p < k < q && Writes(w'[k], l);
      WriterKeepsSide(w, order, p, k, l);
      WriterKeepsSide(w, order, q, k, l);
      assert order[p] < order[k] < order[q];
    }
    if !Quiet(w, order[p], order[q], l) {
      var i :| order[p] < i < order[q] && Writes(w[i], l);
      assert i in order;
      var k :| 0 <= k < |order| && order[k] == i;
      WriterKeepsSide(w, order, p, k, l);
      WriterKeepsSide(w, order, q, k, l);
      assert p < k < q && Writes(w'[k], l);
    }
  }

  /** The three dependences at one location survive the move to another schedule, both ways. */
  lemma LocationTransport(w: Window, order: seq<nat>, p: nat, q: nat, l: Location)
    requires Respects(w, order) && p < |w| && q < |w|
    ensures var w' := Permute(w, order);
            && (p < q && Raw(w', p, q, l) <==> order[p] < order[q] && Raw(w, order[p], order[q], l))
            && (p < q && Waw(w', p, q, l) <==> order[p] < order[q] && Waw(w, order[p], order[q], l))
            && (p < q && War(w', p, q, l) <==> order[p] < order[q] && War(w, order[p], order[q], l))
  {
    hide Reads, Writes, Quiet;
    var a, b := w[order[p]], w[order[q]];
    if p != q && ConflictAt(a, b, l) {
      SameOrder(w, order, p, q);
      if p < q {
        QuietTransport(w, order, p, q, l);
      }
    }
  }

  lemma TransferTransport(w: Window, order: seq<nat>, p: nat, q: nat)
    requires Respects(w, order) && TransfersFixed(w) && p < |w| && q < |w| && Transfers(w[order[q]])
    ensures p < q <==> order[p] < order[q]
  {
    BeforePositions(order, p, q);
    BeforePositions(order, q, p);
    hide Ordered, DependsOn;
    if order[p] < order[q] {
      ConflictsKeepOrder(w, order, order[p], order[q]);
    } else if order[q] < order[p] {
      OrderedBefore(w, order, order[q], order[p]);
    }
  }

  lemma EdgeTransport(w: Window, order: seq<nat>, p: nat, q: nat, kind: string)
    requires Respects(w, order) && TransfersFixed(w) && p < |w| && q < |w|
    ensures IsEdge(Permute(w, order), p, q, kind) <==> IsEdge(w, order[p], order[q], kind)
  {
    assert Perm(order, |w|) && (p == q <==> order[p] == order[q]);
    hide Raw, Waw, War, Loads, Stores, Transfers, Respects;
    forall l: Location
      ensures p < q && Raw(Permute(w, order), p, q, l) <==> order[p] < order[q] && Raw(w, order[p], order[q], l)
      ensures p < q && Waw(Permute(w, order), p, q, l) <==> order[p] < order[q] && Waw(w, order[p], order[q], l)
      ensures p < q && War(Permute(w, order), p, q, l) <==> order[p] < order[q] && War(w, order[p], order[q], l)
    {
      LocationTransport(w, order, p, q, l);
    }
    if Transfers(w[order[q]]) {
      TransferTransport(w, order, p, q);
    }
  }

  lemma LiveUseTransport(w: Window, order: seq<nat>, p: nat, r: Reg)
    requires Respects(w, order) && p < |w|
    ensures LiveUse(Permute(w, order), p, r) <==> LiveUse(w, order[p], r)
  {
    hide EffectiveReads;
    var w' := Permute(w, order);
    PermOnto(order, |w|);
    if r in EffectiveReads(w[order[p]]) {
      forall k: nat | k < |w| && k != p && r in w'[k].writeSet ensures k < p <==> order[k] < order[p] {
        assert Accesses(w[order[p]], Register(r));
        WriterKeepsSide(w, order, p, k, Register(r));
      }
      forall i | 0 <= i < order[p] && r in w[i].writeSet ensures exists k :: 0 <= k < p && r in w'[k].writeSet {
        assert i in order;
        var k :| 0 <= k < |order| && order[k] == i;
        assert r in w'[k].writeSet;
      }
    }
  }

  // ------------------------------------------------------------ the isomorphism

  /** Instructions go back to their place; a virtual node goes to the node of its register. */
  ghost function NodeMap(w: Window, order: seq<nat>, live: seq<Reg>, live': seq<Reg>): (f: seq<nat>)
    requires Perm(order, |w|) && NoDup(live) && NoDup(live') && (forall r :: r in live <==> r in live')
    ensures |live| == |live'| && Perm(f, |w| + |live|)
    ensures forall p :: 0 <= p < |w| ==> f[p] == order[p]
    ensures forall t :: 0 <= t < |live| ==> |w| <= f[|w| + t] < |w| + |live| && live[f[|w| + t] - |w|] == live'[t]
  {
    SameElements(live, live');
    order + seq(|live|, t requires 0 <= t < |live| => LiveNode(w, live, live', t))
  }

  ghost function LiveNode(w: Window, live: seq<Reg>, live': seq<Reg>, t: nat): (m: nat)
    requires t < |live'| && forall r :: r in live <==> r in live'
    ensures |w| <= m < |w| + |live| && live[m - |w|] == live'[t]
  {
    assert live'[t] in live';
    |w| + IndexOf(live, live'[t])
  }

  lemma LiveEdgeTransport(w: Window, order: seq<nat>, live: seq<Reg>, live': seq<Reg>, m: nat, n: nat, kind: string)
    requires Respects(w, order) && NoDup(live) && NoDup(live') && (forall r :: r in live <==> r in live')
    requires m < |w| + |live'| && n < |w| + |live'|
    ensures |live| == |live'|
    ensures var f := NodeMap(w, order, live, live');
            LiveEdge(Permute(w, order), live', m, n, kind) <==> LiveEdge(w, live, f[m], f[n], kind)
  {
    hide LiveUse, Uses;
    SameElements(live, live');
    var f := NodeMap(w, order, live, live');
    if n < |w| && |w| <= m {
      assert f[|w| + (m - |w|)] == f[m];
      LiveUseTransport(w, order, n, live'[m - |w|]);
    } else if |w| <= n {
      assert f[|w| + (n - |w|)] == f[n];
    }
  }

  lemma LabelTransport(w: Window, order: seq<nat>, g: Graph, live: seq<Reg>, g': Graph, live': seq<Reg>, n: nat)
    requires Perm(order, |w|) && NoDup(live) && NoDup(live') && (forall r :: r in live <==> r in live')
    requires g.labels == MapSeq(Mnemonic(), w) + MapSeq(LiveLabel, live)
    requires g'.labels == MapSeq(Mnemonic(), Permute(w, order)) + MapSeq(LiveLabel, live')
    requires n < |w| + |live'|
    ensures |live| == |live'| && g.labels[NodeMap(w, order, live, live')[n]] == g'.labels[n]
  {
    SameElements(live, live');
    if |w| <= n {
      assert NodeMap(w, order, live, live')[|w| + (n - |w|)] == NodeMap(w, order, live, live')[n];
    }
  }

  lemma SameLiveIns(w: Window, order: seq<nat>, r: Reg)
    requires Respects(w, order)
    ensures IsLive(Permute(w, order), r) <==> IsLive(w, r)
  {
    hide LiveUse;
    PermOnto(order, |w|);
    if IsLive(Permute(w, order), r) {
      var p :| 0 <= p < |w| && LiveUse(Permute(w, order), p, r);
      LiveUseTransport(w, order, p, r);
    }
    if IsLive(w, r) {
      var i :| 0 <= i < |w| && LiveUse(w, i, r);
      assert i in order;
      var p :| 0 <= p < |order| && order[p] == i;
      LiveUseTransport(w, order, p, r);
    }
  }

  lemma AllEdgesTransport(w: Window, order: seq<nat>, live: seq<Reg>, live': seq<Reg>, m: nat, n: nat, k: string)
    requires Respects(w, order) && TransfersFixed(w)
    requires NoDup(live) && NoDup(live') && (forall r :: r in live <==> r in live')
    requires m < |w| + |live'| && n < |w| + |live'|
    ensures |live| == |live'|
    ensures var f := NodeMap(w, order, live, live');
            IsEdge(Permute(w, order), m, n, k) || LiveEdge(Permute(w, order), live', m, n, k)
            <==> IsEdge(w, f[m], f[n], k) || LiveEdge(w, live, f[m], f[n], k)
  {
    hide LiveEdge, DependsOn, SelfEdge;
    LiveEdgeTransport(w, order, live, live', m, n, k);
    var f := NodeMap(w, order, live, live');
    if m < |w| && n < |w| {
      EdgeTransport(w, order, m, n, k);
    } else {
      assert |w| <= m ==> f[|w| + (m - |w|)] == f[m];
      assert |w| <= n ==> f[|w| + (n - |w|)] == f[n];
    }
  }

  lemma SameLiveLists(w: Window, order: seq<nat>, g: Graph, live: seq<Reg>, g': Graph, live': seq<Reg>)
    requires Respects(w, order)
    requires IsDagGraph(w, g, live) && IsDagGraph(Permute(w, order), g', live')
    ensures Perm(order, |w|) && NoDup(live) && NoDup(live') && (forall r :: r in live <==> r in live')
    ensures |live| == |live'| && |g.labels| == |g'.labels| == |w| + |live|
  {
    WellFormedOrder(w, order);
    hide Respects, IsLive, IsEdge, LiveEdge;
    forall r ensures r in live <==> r in live' {
      SameLiveIns(w, order, r);
    }
    SameElements(live, live');
  }

  lemma EdgeOfBoth(w: Window, order: seq<nat>, g: Graph, live: seq<Reg>, g': Graph, live': seq<Reg>, f: seq<nat>, m: nat, n: nat, k: string)
    requires Respects(w, order) && TransfersFixed(w)
    requires IsDagGraph(w, g, live) && IsDagGraph(Permute(w, order), g', live')
    requires Perm(order, |w|) && NoDup(live) && NoDup(live') && (forall r :: r in live <==> r in live')
    requires f == NodeMap(w, order, live, live') && m < |f| && n < |f|
    ensures (m, n, k) in g'.edges <==> (f[m], f[n], k) in g.edges
  {
    hide Respects, TransfersFixed, IsLive, IsEdge, LiveEdge, NoDup;
    AllEdgesTransport(w, order, live, live', m, n, k);
  }

  lemma LabelOfBoth(w: Window, order: seq<nat>, g: Graph, live: seq<Reg>, g': Graph, live': seq<Reg>, f: seq<nat>, n: nat)
    requires Perm(order, |w|) && IsDagGraph(w, g, live) && IsDagGraph(Permute(w, order), g', live')
    requires NoDup(live) && NoDup(live') && (forall r :: r in live <==> r in live')
    requires f == NodeMap(w, order, live, live') && n < |f|
    ensures f[n] < |g.labels| && n < |g'.labels| && g.labels[f[n]] == g'.labels[n]
  {
    hide IsLive, IsEdge, LiveEdge, NoDup;
    LabelTransport(w, order, g, live, g', live', n);
  }

  /** Every schedule that respects the dependences rebuilds the same graph. */
  lemma RescheduledGraphIsomorphic(w: Window, order: seq<nat>, g: Graph, live: seq<Reg>, g': Graph, live': seq<Reg>)
    requires Respects(w, order) && TransfersFixed(w)
    requires IsDagGraph(w, g, live) && IsDagGraph(Permute(w, order), g', live')
    ensures Isomorphic(g', g)
  {
    hide Respects, TransfersFixed, IsDagGraph;
    SameLiveLists(w, order, g, live, g', live');
    var f := NodeMap(w, order, live, live');
    forall n | 0 <= n < |f| ensures g.labels[f[n]] == g'.labels[n] {
      LabelOfBoth(w, order, g, live, g', live', f, n);
    }
    forall m: nat, n: nat, k | m < |f| && n < |f| ensures (m, n, k) in g'.edges <==> (f[m], f[n], k) in g.edges {
      EdgeOfBoth(w, order, g, live, g', live', f, m, n, k);
    }
    assert Isomorphism(g', g, f);
  }

  lemma WellFormedOrder(w: Window, order: seq<nat>)
    requires Respects(w, order)
    ensures Perm(order, |w|)
  {}

  // ------------------------------------------------------------ the canonical form

  /** An answer of `dag_canonical_form` for a window. */
  ghost predicate IsWindowForm(w: Window, g: Graph, live: seq<Reg>, budget: nat, form: string) {
    IsDagGraph(w, g, live) && g.Valid() && IsAnswer(g, budget, form)
  }

  method WindowForm(w: Window, budget: nat) returns (form: string, ghost g: Graph, ghost live: seq<Reg>)
    ensures IsWindowForm(w, g, live, budget, form)
    ensures exists graph, registers :: IsWindowForm(w, graph, registers, budget, form)
  {
    var graph, registers := BuildDagGraph(w);
    g, live := graph, registers;
    form := DagCanonicalForm(graph, budget);
    hide *;
    SomeWindowForm(w, graph, registers, budget, form);
  }

  lemma SomeWindowForm(w: Window, g: Graph, live: seq<Reg>, budget: nat, form: string)
    requires IsDagGraph(w, g, live) && g.Valid() && IsAnswer(g, budget, form)
    ensures IsWindowForm(w, g, live, budget, form)
    ensures exists graph, registers :: IsWindowForm(w, graph, registers, budget, form)
  {
    hide IsDagGraph, IsAnswer;
  }

  /** The canonical form does not see the schedule: a re-scheduled window gets the same verdict, and
      the same text whenever the search stays under its budget. */
  lemma FormScheduleInvariant(w: Window, order: seq<nat>, budget: nat,
                              g: Graph, live: seq<Reg>, x: string, g': Graph, live': seq<Reg>, y: string)
    requires Respects(w, order) && TransfersFixed(w)
    requires IsWindowForm(w, g, live, budget, x) && IsWindowForm(Permute(w, order), g', live', budget, y)
    ensures |Leaves(g)| == |Leaves(g')|
    ensures |Leaves(g)| < budget ==> x == y
  {
    RescheduledGraphIsomorphic(w, order, g, live, g', live');
    LeavesInvariant(g', g);
    Text.LessTotal(x, y);
  }

  ghost predicate PlainlyLabelled(w: Window) {
    forall i <- w :: PlainLabel(i.mnemonic)
  }

  lemma GraphPlain(w: Window, g: Graph, live: seq<Reg>)
    requires IsDagGraph(w, g, live) && g.Valid() && PlainlyLabelled(w)
    ensures g.Plain()
  {
    forall s | s in g.labels ensures PlainLabel(s) {
      LabelPlain(w, g, live, s);
    }
    forall e | e in g.edges ensures PlainKind(e.2) {
      EdgePlain(w, g, live, e);
    }
  }

  lemma LabelPlain(w: Window, g: Graph, live: seq<Reg>, s: string)
    requires IsDagGraph(w, g, live) && PlainlyLabelled(w) && s in g.labels
    ensures PlainLabel(s)
  {
    hide PlainLabel, IsLive, IsEdge, LiveEdge, LiveLabel;
    var n :| 0 <= n < |g.labels| && g.labels[n] == s;
    if n < |w| {
      assert w[n] in w;
    } else {
      LiveLabelPlain(live[n - |w|]);
    }
  }

  lemma EdgePlain(w: Window, g: Graph, live: seq<Reg>, e: (nat, nat, string))
    requires IsDagGraph(w, g, live) && e in g.edges
    ensures PlainKind(e.2)
  {
    hide IsLive, LiveUse, Uses, Raw, War, Waw;
    assert e == (e.0, e.1, e.2);
    assert IsEdge(w, e.0, e.1, e.2) || LiveEdge(w, live, e.0, e.1, e.2);
    if LiveEdge(w, live, e.0, e.1, e.2) {
      UseKindPlain(w[e.1], live[e.0 - |w|], e.2);
    }
  }

  lemma LiveLabelPlain(r: Reg)
    ensures PlainLabel(LiveLabel(r))
  {
    assert LiveLabel(r)[0] == 'i' && APPROX[0] == 'a';
  }

  lemma UseKindPlain(i: Instruction, r: Reg, kind: string)
    requires (r, kind) in Uses(i, {})
    ensures PlainKind(kind)
  {
    hide SourceSlots, EffectiveReads;
  }

  /** Two windows with equal forms have isomorphic graphs, and under the budget the converse holds. */
  lemma WindowFormsEqualIffIsomorphic(w: Window, v: Window, budget: nat,
                                      g: Graph, live: seq<Reg>, x: string, h: Graph, live': seq<Reg>, y: string)
    requires IsWindowForm(w, g, live, budget, x) && IsWindowForm(v, h, live', budget, y)
    requires PlainlyLabelled(w) && PlainlyLabelled(v)
    ensures x == y ==> Isomorphic(g, h)
    ensures |Leaves(g)| < budget ==> (x == y <==> Isomorphic(g, h))
  {
    GraphPlain(w, g, live);
    GraphPlain(v, h, live');
    if x == y {
      EqualAnswersIsomorphic(g, h, budget, x, y);
    }
    if |Leaves(g)| < budget {
      ExactFormsEqualIffIsomorphic(g, h, budget, x, y);
    }
  }
}
