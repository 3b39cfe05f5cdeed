/** Exactly which windows have a graph that does not depend on the schedule: those whose transfers are
    ordered before everything after them. */
module InvarianceLimits {
  import opened Text
  import opened Listing
  import opened CanonicalForm
  import opened Windows
  import opened Schedules
  import opened DagGraph
  import opened ScheduleInvariance

  // ------------------------------------------------------------ moving an instruction forward

  /** `i` is `k` or has to come before it. */
  ghost predicate Ahead(w: Window, k: nat, i: nat)
    requires k < |w|
  {
    i == k || (i < k && Ordered(w, i, k))
  }

  /** The instructions below `n` that are ahead, or those that are not, in window order. */
  ghost function Picked(w: Window, k: nat, n: nat, ahead: bool): (s: seq<nat>)
    requires k < |w|
    ensures forall p :: 0 <= p < |s| ==> s[p] < n
    ensures forall p, q :: 0 <= p < q < |s| ==> s[p] < s[q]
  {
    if n == 0 then [] else
      var rest := Picked(w, k, n - 1, ahead);
      if Ahead(w, k, n - 1) == ahead then rest + [n - 1] else rest
  }

  lemma {:induction false} PickedMembers(w: Window, k: nat, n: nat, ahead: bool, i: nat)
    requires k < |w|
    ensures i in Picked(w, k, n, ahead) <==> i < n && Ahead(w, k, i) == ahead
  {
    hide Ahead;
    if n > 0 {
      PickedMembers(w, k, n - 1, ahead, i);
    }
  }

  lemma {:induction false} PickedSizes(w: Window, k: nat, n: nat)
    requires k < |w|
    ensures |Picked(w, k, n, true)| + |Picked(w, k, n, false)| == n
  {
    hide Ahead;
    if n > 0 {
      PickedSizes(w, k, n - 1);
    }
  }

  /** Instruction `k` and what has to come before it first, then everything else. */
  ghost function Forward(w: Window, k: nat): seq<nat>
    requires k < |w|
  {
    Picked(w, k, |w|, true) + Picked(w, k, |w|, false)
  }

  lemma ForwardPerm(w: Window, k: nat)
    requires k < |w|
    ensures Perm(Forward(w, k), |w|)
  {
    PickedSizes(w, k, |w|);
    var a, b := Picked(w, k, |w|, true), Picked(w, k, |w|, false);
    hide Picked, Ahead;
    forall i | i in a ensures i !in b {
      PickedMembers(w, k, |w|, true, i);
      PickedMembers(w, k, |w|, false, i);
    }
    SumPerm(a, b, |w|);
  }

  lemma SumPerm(a: seq<nat>, b: seq<nat>, n: nat)
    requires |a| + |b| == n && forall x <- a :: x !in b
    requires (forall p :: 0 <= p < |a| ==> a[p] < n) && (forall p :: 0 <= p < |b| ==> b[p] < n)
    requires (forall p, q :: 0 <= p < q < |a| ==> a[p] < a[q]) && (forall p, q :: 0 <= p < q < |b| ==> b[p] < b[q])
    ensures Perm(a + b, n)
  {
    var s := a + b;
    forall i, j | 0 <= i < j < n ensures s[i] != s[j] {
      assert i < |a| ==> s[i] in a;
      assert j >= |a| ==> s[j] in b;
    }
  }

  lemma BothPicked(s: seq<nat>, x: nat, y: nat)
    requires (forall p, q :: 0 <= p < q < |s| ==> s[p] < s[q]) && x in s && y in s && x < y
    ensures Before(s, x, y)
  {
    var i: nat :| i < |s| && s[i] == x;
    var j: nat :| j < |s| && s[j] == y;
    assert j < i ==> s[j] < s[i];
  }

  lemma BeforeInSum(a: seq<nat>, b: seq<nat>, x: nat, y: nat)
    requires Before(a, x, y) || Before(b, x, y) || (x in a && y in b)
    ensures Before(a + b, x, y)
  {
    var s := a + b;
    if i, j :| 0 <= i < j < |a| && a[i] == x && a[j] == y {
      assert s[i] == x && s[j] == y;
    } else if i, j :| 0 <= i < j < |b| && b[i] == x && b[j] == y {
      assert s[|a| + i] == x && s[|a| + j] == y;
    } else {
      var i: nat :| i < |a| && a[i] == x;
      var j: nat :| j < |b| && b[j] == y;
      assert s[i] == x && s[|a| + j] == y;
    }
  }

  lemma ForwardOrders(w: Window, k: nat, i: nat, j: nat)
    requires k < |w| && i < |w| && j < |w|
    requires i < j || (Ahead(w, k, i) && !Ahead(w, k, j))
    requires Ahead(w, k, j) ==> Ahead(w, k, i)
    ensures Before(Forward(w, k), i, j)
  {
    var a, b := Picked(w, k, |w|, true), Picked(w, k, |w|, false);
    PickedMembers(w, k, |w|, Ahead(w, k, i), i);
    PickedMembers(w, k, |w|, Ahead(w, k, j), j);
    hide Picked, Ahead, Before;
    if Ahead(w, k, j) {
      BothPicked(a, i, j);
    } else if !Ahead(w, k, i) {
      BothPicked(b, i, j);
    }
    BeforeInSum(a, b, i, j);
  }

  /** What has to come before something ahead is ahead. */
  lemma AheadClosed(w: Window, k: nat, i: nat, j: nat, kind: string)
    requires k < |w| && i < j < |w| && DependsOn(w, i, j, kind) && Ahead(w, k, j)
    ensures Ahead(w, k, i)
  {
    hide DependsOn;
    assert Ordered(w, i, j);
  }

  lemma ForwardRespects(w: Window, k: nat)
    requires k < |w|
    ensures Respects(w, Forward(w, k))
  {
    ForwardPerm(w, k);
    hide Forward, Ahead, DependsOn, Before, Perm;
    forall i: nat, j: nat, kind | i < j < |w| && DependsOn(w, i, j, kind) ensures Before(Forward(w, k), i, j) {
      if Ahead(w, k, j) {
        AheadClosed(w, k, i, j, kind);
      }
      ForwardOrders(w, k, i, j);
    }
  }

  // ------------------------------------------------------------ terminator edges can only be gained

  /** The pairs of an instruction and a later transfer. */
  ghost function Terminated(w: Window): set<(nat, nat)> {
    set i: nat, j: nat | i < |w| && j < |w| && i < j && Transfers(w[j]) :: (i, j)
  }

  /** An injection into a finite set. */
  lemma {:induction false} InjectionSize<A(!new), B>(a: set<A>, b: set<B>, f: A -> B)
    requires forall x :: x in a ==> f(x) in b
    requires forall x, y :: x in a && y in a && f(x) == f(y) ==> x == y
    ensures |a| <= |b|
    decreases |a|
  {
    if a != {} {
      var x :| x in a;
      InjectionSize(a - {x}, b - {f(x)}, f);
    }
  }

  /** The image of a pair of places under a list. */
  ghost function Along(f: seq<nat>): ((nat, nat)) -> (nat, nat) {
    (e: (nat, nat)) => if e.0 < |f| && e.1 < |f| then (f[e.0], f[e.1]) else (0, 0)
  }

  lemma AlongInjective(f: seq<nat>, n: nat, x: (nat, nat), y: (nat, nat))
    requires Perm(f, n) && x.0 < n && x.1 < n && y.0 < n && y.1 < n && Along(f)(x) == Along(f)(y)
    ensures x == y
  {}

  ghost predicate Places(order: seq<nat>, at: seq<nat>, n: nat) {
    Perm(order, n) && Perm(at, n) && forall x :: 0 <= x < n ==> at[order[x]] == x && order[at[x]] == x
  }

  lemma MovedPair(w: Window, order: seq<nat>, at: seq<nat>, i: nat, j: nat)
    requires Places(order, at, |w|) && Within(order, |w|)
    requires i < |w| && j < |w| && Before(order, i, j) && Transfers(w[j])
    ensures Along(at)((i, j)) == (at[i], at[j]) && (at[i], at[j]) in Terminated(Permute(w, order))
  {
    var p, q :| 0 <= p < q < |order| && order[p] == i && order[q] == j;
    assert p == at[i] && q == at[j];
  }

  /** A terminator edge moves with its ends, and none moves to a pair that was not one. */
  lemma TerminatedMoves(w: Window, order: seq<nat>, at: seq<nat>, j: nat, k: nat, x: (nat, nat))
    requires Respects(w, order) && Within(order, |w|) && Places(order, at, |w|) && j < k < |w| && x in Terminated(w)
    ensures Along(at)(x) in Terminated(Permute(w, order)) - {Along(at)((k, j))}
  {
    var (a, b) := x;
    assert a < b < |w| && Transfers(w[b]);
    ConflictsKeepOrder(w, order, a, b);
    MovedPair(w, order, at, a, b);
    PlacesPerm(order, at, |w|);
    hide *;
    MovedElsewhere(at, |w|, x, k, j);
  }

  lemma MovedElsewhere(at: seq<nat>, n: nat, x: (nat, nat), k: nat, j: nat)
    requires Perm(at, n) && x.0 < x.1 < n && j < k < n
    ensures Along(at)(x) != Along(at)((k, j))
  {}

  lemma ItsPlaces(order: seq<nat>, n: nat)
    requires Perm(order, n)
    ensures Places(order, Inverse(order), n) && Within(order, n)
  {
    InverseOf(order, n);
  }

  lemma AlongInjectiveOn(w: Window, f: seq<nat>, n: nat)
    requires Perm(f, n) && |w| <= n
    ensures forall x, y :: x in Terminated(w) && y in Terminated(w) && Along(f)(x) == Along(f)(y) ==> x == y
  {
    hide Along, Perm, Terminated;
    forall x, y | x in Terminated(w) && y in Terminated(w) && Along(f)(x) == Along(f)(y) ensures x == y {
      TerminatedInside(w, x);
      TerminatedInside(w, y);
      AlongInjective(f, n, x, y);
    }
  }

  /** No schedule loses a terminator edge, and one that moves something before a transfer gains one. */
  lemma TerminatedGrows(w: Window, order: seq<nat>, j: nat, k: nat)
    requires Respects(w, order) && j < k < |w| && Transfers(w[j]) && Before(order, k, j)
    ensures Within(order, |w|) && |Terminated(w)| < |Terminated(Permute(w, order))|
  {
    WellFormedOrder(w, order);
    hide *;
    ItsPlaces(order, |w|);
    var at, a, b := Inverse(order), Terminated(w), Terminated(Permute(w, order));
    MovedPair(w, order, at, k, j);
    forall x | x in a ensures Along(at)(x) in b - {Along(at)((k, j))} {
      TerminatedMoves(w, order, at, j, k, x);
    }
    PlacesPerm(order, at, |w|);
    AlongInjectiveOn(w, at, |w|);
    InjectionSize(a, b - {Along(at)((k, j))}, Along(at));
  }

  lemma PlacesPerm(order: seq<nat>, at: seq<nat>, n: nat)
    requires Places(order, at, n)
    ensures Perm(at, n)
  {}

  lemma TerminatedInside(w: Window, x: (nat, nat))
    requires x in Terminated(w)
    ensures x.0 < |w| && x.1 < |w|
  {}

  /** Terminator edges are those pairs. */
  lemma TerminatorEdges(w: Window, g: Graph, live: seq<Reg>, m: nat, n: nat)
    requires IsDagGraph(w, g, live)
    ensures (m, n, TERMINATOR) in g.edges <==> (m, n) in Terminated(w)
  {
    hide IsLive, LiveUse;
    assert !LiveEdge(w, live, m, n, TERMINATOR) by {
      if LiveEdge(w, live, m, n, TERMINATOR) {
        UseNotTerminator(w[n], live[m - |w|], TERMINATOR);
      }
    }
    assert (m, n, TERMINATOR) in g.edges <==> IsEdge(w, m, n, TERMINATOR);
    assert IsEdge(w, m, n, TERMINATOR) <==> m < n < |w| && Transfers(w[n]);
  }

  lemma UseNotTerminator(i: Instruction, r: Reg, kind: string)
    requires (r, kind) in Uses(i, {})
    ensures kind != TERMINATOR
  {
    hide SourceSlots, EffectiveReads;
    assert kind[0] == 'i';
    assert TERMINATOR[0] == 't';
  }

  /** Isomorphic graphs have as many. */
  lemma IsomorphicTerminated(w: Window, g: Graph, live: seq<Reg>, v: Window, h: Graph, live': seq<Reg>)
    requires IsDagGraph(w, g, live) && IsDagGraph(v, h, live') && |v| == |w| && Isomorphic(h, g)
    ensures |Terminated(v)| <= |Terminated(w)|
  {
    var f := SomeIsomorphism(h, g);
    GraphHolds(v, h, live');
    hide *;
    var a, b := Terminated(v), Terminated(w);
    forall x | x in a ensures Along(f)(x) in b {
      TerminatedCarried(w, g, live, v, h, live', f, x);
    }
    IsomorphismPerm(h, g, f);
    AlongInjectiveOn(v, f, |h.labels|);
    InjectionSize(a, b, Along(f));
  }

  lemma IsomorphismPerm(h: Graph, g: Graph, f: seq<nat>)
    requires Isomorphism(h, g, f)
    ensures Perm(f, |h.labels|)
  {}

  lemma GraphHolds(v: Window, h: Graph, live: seq<Reg>)
    requires IsDagGraph(v, h, live)
    ensures |v| <= |h.labels|
  {}

  lemma TerminatedCarried(w: Window, g: Graph, live: seq<Reg>, v: Window, h: Graph, live': seq<Reg>, f: seq<nat>, x: (nat, nat))
    requires IsDagGraph(w, g, live) && IsDagGraph(v, h, live') && Isomorphism(h, g, f) && x in Terminated(v)
    ensures Along(f)(x) in Terminated(w)
  {
    GraphHolds(v, h, live');
    TerminatedInside(v, x);
    hide IsDagGraph, Terminated;
    assert x == (x.0, x.1);
    TerminatorEdges(v, h, live', x.0, x.1);
    TerminatorEdges(w, g, live, f[x.0], f[x.1]);
  }

  // ------------------------------------------------------------ every window has a graph

  lemma {:induction false} ListOf<A>(s: set<A>) returns (list: seq<A>)
    ensures NoDup(list) && forall x :: x in list <==> x in s
    decreases |s|
  {
    if s == {} {
      list := [];
    } else {
      var x :| x in s;
      var rest := ListOf(s - {x});
      list := [x] + rest;
    }
  }

  lemma GraphExists(w: Window) returns (g: Graph, live: seq<Reg>)
    ensures IsDagGraph(w, g, live)
  {
    hide Uses, EffectiveReads, DependsOn, SelfEdge;
    live := ListOf(set i: nat, r | i < |w| && r in EffectiveReads(w[i]) && LiveUse(w, i, r) :: r);
    var kinds := {RAW, WAW, WAR, MEM, TERMINATOR};
    var dependences := set i: nat, j: nat, k | i < |w| && j < |w| && k in kinds && IsEdge(w, i, j, k) :: (i, j, k);
    var uses := set m: nat, n: nat, u | |w| <= m < |w| + |live| && n < |w| && u in Uses(w[n], {}) && LiveEdge(w, live, m, n, u.1)
                  :: (m, n, u.1);
    g := Graph(MapSeq(Mnemonic(), w) + MapSeq(LiveLabel, live), dependences + uses);
    forall m: nat, n: nat, k ensures (m, n, k) in g.edges <==> IsEdge(w, m, n, k) || LiveEdge(w, live, m, n, k) {
      if IsEdge(w, m, n, k) {
        EdgeKinds(w, m, n, k);
      }
      if LiveEdge(w, live, m, n, k) {
        assert (live[m - |w|], k) in Uses(w[n], {});
      }
    }
  }

  lemma EdgeKinds(w: Window, m: nat, n: nat, k: string)
    requires IsEdge(w, m, n, k)
    ensures k in {RAW, WAW, WAR, MEM, TERMINATOR}
  {}

  // ------------------------------------------------------------ the theorem

  /** Every schedule that respects the dependences rebuilds an isomorphic graph. */
  ghost predicate GraphInvariant(w: Window, g: Graph) {
    forall order, g', live' :: Respects(w, order) && IsDagGraph(Permute(w, order), g', live') ==> Isomorphic(g', g)
  }

  /** A transfer that something later need not follow can be moved behind it, which changes the graph. */
  lemma MovableTransferChanges(w: Window, g: Graph, live: seq<Reg>, j: nat, k: nat)
    requires IsDagGraph(w, g, live) && j < k < |w| && Transfers(w[j]) && !Ordered(w, j, k)
    ensures !GraphInvariant(w, g)
  {
    var order := Forward(w, k);
    ForwardRespects(w, k);
    ForwardOrders(w, k, k, j);
    var v := Permute(w, order);
    var h, live' := GraphExists(v);
    TerminatedGrows(w, order, j, k);
    hide Respects, IsDagGraph, Forward, Terminated, Isomorphic;
    if Isomorphic(h, g) {
      IsomorphicTerminated(w, g, live, v, h, live');
    }
  }

  lemma FixedIsInvariant(w: Window, g: Graph, live: seq<Reg>)
    requires IsDagGraph(w, g, live) && TransfersFixed(w)
    ensures GraphInvariant(w, g)
  {
    hide IsDagGraph, Isomorphic, TransfersFixed;
    forall order, g', live' | Respects(w, order) && IsDagGraph(Permute(w, order), g', live') ensures Isomorphic(g', g) {
      RescheduledGraphIsomorphic(w, order, g, live, g', live');
    }
  }

  /** The graph is invariant if and only if every transfer is ordered before everything after it. */
  lemma InvariantIffTransfersFixed(w: Window, g: Graph, live: seq<Reg>)
    requires IsDagGraph(w, g, live)
    ensures GraphInvariant(w, g) <==> TransfersFixed(w)
    ensures StraightLine(w) ==> GraphInvariant(w, g)
  {
    if StraightLine(w) {
      StraightLineFixed(w);
    }
    hide IsDagGraph, GraphInvariant, Ordered;
    if TransfersFixed(w) {
      FixedIsInvariant(w, g, live);
    } else {
      var j: nat, k: nat :| j < k < |w| && Transfers(w[j]) && !Ordered(w, j, k);
      MovableTransferChanges(w, g, live, j, k);
    }
  }

  // ------------------------------------------------------------ one window on either side

  const JUMP := Instruction("j", [], {}, {}, [], "directJump")
  const NOP := Instruction("nop", [], {}, {}, [], "ordinary")

  lemma NothingRead()
    ensures Transfers(JUMP) && !Transfers(NOP) && !Conflict(JUMP, NOP)
  {
    assert SourceSlots(JUMP) == [] && SourceSlots(NOP) == [];
    assert NOP.transfer[0] == 'o' && JUMP.transfer[0] == 'd';
    assert forall l :: !ConflictAt(JUMP, NOP, l);
  }

  /** Nothing orders a jump before an instruction without operands: it can be moved to the end. */
  lemma JumpMovable(g: Graph, live: seq<Reg>)
    requires IsDagGraph([JUMP, NOP], g, live)
    ensures !GraphInvariant([JUMP, NOP], g)
  {
    var w := [JUMP, NOP];
    NothingRead();
    assert !Ordered(w, 0, 1) by {
      if kind :| DependsOn(w, 0, 1, kind) {
        EdgesConflict(w, 0, 1, kind);
      }
    }
    hide IsDagGraph, GraphInvariant, Ordered, Conflict;
    MovableTransferChanges(w, g, live, 0, 1);
  }

  /** A second jump holds the first in place, although the window is not straight-line. */
  lemma TwoJumpsFixed(g: Graph, live: seq<Reg>)
    requires IsDagGraph([JUMP, JUMP], g, live)
    ensures !StraightLine([JUMP, JUMP]) && GraphInvariant([JUMP, JUMP], g)
  {
    var w := [JUMP, JUMP];
    NothingRead();
    hide IsDagGraph, GraphInvariant, Conflict;
    assert Transfers(w[0]);
    assert Ordered(w, 0, 1) by {
      ConflictsOrdered(w, 0, 1);
    }
    assert TransfersFixed(w);
    InvariantIffTransfersFixed(w, g, live);
  }
}
