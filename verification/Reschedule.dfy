/** Kahn's algorithm over the dependence edges, drawing any ready node at each step. */
module Reschedule {
  import opened Options
  import opened Listing
  import opened Windows
  import opened Dependence
  import opened Schedules

  // ------------------------------------------------------------ counting edges

  ghost function Into(edges: set<Edge>, t: nat): set<Edge> { set e | e in edges && e.1 == t }

  /** Edges into `t` whose source has not been placed. */
  ghost function Waiting(edges: set<Edge>, placed: seq<nat>, t: nat): set<Edge> {
    set e | e in edges && e.1 == t && e.0 !in placed
  }

  ghost function Between(edges: set<Edge>, s: nat, t: nat): set<Edge> {
    set e | e in edges && e.0 == s && e.1 == t
  }

  lemma PlacingReleases(edges: set<Edge>, placed: seq<nat>, n: nat, t: nat)
    requires n !in placed
    ensures |Waiting(edges, placed + [n], t)| == |Waiting(edges, placed, t)| - |Between(edges, n, t)|
  {
    assert Waiting(edges, placed, t) == Waiting(edges, placed + [n], t) + Between(edges, n, t);
  }

  ghost predicate InWindow(edges: set<Edge>, size: nat) {
    forall e <- edges :: e.0 < size && e.1 < size
  }

  /** `successors` and `indegree`, one entry per edge. */
  ghost predicate Counts(edges: set<Edge>, size: nat, successors: seq<seq<nat>>, indegree: seq<nat>) {
    && |successors| == |indegree| == size
    && (forall s {:trigger successors[s]} :: 0 <= s < size ==> Within(successors[s], size))
    && (forall s, t {:trigger Between(edges, s, t)} :: 0 <= s < size && 0 <= t < size ==>
         multiset(successors[s])[t] == |Between(edges, s, t)|)
    && (forall t {:trigger indegree[t]} :: 0 <= t < size ==> indegree[t] == |Into(edges, t)|)
  }

  lemma BetweenNext(edges: set<Edge>, e: Edge, s: nat, t: nat)
    requires e !in edges
    ensures |Between(edges + {e}, s, t)| == |Between(edges, s, t)| + (if e.0 == s && e.1 == t then 1 else 0)
  {
    if e.0 == s && e.1 == t {
      assert Between(edges + {e}, s, t) == Between(edges, s, t) + {e};
    } else {
      assert Between(edges + {e}, s, t) == Between(edges, s, t);
    }
  }

  lemma IntoNext(edges: set<Edge>, e: Edge, t: nat)
    requires e !in edges
    ensures |Into(edges + {e}, t)| == |Into(edges, t)| + (if e.1 == t then 1 else 0)
  {
    if e.1 == t {
      assert Into(edges + {e}, t) == Into(edges, t) + {e};
    } else {
      assert Into(edges + {e}, t) == Into(edges, t);
    }
  }

  lemma CountsNext(edges: set<Edge>, size: nat, successors: seq<seq<nat>>, indegree: seq<nat>, e: Edge)
    requires Counts(edges, size, successors, indegree) && e !in edges && e.0 < size && e.1 < size
    ensures Counts(edges + {e}, size, successors[e.0 := successors[e.0] + [e.1]], indegree[e.1 := indegree[e.1] + 1])
  {
    hide Between, Into;
    var edges' := edges + {e};
    var successors' := successors[e.0 := successors[e.0] + [e.1]];
    forall s: nat, t: nat | s < size && t < size
      ensures multiset(successors'[s])[t] == |Between(edges', s, t)|
    {
      BetweenNext(edges, e, s, t);
    }
    forall t: nat | t < size ensures |Into(edges', t)| == |Into(edges, t)| + (if e.1 == t then 1 else 0) {
      IntoNext(edges, e, t);
    }
  }

  method Tabulate(edges: set<Edge>, size: nat) returns (successors: seq<seq<nat>>, indegree: seq<nat>)
    requires InWindow(edges, size)
    ensures Counts(edges, size, successors, indegree)
  {
    hide Counts;
    successors, indegree := seq(size, _ => []), seq(size, _ => 0);
    var todo := edges;
    ghost var done: set<Edge> := {};
    NothingCounted(size);
    while todo != {}
      invariant todo <= edges && done == edges - todo
      invariant Counts(done, size, successors, indegree)
    {
      var e :| e in todo;
      CountsNext(done, size, successors, indegree, e);
      CountsShape(done, size, successors, indegree);
      successors := successors[e.0 := successors[e.0] + [e.1]];
      indegree := indegree[e.1 := indegree[e.1] + 1];
      todo := todo - {e};
      done := done + {e};
    }
    assert done == edges;
  }

  lemma NothingCounted(size: nat)
    ensures Counts({}, size, seq(size, _ => []), seq(size, _ => 0))
  {
    forall s: nat, t: nat ensures Between({}, s, t) == {} && Into({}, t) == {} {}
  }

  lemma CountsShape(edges: set<Edge>, size: nat, successors: seq<seq<nat>>, indegree: seq<nat>)
    requires Counts(edges, size, successors, indegree)
    ensures |successors| == |indegree| == size
  {}

  // ------------------------------------------------------------ the ready list

  /** Every edge into a placed node comes from a node placed before it. */
  ghost predicate Sound(edges: set<Edge>, placed: seq<nat>) {
    forall e <- edges :: e.1 in placed ==> Before(placed, e.0, e.1)
  }

  /** Between two placements: `indegree` counts what each node waits for, and `ready` holds exactly
      the unplaced nodes that wait for nothing. */
  ghost predicate Kahn(edges: set<Edge>, size: nat, indegree: seq<nat>, ready: seq<nat>, placed: seq<nat>) {
    && |indegree| == size && Within(placed, size) && Within(ready, size)
    && NoDup(placed) && NoDup(ready) && Sound(edges, placed)
    && (forall t {:trigger indegree[t]} :: 0 <= t < size ==> indegree[t] == |Waiting(edges, placed, t)|)
    && (forall t :: 0 <= t < size ==> (t in ready <==> t !in placed && indegree[t] == 0))
  }

  /** Inside one placement, after the first `q` successors of `node` have been released. */
  ghost predicate Releasing(edges: set<Edge>, size: nat, indegree: seq<nat>, ready: seq<nat>, placed: seq<nat>,
                            successors: seq<nat>, q: nat)
    requires q <= |successors|
  {
    && |indegree| == size && Within(ready, size) && NoDup(ready)
    && (forall t {:trigger indegree[t]} :: 0 <= t < size ==>
         indegree[t] == |Waiting(edges, placed, t)| + multiset(successors[q..])[t])
    && (forall t :: 0 <= t < size ==> (t in ready <==> t !in placed && indegree[t] == 0))
  }

  lemma KahnStarts(edges: set<Edge>, size: nat, indegree: seq<nat>, ready: seq<nat>)
    requires |indegree| == size && Within(ready, size) && NoDup(ready)
    requires forall t {:trigger indegree[t]} :: 0 <= t < size ==> indegree[t] == |Into(edges, t)|
    requires forall t :: 0 <= t < size ==> (t in ready <==> indegree[t] == 0)
    ensures Kahn(edges, size, indegree, ready, [])
  {
    forall t ensures Waiting(edges, [], t) == Into(edges, t) {}
  }

  lemma PlaceNext(edges: set<Edge>, size: nat, successors: seq<seq<nat>>, indegree: seq<nat>,
                  ready: seq<nat>, placed: seq<nat>, k: nat)
    requires Kahn(edges, size, indegree, ready, placed) && k < |ready|
    requires |successors| == size && Within(successors[ready[k]], size)
    requires forall t {:trigger Between(edges, ready[k], t)} :: 0 <= t < size ==>
               multiset(successors[ready[k]])[t] == |Between(edges, ready[k], t)|
    ensures var node := ready[k];
            && NoDup(placed + [node]) && Within(placed + [node], size) && Sound(edges, placed + [node])
            && Releasing(edges, size, indegree, Rest(ready, k), placed + [node], successors[node], 0)
            && forall t <- successors[node] :: t !in placed + [node]
  {
    var node := ready[k];
    var placed' := placed + [node];
    assert node in ready;
    assert |Waiting(edges, placed, node)| == 0;
    SoundNext(edges, placed, node);
    forall t: nat | t < size
      ensures indegree[t] == |Waiting(edges, placed', t)| + multiset(successors[node][0..])[t]
    {
      PlacingReleases(edges, placed, node, t);
      assert successors[node][0..] == successors[node];
    }
    forall t | t in successors[node] ensures t !in placed' {
      assert multiset(successors[node])[t] > 0;
      assert Between(edges, node, t) != {};
      var e :| e in Between(edges, node, t);
      assert e in edges;
      assert t == node ==> e in Waiting(edges, placed, node);
      assert t in placed ==> Before(placed, node, t) ;
    }
    RestElements(ready, node, k);
  }

  lemma SoundNext(edges: set<Edge>, placed: seq<nat>, node: nat)
    requires Sound(edges, placed) && node !in placed && Waiting(edges, placed, node) == {}
    ensures Sound(edges, placed + [node])
  {
    var placed' := placed + [node];
    forall e | e in edges && e.1 in placed' ensures Before(placed', e.0, e.1) {
      if e.1 in placed {
        var i, j :| 0 <= i < j < |placed| && placed[i] == e.0 && placed[j] == e.1;
        assert placed'[i] == e.0 && placed'[j] == e.1;
      } else {
        assert e !in Waiting(edges, placed, node);
        var i :| 0 <= i < |placed| && placed[i] == e.0;
        assert placed'[i] == e.0 && placed'[|placed|] == e.1;
      }
    }
  }

  lemma ReleaseNext(edges: set<Edge>, size: nat, indegree: seq<nat>, ready: seq<nat>, placed: seq<nat>,
                    successors: seq<nat>, q: nat)
    requires Within(successors, size) && q < |successors|
    requires Releasing(edges, size, indegree, ready, placed, successors, q)
    requires successors[q] !in placed
    ensures indegree[successors[q]] > 0
    ensures var t := successors[q];
            var indegree' := indegree[t := indegree[t] - 1];
            Releasing(edges, size, indegree', if indegree'[t] == 0 then ready + [t] else ready, placed, successors, q + 1)
  {
    hide Waiting;
    var t := successors[q];
    assert successors[q..] == [t] + successors[q + 1..];
    assert t !in ready;
  }

  lemma ReleasedAll(edges: set<Edge>, size: nat, indegree: seq<nat>, ready: seq<nat>, placed: seq<nat>,
                    successors: seq<nat>)
    requires Releasing(edges, size, indegree, ready, placed, successors, |successors|)
    requires NoDup(placed) && Within(placed, size) && Sound(edges, placed)
    ensures Kahn(edges, size, indegree, ready, placed)
  {}

  // ------------------------------------------------------------ the algorithm

  /** Release the successors of a placed node one by one. */
  method Release(ghost edges: set<Edge>, size: nat, successors: seq<nat>, ghost placed: seq<nat>,
                 indegree: seq<nat>, ready: seq<nat>)
    returns (indegree': seq<nat>, ready': seq<nat>)
    requires Within(successors, size) && NoDup(placed) && Within(placed, size) && Sound(edges, placed)
    requires Releasing(edges, size, indegree, ready, placed, successors, 0)
    requires forall t <- successors :: t !in placed
    ensures Kahn(edges, size, indegree', ready', placed)
  {
    hide Sound;
    indegree', ready' := indegree, ready;
    for q := 0 to |successors|
      invariant Releasing(edges, size, indegree', ready', placed, successors, q)
    {
      var sink := successors[q];
      assert sink in successors;
      ReleaseNext(edges, size, indegree', ready', placed, successors, q);
      indegree' := indegree'[sink := indegree'[sink] - 1];
      if indegree'[sink] == 0 {
        ready' := ready' + [sink];
      }
    }
    ReleasedAll(edges, size, indegree', ready', placed, successors);
  }

  /** A drawn topological order of the nodes; every draw is possible at every step. */
  method DrawOrder(edges: set<Edge>, size: nat) returns (order: seq<nat>)
    requires InWindow(edges, size)
    ensures NoDup(order) && Within(order, size) && Sound(edges, order)
    ensures forall t :: 0 <= t < size && t !in order ==> exists e :: e in edges && e.1 == t && e.0 !in order
  {
    hide Sound, Waiting, Into, Between;
    var successors, indegree := Tabulate(edges, size);
    var ready: seq<nat> := [];
    for node := 0 to size
      invariant Within(ready, size) && NoDup(ready)
      invariant forall t :: t in ready <==> 0 <= t < node && indegree[t] == 0
    {
      if indegree[node] == 0 {
        ready := ready + [node];
      }
    }
    KahnStarts(edges, size, indegree, ready);
    order := [];
    while ready != []
      invariant Kahn(edges, size, indegree, ready, order)
      decreases size - |order|
    {
      var k :| 0 <= k < |ready|;
      var node := ready[k];
      PlaceNext(edges, size, successors, indegree, ready, order, k);
      order := order + [node];
      NoDupBound(order, size);
      indegree, ready := Release(edges, size, successors[node], order, indegree, Rest(ready, k));
    }
    forall t | 0 <= t < size && t !in order ensures exists e :: e in edges && e.1 == t && e.0 !in order {
      StillWaiting(edges, order, t);
    }
  }

  lemma StillWaiting(edges: set<Edge>, placed: seq<nat>, t: nat)
    requires |Waiting(edges, placed, t)| != 0
    ensures exists e :: e in edges && e.1 == t && e.0 !in placed
  {
    var e :| e in Waiting(edges, placed, t);
  }

  lemma NoDupBound(s: seq<nat>, n: nat)
    requires NoDup(s) && Within(s, n)
    ensures |s| <= n
  {
    NoDupMultiset(s);
    SubsetSize((set x | x in s), Range(n));
  }

  // ------------------------------------------------------------ every node is placed

  ghost predicate SelfDependent(w: Window) {
    exists i :: 0 <= i < |w| && SelfEdge(w, i, MEM)
  }

  lemma {:induction false} Placed(w: Window, edges: set<Edge>, order: seq<nat>, t: nat)
    requires EdgesUpTo(w, |w|, edges) && !SelfDependent(w) && t < |w|
    requires forall t :: 0 <= t < |w| && t !in order ==> exists e :: e in edges && e.1 == t && e.0 !in order
    ensures t in order
    decreases t
  {
    if t !in order {
      var e :| e in edges && e.1 == t && e.0 !in order;
      assert IsEdge(w, e.0, e.1, e.2);
      assert e.0 < t by {
        assert !SelfEdge(w, t, MEM);
      }
      Placed(w, edges, order, e.0);
    }
  }

  lemma SelfDependentBlocks(w: Window, edges: set<Edge>, order: seq<nat>)
    requires EdgesUpTo(w, |w|, edges) && SelfDependent(w)
    requires NoDup(order) && Within(order, |w|) && Sound(edges, order)
    ensures |order| != |w|
  {
    var i :| 0 <= i < |w| && SelfEdge(w, i, MEM);
    assert (i, i, MEM) in edges;
    if |order| == |w| {
      PermOnto(order, |w|);
    }
  }

  function Identity(n: nat): seq<nat> {
    seq(n, i requires 0 <= i < n => i)
  }

  /** What `reschedule` returns for a drawn order. */
  function Outcome(w: Window, order: seq<nat>): Option<Window>
    requires Within(order, |w|)
  {
    if order == Identity(|w|) then None else Some(Permute(w, order))
  }

  /** A result that some draw leads to. */
  ghost predicate Possible(w: Window, result: Option<Window>) {
    if SelfDependent(w) then result.None?
    else exists order :: Respects(w, order) && result == Outcome(w, order)
  }

  /** `reschedule`: the window in the drawn order, or nothing when that order is the original one or
      some instruction waits for itself. */
  method Reschedule(w: Window) returns (result: Option<Window>, ghost order: seq<nat>)
    ensures !SelfDependent(w) ==> Respects(w, order)
    ensures result.None? <==> SelfDependent(w) || order == Identity(|w|)
    ensures result.Some? ==> Respects(w, order) && result.value == Permute(w, order)
    ensures Possible(w, result)
  {
    var edges := DependenceEdges(w);
    forall e | e in edges ensures e.0 < |w| && e.1 < |w| {
      assert IsEdge(w, e.0, e.1, e.2);
    }
    var drawn := DrawOrder(edges, |w|);
    order := drawn;
    if SelfDependent(w) {
      SelfDependentBlocks(w, edges, order);
    } else {
      OrderComplete(w, edges, order);
    }
    if |drawn| != |w| || drawn == Identity(|w|) {
      result := None;
    } else {
      result := Some(Permute(w, drawn));
    }
  }

  /** The schedule is forced: only the original order respects the dependences. */
  ghost predicate Forced(w: Window) {
    forall order :: Respects(w, order) ==> order == Identity(|w|)
  }

  lemma OriginalRespects(w: Window)
    ensures Respects(w, Identity(|w|))
  {
    hide DependsOn;
    var order := Identity(|w|);
    forall i: nat, j: nat, kind | i < j < |w| && DependsOn(w, i, j, kind) ensures Before(order, i, j) {
      assert order[i] == i && order[j] == j;
    }
  }

  /** Nothing is a possible result for every window, forced or not; something else is possible exactly
      when the schedule is not forced and no instruction waits for itself. */
  lemma NothingAlwaysPossible(w: Window)
    ensures Possible(w, None)
    ensures (exists v :: Possible(w, Some(v))) <==> !SelfDependent(w) && !Forced(w)
  {
    OriginalRespects(w);
    hide SelfDependent, Permute;
    WithinAll(w);
    assert Outcome(w, Identity(|w|)) == None;
    if v :| Possible(w, Some(v)) {
      assert !SelfDependent(w);
      var order :| Respects(w, order) && Some(v) == Outcome(w, order);
      assert order != Identity(|w|);
    }
    if !SelfDependent(w) && !Forced(w) {
      var order :| Respects(w, order) && order != Identity(|w|);
      assert Outcome(w, order) == Some(Permute(w, order));
      assert Possible(w, Some(Permute(w, order)));
    }
  }

  lemma WithinAll(w: Window)
    ensures forall order :: Respects(w, order) ==> Within(order, |w|)
  {}

  lemma OrderComplete(w: Window, edges: set<Edge>, order: seq<nat>)
    requires EdgesUpTo(w, |w|, edges) && !SelfDependent(w)
    requires NoDup(order) && Within(order, |w|) && Sound(edges, order)
    requires forall t :: 0 <= t < |w| && t !in order ==> exists e :: e in edges && e.1 == t && e.0 !in order
    ensures Respects(w, order)
  {
    forall t: nat | t < |w| ensures t in order {
      Placed(w, edges, order, t);
    }
    NoDupBound(order, |w|);
    AllListed(order, |w|);
    forall i: nat, j: nat, kind | i < j < |w| && DependsOn(w, i, j, kind) ensures Before(order, i, j) {
      assert (i, j, kind) in edges;
    }
  }

  lemma AllListed(s: seq<nat>, n: nat)
    requires NoDup(s) && Within(s, n) && forall t: nat :: t < n ==> t in s
    ensures |s| == n
  {
    NoDupMultiset(s);
    SubsetSize(Range(n), (set x | x in s));
    NoDupBound(s, n);
  }

  /** No topological order is out of reach: having placed a prefix of one, its next node is ready. */
  lemma EveryOrderDrawable(w: Window, edges: set<Edge>, order: seq<nat>, q: nat, indegree: seq<nat>, ready: seq<nat>)
    requires EdgesUpTo(w, |w|, edges) && !SelfDependent(w) && Respects(w, order) && q < |w|
    requires Kahn(edges, |w|, indegree, ready, order[..q])
    ensures order[q] in ready
  {
    var t := order[q];
    forall e | e in edges && e.1 == t ensures e.0 in order[..q] {
      SourcePlaced(w, edges, order, q, e);
    }
    assert Waiting(edges, order[..q], t) == {};
  }

  lemma SourcePlaced(w: Window, edges: set<Edge>, order: seq<nat>, q: nat, e: Edge)
    requires EdgesUpTo(w, |w|, edges) && !SelfDependent(w) && Respects(w, order) && q < |w|
    requires e in edges && e.1 == order[q]
    ensures e.0 in order[..q]
  {
    assert IsEdge(w, e.0, e.1, e.2);
    assert e.0 < e.1 by {
      assert !SelfEdge(w, e.1, MEM);
    }
    var i, j :| 0 <= i < j < |order| && order[i] == e.0 && order[j] == e.1;
    assert j == q && order[..q][i] == e.0;
  }
}
