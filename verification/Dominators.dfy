/** Dominators of a call graph by the iterative greatest fixed point, and the tree of immediate
    dominators read off it by size. */
module Dominators {
  import opened Digraph
  import opened Levels
  import opened Listing

  type Name = string

  datatype Call = Call(caller: Name, callee: Name)

  function Successors(calls: seq<Call>, n: Name): set<Name> {
    set c | c in calls && c.caller == n :: c.callee
  }

  function Predecessors(calls: seq<Call>, n: Name): set<Name> {
    set c | c in calls && c.callee == n :: c.caller
  }

  /** Every name that occurs, with its successors. */
  function CallGraph(root: Name, calls: seq<Call>): (e: Graph<Name>)
    ensures Closed(e) && root in e
    ensures forall m, n :: m in e && n in e[m] <==> n in Successors(calls, m)
    ensures forall m, n :: m in Predecessors(calls, n) <==> n in Successors(calls, m)
  {
    var names := {root} + (set c | c in calls :: c.caller) + (set c | c in calls :: c.callee);
    map n | n in names :: Successors(calls, n)
  }

  // ------------------------------------------------------------ paths of calls

  /** Names that call one another in turn, from the root to `v`. */
  ghost predicate CallPath(root: Name, calls: seq<Call>, p: seq<Name>, v: Name) {
    && p != [] && p[0] == root && p[|p| - 1] == v
    && forall i :: 0 <= i < |p| - 1 ==> Call(p[i], p[i + 1]) in calls
  }

  /** `d` is on every path of calls to `v`. */
  ghost predicate OnEveryCallPath(root: Name, calls: seq<Call>, d: Name, v: Name) {
    forall p :: CallPath(root, calls, p, v) ==> d in p
  }

  /** Of the names on every path of calls to `v`, itself apart, `d` is the last. */
  ghost predicate LastOnEveryCallPath(root: Name, calls: seq<Call>, d: Name, v: Name) {
    && d != v && OnEveryCallPath(root, calls, d, v)
    && forall c :: c != v && OnEveryCallPath(root, calls, c, v) ==> OnEveryCallPath(root, calls, c, d)
  }

  lemma EdgeIsCall(root: Name, calls: seq<Call>, m: Name, n: Name)
    ensures m in CallGraph(root, calls) && n in CallGraph(root, calls)[m] <==> Call(m, n) in calls
    ensures Call(m, n) in calls ==> n in CallGraph(root, calls)
  {
    assert Call(m, n) in calls ==> Call(m, n).caller == m && Call(m, n).callee == n;
  }

  lemma PathIsCallPath(root: Name, calls: seq<Call>, p: seq<Name>, v: Name)
    ensures PathFrom(CallGraph(root, calls), p, root, v) <==> CallPath(root, calls, p, v)
  {
    var e := CallGraph(root, calls);
    hide CallGraph;
    forall i | 0 <= i < |p| - 1
      ensures p[i] in e && p[i + 1] in e[p[i]] <==> Call(p[i], p[i + 1]) in calls
      ensures Call(p[i], p[i + 1]) in calls ==> p[i + 1] in e
    {
      EdgeIsCall(root, calls, p[i], p[i + 1]);
    }
    if CallPath(root, calls, p, v) {
      forall i | 0 <= i < |p| ensures p[i] in e {
        assert i > 0 ==> Call(p[i - 1], p[(i - 1) + 1]) in calls;
      }
    }
  }

  lemma DominatesIsOnPaths(root: Name, calls: seq<Call>, d: Name, v: Name)
    ensures Dominates(CallGraph(root, calls), root, d, v) <==> OnEveryCallPath(root, calls, d, v)
  {
    forall p ensures PathFrom(CallGraph(root, calls), p, root, v) <==> CallPath(root, calls, p, v) {
      PathIsCallPath(root, calls, p, v);
    }
  }

  lemma ImmediateIsLast(root: Name, calls: seq<Call>, d: Name, v: Name)
    ensures ImmediateDominator(CallGraph(root, calls), root, d, v) <==> LastOnEveryCallPath(root, calls, d, v)
  {
    forall c, n ensures Dominates(CallGraph(root, calls), root, c, n) <==> OnEveryCallPath(root, calls, c, n) {
      DominatesIsOnPaths(root, calls, c, n);
    }
    hide CallGraph, Dominates, OnEveryCallPath;
  }

  lemma ReachIsCallPath(root: Name, calls: seq<Call>, v: Name)
    ensures Reach(CallGraph(root, calls), root, v) <==> exists p :: CallPath(root, calls, p, v)
  {
    forall p ensures PathFrom(CallGraph(root, calls), p, root, v) <==> CallPath(root, calls, p, v) {
      PathIsCallPath(root, calls, p, v);
    }
  }

  // ------------------------------------------------------------ dominance

  /** `d` lies on every call path from the root to `v`. */
  ghost predicate Dominates(e: Graph<Name>, root: Name, d: Name, v: Name) {
    forall p :: PathFrom(e, p, root, v) ==> d in p
  }

  ghost predicate StrictlyDominates(e: Graph<Name>, root: Name, d: Name, v: Name) {
    d != v && Dominates(e, root, d, v)
  }

  ghost predicate ImmediateDominator(e: Graph<Name>, root: Name, d: Name, v: Name) {
    && StrictlyDominates(e, root, d, v)
    && forall c :: StrictlyDominates(e, root, c, v) ==> Dominates(e, root, c, d)
  }

  lemma SplitPath(e: Graph<Name>, p: seq<Name>, u: Name, v: Name, k: nat)
    requires PathFrom(e, p, u, v) && k < |p|
    ensures PathFrom(e, p[..k + 1], u, p[k]) && PathFrom(e, p[k..], p[k], v)
  {}

  lemma JoinPaths(e: Graph<Name>, p: seq<Name>, q: seq<Name>, u: Name, v: Name, w: Name)
    requires PathFrom(e, p, u, v) && PathFrom(e, q, v, w)
    ensures PathFrom(e, p + q[1..], u, w)
  {}

  lemma DominatesTransitive(e: Graph<Name>, root: Name, c: Name, d: Name, v: Name)
    requires Dominates(e, root, c, d) && Dominates(e, root, d, v)
    ensures Dominates(e, root, c, v)
  {
    forall p | PathFrom(e, p, root, v) ensures c in p {
      var k :| 0 <= k < |p| && p[k] == d;
      SplitPath(e, p, root, v, k);
      assert c in p[..k + 1];
    }
  }

  /** Two different names do not dominate each other: each path to one would hold a shorter one. */
  lemma {:induction false} NoMutualDominance(e: Graph<Name>, root: Name, c: Name, d: Name, p: seq<Name>)
    requires c != d && Dominates(e, root, c, d) && PathFrom(e, p, root, d)
    ensures !Dominates(e, root, d, c)
    decreases |p|
  {
    var k :| 0 <= k < |p| && p[k] == c;
    SplitPath(e, p, root, d, k);
    if Dominates(e, root, d, c) {
      NoMutualDominance(e, root, d, c, p[..k + 1]);
    }
  }

  /** The last place where either of two names occurs. */
  lemma {:induction false} LastOf(p: seq<Name>, c: Name, d: Name) returns (k: nat)
    requires c in p
    ensures k < |p| && (p[k] == c || p[k] == d)
    ensures forall i :: k < i < |p| ==> p[i] != c && p[i] != d
  {
    var n := |p| - 1;
    if p[n] == c || p[n] == d {
      k := n;
    } else {
      assert p == p[..n] + [p[n]];
      k := LastOf(p[..n], c, d);
      assert forall i :: k < i < n ==> p[..n][i] == p[i];
    }
  }

  /** If a path to `v` last meets `d` and then no `c`, then `c` dominates `d`. */
  lemma LastDominated(e: Graph<Name>, root: Name, c: Name, d: Name, v: Name, p: seq<Name>, k: nat)
    requires Dominates(e, root, c, v) && PathFrom(e, p, root, v)
    requires k < |p| && p[k] == d && forall i :: k < i < |p| ==> p[i] != c
    ensures Dominates(e, root, c, d)
  {
    SplitPath(e, p, root, v, k);
    var after := p[k..][1..];
    assert c !in after by {
      assert after == p[k + 1..];
    }
    forall q | PathFrom(e, q, root, d) ensures c in q {
      JoinPaths(e, q, p[k..], root, d, v);
      assert c in q + after;
    }
  }

  /** The dominators of a reachable name form a chain. */
  lemma DominatorsChain(e: Graph<Name>, root: Name, c: Name, d: Name, v: Name)
    requires Reach(e, root, v) && Dominates(e, root, c, v) && Dominates(e, root, d, v)
    ensures Dominates(e, root, c, d) || Dominates(e, root, d, c)
  {
    var p :| PathFrom(e, p, root, v);
    var k := LastOf(p, c, d);
    if p[k] == d {
      LastDominated(e, root, c, d, v, p, k);
    } else {
      LastDominated(e, root, d, c, v, p, k);
    }
  }

  // ------------------------------------------------------------ the fixed point

  type Table = map<Name, set<Name>>

  ghost predicate Shaped(e: Graph<Name>, root: Name, reachable: set<Name>, dom: Table) {
    && dom.Keys == reachable && root in reachable && reachable <= e.Keys
    && (forall v <- reachable :: dom[v] <= reachable)
    && dom[root] == {root}
  }

  ghost predicate CoversDominators(e: Graph<Name>, root: Name, reachable: set<Name>, dom: Table) {
    dom.Keys == reachable && forall v <- reachable, d <- reachable :: Dominates(e, root, d, v) ==> d in dom[v]
  }

  ghost predicate Shrinking(calls: seq<Call>, root: Name, dom: Table) {
    forall v <- dom :: v != root ==> Update(calls, dom, v) <= dom[v]
  }

  /** What every pass keeps: the table covers the dominators and never undershoots its own update. */
  ghost predicate Over(e: Graph<Name>, calls: seq<Call>, root: Name, reachable: set<Name>, dom: Table) {
    Shaped(e, root, reachable, dom) && CoversDominators(e, root, reachable, dom) && Shrinking(calls, root, dom)
  }

  /** `set.intersection` of the rows of the incoming callers; empty without any. */
  function Meet(dom: Table, incoming: set<Name>): set<Name>
    requires incoming <= dom.Keys
  {
    if incoming == {} then {}
    else set d | d in Joined(dom, incoming) && forall p <- incoming :: d in dom[p]
  }

  function Joined(dom: Table, incoming: set<Name>): set<Name>
    requires incoming <= dom.Keys
  {
    set p, d | p in incoming && d in dom[p] :: d
  }

  function Update(calls: seq<Call>, dom: Table, v: Name): set<Name> {
    {v} + Meet(dom, Predecessors(calls, v) * dom.Keys)
  }

  lemma MeetIs(dom: Table, incoming: set<Name>, d: Name)
    requires incoming <= dom.Keys
    ensures d in Meet(dom, incoming) <==> incoming != {} && forall p <- incoming :: d in dom[p]
  {
    if incoming != {} && forall p <- incoming :: d in dom[p] {
      var p :| p in incoming;
      assert d in dom[p];
    }
  }

  /** Smaller rows give smaller updates. */
  lemma UpdateMonotone(calls: seq<Call>, dom: Table, dom': Table, v: Name)
    requires dom.Keys == dom'.Keys && forall p <- dom :: dom'[p] <= dom[p]
    ensures Update(calls, dom', v) <= Update(calls, dom, v)
  {
    var incoming := Predecessors(calls, v) * dom.Keys;
    forall d | d in Meet(dom', incoming) ensures d in Meet(dom, incoming) {
      MeetIs(dom', incoming, d);
      MeetIs(dom, incoming, d);
    }
  }

  /** A dominator of `v` other than `v` dominates every caller of `v`. */
  lemma DominatesCallers(e: Graph<Name>, root: Name, d: Name, v: Name, p: Name)
    requires Dominates(e, root, d, v) && d != v && p in e && v in e && v in e[p]
    ensures Dominates(e, root, d, p)
  {
    forall q | PathFrom(e, q, root, p) ensures d in q {
      assert PathFrom(e, q + [v], root, v);
    }
  }

  /** A reachable name other than the root has a reachable caller. */
  lemma HasCaller(e: Graph<Name>, root: Name, v: Name) returns (u: Name)
    requires Reach(e, root, v) && v != root
    ensures u in e && v in e[u] && Reach(e, root, u)
  {
    var p :| PathFrom(e, p, root, v);
    u := p[|p| - 2];
    SplitPath(e, p, root, v, |p| - 2);
  }

  lemma UpdateCovers(e: Graph<Name>, calls: seq<Call>, root: Name, reachable: set<Name>, dom: Table, v: Name, d: Name)
    requires e == CallGraph(root, calls) && Over(e, calls, root, reachable, dom)
    requires forall x :: x in reachable <==> Reach(e, root, x)
    requires v in reachable && v != root && d in reachable && Dominates(e, root, d, v)
    ensures d in Update(calls, dom, v)
  {
    var incoming := Predecessors(calls, v) * dom.Keys;
    if d != v {
      var u := HasCaller(e, root, v);
      assert u in incoming;
      forall p | p in incoming ensures d in dom[p] {
        DominatesCallers(e, root, d, v, p);
      }
      MeetIs(dom, incoming, d);
    }
  }

  lemma UpdateShrinks(calls: seq<Call>, root: Name, dom: Table, v: Name)
    requires Shrinking(calls, root, dom) && v in dom && v != root
    ensures Shrinking(calls, root, dom[v := Update(calls, dom, v)])
  {
    hide Update;
    var dom' := dom[v := Update(calls, dom, v)];
    forall x | x in dom' && x != root ensures Update(calls, dom', x) <= dom'[x] {
      UpdateMonotone(calls, dom, dom', x);
    }
  }

  /** Overwriting one row by its update keeps the table above the dominators. */
  lemma UpdateKeeps(e: Graph<Name>, calls: seq<Call>, root: Name, reachable: set<Name>, dom: Table, v: Name)
    requires e == CallGraph(root, calls) && Over(e, calls, root, reachable, dom)
    requires forall x :: x in reachable <==> Reach(e, root, x)
    requires v in reachable && v != root
    ensures Over(e, calls, root, reachable, dom[v := Update(calls, dom, v)])
  {
    hide Update, CallGraph, Reach, Dominates;
    var dom' := dom[v := Update(calls, dom, v)];
    forall d | d in reachable && Dominates(e, root, d, v) ensures d in dom'[v] {
      UpdateCovers(e, calls, root, reachable, dom, v, d);
    }
    UpdateShrinks(calls, root, dom, v);
    assert Shaped(e, root, reachable, dom') by {
      assert Update(calls, dom, v) <= dom[v];
    }
  }

  /** At a fixed point every entry of a row is a dominator. */
  lemma {:induction false} FixedPointDominates(
      e: Graph<Name>, calls: seq<Call>, root: Name, reachable: set<Name>, dom: Table, v: Name, d: Name, p: seq<Name>)
    requires e == CallGraph(root, calls) && Over(e, calls, root, reachable, dom)
    requires forall x :: x in reachable <==> Reach(e, root, x)
    requires forall x <- reachable :: x != root ==> dom[x] == Update(calls, dom, x)
    requires v in reachable && d in dom[v] && PathFrom(e, p, root, v)
    ensures d in p
    decreases |p|
  {
    if v != root && d != v {
      var u := p[|p| - 2];
      SplitPath(e, p, root, v, |p| - 2);
      assert u in Predecessors(calls, v) * dom.Keys;
      MeetIs(dom, Predecessors(calls, v) * dom.Keys, d);
      FixedPointDominates(e, calls, root, reachable, dom, u, d, p[..|p| - 1]);
      assert d in p[..|p| - 1];
    }
  }

  // ------------------------------------------------------------ the algorithm

  /** The names a worklist finds from the root. */
  method Reachable(root: Name, calls: seq<Call>) returns (reachable: set<Name>)
    ensures forall v :: v in reachable <==> Reach(CallGraph(root, calls), root, v)
  {
    hide CallGraph, Reach, FromEntry;
    var e := CallGraph(root, calls);
    reachable := ReachableFrom(e, [root]);
    forall v ensures v in reachable <==> Reach(e, root, v) {
      OneEntry(e, root, v);
    }
  }

  ghost function Entries(dom: Table): set<(Name, Name)> {
    set v, d | v in dom && d in dom[v] :: (v, d)
  }

  lemma RowShrinks(dom: Table, v: Name, row: set<Name>)
    requires v in dom && row < dom[v]
    ensures |Entries(dom[v := row])| < |Entries(dom)|
  {
    var dom' := dom[v := row];
    var d :| d in dom[v] && d !in row;
    assert Entries(dom') <= Entries(dom) - {(v, d)} by {
      forall x | x in Entries(dom') ensures x in Entries(dom) && x != (v, d) {}
    }
    assert (v, d) in Entries(dom);
    assert Entries(dom) - {(v, d)} == Entries(dom') + (Entries(dom) - {(v, d)} - Entries(dom'));
  }

  /** One pass over the reachable names other than the root. */
  method Pass(ghost e: Graph<Name>, root: Name, calls: seq<Call>, reachable: set<Name>, start: Table)
    returns (dom: Table, changed: bool)
    requires e == CallGraph(root, calls) && forall x :: x in reachable <==> Reach(e, root, x)
    requires Over(e, calls, root, reachable, start)
    ensures Over(e, calls, root, reachable, dom)
    ensures changed ==> |Entries(dom)| < |Entries(start)|
    ensures !changed ==> dom == start && forall v <- reachable :: v != root ==> dom[v] == Update(calls, dom, v)
  {
    hide CallGraph, Reach, Update, Entries, CoversDominators, Shrinking;
    dom, changed := start, false;
    var todo := reachable - {root};
    while todo != {}
      invariant todo <= reachable - {root}
      invariant Over(e, calls, root, reachable, dom)
      invariant changed ==> |Entries(dom)| < |Entries(start)|
      invariant !changed ==> dom == start && forall v <- reachable - {root} - todo :: dom[v] == Update(calls, dom, v)
    {
      var node :| node in todo;
      var value := Update(calls, dom, node);
      if value != dom[node] {
        RowBelow(calls, root, dom, node);
        RowShrinks(dom, node, value);
        UpdateKeeps(e, calls, root, reachable, dom, node);
        dom := dom[node := value];
        changed := true;
      }
      todo := todo - {node};
    }
  }

  lemma RowBelow(calls: seq<Call>, root: Name, dom: Table, v: Name)
    requires Shrinking(calls, root, dom) && v in dom && v != root
    ensures Update(calls, dom, v) <= dom[v]
  {}

  /** The loop until nothing changes: each row ends as exactly the dominators of its name. */
  method Dominating(root: Name, calls: seq<Call>, reachable: set<Name>) returns (dom: Table)
    requires forall x :: x in reachable <==> Reach(CallGraph(root, calls), root, x)
    ensures dom.Keys == reachable
    ensures forall v <- reachable :: dom[v] == Row(CallGraph(root, calls), root, reachable, v)
  {
    ghost var e := CallGraph(root, calls);
    hide CallGraph, Reach, Update, Entries;
    dom := map v | v in reachable :: if v == root then {root} else reachable;
    StartsOver(e, calls, root, reachable, dom);
    var changed := true;
    while changed
      invariant Over(e, calls, root, reachable, dom)
      invariant !changed ==> forall v <- reachable :: v != root ==> dom[v] == Update(calls, dom, v)
      decreases |Entries(dom)|, changed
    {
      dom, changed := Pass(e, root, calls, reachable, dom);
    }
    forall v | v in reachable ensures dom[v] == Row(e, root, reachable, v) {
      RowExact(e, calls, root, reachable, dom, v);
    }
  }

  lemma StartsOver(e: Graph<Name>, calls: seq<Call>, root: Name, reachable: set<Name>, dom: Table)
    requires e == CallGraph(root, calls) && forall x :: x in reachable <==> Reach(e, root, x)
    requires dom == map v | v in reachable :: if v == root then {root} else reachable
    ensures Over(e, calls, root, reachable, dom)
  {
    ReachSelf(e, root);
    forall x | x in reachable ensures x in e {
      ReachInside(e, root, x);
    }
    forall d | d in reachable && Dominates(e, root, d, root) ensures d == root {
      assert PathFrom(e, [root], root, root);
      assert d in [root];
    }
    forall v | v in reachable && v != root ensures Update(calls, dom, v) <= reachable {
      forall d | d in Update(calls, dom, v) && d != v ensures d in reachable {
        var incoming := Predecessors(calls, v) * dom.Keys;
        MeetIs(dom, incoming, d);
        var p :| p in incoming;
        assert d in dom[p];
      }
    }
  }

  lemma RowExact(e: Graph<Name>, calls: seq<Call>, root: Name, reachable: set<Name>, dom: Table, v: Name)
    requires e == CallGraph(root, calls) && Over(e, calls, root, reachable, dom)
    requires forall x :: x in reachable <==> Reach(e, root, x)
    requires forall x <- reachable :: x != root ==> dom[x] == Update(calls, dom, x)
    requires v in reachable
    ensures dom[v] == Row(e, root, reachable, v)
  {
    hide CallGraph, Reach, Update;
    forall d | d in dom[v] ensures Dominates(e, root, d, v) {
      forall p | PathFrom(e, p, root, v) ensures d in p {
        FixedPointDominates(e, calls, root, reachable, dom, v, d, p);
      }
    }
  }

  // ------------------------------------------------------------ the immediate dominator

  /** The reachable names that dominate `v`. */
  ghost function Row(e: Graph<Name>, root: Name, reachable: set<Name>, v: Name): set<Name> {
    set d | d in reachable && Dominates(e, root, d, v)
  }

  lemma RowFacts(e: Graph<Name>, root: Name, reachable: set<Name>, v: Name)
    requires v in reachable && root in reachable && Reach(e, root, v)
    ensures v in Row(e, root, reachable, v) && root in Row(e, root, reachable, v)
  {
    forall p | PathFrom(e, p, root, v) ensures v in p && root in p {
      assert p[0] in p && p[|p| - 1] in p;
    }
  }

  /** The rows of strict dominators are strictly nested. */
  lemma RowNested(e: Graph<Name>, root: Name, reachable: set<Name>, c: Name, d: Name)
    requires forall x <- reachable :: Reach(e, root, x)
    requires c in reachable && d in reachable && root in reachable && c != d && Dominates(e, root, c, d)
    ensures Row(e, root, reachable, c) < Row(e, root, reachable, d)
    ensures d !in Row(e, root, reachable, c)
  {
    var p :| PathFrom(e, p, root, d);
    NoMutualDominance(e, root, c, d, p);
    RowFacts(e, root, reachable, d);
    forall x | x in Row(e, root, reachable, c) ensures x in Row(e, root, reachable, d) {
      DominatesTransitive(e, root, x, c, d);
    }
  }

  /** The strict dominator with the largest row is the immediate dominator, and its row is the whole
      strict row. */
  lemma LargestIsImmediate(e: Graph<Name>, root: Name, reachable: set<Name>, v: Name, d: Name)
    requires forall x :: x in reachable <==> Reach(e, root, x)
    requires v in reachable && root in reachable && d in Row(e, root, reachable, v) - {v}
    requires forall c <- Row(e, root, reachable, v) - {v} :: |Row(e, root, reachable, c)| <= |Row(e, root, reachable, d)|
    ensures ImmediateDominator(e, root, d, v)
    ensures Row(e, root, reachable, d) == Row(e, root, reachable, v) - {v}
  {
    hide Reach;
    RowNested(e, root, reachable, d, v);
    forall c | c in Row(e, root, reachable, v) - {v} ensures Dominates(e, root, c, d) {
      DominatorsChain(e, root, c, d, v);
      if !Dominates(e, root, c, d) {
        assert c != d by {
          RowFacts(e, root, reachable, d);
        }
        RowNested(e, root, reachable, d, c);
        ProperSubsetSize(Row(e, root, reachable, d), Row(e, root, reachable, c));
      }
    }
    forall c | StrictlyDominates(e, root, c, v) ensures Dominates(e, root, c, d) {
      StrictReachable(e, root, reachable, c, v);
    }
  }

  lemma StrictReachable(e: Graph<Name>, root: Name, reachable: set<Name>, c: Name, v: Name)
    requires forall x :: x in reachable <==> Reach(e, root, x)
    requires v in reachable && Dominates(e, root, c, v)
    ensures c in reachable
  {
    var p :| PathFrom(e, p, root, v);
    var k :| 0 <= k < |p| && p[k] == c;
    SplitPath(e, p, root, v, k);
  }

  lemma ImmediateUnique(e: Graph<Name>, root: Name, c: Name, d: Name, v: Name)
    requires Reach(e, root, v) && ImmediateDominator(e, root, c, v) && ImmediateDominator(e, root, d, v)
    ensures c == d
  {
    assert Dominates(e, root, c, d) && Dominates(e, root, d, c);
    if c != d {
      var p :| PathFrom(e, p, root, v);
      var k :| 0 <= k < |p| && p[k] == d;
      SplitPath(e, p, root, v, k);
      NoMutualDominance(e, root, c, d, p[..k + 1]);
    }
  }

  /** A strict dominator with the most dominators. */
  method Largest(dom: Table, strict: set<Name>) returns (d: Name)
    requires strict != {} && strict <= dom.Keys
    ensures d in strict && forall c <- strict :: |dom[c]| <= |dom[d]|
  {
    d :| d in strict;
    var todo := strict - {d};
    while todo != {}
      invariant todo <= strict && d in strict && forall c <- strict - todo :: |dom[c]| <= |dom[d]|
    {
      var c :| c in todo;
      if |dom[c]| > |dom[d]| {
        d := c;
      }
      todo := todo - {c};
    }
  }

  /** `dominator_parents`: every reachable name but the root gets its immediate dominator, the last of the
      names that all paths of calls to it have in common. */
  method DominatorParents(root: Name, calls: seq<Call>) returns (parents: map<Name, Name>, reachable: set<Name>)
    ensures forall v :: v in reachable <==> exists p :: CallPath(root, calls, p, v)
    ensures parents.Keys == reachable - {root}
    ensures forall v <- parents :: LastOnEveryCallPath(root, calls, parents[v], v)
    ensures InGraph(CallGraph(root, calls), root, parents, reachable)
  {
    parents, reachable := GraphParents(root, calls);
    hide *;
    ParentsOverCalls(root, calls, parents, reachable);
  }

  /** What the parents are in the call graph. */
  ghost predicate InGraph(e: Graph<Name>, root: Name, parents: map<Name, Name>, reachable: set<Name>) {
    && (forall v :: v in reachable <==> Reach(e, root, v))
    && parents.Keys == reachable - {root}
    && (forall v <- parents :: ImmediateDominator(e, root, parents[v], v))
  }

  lemma ParentsOverCalls(root: Name, calls: seq<Call>, parents: map<Name, Name>, reachable: set<Name>)
    requires InGraph(CallGraph(root, calls), root, parents, reachable)
    ensures forall v :: v in reachable <==> exists p :: CallPath(root, calls, p, v)
    ensures parents.Keys == reachable - {root}
    ensures forall v <- parents :: LastOnEveryCallPath(root, calls, parents[v], v)
  {
    hide CallGraph, Reach, ImmediateDominator, LastOnEveryCallPath, CallPath;
    forall v ensures v in reachable <==> exists p :: CallPath(root, calls, p, v) {
      ReachIsCallPath(root, calls, v);
    }
    forall v | v in parents ensures LastOnEveryCallPath(root, calls, parents[v], v) {
      ImmediateIsLast(root, calls, parents[v], v);
    }
  }

  method GraphParents(root: Name, calls: seq<Call>) returns (parents: map<Name, Name>, reachable: set<Name>)
    ensures InGraph(CallGraph(root, calls), root, parents, reachable)
  {
    ghost var e := CallGraph(root, calls);
    RootReached(root, calls);
    hide CallGraph, Reach, ImmediateDominator, Row;
    reachable := Reachable(root, calls);
    var dom := Dominating(root, calls, reachable);
    assert forall v <- reachable :: dom[v] <= reachable by {
      RowReachable(e, root, reachable);
    }
    parents := map[];
    var todo := reachable - {root};
    while todo != {}
      invariant todo <= reachable - {root} && parents.Keys == reachable - {root} - todo
      invariant forall v <- parents :: ImmediateDominator(e, root, parents[v], v)
    {
      var node :| node in todo;
      var strict := dom[node] - {node};
      RowFacts(e, root, reachable, node);
      assert root in strict;
      var parent := Largest(dom, strict);
      forall c | c in strict ensures |Row(e, root, reachable, c)| <= |Row(e, root, reachable, parent)| {
        assert c in reachable && dom[c] == Row(e, root, reachable, c);
      }
      LargestIsImmediate(e, root, reachable, node, parent);
      parents := parents[node := parent];
      todo := todo - {node};
    }
  }

  lemma RowReachable(e: Graph<Name>, root: Name, reachable: set<Name>)
    ensures forall v :: Row(e, root, reachable, v) <= reachable
  {}

  lemma RootReached(root: Name, calls: seq<Call>)
    ensures Reach(CallGraph(root, calls), root, root)
  {
    ReachSelf(CallGraph(root, calls), root);
  }

  /** Following parents `n` times. */
  ghost function Ancestor(parents: map<Name, Name>, v: Name, n: nat): Name
    decreases n
  {
    if n == 0 || v !in parents then v else Ancestor(parents, parents[v], n - 1)
  }

  /** The parents form a tree: from every name they lead to the root, one dominator at a time. */
  lemma {:induction false} ParentsLeadToRoot(
      e: Graph<Name>, root: Name, reachable: set<Name>, parents: map<Name, Name>, v: Name)
    requires InGraph(e, root, parents, reachable) && root in reachable && v in reachable
    ensures exists n: nat :: Ancestor(parents, v, n) == root && n + 1 == |Row(e, root, reachable, v)|
    decreases |Row(e, root, reachable, v)|
  {
    hide Reach;
    if v == root {
      RootRow(e, root, reachable);
      assert Ancestor(parents, v, 0) == root;
    } else {
      var u := parents[v];
      StrictReachable(e, root, reachable, u, v);
      ImmediateRow(e, root, reachable, v, u);
      RowFacts(e, root, reachable, v);
      ParentsLeadToRoot(e, root, reachable, parents, u);
      var n: nat :| Ancestor(parents, u, n) == root && n + 1 == |Row(e, root, reachable, u)|;
      assert Ancestor(parents, v, n + 1) == root;
    }
  }

  lemma RootRow(e: Graph<Name>, root: Name, reachable: set<Name>)
    requires root in reachable && Reach(e, root, root)
    ensures Row(e, root, reachable, root) == {root}
  {
    ReachInside(e, root, root);
    RowFacts(e, root, reachable, root);
    assert PathFrom(e, [root], root, root);
    forall d | d in Row(e, root, reachable, root) ensures d == root {
      assert d in [root];
    }
  }

  lemma ImmediateRow(e: Graph<Name>, root: Name, reachable: set<Name>, v: Name, u: Name)
    requires forall x :: x in reachable <==> Reach(e, root, x)
    requires v in reachable && u in reachable && root in reachable && ImmediateDominator(e, root, u, v)
    ensures Row(e, root, reachable, u) == Row(e, root, reachable, v) - {v}
  {
    hide Reach, Dominates;
    RowNested(e, root, reachable, u, v);
    forall c | c in Row(e, root, reachable, v) && c != v ensures c in Row(e, root, reachable, u) {
      assert StrictlyDominates(e, root, c, v);
    }
  }
}
