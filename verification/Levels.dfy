/** The levels of the manifest: breadth-first depths below the root, and what an instance executes. */
module Levels {
  import opened Digraph
  import opened Listing

  /** `d` is the number of edges on some path from the root to `v`. */
  ghost predicate At<T(!new)>(e: Graph<T>, root: T, v: T, d: nat) {
    exists p :: PathFrom(e, p, root, v) && |p| == d + 1
  }

  /** The depths of exactly the nodes that can be reached, each the length of a shortest path. */
  ghost predicate ShortestDepths<T(!new)>(e: Graph<T>, root: T, depths: map<T, nat>) {
    && (forall v :: v in depths <==> Reach(e, root, v))
    && (forall v <- depths :: At(e, root, v, depths[v]))
    && (forall v, d: nat :: At(e, root, v, d) ==> v in depths && depths[v] <= d)
  }

  lemma StepAt<T(!new)>(e: Graph<T>, root: T, u: T, v: T, d: nat)
    requires At(e, root, u, d) && u in e && v in e && v in e[u]
    ensures At(e, root, v, d + 1)
  {
    var p :| PathFrom(e, p, root, u) && |p| == d + 1;
    assert PathFrom(e, p + [v], root, v);
  }

  /** What the queue and the depths satisfy while nodes at depth `d` are taken off: `open` are the
      nodes whose children have not all been looked at. */
  ghost predicate Searched<T(!new)>(e: Graph<T>, root: T, depths: map<T, nat>, open: set<T>) {
    && root in depths && depths[root] == 0
    && (forall v <- depths :: v in e && At(e, root, v, depths[v]))
    && (forall u :: u in depths && u !in open ==> forall c <- e[u] :: c in depths && depths[c] <= depths[u] + 1)
  }

  /** The queue is in order of depth and spans at most two depths, beyond which nothing is known. */
  ghost predicate Queued<T(!new)>(depths: map<T, nat>, pending: seq<T>, d: nat) {
    && (forall i :: 0 <= i < |pending| ==> pending[i] in depths && d <= depths[pending[i]])
    && (forall i, j :: 0 <= i < j < |pending| ==> depths[pending[i]] <= depths[pending[j]])
    && (forall v <- depths :: depths[v] <= d + 1)
  }

  lemma {:induction false} PathBounds<T(!new)>(e: Graph<T>, root: T, depths: map<T, nat>, p: seq<T>)
    requires Closed(e) && Searched(e, root, depths, {}) && Path(e, p) && p[0] == root
    ensures p[|p| - 1] in depths && depths[p[|p| - 1]] <= |p| - 1
    decreases |p|
  {
    if |p| > 1 {
      var before := p[..|p| - 1];
      assert Path(e, before);
      PathBounds(e, root, depths, before);
      assert p[|p| - 2] == before[|before| - 1];
      assert p[|p| - 2 + 1] in e[p[|p| - 2]];
    }
  }

  lemma AllSearched<T(!new)>(e: Graph<T>, root: T, depths: map<T, nat>)
    requires Closed(e) && Searched(e, root, depths, {})
    ensures ShortestDepths(e, root, depths)
  {
    forall v, d: nat | At(e, root, v, d) ensures v in depths && depths[v] <= d {
      var p :| PathFrom(e, p, root, v) && |p| == d + 1;
      PathBounds(e, root, depths, p);
    }
    forall v ensures v in depths <==> Reach(e, root, v) {
      if v in depths {
        assert At(e, root, v, depths[v]);
      }
      if Reach(e, root, v) {
        var p :| PathFrom(e, p, root, v);
        PathBounds(e, root, depths, p);
      }
    }
  }

  ghost function Elements<T>(s: seq<T>): set<T> { set x | x in s }

  lemma ChildAdded<T(!new)>(e: Graph<T>, root: T, depths: map<T, nat>, open: set<T>, parent: T, child: T)
    requires Closed(e) && Searched(e, root, depths, open) && parent in depths && child in e[parent] && child !in depths
    ensures Searched(e, root, depths[child := depths[parent] + 1], open + {child})
  {
    StepAt(e, root, parent, child, depths[parent]);
    hide At;
    var next := depths[child := depths[parent] + 1];
    forall v | v in next ensures v in e && At(e, root, v, next[v]) {
      assert v != child ==> v in depths && next[v] == depths[v];
    }
    forall u, c | u in next && u !in open + {child} && c in e[u] ensures c in next && next[c] <= next[u] + 1 {
      assert u in depths && u !in open && next[u] == depths[u];
      assert c in depths && next[c] == depths[c];
    }
  }

  lemma QueueGrows<T(!new)>(depths: map<T, nat>, pending: seq<T>, d: nat, child: T)
    requires Queued(depths, pending, d) && child !in depths
    ensures Queued(depths[child := d + 1], pending + [child], d)
  {}

  /** The children of a node: those not met yet get the next depth and join the queue. */
  method Children<T(==,!new)>(edges: Graph<T>, ghost root: T, depths: map<T, nat>, parent: T, pending: seq<T>)
    returns (depths': map<T, nat>, pending': seq<T>)
    requires Closed(edges) && parent in depths && parent in edges
    requires Searched(edges, root, depths, Elements(pending) + {parent}) && Queued(depths, pending, depths[parent])
    ensures Searched(edges, root, depths', Elements(pending')) && Queued(depths', pending', depths[parent])
    ensures depths.Keys <= depths'.Keys <= edges.Keys
    ensures depths'.Keys == depths.Keys ==> pending' == pending
  {
    depths', pending' := depths, pending;
    var d := depths[parent];
    var rest := edges[parent];
    assert depths.Keys <= edges.Keys by {
      hide At;
    }
    hide Searched, Queued;
    while rest != {}
      invariant rest <= edges[parent] && depths.Keys <= depths'.Keys <= edges.Keys
      invariant parent in depths' && depths'[parent] == d
      invariant Searched(edges, root, depths', Elements(pending') + {parent}) && Queued(depths', pending', d)
      invariant forall c <- edges[parent] - rest :: c in depths' && depths'[c] <= d + 1
      invariant depths'.Keys == depths.Keys ==> pending' == pending
      decreases |rest|
    {
      var child :| child in rest;
      rest := rest - {child};
      NothingBeyond(depths', pending', d);
      if child !in depths' || depths'[child] > depths'[parent] + 1 {
        ChildAdded(edges, root, depths', Elements(pending') + {parent}, parent, child);
        QueueGrows(depths', pending', d, child);
        assert Elements(pending' + [child]) + {parent} == Elements(pending') + {parent} + {child};
        depths' := depths'[child := d + 1];
        pending' := pending' + [child];
      }
    }
    ParentDone(edges, root, depths', Elements(pending'), parent);
  }

  lemma NothingBeyond<T(!new)>(depths: map<T, nat>, pending: seq<T>, d: nat)
    requires Queued(depths, pending, d)
    ensures forall v <- depths :: depths[v] <= d + 1
  {}

  lemma ParentDone<T(!new)>(e: Graph<T>, root: T, depths: map<T, nat>, open: set<T>, parent: T)
    requires Closed(e) && Searched(e, root, depths, open + {parent}) && parent in depths && parent in e
    requires forall c <- e[parent] :: c in depths && depths[c] <= depths[parent] + 1
    ensures Searched(e, root, depths, open)
  {
    hide At;
  }

  lemma QueueTurns<T(!new)>(depths: map<T, nat>, pending: seq<T>, d: nat)
    requires Queued(depths, pending, d) && pending != []
    ensures pending[0] in depths && Queued(depths, pending, depths[pending[0]])
    ensures Queued(depths, pending[1..], depths[pending[0]])
  {}

  lemma Begins<T(!new)>(e: Graph<T>, root: T)
    requires Closed(e) && root in e
    ensures Searched(e, root, map[root := 0], Elements([root])) && Queued(map[root := 0], [root], 0)
  {
    assert PathFrom(e, [root], root, root);
  }

  lemma FirstOpen<T(!new)>(e: Graph<T>, root: T, depths: map<T, nat>, pending: seq<T>)
    requires pending != [] && Searched(e, root, depths, Elements(pending))
    ensures pending[0] in depths ==> pending[0] in e
    ensures Searched(e, root, depths, Elements(pending[1..]) + {pending[0]})
    ensures depths.Keys <= e.Keys
  {
    assert Elements(pending) == Elements(pending[1..]) + {pending[0]} by {
      assert pending == [pending[0]] + pending[1..];
    }
    hide At;
  }

  /** The breadth-first search from the root. The second test in the source, for a depth that could
      still be improved, never holds. */
  method Depths<T(==,!new)>(edges: Graph<T>, root: T) returns (depths: map<T, nat>)
    requires Closed(edges) && root in edges
    ensures ShortestDepths(edges, root, depths)
  {
    depths := map[root := 0];
    var pending := [root];
    ghost var d: nat := 0;
    Begins(edges, root);
    hide Searched, Queued, Elements, Closed;
    while pending != []
      invariant Searched(edges, root, depths, Elements(pending)) && Queued(depths, pending, d)
      decreases |edges.Keys - depths.Keys|, |pending|
    {
      QueueTurns(depths, pending, d);
      FirstOpen(edges, root, depths, pending);
      var parent := pending[0];
      ghost var known := depths.Keys;
      d := depths[parent];
      pending := pending[1..];
      depths, pending := Children(edges, root, depths, parent, pending);
      FewerLeft(edges.Keys, known, depths.Keys);
    }
    assert Elements<T>([]) == {} by {
      NoElements<T>();
    }
    AllSearched(edges, root, depths);
  }

  lemma NoElements<T>()
    ensures Elements<T>([]) == {}
  {}

  lemma FewerLeft<T>(all: set<T>, known: set<T>, more: set<T>)
    requires known <= more <= all
    ensures known == more || |all - more| < |all - known|
  {
    if known != more {
      assert all - known == (all - more) + (more - known) && |more - known| > 0;
    }
  }

  // ------------------------------------------------------------ reachability by a work list

  /** What is on the work list or seen was reached; what was seen has its successors there too. */
  ghost predicate Worked<T(!new)>(e: Graph<T>, entries: seq<T>, todo: seq<T>, seen: set<T>) {
    && seen <= e.Keys && (forall n <- todo :: n in e)
    && (forall n :: n in todo || n in seen ==> FromEntry(e, entries, n))
    && (forall n <- entries :: n in todo || n in seen)
    && (forall u, c :: u in seen && c in e[u] ==> c in todo || c in seen)
  }

  lemma WorkBegins<T(!new)>(e: Graph<T>, entries: seq<T>)
    requires forall n <- entries :: n in e
    ensures Worked(e, entries, entries, {})
  {
    forall n | n in entries ensures FromEntry(e, entries, n) {
      ReachSelf(e, n);
    }
  }

  lemma WorkSkips<T(!new)>(e: Graph<T>, entries: seq<T>, todo: seq<T>, seen: set<T>)
    requires Worked(e, entries, todo, seen) && todo != [] && todo[|todo| - 1] in seen
    ensures Worked(e, entries, todo[..|todo| - 1], seen)
  {
    hide FromEntry;
    assert todo == todo[..|todo| - 1] + [todo[|todo| - 1]];
  }

  lemma WorkGoesOn<T(!new)>(e: Graph<T>, entries: seq<T>, todo: seq<T>, seen: set<T>, more: seq<T>)
    requires Closed(e) && Worked(e, entries, todo, seen) && todo != [] && todo[|todo| - 1] in e
    requires var node := todo[|todo| - 1]; forall n :: n in more <==> n in e[node] - (seen + {node})
    ensures Worked(e, entries, todo[..|todo| - 1] + more, seen + {todo[|todo| - 1]})
  {
    var node := todo[|todo| - 1];
    assert node in todo && todo == todo[..|todo| - 1] + [node];
    forall c | c in e[node] ensures FromEntry(e, entries, c) {
      ReachesOn(e, entries, node, c);
    }
    hide FromEntry;
  }

  /** `reach`, and the search inside `execution_pcs`: everything reachable from the entries. */
  method ReachableFrom<T(==,!new)>(edges: Graph<T>, entries: seq<T>) returns (seen: set<T>)
    requires Closed(edges) && forall n <- entries :: n in edges
    ensures forall v :: v in seen <==> FromEntry(edges, entries, v)
  {
    seen := {};
    var todo := entries;
    WorkBegins(edges, entries);
    hide FromEntry, Closed;
    while todo != []
      invariant Worked(edges, entries, todo, seen)
      decreases |edges.Keys - seen|, |todo|
    {
      var node := todo[|todo| - 1];
      assert node in todo;
      if node in seen {
        WorkSkips(edges, entries, todo, seen);
        todo := todo[..|todo| - 1];
        continue;
      }
      FewerLeft(edges.Keys, seen, seen + {node});
      var more := InSomeOrder(edges[node] - (seen + {node}));
      WorkGoesOn(edges, entries, todo, seen, more);
      seen := seen + {node};
      todo := todo[..|todo| - 1] + more;
    }
    AllReached(edges, entries, seen);
  }

  ghost predicate FromEntry<T(!new)>(e: Graph<T>, entries: seq<T>, v: T) { exists n <- entries :: Reach(e, n, v) }

  lemma ReachesOn<T(!new)>(e: Graph<T>, entries: seq<T>, u: T, c: T)
    requires Closed(e) && FromEntry(e, entries, u) && u in e && c in e[u]
    ensures FromEntry(e, entries, c)
  {
    var n :| n in entries && Reach(e, n, u);
    hide Reach;
    ReachEdge(e, u, c);
    ReachTransitive(e, n, u, c);
  }

  lemma AllReached<T(!new)>(e: Graph<T>, entries: seq<T>, seen: set<T>)
    requires Worked(e, entries, [], seen)
    ensures forall v :: v in seen <==> FromEntry(e, entries, v)
  {
    forall v | FromEntry(e, entries, v) ensures v in seen {
      var n :| n in entries && Reach(e, n, v);
      hide Reach;
      ReachStays(e, seen, n, v);
    }
  }

  lemma OneEntry<T(!new)>(e: Graph<T>, n: T, v: T)
    ensures FromEntry(e, [n], v) <==> Reach(e, n, v)
  {
    hide Reach;
    assert n in [n];
  }

  /** `execution_pcs`: the program counters of everything an instance can reach. */
  method ExecutionPcs<T(==,!new)>(edges: Graph<T>, localPcs: map<T, set<nat>>, instance: T) returns (pcs: set<nat>)
    requires Closed(edges) && instance in edges && edges.Keys <= localPcs.Keys
    ensures forall pc :: pc in pcs <==> exists v :: Reach(edges, instance, v) && v in localPcs && pc in localPcs[v]
  {
    var reachable := ReachableFrom(edges, [instance]);
    forall v ensures v in reachable <==> Reach(edges, instance, v) {
      OneEntry(edges, instance, v);
    }
    forall v | v in reachable ensures v in localPcs {
      ReachInside(edges, instance, v);
    }
    hide Reach;
    pcs := set v, pc | v in reachable && pc in localPcs[v] :: pc;
  }
}
