/** The call depth of a program: the functions on its longest chain of direct calls, or recursion. */
module CallDepth {
  import opened Digraph
  import opened Listing
  import opened Tarjan

  type Function = string

  /** The function of each block, and the blocks each block calls. */
  datatype Program = Program(owner: seq<Function>, calls: map<nat, set<nat>>, reachable: set<nat>) {
    predicate Valid() {
      forall n <- reachable :: n < |owner| && n in calls
    }
  }

  function Functions(p: Program): set<Function>
    requires p.Valid()
  {
    set n | n in p.reachable :: p.owner[n]
  }

  /** Block `m` of `f` calls a block of another function `g`, both reachable. */
  predicate CallsAt(p: Program, f: Function, g: Function, m: nat, n: nat)
    requires p.Valid()
  {
    m in p.reachable && n in p.reachable && n in p.calls[m] && p.owner[m] == f && p.owner[n] == g && f != g
  }

  function Callees(p: Program, f: Function): set<Function>
    requires p.Valid()
  {
    set g | g in Functions(p) && exists m, n :: m in p.reachable && n in p.calls[m] && CallsAt(p, f, g, m, n)
  }

  /** Calls between different functions, from reachable blocks to reachable blocks. */
  function CallGraph(p: Program): (e: Graph<Function>)
    requires p.Valid()
    ensures Closed(e)
  {
    map f | f in Functions(p) :: Callees(p, f)
  }

  // ------------------------------------------------------------ chains of calls, over the program

  /** A call from a reachable block of `f` to a reachable block of another function `g`. */
  ghost predicate CallsAcross(p: Program, f: Function, g: Function)
    requires p.Valid()
  {
    f != g && exists m, n :: m in p.reachable && n in p.calls[m] && n in p.reachable && p.owner[m] == f && p.owner[n] == g
  }

  /** Functions that call one another in turn, the first of them reachable. */
  ghost predicate CallChain(p: Program, fs: seq<Function>)
    requires p.Valid()
  {
    && fs != [] && (exists m :: m in p.reachable && p.owner[m] == fs[0])
    && forall i :: 0 <= i < |fs| - 1 ==> CallsAcross(p, fs[i], fs[i + 1])
  }

  /** A chain that comes back to its first function. */
  ghost predicate ClosedChain(p: Program, fs: seq<Function>)
    requires p.Valid()
  {
    CallChain(p, fs) && |fs| >= 2 && fs[0] == fs[|fs| - 1]
  }

  lemma EdgeIsCall(p: Program, f: Function, g: Function)
    requires p.Valid()
    ensures f in CallGraph(p) <==> exists m :: m in p.reachable && p.owner[m] == f
    ensures f in CallGraph(p) && g in CallGraph(p)[f] <==> CallsAcross(p, f, g)
  {
    if m, n :| m in p.reachable && n in p.calls[m] && n in p.reachable && p.owner[m] == f && p.owner[n] == g && f != g {
      assert CallsAt(p, f, g, m, n);
      assert f in Functions(p) && g in Functions(p);
    }
  }

  lemma ChainIsPath(p: Program, fs: seq<Function>)
    requires p.Valid()
    ensures CallChain(p, fs) <==> Path(CallGraph(p), fs)
  {
    var e := CallGraph(p);
    hide CallGraph, CallsAcross;
    if fs != [] {
      EdgeIsCall(p, fs[0], fs[0]);
    }
    if CallChain(p, fs) {
      forall i | 0 <= i < |fs| - 1 ensures fs[i] in e && fs[i + 1] in e[fs[i]] {
        assert CallsAcross(p, fs[i], fs[i + 1]);
        EdgeIsCall(p, fs[i], fs[i + 1]);
      }
      ChainInside(e, fs);
    }
    if Path(e, fs) {
      forall i | 0 <= i < |fs| - 1 ensures CallsAcross(p, fs[i], fs[i + 1]) {
        assert fs[i + 1] in e[fs[i]];
        EdgeIsCall(p, fs[i], fs[i + 1]);
      }
    }
  }

  lemma ChainInside(e: Graph<Function>, fs: seq<Function>)
    requires Closed(e) && fs != [] && fs[0] in e
    requires forall i :: 0 <= i < |fs| - 1 ==> fs[i] in e && fs[i + 1] in e[fs[i]]
    ensures Path(e, fs)
  {
    forall i | 0 <= i < |fs| ensures fs[i] in e {
      if i > 0 {
        assert fs[(i - 1) + 1] in e[fs[i - 1]];
      }
    }
  }

  lemma CycleClosesChain(p: Program)
    requires p.Valid() && HasCycle(CallGraph(p))
    ensures exists fs :: ClosedChain(p, fs)
  {
    var e := CallGraph(p);
    hide CallGraph, CallChain, CallsAcross;
    var x, y :| x in e && y in e[x] && Reach(e, y, x);
    var q :| PathFrom(e, q, y, x);
    assert Path(e, [x] + q);
    ChainIsPath(p, [x] + q);
    assert ClosedChain(p, [x] + q);
  }

  lemma ClosedChainIsCycle(p: Program, fs: seq<Function>)
    requires p.Valid() && ClosedChain(p, fs)
    ensures HasCycle(CallGraph(p))
  {
    var e := CallGraph(p);
    hide CallGraph, CallChain, CallsAcross;
    ChainIsPath(p, fs);
    assert fs[0 + 1] in e[fs[0]];
    assert PathFrom(e, fs[1..], fs[1], fs[0]);
  }

  lemma CycleIsClosedChain(p: Program)
    requires p.Valid()
    ensures HasCycle(CallGraph(p)) <==> exists fs :: ClosedChain(p, fs)
  {
    hide HasCycle, ClosedChain;
    if HasCycle(CallGraph(p)) {
      CycleClosesChain(p);
    }
    if fs :| ClosedChain(p, fs) {
      ClosedChainIsCycle(p, fs);
    }
  }

  /** The longest chain of calls, over the program. */
  ghost predicate LongestChain(p: Program, depth: nat)
    requires p.Valid()
  {
    && (depth == 0 <==> p.reachable == {})
    && (depth > 0 ==> exists fs :: CallChain(p, fs) && |fs| == depth)
    && (forall fs :: CallChain(p, fs) ==> |fs| <= depth)
  }

  lemma LongestIsChain(p: Program, depth: nat)
    requires p.Valid() && Longest(CallGraph(p), depth)
    ensures LongestChain(p, depth)
  {
    var e := CallGraph(p);
    if m :| m in p.reachable {
      EdgeIsCall(p, p.owner[m], p.owner[m]);
    } else {
      forall f ensures f !in e {
        EdgeIsCall(p, f, f);
      }
    }
    hide CallGraph, CallChain;
    if depth > 0 {
      var fs :| Path(e, fs) && |fs| == depth;
      ChainIsPath(p, fs);
    }
    forall fs | CallChain(p, fs) ensures |fs| <= depth {
      ChainIsPath(p, fs);
    }
  }

  /** Jumps inside functions make no chains: nothing recurses, and the longest chain is one function. */
  lemma CallsInsideOnly(p: Program, fs: seq<Function>)
    requires p.Valid()
    requires forall m, n :: m in p.reachable && n in p.calls[m] && n in p.reachable ==> p.owner[m] == p.owner[n]
    ensures CallChain(p, fs) ==> |fs| == 1
    ensures !ClosedChain(p, fs)
  {
    if |fs| > 1 {
      NoCallAcross(p, fs[0], fs[0 + 1]);
    }
  }

  lemma InsideDepth(p: Program, depth: nat)
    requires p.Valid() && LongestChain(p, depth)
    requires forall m, n :: m in p.reachable && n in p.calls[m] && n in p.reachable ==> p.owner[m] == p.owner[n]
    ensures depth == if p.reachable == {} then 0 else 1
  {
    if depth > 0 {
      var fs :| CallChain(p, fs) && |fs| == depth;
      CallsInsideOnly(p, fs);
    }
  }

  lemma NoCallAcross(p: Program, f: Function, g: Function)
    requires p.Valid()
    requires forall m, n :: m in p.reachable && n in p.calls[m] && n in p.reachable ==> p.owner[m] == p.owner[n]
    ensures !CallsAcross(p, f, g)
  {
  }

  /** `d` is the length of the longest chain of calls starting at `f`. */
  ghost predicate LongestFrom(e: Graph<Function>, f: Function, d: nat) {
    && (exists p :: Path(e, p) && p[0] == f && |p| == d)
    && (forall p :: Path(e, p) && p[0] == f ==> |p| <= d)
  }

  /** `d` is the length of the longest chain of calls. */
  ghost predicate Longest(e: Graph<Function>, d: nat) {
    && (d == 0 <==> e == map[])
    && (d > 0 ==> exists p :: Path(e, p) && |p| == d)
    && (forall p :: Path(e, p) ==> |p| <= d)
  }

  // ------------------------------------------------------------ recursion is a large component

  /** The test the code makes on its components. */
  predicate Cyclic(e: Graph<Function>, answer: seq<set<Function>>) {
    exists i :: 0 <= i < |answer| && (|answer[i]| > 1 || exists f :: f in answer[i] && f in e && f in e[f])
  }

  lemma Pick(c: set<Function>, f: Function) returns (g: Function)
    requires |c| > 1 && f in c
    ensures g in c && g != f
  {
    assert |c - {f}| > 0;
    g :| g in c - {f};
  }

  lemma FirstStep(e: Graph<Function>, f: Function, g: Function) returns (h: Function)
    requires Reach(e, f, g) && f != g
    ensures f in e && h in e[f] && Reach(e, h, g)
  {
    var p :| PathFrom(e, p, f, g);
    h := p[1];
    assert PathFrom(e, p[1..], h, g);
  }

  lemma CyclicIsRecursive(e: Graph<Function>, answer: seq<set<Function>>)
    requires Closed(e) && Components(e, answer)
    ensures Cyclic(e, answer) <==> HasCycle(e)
  {
    hide Reach, Closed;
    if Cyclic(e, answer) {
      var i :| 0 <= i < |answer| && (|answer[i]| > 1 || exists f :: f in answer[i] && f in e && f in e[f]);
      if |answer[i]| > 1 {
        var f :| f in answer[i];
        var g := Pick(answer[i], f);
        var h := FirstStep(e, f, g);
        ReachTransitive(e, h, g, f);
      } else {
        var f :| f in answer[i] && f in e && f in e[f];
        ReachSelf(e, f);
      }
    }
    if HasCycle(e) {
      var f, g :| f in e && g in e[f] && Reach(e, g, f);
      RecursiveIsCyclic(e, answer, f, g);
    }
  }

  lemma RecursiveIsCyclic(e: Graph<Function>, answer: seq<set<Function>>, f: Function, g: Function)
    requires Closed(e) && Components(e, answer) && f in e && g in e[f] && Reach(e, g, f)
    ensures Cyclic(e, answer)
  {
    ReachEdge(e, f, g);
    hide Reach;
    var i :| 0 <= i < |answer| && f in answer[i];
    assert g in answer[i];
    if f != g {
      assert {f, g} <= answer[i];
      SubsetSize({f, g}, answer[i]);
    }
  }

  // ------------------------------------------------------------ the memoised recursion

  /** Callees are in strictly earlier components. */
  ghost predicate Ranked(e: Graph<Function>, rank: map<Function, nat>) {
    && rank.Keys == e.Keys
    && forall f, g :: f in e && g in e[f] && g in e ==> rank[g] < rank[f]
  }

  ghost function RankOf(e: Graph<Function>, answer: seq<set<Function>>, f: Function): (i: nat)
    requires Components(e, answer) && f in e
    ensures i < |answer| && f in answer[i]
  {
    var i :| 0 <= i < |answer| && f in answer[i];
    i
  }

  lemma RankExists(e: Graph<Function>, answer: seq<set<Function>>) returns (rank: map<Function, nat>)
    requires Closed(e) && Components(e, answer) && !HasCycle(e)
    ensures Ranked(e, rank)
  {
    rank := map f | f in e :: RankOf(e, answer, f);
    forall f, g | f in e && g in e[f] && g in e ensures rank[g] < rank[f] {
      ReachEdge(e, f, g);
      hide Reach;
      assert rank[g] <= rank[f];
      assert rank[g] == rank[f] ==> Reach(e, g, f);
    }
  }

  /** `best` is the length of the longest chain from a node of `seen`; 0 when there is none. */
  ghost predicate BestAmong(e: Graph<Function>, seen: set<Function>, best: nat) {
    && (best > 0 ==> exists g :: g in seen && LongestFrom(e, g, best))
    && (forall g <- seen :: exists d: nat :: LongestFrom(e, g, d) && d <= best)
  }

  lemma BestNext(e: Graph<Function>, seen: set<Function>, best: nat, g: Function, c: nat)
    requires BestAmong(e, seen, best) && LongestFrom(e, g, c)
    ensures BestAmong(e, seen + {g}, if c > best then c else best)
  {
    hide LongestFrom;
    forall x | x in seen + {g} ensures exists d: nat :: LongestFrom(e, x, d) && d <= if c > best then c else best {
      if x in seen {
        var d: nat :| LongestFrom(e, x, d) && d <= best;
      }
    }
  }

  lemma ChainsFrom(e: Graph<Function>, f: Function, best: nat)
    requires Closed(e) && f in e && BestAmong(e, e[f], best)
    ensures LongestFrom(e, f, 1 + best)
  {
    if best > 0 {
      var g :| g in e[f] && LongestFrom(e, g, best);
      var p :| Path(e, p) && p[0] == g && |p| == best;
      assert Path(e, [f] + p);
    } else {
      assert Path(e, [f]);
    }
    forall p | Path(e, p) && p[0] == f ensures |p| <= 1 + best {
      if |p| > 1 {
        assert p[1] in e[f] && Path(e, p[1..]);
      }
    }
  }

  class Depths {
    const graph: Graph<Function>
    var memo: map<Function, nat>

    constructor (graph: Graph<Function>)
      ensures this.graph == graph && memo == map[]
    {
      this.graph, memo := graph, map[];
    }

    ghost predicate Valid()
      reads this
    {
      Closed(graph) && forall f <- memo :: f in graph && LongestFrom(graph, f, memo[f])
    }

    /** `depth`; without recursion the ranks bound the recursion. */
    method Depth(f: Function, ghost rank: map<Function, nat>) returns (d: nat)
      requires Valid() && Ranked(graph, rank) && f in graph
      modifies this
      ensures Valid() && f in memo && memo[f] == d
      decreases rank[f]
    {
      hide LongestFrom, BestAmong;
      if f !in memo {
        var best := 0;
        NothingSeen(graph);
        var todo := graph[f];
        ghost var seen: set<Function> := {};
        while todo != {}
          invariant Valid() && todo <= graph[f] && seen == graph[f] - todo
          invariant BestAmong(graph, seen, best)
        {
          var child :| child in todo;
          var c := Depth(child, rank);
          BestNext(graph, seen, best, child, c);
          if c > best {
            best := c;
          }
          todo := todo - {child};
          seen := seen + {child};
        }
        assert seen == graph[f];
        ChainsFrom(graph, f, best);
        memo := memo[f := 1 + best];
      }
      d := memo[f];
    }
  }

  /** `call_depth`: recursion is reported exactly when some chain of calls between different functions
      closes, and otherwise the answer is the length of the longest chain. */
  method MaximumDepth(p: Program) returns (depth: nat, recursive: bool)
    requires p.Valid()
    ensures recursive <==> exists fs :: ClosedChain(p, fs)
    ensures !recursive ==> LongestChain(p, depth)
  {
    hide *;
    CycleIsClosedChain(p);
    depth, recursive := GraphDepth(CallGraph(p));
    if !recursive {
      LongestIsChain(p, depth);
    }
  }

  /** Once the graph is built: its components, and the memoised recursion. */
  method GraphDepth(e: Graph<Function>) returns (depth: nat, recursive: bool)
    requires Closed(e)
    ensures recursive <==> HasCycle(e)
    ensures !recursive ==> Longest(e, depth)
  {
    hide Components, LongestFrom, HasCycle, BestAmong, Cyclic;
    InsideClosed(e);
    var answer := Sccs(e, e.Keys);
    CyclicIsRecursive(e, answer);
    if Cyclic(e, answer) {
      return 0, true;
    }
    ghost var rank := RankExists(e, answer);
    var depths := new Depths(e);
    depth, recursive := 0, false;
    NothingSeen(e);
    var todo := e.Keys;
    ghost var seen: set<Function> := {};
    while todo != {}
      invariant depths.Valid() && depths.graph == e && todo <= e.Keys && seen == e.Keys - todo
      invariant BestAmong(e, seen, depth)
    {
      var f :| f in todo;
      var d := depths.Depth(f, rank);
      BestNext(e, seen, depth, f, d);
      if d > depth {
        depth := d;
      }
      todo := todo - {f};
      seen := seen + {f};
    }
    assert seen == e.Keys;
    LongestOverall(e, depth);
  }

  lemma InsideClosed(e: Graph<Function>)
    requires Closed(e)
    ensures Inside(e, e.Keys) == e
  {
    forall x | x in e ensures Inside(e, e.Keys)[x] == e[x] {}
  }

  lemma NothingSeen(e: Graph<Function>)
    ensures BestAmong(e, {}, 0)
  {}

  lemma LongestOverall(e: Graph<Function>, depth: nat)
    requires BestAmong(e, e.Keys, depth)
    ensures Longest(e, depth)
  {
    forall f | f in e ensures depth > 0 {
      var d: nat :| LongestFrom(e, f, d) && d <= depth;
    }
    forall p | Path(e, p) ensures |p| <= depth {
      assert p[0] in e.Keys;
    }
  }
}
