/** Tarjan's strongly connected components: one recursive depth-first visit over shared state. */
module Tarjan {
  import opened Digraph
  import opened Listing

  /** The nonlocal variables of the visit. */
  datatype State<T> = State(
    clock: nat, index: map<T, nat>, low: map<T, nat>, stack: seq<T>, active: set<T>, answer: seq<set<T>>)

  /** `graph[node] & nodes` for every node. */
  function Inside<T>(graph: map<T, set<T>>, nodes: set<T>): (e: Graph<T>)
    requires nodes <= graph.Keys
    ensures e.Keys == nodes && Closed(e)
  {
    map x | x in nodes :: graph[x] * nodes
  }

  ghost function Union<T>(answer: seq<set<T>>): set<T> {
    set i, x | 0 <= i < |answer| && x in answer[i] :: x
  }

  // ------------------------------------------------------------ the invariant

  ghost predicate Numbered<T(!new)>(e: Graph<T>, s: State<T>) {
    && Closed(e) && s.index.Keys <= e.Keys && s.low.Keys == s.index.Keys
    && (forall x <- s.index :: s.index[x] < s.clock)
    && (forall x :: x in s.active <==> x in s.stack)
    && s.index.Keys == s.active + Union(s.answer) && s.active !! Union(s.answer)
    && (forall i, j :: 0 <= i < j < |s.stack| ==> s.index[s.stack[i]] < s.index[s.stack[j]])
  }

  /** What the emitted components are: mutually reachable, disjoint from the earlier ones, and with
      them closed under successors. */
  ghost predicate Emitted<T(!new)>(e: Graph<T>, answer: seq<set<T>>) {
    forall i {:trigger answer[i]} :: 0 <= i < |answer| ==>
      && answer[i] != {} && answer[i] <= e.Keys && answer[i] !! Union(answer[..i])
      && (forall x, y :: x in answer[i] && y in answer[i] ==> Reach(e, x, y))
      && (forall x :: x in answer[i] ==> e[x] <= Union(answer[..i]) + answer[i])
  }

  /** Earlier elements of the stack reach later ones. */
  ghost predicate Forward<T(!new)>(e: Graph<T>, stack: seq<T>) {
    forall i, j :: 0 <= i <= j < |stack| ==> Reach(e, stack[i], stack[j])
  }

  /** How the active nodes hang together while the nodes in `gray` are being visited. */
  ghost predicate Linked<T(!new)>(e: Graph<T>, s: State<T>, gray: set<T>)
    requires Numbered(e, s)
  {
    && gray <= s.active
    && Forward(e, s.stack)
    && (forall x :: x in s.active && x !in gray ==> Descends(e, s, x))
    && (forall x :: x in s.index && x !in gray ==> e[x] <= s.index.Keys)
  }

  /** A finished node still on the stack reaches an older active node. */
  ghost predicate Descends<T(!new)>(e: Graph<T>, s: State<T>, x: T)
    requires Numbered(e, s) && x in s.index
  {
    exists z :: z in s.active && s.index[z] < s.index[x] && Reach(e, x, z)
  }

  ghost predicate Inv<T(!new)>(e: Graph<T>, s: State<T>, gray: set<T>) {
    Numbered(e, s) && Emitted(e, s.answer) && Linked(e, s, gray)
  }

  /** Visits only add: old numbers, old lows and the old stack stay. */
  ghost predicate Extends<T(!new)>(s: State<T>, t: State<T>) {
    && s.index.Keys <= s.low.Keys && t.index.Keys <= t.low.Keys && s.clock <= t.clock
    && s.index.Keys <= t.index.Keys
    && (forall x <- s.index :: t.index[x] == s.index[x] && t.low[x] == s.low[x])
    && (forall x <- t.index :: x !in s.index ==> t.index[x] >= s.clock)
    && |s.stack| <= |t.stack| && t.stack[..|s.stack|] == s.stack
    && s.answer <= t.answer
  }

  /** The bound `low[node]` puts on edges from the stack above position `k` to older active nodes. */
  ghost predicate Bounded<T(!new)>(e: Graph<T>, s: State<T>, k: nat, node: T)
    requires Numbered(e, s) && node in s.index
  {
    forall j, y :: k <= j < |s.stack| && y in e[s.stack[j]] && y in s.active && s.index[y] < s.index[node]
      ==> s.low[node] <= s.index[y]
  }

  ghost predicate Witnessed<T(!new)>(e: Graph<T>, s: State<T>, node: T)
    requires Numbered(e, s) && node in s.index
  {
    s.low[node] <= s.index[node] && exists z :: z in s.active && s.index[z] == s.low[node] && Reach(e, node, z)
  }

  /** What one finished visit promises its caller. */
  ghost predicate Visited<T(!new)>(e: Graph<T>, s: State<T>, t: State<T>, node: T)
    requires Numbered(e, t)
  {
    && Extends(s, t) && node in t.index && node !in s.index
    && if t.stack == s.stack then t.low[node] == t.index[node]
       else |t.stack| > |s.stack| && t.stack[|s.stack|] == node
            && t.low[node] < t.index[node] && Witnessed(e, t, node) && Bounded(e, t, |s.stack|, node)
  }

  /** `t` is a state of the visit of `node` that was entered in state `s`. */
  ghost predicate Entered<T(!new)>(s: State<T>, t: State<T>, gray: set<T>, node: T) {
    && Extends(s, t)
    && node in t.index && node !in s.index && gray <= s.active && s.active <= s.index.Keys
    && t.index[node] == s.clock && s.clock < t.clock && (forall x <- s.index :: s.index[x] < s.clock)
    && |t.stack| > |s.stack| && t.stack[|s.stack|] == node
  }

  /** The successors in `done` have been looked at. */
  ghost predicate Seen<T(!new)>(t: State<T>, node: T, done: set<T>) {
    && node in t.index && node in t.low && done <= t.index.Keys
    && (forall y :: y in done && y in t.active && t.index[y] < t.index[node] ==> t.low[node] <= t.index[y])
  }

  /** In the middle of the visit of `node`, entered in state `s`, with the successors in `done` seen. */
  ghost predicate Visiting<T(!new)>(e: Graph<T>, s: State<T>, t: State<T>, gray: set<T>, node: T, done: set<T>) {
    && Inv(e, t, gray + {node}) && Entered(s, t, gray, node) && Seen(t, node, done)
    && Numbered(e, t) && Witnessed(e, t, node) && Bounded(e, t, |s.stack| + 1, node)
  }

  // ------------------------------------------------------------ entering a visit

  function Pushed<T>(s: State<T>, node: T): State<T> {
    State(s.clock + 1, s.index[node := s.clock], s.low[node := s.clock], s.stack + [node], s.active + {node}, s.answer)
  }

  lemma PushNumbered<T(!new)>(e: Graph<T>, s: State<T>, node: T)
    requires Numbered(e, s) && node in e && node !in s.index
    ensures Numbered(e, Pushed(s, node)) && Extends(s, Pushed(s, node))
  {
    assert node !in s.active && node !in s.stack;
    assert Pushed(s, node).stack[..|s.stack|] == s.stack;
  }

  lemma PushLinked<T(!new)>(e: Graph<T>, s: State<T>, gray: set<T>, node: T)
    requires Numbered(e, s) && Linked(e, s, gray) && node in e && node !in s.index
    requires forall x <- s.active :: Reach(e, x, node)
    requires Numbered(e, Pushed(s, node)) && Extends(s, Pushed(s, node))
    ensures Linked(e, Pushed(s, node), gray + {node})
  {
    var t := Pushed(s, node);
    ReachSelf(e, node);
    forall i, j | 0 <= i <= j < |t.stack| ensures Reach(e, t.stack[i], t.stack[j]) {
      if j == |s.stack| && i < j {
        assert s.stack[i] in s.active;
      }
    }
    forall x | x in t.active && x !in gray + {node} ensures Descends(e, t, x) {
      var z :| z in s.active && s.index[z] < s.index[x] && Reach(e, x, z);
      assert z in t.active && t.index[z] < t.index[x];
    }
  }

  lemma Enter<T(!new)>(e: Graph<T>, s: State<T>, gray: set<T>, node: T)
    requires Inv(e, s, gray) && node in e && node !in s.index
    requires forall x <- s.active :: Reach(e, x, node)
    ensures Visiting(e, s, Pushed(s, node), gray, node, {})
  {
    hide Extends, Linked, Emitted;
    PushNumbered(e, s, node);
    PushLinked(e, s, gray, node);
    ReachSelf(e, node);
    assert gray <= s.active by {
      GrayActive(e, s, gray);
    }
  }

  lemma GrayActive<T(!new)>(e: Graph<T>, s: State<T>, gray: set<T>)
    requires Inv(e, s, gray)
    ensures gray <= s.active <= s.index.Keys
  {}

  // ------------------------------------------------------------ looking at one successor

  lemma GrayOlder<T(!new)>(e: Graph<T>, s: State<T>, t: State<T>, gray: set<T>, node: T, done: set<T>)
    requires Visiting(e, s, t, gray, node, done)
    ensures forall x <- gray :: x in t.index && t.index[x] < t.index[node]
  {
    forall x | x in gray ensures x in t.index && t.index[x] < t.index[node] {
      assert x in s.index;
    }
  }

  /** Everything on the stack from `node` up reaches `node`. */
  lemma {:induction false} StackReaches<T(!new)>(
      e: Graph<T>, s: State<T>, t: State<T>, gray: set<T>, node: T, done: set<T>, j: nat)
    requires Visiting(e, s, t, gray, node, done) && |s.stack| <= j < |t.stack|
    ensures Reach(e, t.stack[j], node)
    decreases j
  {
    hide Emitted, Witnessed, Bounded, Reach;
    var k, x := |s.stack|, t.stack[j];
    assert x in t.active;
    if j > k {
      assert t.index[t.stack[k]] < t.index[x];
      GrayOlder(e, s, t, gray, node, done);
      assert x !in gray + {node};
      var z :| z in t.active && t.index[z] < t.index[x] && Reach(e, x, z);
      var i :| 0 <= i < |t.stack| && t.stack[i] == z;
      assert i < j;
      if i >= k {
        StackReaches(e, s, t, gray, node, done, i);
      }
      ReachTransitive(e, x, z, node);
    }
  }

  lemma ActiveReaches<T(!new)>(e: Graph<T>, s: State<T>, t: State<T>, gray: set<T>, node: T, done: set<T>, y: T)
    requires Visiting(e, s, t, gray, node, done) && y in e[node]
    ensures forall x <- t.active :: Reach(e, x, y)
  {
    hide Emitted, Witnessed, Bounded, Extends, Reach;
    ReachEdge(e, node, y);
    forall x | x in t.active ensures Reach(e, x, y) {
      var i :| 0 <= i < |t.stack| && t.stack[i] == x;
      if i >= |s.stack| {
        StackReaches(e, s, t, gray, node, done, i);
      }
      ReachTransitive(e, x, node, y);
    }
  }

  function Min(a: nat, b: nat): nat { if a <= b then a else b }

  function Lowered<T>(s: State<T>, node: T, bound: nat): State<T>
    requires node in s.low
  {
    s.(low := s.low[node := Min(s.low[node], bound)])
  }

  lemma LowerInv<T(!new)>(e: Graph<T>, t: State<T>, gray: set<T>, node: T, bound: nat)
    requires Inv(e, t, gray) && node in t.index
    ensures Inv(e, Lowered(t, node, bound), gray)
  {
    hide Reach, Emitted;
    var u := Lowered(t, node, bound);
    assert Numbered(e, u);
    forall x | x in t.index ensures Descends(e, t, x) <==> Descends(e, u, x) {}
  }

  lemma LowerNumbered<T(!new)>(e: Graph<T>, t: State<T>, node: T, bound: nat)
    requires Numbered(e, t) && node in t.index
    ensures Numbered(e, Lowered(t, node, bound))
  {}

  lemma StackNodes<T(!new)>(e: Graph<T>, t: State<T>)
    requires Numbered(e, t)
    ensures forall j :: 0 <= j < |t.stack| ==> t.stack[j] in e && t.stack[j] in t.index
    ensures forall x <- t.active :: x in t.index
  {
    forall j | 0 <= j < |t.stack| ensures t.stack[j] in e && t.stack[j] in t.index {
      assert t.stack[j] in t.active;
    }
  }

  lemma LowerEntered<T(!new)>(s: State<T>, t: State<T>, gray: set<T>, node: T, bound: nat)
    requires Entered(s, t, gray, node)
    ensures Entered(s, Lowered(t, node, bound), gray, node)
  {}

  lemma LowerWitnessed<T(!new)>(e: Graph<T>, t: State<T>, node: T, z: T)
    requires Numbered(e, t) && node in t.index && Witnessed(e, t, node)
    requires z in t.active && Reach(e, node, z)
    ensures Numbered(e, Lowered(t, node, t.index[z])) && Witnessed(e, Lowered(t, node, t.index[z]), node)
  {
    hide Reach;
    var u := Lowered(t, node, t.index[z]);
    var w :| w in t.active && t.index[w] == t.low[node] && Reach(e, node, w);
    assert u.index[if t.low[node] <= t.index[z] then w else z] == u.low[node];
  }

  lemma LowerBounded<T(!new)>(e: Graph<T>, t: State<T>, k: nat, node: T, bound: nat)
    requires Numbered(e, t) && node in t.index && Bounded(e, t, k, node)
    ensures Numbered(e, Lowered(t, node, bound)) && Bounded(e, Lowered(t, node, bound), k, node)
  {}

  lemma LowerSeen<T(!new)>(t: State<T>, node: T, done: set<T>, y: T, bound: nat)
    requires Seen(t, node, done) && y in t.index
    requires y in t.active && t.index[y] < t.index[node] ==> Min(t.low[node], bound) <= t.index[y]
    ensures Seen(Lowered(t, node, bound), node, done + {y})
  {}

  /** Lowering `low[node]` to a number of an older active node that it reaches keeps the visit going. */
  lemma LowerKeeps<T(!new)>(e: Graph<T>, s: State<T>, t: State<T>, gray: set<T>, node: T, done: set<T>,
                            y: T, z: T)
    requires Visiting(e, s, t, gray, node, done) && y in t.index
    requires z in t.active && Reach(e, node, z)
    requires y in t.active && t.index[y] < t.index[node] ==> Min(t.low[node], t.index[z]) <= t.index[y]
    ensures Visiting(e, s, Lowered(t, node, t.index[z]), gray, node, done + {y})
  {
    assert node in t.index && node !in s.index && Numbered(e, t);
    hide Inv, Entered, Witnessed, Bounded, Seen, Lowered, Reach, Numbered;
    LowerInv(e, t, gray + {node}, node, t.index[z]);
    LowerEntered(s, t, gray, node, t.index[z]);
    LowerWitnessed(e, t, node, z);
    LowerBounded(e, t, |s.stack| + 1, node, t.index[z]);
    LowerSeen(t, node, done, y, t.index[z]);
  }

  /** A successor that needs no lowering. */
  lemma SkipKeeps<T(!new)>(e: Graph<T>, s: State<T>, t: State<T>, gray: set<T>, node: T, done: set<T>, y: T)
    requires Visiting(e, s, t, gray, node, done) && y in e[node] && y in t.index
    requires y in t.active ==> t.index[y] >= t.index[node]
    ensures Visiting(e, s, t, gray, node, done + {y})
  {
    hide Inv, Bounded, Witnessed, Entered, Reach;
  }

  // ------------------------------------------------------------ after a recursive visit

  lemma EnteredStays<T(!new)>(s: State<T>, t: State<T>, gray: set<T>, node: T, u: State<T>)
    requires Entered(s, t, gray, node) && Extends(t, u)
    ensures Entered(s, u, gray, node)
  {
    assert s.stack == t.stack[..|s.stack|] == u.stack[..|t.stack|][..|s.stack|] == u.stack[..|s.stack|];
    assert u.stack[..|t.stack|][|s.stack|] == node;
  }

  /** The older active nodes are the same before and after the visit of a successor. */
  lemma SameOlder<T(!new)>(e: Graph<T>, s: State<T>, t: State<T>, gray: set<T>, node: T, u: State<T>, y: T)
    requires Numbered(e, t) && Entered(s, t, gray, node) && Numbered(e, u) && Extends(t, u)
    requires y in u.active && u.index[y] < u.index[node]
    ensures y in t.active && t.index[y] == u.index[y]
  {
    var i :| 0 <= i < |u.stack| && u.stack[i] == y;
    assert u.stack[..|t.stack|][|s.stack|] == node;
    assert i < |s.stack|;
    assert u.stack[..|t.stack|][i] == y;
    assert y in t.stack;
  }

  lemma SeenKept<T(!new)>(e: Graph<T>, s: State<T>, t: State<T>, gray: set<T>, node: T, done: set<T>, u: State<T>)
    requires Numbered(e, t) && Entered(s, t, gray, node) && Numbered(e, u) && Extends(t, u)
    requires Seen(t, node, done)
    ensures Seen(u, node, done)
  {
    forall y | y in done && y in u.active && u.index[y] < u.index[node] ensures u.low[node] <= u.index[y] {
      SameOlder(e, s, t, gray, node, u, y);
    }
  }

  /** The bound on the part of the stack that was there before. */
  lemma OldBoundKept<T(!new)>(e: Graph<T>, s: State<T>, t: State<T>, gray: set<T>, node: T, u: State<T>, j: nat, y: T)
    requires Numbered(e, t) && Entered(s, t, gray, node) && Numbered(e, u) && Extends(t, u)
    requires Bounded(e, t, |s.stack| + 1, node) && node in u.low
    requires |s.stack| + 1 <= j < |t.stack| && u.stack[j] in e && y in e[u.stack[j]]
    requires y in u.active && u.index[y] < u.index[node]
    ensures u.low[node] <= u.index[y]
  {
    SameOlder(e, s, t, gray, node, u, y);
    assert u.stack[..|t.stack|][j] == t.stack[j];
  }

  lemma WitnessKept<T(!new)>(e: Graph<T>, t: State<T>, u: State<T>, node: T)
    requires Numbered(e, t) && Numbered(e, u) && Extends(t, u) && node in t.index && Witnessed(e, t, node)
    ensures Witnessed(e, u, node)
  {
    hide Reach;
    var z :| z in t.active && t.index[z] == t.low[node] && Reach(e, node, z);
    var i :| 0 <= i < |t.stack| && t.stack[i] == z;
    assert u.stack[..|t.stack|][i] == z;
    assert z in u.active;
  }

  /** A successor just visited is newer than the node. */
  lemma ChildNewer<T(!new)>(s: State<T>, t: State<T>, gray: set<T>, node: T, u: State<T>, y: T)
    requires Entered(s, t, gray, node) && Extends(t, u) && y in u.index && y !in t.index
    ensures u.index[y] > u.index[node]
  {}

  lemma ChildFacts<T(!new)>(e: Graph<T>, s: State<T>, t: State<T>, gray: set<T>, node: T, done: set<T>,
                            u: State<T>, y: T)
    requires Visiting(e, s, t, gray, node, done) && Numbered(e, u) && Visited(e, t, u, y)
    ensures Numbered(e, t) && Extends(t, u) && Entered(s, t, gray, node) && Seen(t, node, done)
    ensures Witnessed(e, t, node) && Bounded(e, t, |s.stack| + 1, node)
    ensures node in t.index && y in u.index && y !in t.index && node in u.index && node in u.low && y in u.low
    ensures node in e
    ensures u.stack == t.stack ==> u.low[y] == u.index[y]
    ensures u.stack != t.stack ==> Witnessed(e, u, y) && Bounded(e, u, |t.stack|, y)
  {
    hide Inv, Seen, Witnessed, Bounded;
  }

  /** The successor's own component was emitted: nothing changed for `node`. */
  lemma ChildEmitted<T(!new)>(e: Graph<T>, s: State<T>, t: State<T>, gray: set<T>, node: T, done: set<T>,
                              u: State<T>, y: T)
    requires Visiting(e, s, t, gray, node, done)
    requires Inv(e, u, gray + {node}) && Visited(e, t, u, y) && u.stack == t.stack
    ensures Visiting(e, s, u, gray, node, done + {y})
    ensures Lowered(u, node, u.low[y]) == u
  {
    assert Numbered(e, u);
    hide Inv, Numbered, Entered, Witnessed, Bounded, Reach, Seen, Extends, Visited, Lowered;
    ChildFacts(e, s, t, gray, node, done, u, y);
    EnteredStays(s, t, gray, node, u);
    SeenKept(e, s, t, gray, node, done, u);
    WitnessKept(e, t, u, node);
    ChildNewer(s, t, gray, node, u, y);
    SameStackBound(e, s, t, gray, node, u);
    WitnessLow(e, u, node);
    LowerNothing(u, node, u.low[y]);
    LowerSeen(u, node, done, y, u.low[y]);
  }

  lemma LowerNothing<T(!new)>(u: State<T>, node: T, bound: nat)
    requires node in u.low && u.low[node] <= bound
    ensures Lowered(u, node, bound) == u
  {
    assert u.low[node := u.low[node]] == u.low;
  }

  lemma WitnessLow<T(!new)>(e: Graph<T>, u: State<T>, node: T)
    requires Numbered(e, u) && node in u.index && Witnessed(e, u, node)
    ensures u.low[node] <= u.index[node]
  {}

  lemma SameStackBound<T(!new)>(e: Graph<T>, s: State<T>, t: State<T>, gray: set<T>, node: T, u: State<T>)
    requires Numbered(e, t) && Entered(s, t, gray, node) && Numbered(e, u) && Extends(t, u)
    requires Bounded(e, t, |s.stack| + 1, node) && node in u.index && u.stack == t.stack
    ensures Bounded(e, u, |s.stack| + 1, node)
  {
    assert node in t.index;
    hide Entered, Extends;
    forall j, y | |s.stack| + 1 <= j < |u.stack| && y in e[u.stack[j]] && y in u.active && u.index[y] < u.index[node]
      ensures u.low[node] <= u.index[y]
    {
      OldBoundKept(e, s, t, gray, node, u, j, y);
    }
  }

  /** The successor stayed on the stack: its bound is handed on. */
  lemma ChildStays<T(!new)>(e: Graph<T>, s: State<T>, t: State<T>, gray: set<T>, node: T, done: set<T>,
                            u: State<T>, y: T)
    requires Visiting(e, s, t, gray, node, done) && node in e && y in e[node]
    requires Inv(e, u, gray + {node}) && Visited(e, t, u, y) && u.stack != t.stack
    ensures Visiting(e, s, Lowered(u, node, u.low[y]), gray, node, done + {y})
  {
    assert Numbered(e, u);
    hide Inv, Numbered, Entered, Witnessed, Bounded, Reach, Seen, Extends, Lowered, Visited;
    ChildFacts(e, s, t, gray, node, done, u, y);
    EnteredStays(s, t, gray, node, u);
    LowerEntered(s, u, gray, node, u.low[y]);
    SeenKept(e, s, t, gray, node, done, u);
    ChildNewer(s, t, gray, node, u, y);
    LowerSeen(u, node, done, y, u.low[y]);
    LowerInv(e, u, gray + {node}, node, u.low[y]);
    WitnessKept(e, t, u, node);
    ChildWitness(e, u, node, y);
    ChildBound(e, s, t, gray, node, u, y);
  }

  lemma ChildWitness<T(!new)>(e: Graph<T>, u: State<T>, node: T, y: T)
    requires Numbered(e, u) && node in u.index && y in u.index && node in e && y in e[node]
    requires Witnessed(e, u, node) && Witnessed(e, u, y)
    ensures Numbered(e, Lowered(u, node, u.low[y])) && Witnessed(e, Lowered(u, node, u.low[y]), node)
  {
    hide Reach;
    var z :| z in u.active && u.index[z] == u.low[y] && Reach(e, y, z);
    ReachEdge(e, node, y);
    ReachTransitive(e, node, y, z);
    LowerWitnessed(e, u, node, z);
  }

  lemma ChildBound<T(!new)>(e: Graph<T>, s: State<T>, t: State<T>, gray: set<T>, node: T, u: State<T>, y: T)
    requires Numbered(e, t) && Entered(s, t, gray, node) && Numbered(e, u) && Extends(t, u)
    requires Bounded(e, t, |s.stack| + 1, node) && node in u.index
    requires y in u.index && u.index[y] > u.index[node] && Bounded(e, u, |t.stack|, y)
    ensures Numbered(e, Lowered(u, node, u.low[y])) && Bounded(e, Lowered(u, node, u.low[y]), |s.stack| + 1, node)
  {
    assert node in t.index;
    var v := Lowered(u, node, u.low[y]);
    LowerNumbered(e, u, node, u.low[y]);
    StackNodes(e, u);
    hide Extends, Entered, Numbered;
    forall j, x | |s.stack| + 1 <= j < |u.stack| && x in e[u.stack[j]] && x in u.active && u.index[x] < u.index[node]
      ensures v.low[node] <= u.index[x]
    {
      if j < |t.stack| {
        OldBoundKept(e, s, t, gray, node, u, j, x);
      }
    }
  }

  // ------------------------------------------------------------ leaving a visit

  lemma StayLinked<T(!new)>(e: Graph<T>, t: State<T>, gray: set<T>, node: T)
    requires Numbered(e, t) && Linked(e, t, gray + {node}) && node in t.index && node in e
    requires e[node] <= t.index.Keys && Descends(e, t, node)
    ensures Linked(e, t, gray)
  {
    hide Reach, Descends, Numbered;
  }

  lemma StayBounded<T(!new)>(e: Graph<T>, t: State<T>, k: nat, node: T)
    requires Numbered(e, t) && node in t.index && node in e && k < |t.stack| && t.stack[k] == node
    requires Bounded(e, t, k + 1, node) && Seen(t, node, e[node])
    ensures Bounded(e, t, k, node)
  {
    StackNodes(e, t);
    hide Numbered;
  }

  lemma StayDescends<T(!new)>(e: Graph<T>, t: State<T>, node: T)
    requires Numbered(e, t) && node in t.index && Witnessed(e, t, node) && t.low[node] != t.index[node]
    ensures Descends(e, t, node) && t.low[node] < t.index[node]
  {
    hide Reach;
  }

  lemma Stay<T(!new)>(e: Graph<T>, s: State<T>, t: State<T>, gray: set<T>, node: T, done: set<T>)
    requires Visiting(e, s, t, gray, node, done) && node in e && done == e[node]
    requires node in t.low && node in t.index && t.low[node] != t.index[node]
    ensures Inv(e, t, gray) && Visited(e, s, t, node)
  {
    assert e[node] <= t.index.Keys && Extends(s, t) && node !in s.index;
    assert |t.stack| > |s.stack| && t.stack[|s.stack|] == node;
    hide Reach, Emitted, Linked, Numbered, Witnessed, Bounded, Seen, Entered, Extends, Descends;
    StayDescends(e, t, node);
    StayLinked(e, t, gray, node);
    StayBounded(e, t, |s.stack|, node);
  }

  function Above<T>(t: State<T>, k: nat): set<T>
    requires k <= |t.stack|
  {
    set x | x in t.stack[k..]
  }

  function Popped<T>(t: State<T>, k: nat): State<T>
    requires k <= |t.stack|
  {
    t.(stack := t.stack[..k], active := t.active - Above(t, k), answer := t.answer + [Above(t, k)])
  }

  /** Positions and numbers on the stack agree. */
  lemma Positions<T(!new)>(e: Graph<T>, t: State<T>, k: nat)
    requires Numbered(e, t) && k < |t.stack|
    ensures forall x :: x in Above(t, k) <==> x in t.active && x in t.index && t.index[x] >= t.index[t.stack[k]]
    ensures forall x :: x in t.stack[..k] <==> x in t.active && x in t.index && t.index[x] < t.index[t.stack[k]]
  {
    StackNodes(e, t);
    forall x | x in t.stack[k..] ensures x in t.active && t.index[x] >= t.index[t.stack[k]] {
      var i :| 0 <= i < |t.stack| - k && t.stack[k..][i] == x;
      assert t.stack[k + i] == x;
    }
    forall x | x in t.stack[..k] ensures x in t.active && t.index[x] < t.index[t.stack[k]] {}
    forall x | x in t.active ensures x in t.stack[..k] || x in t.stack[k..] {
      assert t.stack == t.stack[..k] + t.stack[k..];
    }
  }

  lemma UnionAppend<T(!new)>(answer: seq<set<T>>, c: set<T>)
    ensures Union(answer + [c]) == Union(answer) + c
  {
    var longer := answer + [c];
    forall x ensures x in Union(longer) <==> x in Union(answer) + c {
      if x in Union(answer) {
        var i :| 0 <= i < |answer| && x in answer[i];
        assert x in longer[i];
      }
      if x in c {
        assert x in longer[|answer|];
      }
    }
  }

  lemma PoppedNumbered<T(!new)>(e: Graph<T>, t: State<T>, k: nat)
    requires Numbered(e, t) && k < |t.stack|
    ensures Numbered(e, Popped(t, k))
  {
    Positions(e, t, k);
    UnionAppend(t.answer, Above(t, k));
    StackNodes(e, t);
  }

  lemma PrefixForward<T(!new)>(e: Graph<T>, stack: seq<T>, k: nat)
    requires Forward(e, stack) && k <= |stack|
    ensures Forward(e, stack[..k])
  {
    hide Reach;
  }

  lemma PoppedNodes<T(!new)>(e: Graph<T>, t: State<T>, k: nat)
    requires Numbered(e, t) && k < |t.stack|
    ensures var u := Popped(t, k);
            && (forall x <- u.active :: x in t.active && x in t.index && x != t.stack[k])
            && (forall x <- t.active :: x in t.index && t.index[x] < t.index[t.stack[k]] ==> x in u.active)
            && u.stack == t.stack[..k] && u.index == t.index && t.index.Keys <= e.Keys
  {
    Positions(e, t, k);
    StackNodes(e, t);
  }

  lemma PoppedLinked<T(!new)>(e: Graph<T>, t: State<T>, gray: set<T>, k: nat)
    requires Numbered(e, t) && k < |t.stack| && Numbered(e, Popped(t, k)) && t.stack[k] in e
    requires Linked(e, t, gray + {t.stack[k]}) && e[t.stack[k]] <= t.index.Keys
    requires forall x <- gray :: x in t.index && t.stack[k] in t.index && t.index[x] < t.index[t.stack[k]]
    ensures Linked(e, Popped(t, k), gray)
  {
    var u := Popped(t, k);
    PoppedNodes(e, t, k);
    PrefixForward(e, t.stack, k);
    hide Reach, Numbered, Descends, Popped, Forward;
    forall x | x in u.active && x !in gray ensures Descends(e, u, x) {
      PoppedDescends(e, t, k, x);
    }
    forall x | x in u.index && x !in gray ensures e[x] <= u.index.Keys {
      assert x == t.stack[k] || x !in gray + {t.stack[k]};
    }
  }

  lemma PoppedDescends<T(!new)>(e: Graph<T>, t: State<T>, k: nat, x: T)
    requires Numbered(e, t) && k < |t.stack| && Numbered(e, Popped(t, k))
    requires x in Popped(t, k).active && Descends(e, t, x)
    ensures Descends(e, Popped(t, k), x)
  {
    Positions(e, t, k);
    hide Reach;
    var z :| z in t.active && t.index[z] < t.index[x] && Reach(e, x, z);
    assert z in Popped(t, k).active;
  }

  ghost function PositionAbove<T(!new)>(t: State<T>, k: nat, x: T): (i: nat)
    requires k <= |t.stack| && x in Above(t, k)
    ensures k <= i < |t.stack| && t.stack[i] == x
  {
    var i :| 0 <= i < |t.stack| - k && t.stack[k..][i] == x;
    k + i
  }

  /** Edges out of the component lead into it or into components already emitted. */
  lemma ComponentClosed<T(!new)>(e: Graph<T>, t: State<T>, gray: set<T>, k: nat, x: T, y: T)
    requires Numbered(e, t) && Linked(e, t, gray) && k < |t.stack| && t.stack[k] in e
    requires Seen(t, t.stack[k], e[t.stack[k]]) && Bounded(e, t, k + 1, t.stack[k])
    requires t.low[t.stack[k]] == t.index[t.stack[k]]
    requires forall z <- gray :: z in t.index && t.index[z] <= t.index[t.stack[k]]
    requires x in Above(t, k) && x in e && y in e[x]
    ensures y in Union(t.answer) + Above(t, k)
  {
    Positions(e, t, k);
    var i := PositionAbove(t, k, x);
    hide Reach, Descends, Forward, Above;
    assert y in t.index by {
      assert x == t.stack[k] || x !in gray;
    }
    assert y in t.active ==> t.index[y] >= t.index[t.stack[k]];
  }

  lemma ComponentConnected<T(!new)>(e: Graph<T>, s: State<T>, t: State<T>, gray: set<T>, node: T, done: set<T>)
    requires Visiting(e, s, t, gray, node, done)
    ensures |s.stack| <= |t.stack|
    ensures forall x, y :: x in Above(t, |s.stack|) && y in Above(t, |s.stack|) ==> Reach(e, x, y)
  {
    var k := |s.stack|;
    assert Forward(e, t.stack) && k < |t.stack| && t.stack[k] == node;
    hide Reach, Visiting, Above;
    forall x, y | x in Above(t, k) && y in Above(t, k) ensures Reach(e, x, y) {
      var i, j := PositionAbove(t, k, x), PositionAbove(t, k, y);
      StackReaches(e, s, t, gray, node, done, i);
      ReachTransitive(e, x, node, y);
    }
  }

  lemma EmittedAppend<T(!new)>(e: Graph<T>, answer: seq<set<T>>, c: set<T>)
    requires Emitted(e, answer) && c != {} && c <= e.Keys && c !! Union(answer)
    requires forall x, y :: x in c && y in c ==> Reach(e, x, y)
    requires forall x :: x in c ==> e[x] <= Union(answer) + c
    ensures Emitted(e, answer + [c])
  {
    hide Union, Reach;
    var longer := answer + [c];
    forall i | 0 <= i < |longer|
      ensures longer[..i] == answer[..i]
      ensures i < |answer| ==> longer[i] == answer[i]
    {}
    assert answer[..|answer|] == answer;
  }

  lemma ComponentFresh<T(!new)>(e: Graph<T>, t: State<T>, k: nat)
    requires Numbered(e, t) && k < |t.stack|
    ensures t.stack[k] in Above(t, k) && Above(t, k) <= e.Keys && Above(t, k) !! Union(t.answer)
  {
    Positions(e, t, k);
    StackNodes(e, t);
  }

  lemma VisitingParts<T(!new)>(e: Graph<T>, s: State<T>, t: State<T>, gray: set<T>, node: T, done: set<T>)
    requires Visiting(e, s, t, gray, node, done) && node in e && done == e[node]
    ensures |t.stack| > |s.stack| && t.stack[|s.stack|] == node && Emitted(e, t.answer) && Numbered(e, t)
    ensures Linked(e, t, gray + {node}) && Seen(t, node, e[node]) && Bounded(e, t, |s.stack| + 1, node)
  {
    hide Numbered, Linked, Seen, Bounded, Reach, Union, Emitted;
  }

  lemma PoppedEmitted<T(!new)>(e: Graph<T>, s: State<T>, t: State<T>, gray: set<T>, node: T, done: set<T>)
    requires Visiting(e, s, t, gray, node, done) && node in e && done == e[node]
    requires node in t.low && node in t.index && t.low[node] == t.index[node]
    ensures Emitted(e, t.answer + [Above(t, |s.stack|)])
  {
    hide *;
    VisitingParts(e, s, t, gray, node, done);
    var c := Above(t, |s.stack|);
    GrayOlder(e, s, t, gray, node, done);
    ComponentFresh(e, t, |s.stack|);
    ComponentConnected(e, s, t, gray, node, done);
    forall x | x in c ensures e[x] <= Union(t.answer) + c {
      forall y | y in e[x] ensures y in Union(t.answer) + c {
        ComponentClosed(e, t, gray + {node}, |s.stack|, x, y);
      }
    }
    EmittedAppend(e, t.answer, c);
  }

  lemma PoppedExtends<T(!new)>(s: State<T>, t: State<T>, gray: set<T>, node: T)
    requires Entered(s, t, gray, node)
    ensures Popped(t, |s.stack|).stack == s.stack && Extends(s, Popped(t, |s.stack|))
  {}

  lemma Pop<T(!new)>(e: Graph<T>, s: State<T>, t: State<T>, gray: set<T>, node: T, done: set<T>)
    requires Visiting(e, s, t, gray, node, done) && node in e && done == e[node]
    requires node in t.low && node in t.index && t.low[node] == t.index[node]
    ensures |s.stack| < |t.stack|
    ensures Inv(e, Popped(t, |s.stack|), gray) && Visited(e, s, Popped(t, |s.stack|), node)
  {
    assert |t.stack| > |s.stack| && t.stack[|s.stack|] == node && Numbered(e, t) && Linked(e, t, gray + {node});
    assert Entered(s, t, gray, node) && node !in s.index && e[node] <= t.index.Keys;
    hide Visiting, Numbered, Linked, Emitted, Entered, Extends, Reach, Above;
    PoppedNumbered(e, t, |s.stack|);
    GrayOlder(e, s, t, gray, node, done);
    PoppedLinked(e, t, gray, |s.stack|);
    PoppedEmitted(e, s, t, gray, node, done);
    PoppedExtends(s, t, gray, node);
  }

  // ------------------------------------------------------------ the algorithm

  /** The visit and the variables it shares between its recursive calls. */
  class Search<T(==, !new)> {
    const graph: map<T, set<T>>
    const nodes: set<T>
    var clock: nat
    var index: map<T, nat>
    var low: map<T, nat>
    var stack: seq<T>
    var active: set<T>
    var answer: seq<set<T>>

    constructor (graph: map<T, set<T>>, nodes: set<T>)
      ensures this.graph == graph && this.nodes == nodes
      ensures View() == State(0, map[], map[], [], {}, [])
    {
      this.graph, this.nodes := graph, nodes;
      clock, index, low, stack, active, answer := 0, map[], map[], [], {}, [];
    }

    ghost function View(): State<T>
      reads this
    {
      State(clock, index, low, stack, active, answer)
    }

    ghost predicate Valid(gray: set<T>)
      reads this
    {
      nodes <= graph.Keys && Inv(Inside(graph, nodes), View(), gray)
    }

    /** `visit(node)`, called while the nodes in `gray` are being visited. */
    method Visit(node: T, ghost gray: set<T>)
      requires Valid(gray) && node in nodes && node !in index
      requires forall x <- active :: Reach(Inside(graph, nodes), x, node)
      modifies this
      ensures Valid(gray) && Visited(Inside(graph, nodes), old(View()), View(), node)
      decreases |nodes - index.Keys|, 0
    {
      hide Inv, Numbered, Reach, Visiting, Visited, Inside, Popped, Pushed;
      ghost var e, s := Inside(graph, nodes), View();
      InsideShape(graph, nodes);
      Push(node);
      Enter(e, s, gray, node);
      var todo := graph[node] * nodes;
      ghost var all := e[node];
      assert all - todo == {};
      while todo != {}
        invariant nodes <= graph.Keys && todo <= all
        invariant s.index.Keys + {node} <= index.Keys
        invariant Visiting(e, s, View(), gray, node, all - todo)
      {
        var next :| next in todo;
        Shrinks(nodes, s.index.Keys, index.Keys, node);
        Look(node, next, s, gray, all - todo);
        OneLess(all, todo, next);
        todo := todo - {next};
      }
      assert all - todo == all;
      Leave(node, s, gray);
    }

    /** The end of a visit: emit the component of `node` or leave it on the stack. */
    method Leave(node: T, ghost s: State<T>, ghost gray: set<T>)
      requires nodes <= graph.Keys && node in nodes
      requires Visiting(Inside(graph, nodes), s, View(), gray, node, Inside(graph, nodes)[node])
      modifies this
      ensures Valid(gray) && Visited(Inside(graph, nodes), s, View(), node)
    {
      hide Inv, Numbered, Reach, Visiting, Visited, Inside, Popped;
      ghost var e, t := Inside(graph, nodes), View();
      InsideShape(graph, nodes);
      VisitingShape(e, s, t, gray, node, e[node]);
      if low[node] == index[node] {
        Pop(e, s, t, gray, node, e[node]);
        NodeOnce(e, t, |s.stack|);
        PopComponent(node, |s.stack|);
      } else {
        Stay(e, s, t, gray, node, e[node]);
      }
    }

    /** Number `node` and put it on the stack. */
    method Push(node: T)
      modifies this
      ensures View() == Pushed(old(View()), node)
      ensures index.Keys == old(index.Keys) + {node}
    {
      index, low := index[node := clock], low[node := clock];
      clock := clock + 1;
      stack := stack + [node];
      active := active + {node};
    }

    /** One turn of the loop over the successors of `node`. */
    method Look(node: T, next: T, ghost s: State<T>, ghost gray: set<T>, ghost done: set<T>)
      requires nodes <= graph.Keys && node in nodes && next in Inside(graph, nodes)[node]
      requires Visiting(Inside(graph, nodes), s, View(), gray, node, done)
      modifies this
      ensures Visiting(Inside(graph, nodes), s, View(), gray, node, done + {next})
      ensures old(index.Keys) <= index.Keys
      decreases |nodes - index.Keys|, 1
    {
      hide Inv, Numbered, Reach, Visiting, Visited, Inside;
      ghost var e, t := Inside(graph, nodes), View();
      InsideShape(graph, nodes);
      VisitingShape(e, s, t, gray, node, done);
      if next !in index {
        ActiveReaches(e, s, t, gray, node, done, next);
        Visit(next, gray + {node});
        ghost var u := View();
        InvShape(e, u, gray + {node});
        VisitedShape(e, t, u, next);
        low := low[node := Min(low[node], low[next])];
        assert View() == Lowered(u, node, u.low[next]);
        if u.stack == t.stack {
          ChildEmitted(e, s, t, gray, node, done, u, next);
        } else {
          ChildStays(e, s, t, gray, node, done, u, next);
        }
      } else if next in active {
        low := low[node := Min(low[node], index[next])];
        assert View() == Lowered(t, node, t.index[next]);
        ReachEdge(e, node, next);
        LowerKeeps(e, s, t, gray, node, done, next, next);
      } else {
        SkipKeeps(e, s, t, gray, node, done, next);
      }
    }

    /** Pop the stack down to `node` and emit what was popped. */
    method PopComponent(node: T, ghost k: nat)
      requires k < |stack| && stack[k] == node && forall j :: k < j < |stack| ==> stack[j] != node
      modifies this
      ensures View() == Popped(old(View()), k)
    {
      ghost var t := View();
      var component: set<T> := {};
      while true
        invariant k < |stack| <= |t.stack| && stack == t.stack[..|stack|]
        invariant component == set x | x in t.stack[|stack|..]
        invariant View() == t.(stack := stack, active := t.active - component)
        decreases |stack|
      {
        var member := stack[|stack| - 1];
        assert t.stack[|stack| - 1..] == [member] + t.stack[|stack|..];
        stack := stack[..|stack| - 1];
        active := active - {member};
        component := component + {member};
        if member == node {
          assert |stack| == k;
          break;
        }
      }
      assert stack == t.stack[..k] && component == Above(t, k);
      answer := answer + [component];
    }

    /** Start a visit at every node not reached so far. */
    method Components()
      requires Valid({}) && View() == State(0, map[], map[], [], {}, [])
      modifies this
      ensures Emitted(Inside(graph, nodes), answer) && Union(answer) == nodes
    {
      hide Inv, Reach, Visited, Inside, Numbered;
      InsideShape(graph, nodes);
      var todo := nodes;
      while todo != {}
        invariant Valid({}) && todo <= nodes && stack == [] && nodes - todo <= index.Keys
      {
        var node :| node in todo;
        if node !in index {
          ghost var s := View();
          InvShape(Inside(graph, nodes), s, {});
          NothingActive(Inside(graph, nodes), s);
          Visit(node, {});
          BackToEmpty(Inside(graph, nodes), s, View(), node);
        }
        todo := todo - {node};
      }
      AllEmitted(Inside(graph, nodes), View());
    }
  }

  lemma InsideShape<T(!new)>(graph: map<T, set<T>>, nodes: set<T>)
    requires nodes <= graph.Keys
    ensures Inside(graph, nodes).Keys == nodes
    ensures forall x <- nodes :: Inside(graph, nodes)[x] == graph[x] * nodes
  {}

  lemma InvShape<T(!new)>(e: Graph<T>, s: State<T>, gray: set<T>)
    requires Inv(e, s, gray)
    ensures Numbered(e, s) && s.index.Keys <= e.Keys && s.low.Keys == s.index.Keys && gray <= s.active <= s.index.Keys
  {}

  lemma VisitingShape<T(!new)>(e: Graph<T>, s: State<T>, t: State<T>, gray: set<T>, node: T, done: set<T>)
    requires Visiting(e, s, t, gray, node, done)
    ensures Inv(e, t, gray + {node}) && Numbered(e, t)
    ensures t.index.Keys <= e.Keys && t.low.Keys == t.index.Keys && node in t.index && s.index.Keys <= t.index.Keys
    ensures t.active <= t.index.Keys
    ensures |s.stack| < |t.stack| && t.stack[|s.stack|] == node
  {}

  lemma VisitedShape<T(!new)>(e: Graph<T>, t: State<T>, u: State<T>, y: T)
    requires Numbered(e, u) && Visited(e, t, u, y)
    ensures t.index.Keys + {y} <= u.index.Keys && u.low.Keys == u.index.Keys
  {}

  lemma NodeOnce<T(!new)>(e: Graph<T>, t: State<T>, k: nat)
    requires Numbered(e, t) && k < |t.stack|
    ensures forall j :: k < j < |t.stack| ==> t.stack[j] != t.stack[k]
  {
    StackNodes(e, t);
  }

  lemma OneLess<T(!new)>(all: set<T>, todo: set<T>, x: T)
    requires x in todo && todo <= all
    ensures all - (todo - {x}) == all - todo + {x}
  {}

  lemma Shrinks<T(!new)>(nodes: set<T>, before: set<T>, now: set<T>, node: T)
    requires node in nodes && node !in before && before + {node} <= now
    ensures |nodes - now| < |nodes - before|
  {
    assert nodes - now <= nodes - before - {node};
    SubsetSize(nodes - now, nodes - before - {node});
  }

  lemma NothingActive<T(!new)>(e: Graph<T>, s: State<T>)
    requires Numbered(e, s) && s.stack == []
    ensures s.active == {}
  {}

  lemma LowestStays<T(!new)>(e: Graph<T>, t: State<T>)
    requires Numbered(e, t) && t.stack != []
    ensures t.stack[0] in t.active && t.stack[0] in t.index && !Descends(e, t, t.stack[0])
  {
    hide Reach;
    StackNodes(e, t);
  }

  lemma BackToEmpty<T(!new)>(e: Graph<T>, s: State<T>, t: State<T>, node: T)
    requires Inv(e, t, {}) && Visited(e, s, t, node)
    ensures t.stack == [] && s.index.Keys + {node} <= t.index.Keys
  {
    hide Reach, Emitted;
    if t.stack != [] {
      LowestStays(e, t);
    }
  }

  lemma AllEmitted<T(!new)>(e: Graph<T>, t: State<T>)
    requires Inv(e, t, {}) && t.stack == [] && e.Keys <= t.index.Keys
    ensures Emitted(e, t.answer) && Union(t.answer) == e.Keys
  {}

  // ------------------------------------------------------------ what the components are

  ghost predicate Covers<T(!new)>(e: Graph<T>, answer: seq<set<T>>) {
    && (forall i :: 0 <= i < |answer| ==> answer[i] != {})
    && (forall x :: x in e <==> exists i :: 0 <= i < |answer| && x in answer[i])
  }

  /** Two nodes share a component exactly when each reaches the other. */
  ghost predicate Strong<T(!new)>(e: Graph<T>, answer: seq<set<T>>) {
    forall i, x, y :: 0 <= i < |answer| && x in answer[i] ==>
      (y in answer[i] <==> Reach(e, x, y) && Reach(e, y, x))
  }

  /** No component reaches one emitted after it. */
  ghost predicate Topological<T(!new)>(e: Graph<T>, answer: seq<set<T>>) {
    forall i, j, x, y :: 0 <= i < |answer| && 0 <= j < |answer| && x in answer[i] && y in answer[j] && Reach(e, x, y)
      ==> j <= i
  }

  /** The strongly connected components of `e`, each after every other one it can reach. */
  ghost predicate Components<T(!new)>(e: Graph<T>, answer: seq<set<T>>) {
    Covers(e, answer) && Strong(e, answer) && Topological(e, answer)
  }

  lemma PrefixUnion<T(!new)>(answer: seq<set<T>>, i: nat)
    requires i < |answer|
    ensures Union(answer[..i + 1]) == Union(answer[..i]) + answer[i]
  {
    assert answer[..i + 1] == answer[..i] + [answer[i]];
    UnionAppend(answer[..i], answer[i]);
  }

  lemma EmittedAt<T(!new)>(e: Graph<T>, answer: seq<set<T>>, i: nat, x: T)
    requires Emitted(e, answer) && i < |answer| && x in answer[i]
    ensures x in e && e[x] <= Union(answer[..i]) + answer[i]
  {
    hide Union, Reach;
  }

  /** Up to any component the emitted nodes are closed under reachability. */
  lemma {:induction false} PrefixClosed<T(!new)>(e: Graph<T>, answer: seq<set<T>>, i: nat, x: T)
    requires Emitted(e, answer) && i <= |answer| && x in Union(answer[..i])
    ensures x in e && e[x] <= Union(answer[..i])
    decreases i
  {
    hide Emitted, Reach;
    var k :| 0 <= k < i && x in answer[..i][k];
    PrefixUnion(answer, i - 1);
    hide Union;
    if x in answer[i - 1] {
      EmittedAt(e, answer, i - 1, x);
    } else {
      PrefixClosed(e, answer, i - 1, x);
    }
  }

  lemma ReachGoesBack<T(!new)>(e: Graph<T>, answer: seq<set<T>>, i: nat, x: T, y: T)
    requires Emitted(e, answer) && i < |answer| && x in answer[i] && Reach(e, x, y)
    ensures exists j :: 0 <= j <= i && y in answer[j]
  {
    hide Emitted;
    var c := Union(answer[..i + 1]);
    assert x in c by {
      PrefixUnion(answer, i);
    }
    forall z | z in c && z in e ensures e[z] <= c {
      PrefixClosed(e, answer, i + 1, z);
    }
    ReachStays(e, c, x, y);
    var j :| 0 <= j < i + 1 && y in answer[..i + 1][j];
    assert y in answer[j];
  }

  lemma InEarlier<T(!new)>(answer: seq<set<T>>, i: nat, j: nat, y: T)
    requires i < j <= |answer| && y in answer[i]
    ensures y in Union(answer[..j])
  {
    assert y in answer[..j][i];
  }

  /** No node is in two components. */
  lemma OneComponent<T(!new)>(e: Graph<T>, answer: seq<set<T>>, i: nat, j: nat, y: T)
    requires Emitted(e, answer) && i < |answer| && j < |answer| && y in answer[i] && y in answer[j]
    ensures i == j
  {
    if i < j {
      InEarlier(answer, i, j, y);
    } else if j < i {
      InEarlier(answer, j, i, y);
    }
  }

  lemma ReachedEarlier<T(!new)>(e: Graph<T>, answer: seq<set<T>>, i: nat, j: nat, x: T, y: T)
    requires Emitted(e, answer) && i < |answer| && j < |answer|
    requires x in answer[i] && y in answer[j] && Reach(e, x, y)
    ensures j <= i
  {
    hide Emitted, Reach;
    ReachGoesBack(e, answer, i, x, y);
    var k :| 0 <= k <= i && y in answer[k];
    OneComponent(e, answer, j, k, y);
  }

  lemma MutualIsSame<T(!new)>(e: Graph<T>, answer: seq<set<T>>, i: nat, x: T, y: T)
    requires Emitted(e, answer) && i < |answer| && x in answer[i]
    ensures y in answer[i] <==> Reach(e, x, y) && Reach(e, y, x)
  {
    hide Reach;
    if Reach(e, x, y) && Reach(e, y, x) {
      ReachGoesBack(e, answer, i, x, y);
      var j :| 0 <= j <= i && y in answer[j];
      ReachedEarlier(e, answer, j, i, y, x);
    }
  }

  lemma EmittedCover<T(!new)>(e: Graph<T>, answer: seq<set<T>>)
    requires Emitted(e, answer) && Union(answer) == e.Keys
    ensures Covers(e, answer)
  {
    EmittedNonEmpty(e, answer);
    hide Emitted, Reach;
  }

  lemma EmittedNonEmpty<T(!new)>(e: Graph<T>, answer: seq<set<T>>)
    requires Emitted(e, answer)
    ensures forall i :: 0 <= i < |answer| ==> answer[i] != {}
  {
    hide Reach, Union;
  }

  lemma EmittedAreComponents<T(!new)>(e: Graph<T>, answer: seq<set<T>>)
    requires Emitted(e, answer) && Union(answer) == e.Keys
    ensures Components(e, answer)
  {
    hide Emitted, Reach, Covers, Union;
    EmittedCover(e, answer);
    forall i, j, x, y | 0 <= i < |answer| && 0 <= j < |answer| && x in answer[i] && y in answer[j] && Reach(e, x, y)
      ensures j <= i
    {
      ReachedEarlier(e, answer, i, j, x, y);
    }
    assert Topological(e, answer);
    forall i, x, y | 0 <= i < |answer| && x in answer[i]
      ensures y in answer[i] <==> Reach(e, x, y) && Reach(e, y, x)
    {
      MutualIsSame(e, answer, i, x, y);
    }
  }

  /** `sccs`. */
  method Sccs<T(==, !new)>(graph: map<T, set<T>>, nodes: set<T>) returns (answer: seq<set<T>>)
    requires nodes <= graph.Keys
    ensures Components(Inside(graph, nodes), answer)
  {
    hide Components;
    var search := new Search(graph, nodes);
    search.Components();
    answer := search.answer;
    EmittedAreComponents(Inside(graph, nodes), answer);
  }
}
