/** Directed graphs as maps from a node to its successors, paths, and reachability. */
module Digraph {

  type Graph<T> = map<T, set<T>>

  /** Every successor is a node. */
  ghost predicate Closed<T>(e: Graph<T>) {
    forall x <- e :: e[x] <= e.Keys
  }

  ghost predicate Path<T(!new)>(e: Graph<T>, p: seq<T>) {
    && p != [] && (forall i :: 0 <= i < |p| ==> p[i] in e)
    && forall i :: 0 <= i < |p| - 1 ==> p[i + 1] in e[p[i]]
  }

  ghost predicate PathFrom<T(!new)>(e: Graph<T>, p: seq<T>, u: T, v: T) {
    Path(e, p) && p[0] == u && p[|p| - 1] == v
  }

  ghost predicate Reach<T(!new)>(e: Graph<T>, u: T, v: T) {
    exists p :: PathFrom(e, p, u, v)
  }

  /** Some node reaches itself by at least one edge. */
  ghost predicate HasCycle<T(!new)>(e: Graph<T>) {
    exists x, y :: x in e && y in e[x] && Reach(e, y, x)
  }

  lemma ReachSelf<T(!new)>(e: Graph<T>, u: T)
    requires u in e
    ensures Reach(e, u, u)
  {
    assert PathFrom(e, [u], u, u);
  }

  lemma ReachEdge<T(!new)>(e: Graph<T>, u: T, v: T)
    requires u in e && v in e && v in e[u]
    ensures Reach(e, u, v)
  {
    assert PathFrom(e, [u, v], u, v);
  }

  lemma ReachTransitive<T(!new)>(e: Graph<T>, u: T, v: T, w: T)
    requires Reach(e, u, v) && Reach(e, v, w)
    ensures Reach(e, u, w)
  {
    var p :| PathFrom(e, p, u, v);
    var q :| PathFrom(e, q, v, w);
    assert PathFrom(e, p + q[1..], u, w);
  }

  /** What is closed under successors is closed under reachability. */
  lemma {:induction false} PathStays<T(!new)>(e: Graph<T>, c: set<T>, p: seq<T>)
    requires Path(e, p) && p[0] in c
    requires forall x :: x in c && x in e ==> e[x] <= c
    ensures p[|p| - 1] in c
    decreases |p|
  {
    if |p| > 1 {
      assert Path(e, p[1..]);
      PathStays(e, c, p[1..]);
    }
  }

  lemma ReachStays<T(!new)>(e: Graph<T>, c: set<T>, u: T, v: T)
    requires Reach(e, u, v) && u in c
    requires forall x :: x in c && x in e ==> e[x] <= c
    ensures v in c
  {
    var p :| PathFrom(e, p, u, v);
    PathStays(e, c, p);
  }

  lemma ReachInside<T(!new)>(e: Graph<T>, u: T, v: T)
    requires Reach(e, u, v)
    ensures u in e && v in e
  {
    var p :| PathFrom(e, p, u, v);
  }
}
