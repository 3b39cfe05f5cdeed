/** The canonical form of a labelled graph: refinement, then individualisation of every node of the
    smallest tied class, keeping the least leaf, under a budget on the number of leaves visited. */
module CanonicalForm {
  import opened Text
  import opened Sorting
  import opened Rendering
  import opened Listing
  import opened ColourRefinement
  import opened Individualisation

  type Edge = (nat, nat, string)

  datatype Graph = Graph(labels: seq<string>, edges: set<Edge>) {
    predicate Valid() {
      forall e <- edges :: e.0 < |labels| && e.1 < |labels|
    }
    predicate Plain() {
      (forall s <- labels :: PlainLabel(s)) && (forall e <- edges :: PlainKind(e.2))
    }
  }

  ghost predicate Isomorphism(g: Graph, h: Graph, f: seq<nat>) {
    && |h.labels| == |g.labels| && Perm(f, |g.labels|)
    && (forall n :: 0 <= n < |f| ==> h.labels[f[n]] == g.labels[n])
    && (forall m: nat, n: nat, k :: m < |f| && n < |f| ==>
         ((m, n, k) in g.edges <==> (f[m], f[n], k) in h.edges))
  }

  ghost predicate Isomorphic(g: Graph, h: Graph) {
    exists f :: Isomorphism(g, h, f)
  }

  // ------------------------------------------------------------ adjacency lists of a graph

  /** The lists hold every edge of the graph once, in any order. */
  ghost predicate Represents(a: Adjacency, g: Graph) {
    && a.Valid() && a.labels == g.labels
    && (forall n {:trigger a.preds[n]} {:trigger a.succs[n]} :: 0 <= n < |g.labels| ==>
         NoDup(a.preds[n]) && NoDup(a.succs[n]))
    && (forall m: nat, n: nat, k {:trigger (m, n, k) in g.edges} :: n < |g.labels| ==>
         ((m, k) in a.preds[n] <==> (m, n, k) in g.edges))
    && (forall m: nat, n: nat, k {:trigger (m, n, k) in g.edges} :: m < |g.labels| ==>
         ((n, k) in a.succs[m] <==> (m, n, k) in g.edges))
  }

  function Attach(a: Adjacency, e: Edge): (r: Adjacency)
    requires a.Valid() && e.0 < |a.labels| && e.1 < |a.labels|
    ensures r.Valid() && r.labels == a.labels
  {
    Adjacency(a.labels,
              a.preds[e.1 := a.preds[e.1] + [(e.0, e.2)]],
              a.succs[e.0 := a.succs[e.0] + [(e.1, e.2)]])
  }

  function Isolated(labels: seq<string>): (r: Adjacency)
    ensures r.Valid() && r.labels == labels
  {
    Adjacency(labels, seq(|labels|, n => []), seq(|labels|, n => []))
  }

  lemma AttachRepresents(a: Adjacency, g: Graph, e: Edge)
    requires g.Valid() && e.0 < |g.labels| && e.1 < |g.labels|
    requires Represents(a, g) && e !in g.edges
    ensures Represents(Attach(a, e), Graph(g.labels, g.edges + {e}))
  {
    assert (e.0, e.1, e.2) == e;
    assert (e.0, e.2) !in a.preds[e.1] && (e.1, e.2) !in a.succs[e.0];
  }

  /** `predecessors` and `successors` filled edge by edge. */
  method Adjacent(g: Graph) returns (a: Adjacency)
    requires g.Valid()
    ensures Represents(a, g)
  {
    a := Isolated(g.labels);
    var todo := g.edges;
    ghost var done: set<Edge> := {};
    while todo != {}
      invariant todo !! done && todo + done == g.edges
      invariant Represents(a, Graph(g.labels, done))
    {
      var e :| e in todo;
      AttachRepresents(a, Graph(g.labels, done), e);
      a := Attach(a, e);
      todo := todo - {e};
      done := done + {e};
    }
    assert done == g.edges;
  }

  lemma RepresentableEdges(labels: seq<string>, edges: set<Edge>) returns (a: Adjacency)
    requires Graph(labels, edges).Valid()
    ensures Represents(a, Graph(labels, edges))
  {
    if edges == {} {
      a := Isolated(labels);
    } else {
      var e :| e in edges;
      a := RepresentableEdges(labels, edges - {e});
      AttachRepresents(a, Graph(labels, edges - {e}), e);
      assert edges - {e} + {e} == edges;
      a := Attach(a, e);
    }
  }

  lemma MovedPreds(l: seq<Arc>, m: seq<Arc>, f: seq<nat>)
    requires Perm(f, |f|) && NoDup(l) && NoDup(m)
    requires forall e <- l :: e.0 < |f|
    requires forall e <- m :: e.0 < |f|
    requires forall s: nat, k :: s < |f| ==> ((s, k) in l <==> (f[s], k) in m)
    ensures multiset(MapSeq(Move(f), l)) == multiset(m)
  {
    var moved := MapSeq(Move(f), l);
    PermOnto(f, |f|);
    forall x ensures x in moved <==> x in m {
      if x in moved {
        var i :| 0 <= i < |moved| && moved[i] == x;
        assert l[i] in l && l[i] == (l[i].0, l[i].1);
      }
      if x in m {
        assert x.0 in f;
        var s :| 0 <= s < |f| && f[s] == x.0;
        assert (s, x.1) in l by {
          assert x == (f[s], x.1);
        }
        var i :| 0 <= i < |l| && l[i] == (s, x.1);
        assert moved[i] == x;
      }
    }
    forall i, j | 0 <= i < j < |moved| ensures moved[i] != moved[j] {
      assert l[i] in l && l[j] in l && l[i] != l[j];
      assert l[i] == (l[i].0, l[i].1) && l[j] == (l[j].0, l[j].1);
    }
    SameElements(moved, m);
  }

  lemma IsomorphismCarries(g: Graph, h: Graph, f: seq<nat>, a: Adjacency, b: Adjacency)
    requires Isomorphism(g, h, f) && Represents(a, g) && Represents(b, h)
    ensures Carries(a, b, f)
  {
    forall n | 0 <= n < |f|
      ensures multiset(MapSeq(Move(f), a.preds[n])) == multiset(b.preds[f[n]])
      ensures multiset(MapSeq(Move(f), a.succs[n])) == multiset(b.succs[f[n]])
    {
      forall s: nat, k | s < |f|
        ensures (s, k) in a.preds[n] <==> (f[s], k) in b.preds[f[n]]
        ensures (s, k) in a.succs[n] <==> (f[s], k) in b.succs[f[n]]
      {
        assert (s, n, k) in g.edges <==> (f[s], f[n], k) in h.edges;
        assert (n, s, k) in g.edges <==> (f[n], f[s], k) in h.edges;
      }
      MovedPreds(a.preds[n], b.preds[f[n]], f);
      MovedPreds(a.succs[n], b.succs[f[n]], f);
    }
  }

  // ------------------------------------------------------------ the leaves of the search tree

  /** The texts written at the leaves below a colouring, with multiplicity, if nothing is cut off. */
  ghost function LeafForms(a: Adjacency, c: Colours): (r: multiset<string>)
    requires a.Valid() && |c| == |a.labels| && Numerals(c)
    decreases |c| - Classes(c), 1
  {
    ClassesBounded(c);
    if !Tied(c) then multiset{Emit(a, c)}
    else Flatten(MapSeq(Below(a, c, Target(c)), Members(c, Target(c), |c|)))
  }

  ghost function Below(a: Adjacency, c: Colours, x: string): nat -> multiset<string>
    requires a.Valid() && |c| == |a.labels| && Numerals(c) && multiset(c)[x] >= 2
    decreases |c| - Classes(c), 0
  {
    (n: nat) =>
      if n < |c| && c[n] == x then
        ChildSplits(a, c, n);
        ClassesBounded(Child(a, c, n));
        LeafForms(a, Child(a, c, n))
      else multiset{}
  }
}
