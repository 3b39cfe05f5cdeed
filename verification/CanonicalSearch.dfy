/** The budgeted search itself, and what its answer says about the graph. */
module CanonicalSearch {
  import opened Options
  import opened Text
  import opened Sorting
  import opened Rendering
  import opened Listing
  import opened ColourRefinement
  import opened Individualisation
  import opened CanonicalForm

  // ------------------------------------------------------------ leaves of isomorphic graphs

  lemma ChildEquivariant(a: Adjacency, b: Adjacency, f: seq<nat>, c: Colours, d: Colours, n: nat)
    requires Carries(a, b, f) && SameColours(c, d, f) && |c| == |a.labels| && n < |c|
    ensures SameColours(Child(a, c, n), Child(b, d, f[n]), f)
  {
    var c', d' := c[n := c[n] + "!"], d[f[n] := d[f[n]] + "!"];
    assert SameColours(c', d', f);
    RoundsEquivariant(a, b, f, c', d', |c|);
  }

  function Pick(f: seq<nat>): nat -> nat {
    (n: nat) => if n < |f| then f[n] else n
  }

  lemma PickedElements(f: seq<nat>, p: seq<nat>, q: seq<nat>)
    requires Perm(f, |f|)
    requires forall n <- p :: n < |f|
    requires forall n <- q :: n < |f|
    requires forall n :: 0 <= n < |f| ==> (n in p <==> f[n] in q)
    ensures forall m :: m in MapSeq(Pick(f), p) <==> m in q
  {
    var u := MapSeq(Pick(f), p);
    PermOnto(f, |f|);
    forall m | m in u ensures m in q {
      var i :| 0 <= i < |u| && u[i] == m;
      assert p[i] in p;
    }
    forall m | m in q ensures m in u {
      assert m in f;
      var n :| 0 <= n < |f| && f[n] == m;
      var i :| 0 <= i < |p| && p[i] == n;
      assert u[i] == m;
    }
  }

  lemma PickedNoDup(f: seq<nat>, p: seq<nat>)
    requires Perm(f, |f|) && NoDup(p) && forall n <- p :: n < |f|
    ensures NoDup(MapSeq(Pick(f), p))
  {
    var u := MapSeq(Pick(f), p);
    forall i, j | 0 <= i < j < |u| ensures u[i] != u[j] {
      assert p[i] in p && p[j] in p;
    }
  }

  lemma MembersEquivariant(c: Colours, d: Colours, f: seq<nat>, x: string)
    requires SameColours(c, d, f)
    ensures multiset(MapSeq(Pick(f), Members(c, x, |c|))) == multiset(Members(d, x, |d|))
  {
    PickedElements(f, Members(c, x, |c|), Members(d, x, |d|));
    PickedNoDup(f, Members(c, x, |c|));
    SameElements<nat>(MapSeq(Pick(f), Members(c, x, |c|)), Members(d, x, |d|));
  }

  /** Isomorphic colourings have the same leaves, counted and spelled alike. */
  lemma {:induction false} LeavesEquivariant(
      a: Adjacency, b: Adjacency, f: seq<nat>, c: Colours, d: Colours)
    requires Carries(a, b, f) && SameColours(c, d, f) && |c| == |a.labels|
    requires Numerals(c) && Numerals(d)
    ensures LeafForms(a, c) == LeafForms(b, d)
    decreases |c| - Classes(c)
  {
    TargetEquivariant(c, d, f);
    if !Tied(c) {
      LeafEquivariant(a, b, f, c, d);
    } else {
      var x := Target(c);
      var p, q := Members(c, x, |c|), Members(d, x, |d|);
      BelowEquivariant(a, b, f, c, d, x);
      var moved := MapSeq(Pick(f), p);
      assert MapSeq(Below(b, d, x), moved) == MapSeq(Below(a, c, x), p) by {
        forall i | 0 <= i < |p| ensures Below(b, d, x)(moved[i]) == Below(a, c, x)(p[i]) {
          assert p[i] in p;
        }
      }
      MembersEquivariant(c, d, f, x);
      MapSeqMultiset(Below(b, d, x), moved, q);
      FlattenMultiset(MapSeq(Below(a, c, x), p), MapSeq(Below(b, d, x), q));
    }
  }

  lemma BelowEquivariant(
      a: Adjacency, b: Adjacency, f: seq<nat>, c: Colours, d: Colours, x: string)
    requires Carries(a, b, f) && SameColours(c, d, f) && |c| == |a.labels|
    requires Numerals(c) && Numerals(d) && multiset(c)[x] >= 2 && multiset(d)[x] >= 2
    ensures forall n :: 0 <= n < |c| && c[n] == x ==> Below(a, c, x)(n) == Below(b, d, x)(f[n])
    decreases |c| - Classes(c), 0
  {
    forall n | 0 <= n < |c| && c[n] == x ensures Below(a, c, x)(n) == Below(b, d, x)(f[n]) {
      ChildSplits(a, c, n);
      ChildSplits(b, d, f[n]);
      ClassesBounded(Child(a, c, n));
      ChildEquivariant(a, b, f, c, d, n);
      LeavesEquivariant(a, b, f, Child(a, c, n), Child(b, d, f[n]));
    }
  }

  ghost predicate Written(a: Adjacency, s: string)
    requires a.Valid()
  {
    exists c: Colours :: |c| == |a.labels| && s == Emit(a, c)
  }

  /** Every leaf is the graph written down in some order of its nodes, and there is one. */
  lemma {:induction false} LeavesWritten(a: Adjacency, c: Colours)
    requires a.Valid() && |c| == |a.labels| && Numerals(c)
    ensures LeafForms(a, c) != multiset{}
    ensures forall s <- LeafForms(a, c) :: Written(a, s)
    decreases |c| - Classes(c)
  {
    if Tied(c) {
      var x := Target(c);
      var p := Members(c, x, |c|);
      MembersCount(c, x, |c|);
      assert c[..|c|] == c;
      var parts := MapSeq(Below(a, c, x), p);
      forall i | 0 <= i < |p| ensures parts[i] != multiset{} && forall s <- parts[i] :: Written(a, s) {
        assert p[i] in p;
        ChildSplits(a, c, p[i]);
        ClassesBounded(Child(a, c, p[i]));
        LeavesWritten(a, Child(a, c, p[i]));
      }
      FlattenWritten(a, parts);
    }
  }

  lemma {:induction false} FlattenWritten(a: Adjacency, parts: seq<multiset<string>>)
    requires a.Valid()
    requires forall i :: 0 <= i < |parts| ==> parts[i] != multiset{} && forall s <- parts[i] :: Written(a, s)
    ensures forall s <- Flatten(parts) :: Written(a, s)
    ensures parts != [] ==> Flatten(parts) != multiset{}
  {
    if parts != [] {
      FlattenWritten(a, parts[1..]);
      assert |parts[0]| > 0;
      assert |Flatten(parts)| == |parts[0]| + |Flatten(parts[1..])|;
    }
  }

  ghost predicate IsLeast(m: multiset<string>, s: string) {
    s in m && forall t <- m :: !Less(t, s)
  }

  // ------------------------------------------------------------ the search


  ghost predicate Classified(c: Colours, classes: map<string, seq<nat>>, k: nat)
    requires k <= |c|
  {
    && (forall x :: x in classes <==> x in c[..k])
    && forall x <- classes :: classes[x] == Members(c, x, k)
  }

  function Append(classes: map<string, seq<nat>>, x: string, n: nat): map<string, seq<nat>> {
    classes[x := (if x in classes then classes[x] else []) + [n]]
  }

  lemma MembersNext(c: Colours, x: string, k: nat)
    requires k < |c|
    ensures Members(c, x, k + 1) == Members(c, x, k) + (if c[k] == x then [k] else [])
  {}

  lemma ClassifyNext(c: Colours, classes: map<string, seq<nat>>, k: nat)
    requires k < |c| && Classified(c, classes, k)
    ensures Classified(c, Append(classes, c[k], k), k + 1)
  {
    hide Members, NoDup;
    var next := Append(classes, c[k], k);
    assert c[..k + 1] == c[..k] + [c[k]];
    forall x | x in next ensures next[x] == Members(c, x, k + 1) {
      MembersNext(c, x, k);
      if x !in classes {
        NewMembers(c, x, k);
      }
    }
  }

  /** The nodes of each colour, in index order. */
  method Classify(colour: Colours) returns (classes: map<string, seq<nat>>)
    ensures Classified(colour, classes, |colour|)
    ensures forall x <- classes :: |classes[x]| == multiset(colour)[x]
  {
    hide Classified;
    classes := map[];
    NoneClassified(colour);
    for node := 0 to |colour|
      invariant Classified(colour, classes, node)
    {
      ClassifyNext(colour, classes, node);
      classes := Append(classes, colour[node], node);
    }
    ClassSizes(colour, classes);
  }

  lemma NoneClassified(c: Colours)
    ensures Classified(c, map[], 0)
  {}

  lemma ClassSizes(c: Colours, classes: map<string, seq<nat>>)
    requires Classified(c, classes, |c|)
    ensures forall x <- classes :: |classes[x]| == multiset(c)[x]
  {
    assert c[..|c|] == c;
    forall x | x in classes ensures |classes[x]| == multiset(c)[x] {
      MembersCount(c, x, |c|);
    }
  }

  /** The smallest of the classes of several nodes, the least colour deciding; empty without ties. */
  method FindTarget(colour: Colours) returns (target: seq<nat>)
    ensures !Tied(colour) ==> target == []
    ensures Tied(colour) ==> target == Members(colour, Target(colour), |colour|)
  {
    hide Members, Precedes;
    var classes := Classify(colour);
    assert colour[..|colour|] == colour;
    var todo := classes.Keys;
    var key: Option<string> := None;
    while todo != {}
      invariant todo <= classes.Keys
      invariant key.Some? ==> key.value in classes
      invariant BestSoFar(colour, classes.Keys - todo, key)
    {
      var x :| x in todo;
      if |classes[x]| > 1 &&
         (key.None? || |classes[x]| < |classes[key.value]|
          || (|classes[x]| == |classes[key.value]| && Less(x, key.value))) {
        Supersedes(colour, classes.Keys - todo, key, x);
        key := Some(x);
      } else {
        Retains(colour, classes.Keys - todo, key, x);
      }
      todo := todo - {x};
      assert classes.Keys - todo == classes.Keys - (todo + {x}) + {x};
    }
    assert classes.Keys - todo == classes.Keys;
    Found(colour, classes, key);
    target := if key.None? then [] else classes[key.value];
  }

  /** What is best among all classes is the target. */
  lemma Found(c: Colours, classes: map<string, seq<nat>>, key: Option<string>)
    requires Classified(c, classes, |c|) && BestSoFar(c, classes.Keys, key)
    requires key.Some? ==> key.value in classes
    ensures key.None? ==> !Tied(c)
    ensures key.Some? ==> Tied(c) && classes[key.value] == Members(c, Target(c), |c|)
  {
    TiedMeansRepeated(c);
    hide Members, Precedes;
    assert c[..|c|] == c;
    forall y | multiset(c)[y] >= 2 ensures y in classes.Keys {
      assert y in multiset(c);
    }
    if key.Some? {
      TargetUnique(c, key.value, Target(c));
    }
  }

  ghost predicate BestSoFar(c: Colours, seen: set<string>, key: Option<string>) {
    match key
    case None => forall y <- seen :: multiset(c)[y] < 2
    case Some(x) =>
      multiset(c)[x] >= 2 && forall y <- seen :: multiset(c)[y] >= 2 ==> Precedes(c, x, y)
  }

  lemma Retains(c: Colours, seen: set<string>, key: Option<string>, x: string)
    requires BestSoFar(c, seen, key)
    requires multiset(c)[x] < 2 || (key.Some? && !(multiset(c)[x] < multiset(c)[key.value])
                                    && !(multiset(c)[x] == multiset(c)[key.value] && Less(x, key.value)))
    ensures BestSoFar(c, seen + {x}, key)
  {}

  lemma Supersedes(c: Colours, seen: set<string>, key: Option<string>, x: string)
    requires BestSoFar(c, seen, key) && multiset(c)[x] >= 2
    requires key.None? || multiset(c)[x] < multiset(c)[key.value]
             || (multiset(c)[x] == multiset(c)[key.value] && Less(x, key.value))
    ensures BestSoFar(c, seen + {x}, Some(x))
  {
    StringOrder();
    forall y | y in seen && multiset(c)[y] >= 2 ensures Precedes(c, x, y) {
      if key.Some? {
        PrecedesTransitive(c, x, key.value, y);
      }
    }
  }

  lemma {:induction false} NewMembers(c: Colours, x: string, k: nat)
    requires k <= |c| && x !in c[..k]
    ensures Members(c, x, k) == []
  {
    if k != 0 {
      assert c[..k][k - 1] == c[k - 1];
      assert forall y <- c[..k - 1] :: y in c[..k];
      NewMembers(c, x, k - 1);
    }
  }

  /** The leaves below the first `k` nodes of the target class. */
  ghost function Visited(a: Adjacency, c: Colours, k: nat): multiset<string>
    requires a.Valid() && |c| == |a.labels| && Numerals(c) && Tied(c)
    requires k <= |Members(c, Target(c), |c|)|
  {
    Flatten(MapSeq(Below(a, c, Target(c)), Members(c, Target(c), |c|)[..k]))
  }

  lemma VisitNext(a: Adjacency, c: Colours, k: nat)
    requires a.Valid() && |c| == |a.labels| && Numerals(c) && Tied(c)
    requires k < |Members(c, Target(c), |c|)|
    ensures Members(c, Target(c), |c|)[k] < |c|
    ensures c[Members(c, Target(c), |c|)[k]] == Target(c)
    ensures Visited(a, c, k + 1) == Visited(a, c, k) + Below(a, c, Target(c))(Members(c, Target(c), |c|)[k])
  {
    var p, x := Members(c, Target(c), |c|), Target(c);
    var g := Below(a, c, x);
    assert p[k] in p;
    assert p[..k + 1] == p[..k] + [p[k]];
    MapSeqAppend(g, p[..k], [p[k]]);
    FlattenAppend(MapSeq(g, p[..k]), MapSeq(g, [p[k]]));
    assert MapSeq(g, [p[k]]) == [g(p[k])];
  }

  lemma VisitedBounds(a: Adjacency, c: Colours, k: nat)
    requires a.Valid() && |c| == |a.labels| && Numerals(c) && Tied(c)
    requires k <= |Members(c, Target(c), |c|)|
    ensures Visited(a, c, 0) == multiset{}
    ensures |Visited(a, c, k)| <= |LeafForms(a, c)|
    ensures k == |Members(c, Target(c), |c|)| ==> Visited(a, c, k) == LeafForms(a, c)
  {
    var p, g := Members(c, Target(c), |c|), Below(a, c, Target(c));
    assert p[..k] + p[k..] == p;
    MapSeqAppend(g, p[..k], p[k..]);
    FlattenAppend(MapSeq(g, p[..k]), MapSeq(g, p[k..]));
    if k == |p| {
      assert p[..k] == p;
    }
  }

  lemma LeastOfTwo(m: multiset<string>, n: multiset<string>, s: string, t: string)
    requires IsLeast(m, s) && IsLeast(n, t)
    ensures IsLeast(m + n, if Less(t, s) then t else s)
  {
    StringOrder();
  }

  /** Where the counter stands, having started at `before`, and what the least form is, once the
      leaves in `m` have been accounted for. */
  ghost predicate Accounted(budget: nat, before: nat, now: nat, m: multiset<string>, best: Option<string>) {
    if before + |m| >= budget then now >= budget
    else
      && now == before + |m|
      && match best
         case None => m == multiset{}
         case Some(s) => IsLeast(m, s)
  }

  function Better(best: Option<string>, candidate: string): string {
    if best.None? || Less(candidate, best.value) then candidate else best.value
  }

  lemma AccountedNext(budget: nat, before: nat, mid: nat, now: nat, m: multiset<string>, n: multiset<string>,
                      best: Option<string>, candidate: string)
    requires Accounted(budget, before, mid, m, best) && mid < budget
    requires Accounted(budget, mid, now, n, Some(candidate))
    ensures Accounted(budget, before, now, m + n, Some(Better(best, candidate)))
  {
    if before + |m + n| < budget {
      if best.Some? {
        LeastOfTwo(m, n, best.value, candidate);
      } else {
        assert m + n == n;
      }
    }
  }

  lemma Untied(a: Adjacency, c: Colours)
    requires a.Valid() && |c| == |a.labels| && Numerals(c)
    ensures Tied(c) ==> |Members(c, Target(c), |c|)| >= 2
    ensures !Tied(c) ==> LeafForms(a, c) == multiset{Emit(a, c)}
  {
    if Tied(c) {
      MembersCount(c, Target(c), |c|);
      assert c[..|c|] == c;
    }
  }

  lemma BelowChild(a: Adjacency, c: Colours, n: nat)
    requires a.Valid() && |c| == |a.labels| && Numerals(c) && Tied(c) && n < |c| && c[n] == Target(c)
    ensures Numerals(Child(a, c, n)) && Classes(c) < Classes(Child(a, c, n)) <= |c|
    ensures Below(a, c, Target(c))(n) == LeafForms(a, Child(a, c, n))
  {
    ChildSplits(a, c, n);
    ClassesBounded(Child(a, c, n));
  }

  /** The state of one search: `leaves` is shared by all the nested calls. */
  class Search {
    const a: Adjacency
    const budget: nat
    var leaves: nat

    constructor (a: Adjacency, budget: nat)
      ensures this.a == a && this.budget == budget && leaves == 0
    {
      this.a, this.budget, leaves := a, budget, 0;
    }

    /** One call of the recursive search. Under the budget it counts every leaf once and answers the
        least of them; once the budget is reached the counter says so. */
    method Explore(colour: Colours) returns (form: string)
      requires a.Valid() && |colour| == |a.labels| && Numerals(colour)
      modifies this`leaves
      ensures leaves > old(leaves)
      ensures Accounted(budget, old(leaves), leaves, LeafForms(a, colour), Some(form))
      ensures Written(a, form)
      decreases |colour| - Classes(colour)
    {
      hide Emit, Below, LeafForms, Numerals, Tied, Accounted, Members, Refined, Visited;
      ClassesBounded(colour);
      Untied(a, colour);
      var target := FindTarget(colour);
      if target == [] {
        leaves := leaves + 1;
        form := Emit(a, colour);
        Singleton(budget, old(leaves), LeafForms(a, colour), form);
        return;
      }
      var best: Option<string> := None;
      var k := 0;
      VisitedBounds(a, colour, 0);
      NothingYet(budget, leaves);
      while k < |target| && leaves < budget
        invariant k <= |target| && leaves >= old(leaves)
        invariant best.None? ==> k == 0 && leaves == old(leaves)
        invariant best.Some? ==> leaves > old(leaves) && Written(a, best.value)
        invariant Accounted(budget, old(leaves), leaves, Visited(a, colour, k), best)
      {
        var node := target[k];
        VisitNext(a, colour, k);
        BelowChild(a, colour, node);
        var refined := Refine(a, colour[node := colour[node] + "!"]);
        ghost var mid := leaves;
        var candidate := Explore(refined);
        AccountedNext(budget, old(leaves), mid, leaves, Visited(a, colour, k), LeafForms(a, refined), best, candidate);
        if best.None? || Less(candidate, best.value) {
          best := Some(candidate);
        }
        k := k + 1;
      }
      VisitedBounds(a, colour, k);
      CutOff(budget, old(leaves), leaves, Visited(a, colour, k), LeafForms(a, colour), best);
      if best.None? {
        leaves := leaves + 1;
        form := Emit(a, colour);
      } else {
        form := best.value;
      }
    }
  }

  lemma Singleton(budget: nat, before: nat, m: multiset<string>, s: string)
    requires m == multiset{s}
    ensures Accounted(budget, before, before + 1, m, Some(s))
  {
    LessIrreflexive(s);
  }

  lemma NothingYet(budget: nat, now: nat)
    ensures Accounted(budget, now, now, multiset{}, None)
  {}

  /** Leaving the loop: either every leaf was accounted for or the budget is spent. */
  lemma CutOff(budget: nat, before: nat, now: nat, m: multiset<string>, all: multiset<string>, best: Option<string>)
    requires Accounted(budget, before, now, m, best) && |m| <= |all|
    requires m == all || now >= budget
    ensures now >= budget ==> forall later, s :: later >= now ==> Accounted(budget, before, later, all, Some(s))
    ensures now < budget && best.Some? ==> Accounted(budget, before, now, all, best)
  {}
}
