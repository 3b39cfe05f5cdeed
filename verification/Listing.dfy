/** Lists as multisets: mapping, flattening, duplicate-free lists and permutations. */
module Listing {

  function MapSeq<A, B>(f: A -> B, s: seq<A>): (r: seq<B>)
    ensures |r| == |s| && forall i :: 0 <= i < |s| ==> r[i] == f(s[i])
  {
    seq(|s|, i requires 0 <= i < |s| => f(s[i]))
  }

  lemma MapSeqAppend<A, B>(f: A -> B, s: seq<A>, t: seq<A>)
    ensures MapSeq(f, s + t) == MapSeq(f, s) + MapSeq(f, t)
  {}

  ghost function Without<A>(s: seq<A>, p: nat): (r: seq<A>)
    requires p < |s|
    ensures |r| == |s| - 1
    ensures multiset(r) == multiset(s) - multiset{s[p]}
  {
    assert s == s[..p] + [s[p]] + s[p + 1..];
    s[..p] + s[p + 1..]
  }

  lemma MapSeqRemove<A, B>(f: A -> B, s: seq<A>, p: nat)
    requires p < |s|
    ensures multiset(MapSeq(f, s)) == multiset(MapSeq(f, Without(s, p))) + multiset{f(s[p])}
  {
    var m := MapSeq(f, s);
    assert MapSeq(f, Without(s, p)) == Without(m, p);
    assert m[p] in multiset(m);
  }

  /** Images of rearranged lists are rearranged images. */
  lemma {:induction false} MapSeqMultiset<A, B>(f: A -> B, s: seq<A>, t: seq<A>)
    requires multiset(s) == multiset(t)
    ensures multiset(MapSeq(f, s)) == multiset(MapSeq(f, t))
  {
    if s == [] {
      assert |multiset(t)| == 0;
    } else {
      assert s[0] in multiset(t);
      var p :| 0 <= p < |t| && t[p] == s[0];
      var u, v := Without(s, 0), Without(t, p);
      MapSeqMultiset(f, u, v);
      MapSeqRemove(f, s, 0);
      MapSeqRemove(f, t, p);
    }
  }

  /** The sum of a list of multisets. */
  ghost function Flatten<T>(s: seq<multiset<T>>): multiset<T> {
    if s == [] then multiset{} else s[0] + Flatten(s[1..])
  }

  lemma {:induction false} FlattenAppend<T>(s: seq<multiset<T>>, t: seq<multiset<T>>)
    ensures Flatten(s + t) == Flatten(s) + Flatten(t)
  {
    if s == [] {
      assert s + t == t;
    } else {
      assert (s + t)[1..] == s[1..] + t;
      FlattenAppend(s[1..], t);
    }
  }

  lemma FlattenRemove<T>(s: seq<multiset<T>>, p: nat)
    requires p < |s|
    ensures Flatten(s) == Flatten(Without(s, p)) + s[p]
  {
    FlattenAppend(s[..p], s[p + 1..]);
    FlattenAppend(s[..p], s[p..]);
    assert s == s[..p] + s[p..];
  }

  lemma {:induction false} FlattenMultiset<T>(s: seq<multiset<T>>, t: seq<multiset<T>>)
    requires multiset(s) == multiset(t)
    ensures Flatten(s) == Flatten(t)
  {
    if s == [] {
      assert |multiset(t)| == 0;
    } else {
      assert s[0] in multiset(t);
      var p :| 0 <= p < |t| && t[p] == s[0];
      FlattenMultiset(Without(s, 0), Without(t, p));
      FlattenRemove(s, 0);
      FlattenRemove(t, p);
    }
  }

  // ---------------------------------------------------------------- duplicate-free lists

  predicate NoDup<A(==)>(s: seq<A>) {
    forall i, j :: 0 <= i < j < |s| ==> s[i] != s[j]
  }

  lemma {:induction false} NoDupMultiset<A>(s: seq<A>)
    requires NoDup(s)
    ensures multiset(s) == multiset(set x | x in s)
    ensures |set x | x in s| == |s|
  {
    if s != [] {
      NoDupMultiset(s[1..]);
      assert s == [s[0]] + s[1..];
      assert (set x | x in s) == {s[0]} + (set x | x in s[1..]);
    }
  }

  lemma NoDupCounts<A>(s: seq<A>)
    ensures NoDup(s) <==> forall x :: multiset(s)[x] <= 1
  {
    if NoDup(s) {
      NoDupMultiset(s);
    } else {
      var i, j :| 0 <= i < j < |s| && s[i] == s[j];
      assert s == s[..i] + [s[i]] + s[i + 1..j] + [s[j]] + s[j + 1..];
      assert multiset(s)[s[i]] >= 2;
    }
  }

  lemma SameElements<A>(s: seq<A>, t: seq<A>)
    requires NoDup(s) && NoDup(t)
    requires forall x :: x in s <==> x in t
    ensures multiset(s) == multiset(t) && |s| == |t|
  {
    NoDupMultiset(s);
    NoDupMultiset(t);
    assert (set x | x in s) == (set x | x in t);
  }

  /** The elements of a set in some order. */
  method InSomeOrder<A(==)>(s: set<A>) returns (list: seq<A>)
    ensures NoDup(list) && forall x :: x in list <==> x in s
  {
    list := [];
    var rest := s;
    while rest != {}
      invariant rest <= s && NoDup(list) && forall x :: x in list <==> x in s - rest
      decreases |rest|
    {
      var x :| x in rest;
      assert x !in list;
      rest := rest - {x};
      list := list + [x];
    }
  }

  // ---------------------------------------------------------------- permutations of 0..n

  predicate Perm(f: seq<nat>, n: nat) {
    |f| == n && (forall i :: 0 <= i < n ==> f[i] < n) && NoDup(f)
  }

  /** The numbers below `n`. */
  function Range(n: nat): (r: set<nat>)
    ensures |r| == n
    ensures forall i :: i in r <==> 0 <= i < n
  {
    if n == 0 then {} else Range(n - 1) + {n - 1}
  }

  lemma SubsetOfEqualSize<A>(a: set<A>, b: set<A>)
    requires a <= b && |a| == |b|
    ensures a == b
  {
    assert b == a + (b - a);
    assert |b - a| == 0;
  }

  lemma SubsetSize<A>(a: set<A>, b: set<A>)
    requires a <= b
    ensures |a| <= |b|
  {
    assert |b| == |b - a| + |a|;
  }

  lemma ProperSubsetSize<A>(a: set<A>, b: set<A>)
    requires a < b
    ensures |a| < |b|
  {
    assert |b| == |b - a| + |a|;
  }

  /** An injection of a finite range into itself is onto. */
  lemma PermOnto(f: seq<nat>, n: nat)
    requires Perm(f, n)
    ensures forall j :: 0 <= j < n ==> j in f
    ensures multiset(f) == multiset(Range(n))
  {
    NoDupMultiset(f);
    SubsetOfEqualSize((set x | x in f), Range(n));
    assert forall j :: j in f <==> j in Range(n);
  }

  function IndexOf<A(==)>(s: seq<A>, x: A): (i: nat)
    ensures i <= |s|
    ensures x in s <==> i < |s|
    ensures i < |s| ==> s[i] == x
  {
    if s == [] then 0 else if s[0] == x then 0 else 1 + IndexOf(s[1..], x)
  }

  /** Where each number stands in the list. */
  function Inverse(f: seq<nat>): (g: seq<nat>)
    ensures |g| == |f|
  {
    seq(|f|, n requires 0 <= n < |f| => IndexOf(f, n))
  }

  lemma InverseOf(f: seq<nat>, n: nat)
    requires Perm(f, n)
    ensures Perm(Inverse(f), n)
    ensures forall i :: 0 <= i < n ==> Inverse(f)[f[i]] == i && f[Inverse(f)[i]] == i
  {
    PermOnto(f, n);
  }
}
