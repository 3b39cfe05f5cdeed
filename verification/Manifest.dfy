/** `manifest_dependencies`: the manifest modules a source imports, directly or through files that
    are not in the manifest. */
module Manifest {
  import opened Listing

  type Name = string

  /** What the file system says: the manifest's modules, and the direct imports of every source
      file found for a module that is not in it. Without a source root there are no such files. */
  datatype Sources = Sources(manifest: set<Name>, bridges: map<Name, set<Name>>)

  /** A chain of imports that ends at its first manifest module. */
  ghost predicate ImportChain(w: Sources, direct: set<Name>, chain: seq<Name>) {
    && chain != [] && chain[0] in direct
    && (forall i :: 0 <= i < |chain| - 1 ==>
          chain[i] !in w.manifest && chain[i] in w.bridges && chain[i + 1] in w.bridges[chain[i]])
  }

  ghost predicate Imports(w: Sources, direct: set<Name>, module_: Name) {
    exists chain :: ImportChain(w, direct, chain) && chain[|chain| - 1] == module_
  }

  /** The manifest modules reached by a chain of imports through bridge files. */
  ghost predicate DependenciesOf(w: Sources, direct: set<Name>, dependencies: set<Name>) {
    forall m :: m in dependencies <==> m in w.manifest && Imports(w, direct, m)
  }

  lemma ChainGrows(w: Sources, direct: set<Name>, m: Name, n: Name)
    requires Imports(w, direct, m) && m !in w.manifest && m in w.bridges && n in w.bridges[m]
    ensures Imports(w, direct, n)
  {
    var chain :| ImportChain(w, direct, chain) && chain[|chain| - 1] == m;
    assert ImportChain(w, direct, chain + [n]);
  }

  /** Names on the work list or visited have been reached, and what visited bridges import is there. */
  ghost predicate Explored(w: Sources, direct: set<Name>, pending: seq<Name>, visited: set<Name>, dependencies: set<Name>) {
    && (forall n :: n in pending || n in visited ==> Imports(w, direct, n))
    && (forall n :: n in direct ==> n in pending || n in visited)
    && (forall m, n :: m in visited && m !in w.manifest && m in w.bridges && n in w.bridges[m] ==> n in pending || n in visited)
    && dependencies == visited * w.manifest
  }

  lemma {:induction false} ChainVisited(w: Sources, direct: set<Name>, visited: set<Name>, dependencies: set<Name>, chain: seq<Name>)
    requires Explored(w, direct, [], visited, dependencies) && ImportChain(w, direct, chain)
    ensures chain[|chain| - 1] in visited
    decreases |chain|
  {
    if |chain| > 1 {
      var before := chain[..|chain| - 1];
      assert ImportChain(w, direct, before);
      ChainVisited(w, direct, visited, dependencies, before);
      assert chain[|chain| - 2] == before[|before| - 1];
    }
  }

  /** Every name that can be met. */
  ghost function Universe(w: Sources, direct: set<Name>): set<Name> {
    direct + set b, n | b in w.bridges && n in w.bridges[b] :: n
  }

  /** `manifest_dependencies`. */
  method Dependencies(direct: set<Name>, w: Sources) returns (dependencies: set<Name>)
    ensures DependenciesOf(w, direct, dependencies)
  {
    dependencies := {};
    var pending := InSomeOrder(direct);
    var visited: set<Name> := {};
    Begin(w, direct, pending);
    hide *;
    while pending != []
      invariant Explored(w, direct, pending, visited, dependencies)
      decreases Unvisited(w, direct, visited), |pending|
    {
      var imported := pending[|pending| - 1];
      if imported in visited {
        Skip(w, direct, pending, visited, dependencies);
        pending := pending[..|pending| - 1];
        continue;
      }
      Shrinks(w, direct, pending, visited, dependencies);
      var more: seq<Name> := [];
      if imported !in w.manifest && imported in w.bridges {
        more := InSomeOrder(w.bridges[imported]);
      }
      Visit(w, direct, pending, visited, dependencies, more);
      visited := visited + {imported};
      if imported in w.manifest {
        dependencies := dependencies + {imported};
      }
      pending := pending[..|pending| - 1] + more;
    }
    AllVisited(w, direct, visited, dependencies);
  }

  /** How many names are still to be met. */
  ghost function Unvisited(w: Sources, direct: set<Name>, visited: set<Name>): nat {
    |Universe(w, direct) - visited|
  }

  lemma Begin(w: Sources, direct: set<Name>, pending: seq<Name>)
    requires forall n :: n in pending <==> n in direct
    ensures Explored(w, direct, pending, {}, {})
  {
    forall n | n in direct ensures Imports(w, direct, n) {
      assert ImportChain(w, direct, [n]);
    }
  }

  lemma InUniverse(w: Sources, direct: set<Name>, n: Name)
    requires Imports(w, direct, n)
    ensures n in Universe(w, direct)
  {
    var chain :| ImportChain(w, direct, chain) && chain[|chain| - 1] == n;
    if |chain| > 1 {
      assert chain[|chain| - 2] in w.bridges;
    }
  }

  lemma Shrinks(w: Sources, direct: set<Name>, pending: seq<Name>, visited: set<Name>, dependencies: set<Name>)
    requires Explored(w, direct, pending, visited, dependencies) && pending != [] && pending[|pending| - 1] !in visited
    ensures Unvisited(w, direct, visited + {pending[|pending| - 1]}) < Unvisited(w, direct, visited)
  {
    var n, universe := pending[|pending| - 1], Universe(w, direct);
    assert n in pending;
    InUniverse(w, direct, n);
    hide Explored, Imports, Universe;
    assert universe - visited == (universe - (visited + {n})) + {n};
  }

  lemma Skip(w: Sources, direct: set<Name>, pending: seq<Name>, visited: set<Name>, dependencies: set<Name>)
    requires Explored(w, direct, pending, visited, dependencies) && pending != [] && pending[|pending| - 1] in visited
    ensures Explored(w, direct, pending[..|pending| - 1], visited, dependencies)
  {
    hide Imports;
    assert pending == pending[..|pending| - 1] + [pending[|pending| - 1]];
  }

  lemma Visit(w: Sources, direct: set<Name>, pending: seq<Name>, visited: set<Name>, dependencies: set<Name>, more: seq<Name>)
    requires Explored(w, direct, pending, visited, dependencies) && pending != []
    requires var m := pending[|pending| - 1];
             if m !in w.manifest && m in w.bridges then forall n :: n in more <==> n in w.bridges[m] else more == []
    ensures var m := pending[|pending| - 1];
            Explored(w, direct, pending[..|pending| - 1] + more, visited + {m},
                     if m in w.manifest then dependencies + {m} else dependencies)
  {
    var m := pending[|pending| - 1];
    assert m in pending && pending == pending[..|pending| - 1] + [m];
    forall n | n in more ensures Imports(w, direct, n) {
      ChainGrows(w, direct, m, n);
    }
    hide Imports;
  }

  lemma AllVisited(w: Sources, direct: set<Name>, visited: set<Name>, dependencies: set<Name>)
    requires Explored(w, direct, [], visited, dependencies)
    ensures DependenciesOf(w, direct, dependencies)
  {
    forall m ensures m in dependencies <==> m in w.manifest && Imports(w, direct, m) {
      if Imports(w, direct, m) {
        var chain :| ImportChain(w, direct, chain) && chain[|chain| - 1] == m;
        ChainVisited(w, direct, visited, dependencies, chain);
      }
    }
  }
}
