/** What every run of the parallel builder guarantees. */
module BuildGuarantees {
  import opened Digraph
  import opened Listing
  import opened Sorting
  import opened Manifest
  import opened ParallelBuild

  // ------------------------------------------------------------ safety

  /** `d` is a direct or transitive dependency of `m`. */
  ghost predicate DependsOn(c: Config, m: Name, d: Name) {
    m in c.dependencies && exists next <- c.dependencies[m] :: Reach(c.dependencies, next, d)
  }

  /** What is completed has its dependencies completed, transitively. */
  lemma CompletedStays(c: Config, s: State, m: Name, d: Name)
    requires Legal(c) && Inv(c, s) && m in s.completed && Reach(c.dependencies, m, d)
    ensures d in s.completed
  {
    forall x | x in s.completed && x in c.dependencies ensures c.dependencies[x] <= s.completed {
      assert x in s.started;
    }
    hide Inv, Reach;
    ReachStays(c.dependencies, s.completed, m, d);
  }

  /** A module has been submitted only if everything it transitively depends on was completed. */
  lemma StartsAfterDependencies(c: Config, run: seq<State>, i: nat, m: Name, d: Name)
    requires Legal(c) && IsRun(c, run) && i < |run| && m in run[i].started && DependsOn(c, m, d)
    ensures d in run[i].completed
  {
    InvRun(c, run, i);
    var next :| next in c.dependencies[m] && Reach(c.dependencies, next, d);
    assert next in run[i].completed;
    hide IsRun, Inv;
    CompletedStays(c, run[i], next, d);
  }

  /** No module is lost or in two places, and at most `jobs` run. */
  lemma PlacesAndJobs(c: Config, run: seq<State>, i: nat)
    requires Legal(c) && IsRun(c, run) && i < |run|
    ensures var s := run[i];
            && |s.running| <= c.jobs && NoDup(s.started)
            && s.pending !! s.running && s.pending !! s.completed && s.running !! s.completed
            && (!s.phase.Raised? ==> s.pending + s.running + s.completed == c.dependencies.Keys)
            && (forall m :: m in s.started ==> m !in s.pending)
  {
    InvRun(c, run, i);
    hide *;
    Places(c, run[i]);
    StartedPlaces(c, run[i]);
  }

  lemma Places(c: Config, s: State)
    requires Inv(c, s)
    ensures |s.running| <= c.jobs
    ensures s.pending !! s.running && s.pending !! s.completed && s.running !! s.completed
    ensures !s.phase.Raised? ==> s.pending + s.running + s.completed == c.dependencies.Keys
  {
    hide Ordered;
  }

  lemma StartedPlaces(c: Config, s: State)
    requires Inv(c, s)
    ensures NoDup(s.started) && forall m :: m in s.started ==> m !in s.pending
  {
    hide InOrder, NoDup, PhaseFits;
    assert InOrder(c, s.started);
    StartedOnce(c, s.started);
  }

  lemma StartedOnce(c: Config, started: seq<Name>)
    requires InOrder(c, started)
    ensures NoDup(started)
  {}

  /** The compilation of `f` has failed. */
  ghost predicate HasFailed(s: State, f: Name) {
    (f in s.finished && !s.finished[f]) || s.phase == Raised(f)
  }

  lemma FailedNotCompleted(c: Config, s: State, f: Name)
    requires Inv(c, s) && HasFailed(s, f)
    ensures f !in s.completed
  {
    hide Ordered;
    assert s.phase == Raised(f) ==> f in RaisedSet(s);
  }

  /** A step does not forget a failure, not even one that raises another. */
  lemma FailureKept(c: Config, s: State, t: State, f: Name)
    requires Next(c, s, t) && HasFailed(s, f)
    ensures HasFailed(t, f)
  {
    hide IsReadyList;
  }

  /** A failure stays known for the rest of the run. */
  lemma {:induction false} FailureStays(c: Config, run: seq<State>, i: nat, j: nat, f: Name)
    requires IsRun(c, run) && i <= j < |run| && HasFailed(run[i], f)
    ensures HasFailed(run[j], f)
    decreases j - i
  {
    if i < j {
      FailureStays(c, run, i, j - 1, f);
      hide HasFailed, Next;
      FailureKept(c, run[j - 1], run[j], f);
    }
  }

  /** Nothing that transitively depends on a failed module has been submitted, or ever will be. */
  lemma NoDependantStarts(c: Config, run: seq<State>, i: nat, j: nat, f: Name, m: Name)
    requires Legal(c) && IsRun(c, run) && i <= j < |run| && HasFailed(run[i], f) && DependsOn(c, m, f)
    ensures m !in run[j].started
  {
    InvRun(c, run, j);
    FailureStays(c, run, i, j, f);
    FailedNotCompleted(c, run[j], f);
    hide IsRun, Inv, DependsOn, HasFailed;
    if m in run[j].started {
      StartsAfterDependencies(c, run, j, m, f);
    }
  }

  /** After the first failure is raised nothing more is submitted. */
  lemma RaisedIsFinal(c: Config, s: State, t: State)
    requires s.phase.Raised? && Next(c, s, t)
    ensures t.phase == s.phase && t.started == s.started && t.completed == s.completed && t.pending == s.pending
  {}

  // ------------------------------------------------------------ cycles

  /** In a submission order every path leads to earlier submissions. */
  lemma {:induction false} PathGoesBack(c: Config, started: seq<Name>, p: seq<Name>, i: nat, j: nat)
    requires InOrder(c, started) && Path(c.dependencies, p)
    requires i < |started| && j < |started| && started[i] == p[0] && started[j] == p[|p| - 1]
    ensures j <= i
    decreases |p|
  {
    if |p| > 1 {
      assert p[1] in started[..i];
      var k :| 0 <= k < i && started[k] == p[1];
      assert Path(c.dependencies, p[1..]);
      PathGoesBack(c, started, p[1..], k, j);
    } else {
      assert started[i] == started[j];
    }
  }

  /** If everything could be submitted in order there is no cycle. */
  lemma OrderHasNoCycle(c: Config, started: seq<Name>)
    requires Closed(c.dependencies) && InOrder(c, started) && forall m <- c.dependencies :: m in started
    ensures !HasCycle(c.dependencies)
  {
    if HasCycle(c.dependencies) {
      var x, y :| x in c.dependencies && y in c.dependencies[x] && Reach(c.dependencies, y, x);
      var p :| PathFrom(c.dependencies, p, y, x);
      var i :| 0 <= i < |started| && started[i] == x;
      assert y in started[..i];
      var k :| 0 <= k < i && started[k] == y;
      PathGoesBack(c, started, p, k, i);
    }
  }

  /** Everything in the set has a successor in the set. */
  ghost predicate Supplied(e: Graph<Name>, members: set<Name>) {
    forall m <- members :: m in e && Supplies(e, members, m)
  }

  ghost predicate Supplies(e: Graph<Name>, members: set<Name>, m: Name)
    requires m in e
  {
    exists d :: d in e[m] && d in members
  }

  lemma PathAppends(e: Graph<Name>, p: seq<Name>, d: Name)
    requires Path(e, p) && d in e && d in e[p[|p| - 1]]
    ensures Path(e, p + [d])
  {}

  lemma Successor(e: Graph<Name>, members: set<Name>, m: Name) returns (d: Name)
    requires Supplied(e, members) && m in members
    ensures m in e && d in e[m] && d in members && d in e
  {
    assert Supplies(e, members, m);
    d :| d in e[m] && d in members;
    hide Supplies;
  }

  /** A path inside such a set can be made as long as wanted. */
  lemma {:induction false} LongPath(e: Graph<Name>, members: set<Name>, n: nat) returns (p: seq<Name>)
    requires members != {} && Supplied(e, members)
    ensures Path(e, p) && |p| == n + 1 && forall x <- p :: x in members
  {
    if n == 0 {
      var m :| m in members;
      p := [m];
    } else {
      hide Path, Supplied;
      var q := LongPath(e, members, n - 1);
      var last := q[|q| - 1];
      assert last in q;
      var d := Successor(e, members, last);
      PathAppends(e, q, d);
      p := q + [d];
    }
  }

  lemma StretchReaches(e: Graph<Name>, p: seq<Name>, i: nat, j: nat)
    requires Path(e, p) && i < j < |p|
    ensures p[i] in e && p[i + 1] in e[p[i]] && Reach(e, p[i + 1], p[j])
  {
    assert PathFrom(e, p[i + 1..j + 1], p[i + 1], p[j]);
  }

  /** Where everything has a successor there is a cycle. */
  lemma SuppliedCycle(e: Graph<Name>, members: set<Name>)
    requires members != {} && Supplied(e, members)
    ensures HasCycle(e)
  {
    hide Supplied, Path, Reach;
    var p := LongPath(e, members, |members|);
    if NoDup(p) {
      NoDupMultiset(p);
      SubsetSize((set x | x in p), members);
    } else {
      var i, j :| 0 <= i < j < |p| && p[i] == p[j];
      StretchReaches(e, p, i, j);
    }
  }

  lemma StuckHasCycle(c: Config, s: State)
    requires Legal(c) && Inv(c, s) && s.phase == Cyclic
    ensures HasCycle(c.dependencies)
  {
    assert Supplied(c.dependencies, s.pending) by {
      hide Ordered;
      forall m | m in s.pending ensures m in c.dependencies && Supplies(c.dependencies, s.pending, m) {
        var d :| d in c.dependencies[m] && d !in s.completed;
        assert d in c.dependencies;
      }
    }
    hide Inv, Legal, Supplied;
    SuppliedCycle(c.dependencies, s.pending);
  }

  lemma CompleteHasNoCycle(c: Config, s: State)
    requires Legal(c) && Inv(c, s) && s.phase == Complete
    ensures s.completed == c.dependencies.Keys && !HasCycle(c.dependencies)
  {
    assert forall m <- c.dependencies :: m in s.completed && m in s.started;
    OrderHasNoCycle(c, s.started);
  }

  // ------------------------------------------------------------ every run ends

  /** Steps left at most. */
  ghost function Measure(s: State): int {
    7 * |s.pending| + 5 * |s.running| + (|s.running| - |s.finished.Keys|) + PhaseWeight(s.phase)
  }

  function PhaseWeight(p: Phase): nat {
    match p
    case Looping => 4
    case Filling(_) => 3
    case Waiting => 2
    case Collecting(_, taken) => if taken then 5 else 1
    case _ => 0
  }

  lemma MeasureBounded(c: Config, s: State)
    requires Inv(c, s)
    ensures Measure(s) >= 0
  {
    SubsetSize(s.finished.Keys, s.running);
  }

  lemma SubmitSizes(c: Config, s: State, t: State)
    requires Inv(c, s) && Submit(c, s, t)
    ensures |t.pending| == |s.pending| - 1 && |t.running| == |s.running| + 1 && t.finished == s.finished
  {
    hide Ordered;
    var m := s.phase.ready[0];
    assert m in s.phase.ready && s.pending == t.pending + {m};
  }

  lemma SizeWithout(s: set<Name>, m: Name)
    requires m in s
    ensures |s - {m}| == |s| - 1
  {}

  lemma TakeSizes(c: Config, s: State, t: State, m: Name)
    requires Inv(c, s) && Take(s, t, m)
    ensures |t.running| == |s.running| - 1 && |t.finished.Keys| == |s.finished.Keys| - 1 && t.pending == s.pending
  {
    hide Ordered, PhaseFits;
    assert m in s.running && m in s.finished;
    SizeWithout(s.running, m);
    SizeWithout(s.finished.Keys, m);
    assert t.finished.Keys == s.finished.Keys - {m};
  }

  lemma FinishSizes(s: State, t: State, m: Name, ok: bool)
    requires Finish(s, t, m, ok)
    ensures |t.finished.Keys| == |s.finished.Keys| + 1
  {
    assert t.finished.Keys == s.finished.Keys + {m};
  }

  lemma TurnWeights(c: Config, s: State, t: State)
    requires s.phase.Collecting? ==> s.phase.done != {} || s.phase.taken
    requires Scan(c, s, t) || EndFill(c, s, t) || Wake(s, t) || EndCollect(s, t)
    ensures t.pending == s.pending && t.running == s.running && t.finished == s.finished
    ensures PhaseWeight(t.phase) < PhaseWeight(s.phase)
  {
    hide IsReadyList;
  }

  /** Every step brings the end closer. */
  lemma MeasureFalls(c: Config, s: State, t: State)
    requires Inv(c, s) && Next(c, s, t)
    ensures Measure(t) < Measure(s)
  {
    assert s.phase.Collecting? ==> s.phase.done != {} || s.phase.taken by {
      hide Partitioned, Ordered;
    }
    hide Inv, Scan, EndFill, Wake, EndCollect, IsReadyList;
    if Submit(c, s, t) {
      SubmitSizes(c, s, t);
    } else if m :| Take(s, t, m) {
      TakeSizes(c, s, t, m);
    } else if m, ok :| Finish(s, t, m, ok) {
      FinishSizes(s, t, m, ok);
    } else {
      TurnWeights(c, s, t);
    }
  }

  lemma InitialMeasure(c: Config)
    ensures Measure(Init(c)) == 7 * |c.dependencies.Keys| + 4
  {}

  /** No run takes more than seven steps per module and four. */
  lemma {:induction false} RunsEnd(c: Config, run: seq<State>, i: nat)
    requires Legal(c) && IsRun(c, run) && i < |run|
    ensures i + Measure(run[i]) <= 7 * |c.dependencies.Keys| + 4
    ensures i <= 7 * |c.dependencies.Keys| + 4
  {
    hide Inv, Measure, Next, Legal, Init;
    InvRun(c, run, i);
    MeasureBounded(c, run[i]);
    if i > 0 {
      InvRun(c, run, i - 1);
      RunsEnd(c, run, i - 1);
      MeasureFalls(c, run[i - 1], run[i]);
    } else {
      InitialMeasure(c);
    }
  }

  /** Any finite set of names has a sorted list. */
  lemma {:induction false} SortedListExists(names: set<Name>) returns (list: seq<Name>)
    ensures NoDup(list) && Sorted(list, StringLe) && forall n :: n in list <==> n in names
    decreases |names|
  {
    if names == {} {
      list := [];
    } else {
      var n :| n in names;
      var rest := SortedListExists(names - {n});
      list := Sort([n] + rest, StringLe);
      StringsTotal();
      SortSorted([n] + rest, StringLe);
      hide Sort, Sorted, TotalPreorder;
      NoDupCounts([n] + rest);
      NoDupCounts(list);
      forall x ensures x in list <==> x in names {
        assert x in list <==> x in multiset(list);
        assert x in [n] + rest <==> x in multiset([n] + rest);
      }
    }
  }

  lemma LoopProgress(c: Config, s: State) returns (t: State)
    requires s.phase == Looping
    ensures Next(c, s, t)
  {
    if s.pending + s.running == {} {
      t := s.(phase := Complete);
    } else {
      var ready := SortedListExists(set m | m in s.pending && m in c.dependencies && c.dependencies[m] <= s.completed);
      t := s.(phase := Filling(ready));
      assert IsReadyList(c, s, ready);
    }
    assert Scan(c, s, t);
  }

  lemma FillProgress(c: Config, s: State) returns (t: State)
    requires s.phase.Filling?
    ensures Next(c, s, t)
  {
    var ready := s.phase.ready;
    if ready != [] && |s.running| < c.jobs {
      var m := ready[0];
      t := s.(pending := s.pending - {m}, running := s.running + {m}, started := s.started + [m], phase := Filling(ready[1..]));
      assert Submit(c, s, t);
    } else {
      t := s.(phase := if s.running == {} then Cyclic else Waiting);
      assert EndFill(c, s, t);
    }
  }

  lemma WaitProgress(c: Config, s: State) returns (t: State)
    requires s.phase == Waiting && s.running != {}
    ensures Next(c, s, t)
  {
    if s.finished.Keys == {} {
      var m :| m in s.running;
      t := s.(finished := s.finished[m := true]);
      assert Finish(s, t, m, true);
    } else {
      t := s.(phase := Collecting(s.finished.Keys, false));
      assert Wake(s, t);
    }
  }

  lemma CollectProgress(c: Config, s: State) returns (t: State)
    requires s.phase.Collecting? && s.phase.done <= s.finished.Keys
    ensures Next(c, s, t)
  {
    var done := s.phase.done;
    if done == {} {
      t := s.(phase := Looping);
      assert EndCollect(s, t);
    } else {
      var m :| m in done;
      t := s.(running := s.running - {m}, finished := s.finished - {m},
              completed := if s.finished[m] then s.completed + {m} else s.completed,
              phase := if s.finished[m] then Collecting(done - {m}, true) else Raised(m));
      assert Take(s, t, m);
    }
  }

  /** A build that is not over can always take a step. */
  lemma Progress(c: Config, s: State) returns (t: State)
    requires Legal(c) && Inv(c, s) && !Terminal(s)
    ensures Next(c, s, t)
  {
    assert PhaseFits(c, s);
    hide Inv, Next;
    match s.phase
    case Looping => t := LoopProgress(c, s);
    case Filling(_) => t := FillProgress(c, s);
    case Waiting => t := WaitProgress(c, s);
    case Collecting(_, _) => t := CollectProgress(c, s);
  }

  // ------------------------------------------------------------ without failures

  /** Every compilation that ended in this run succeeded. */
  ghost predicate AllSucceed(run: seq<State>) {
    forall i, m :: 0 <= i < |run| && m in run[i].finished ==> run[i].finished[m]
  }

  lemma {:induction false} NeverRaised(c: Config, run: seq<State>, i: nat)
    requires IsRun(c, run) && AllSucceed(run) && i < |run|
    ensures !run[i].phase.Raised?
  {
    if i > 0 {
      NeverRaised(c, run, i - 1);
      var s, t := run[i - 1], run[i];
      assert Next(c, s, t);
      hide IsRun;
    }
  }

  /** A run that cannot be continued. */
  ghost predicate Maximal(c: Config, run: seq<State>) {
    IsRun(c, run) && Halted(c, run[|run| - 1])
  }

  ghost predicate Halted(c: Config, s: State) { forall t :: !Next(c, s, t) }

  /** When no compilation fails, a run that has ended reports a cycle exactly when the manifest has
      one, and otherwise has compiled every module, each of them once. */
  lemma Outcome(c: Config, run: seq<State>)
    requires Legal(c) && Maximal(c, run) && AllSucceed(run)
    ensures var s := run[|run| - 1];
            && (s.phase == Cyclic <==> HasCycle(c.dependencies))
            && (s.phase == Complete <==> !HasCycle(c.dependencies))
            && (s.phase == Complete ==>
                  s.completed == c.dependencies.Keys && NoDup(s.started) && forall m :: m in s.started <==> m in c.dependencies)
  {
    var s := run[|run| - 1];
    InvRun(c, run, |run| - 1);
    NeverRaised(c, run, |run| - 1);
    hide AllSucceed, HasCycle, Legal, IsRun, Next;
    if !Terminal(s) {
      var t := Progress(c, s);
    } else if s.phase == Cyclic {
      StuckHasCycle(c, s);
    } else {
      CompleteHasNoCycle(c, s);
      StartedOnce(c, s.started);
      hide InOrder;
      assert forall m :: m in s.started <==> m in s.completed;
    }
  }
}
