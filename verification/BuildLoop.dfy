/** `build`: the main loop over `pending`, `running` and `completed`, as a run of the transition
    system. The outcome of the workers is left open. */
module BuildLoop {
  import opened Digraph
  import opened Listing
  import opened Sorting
  import opened Manifest
  import opened ParallelBuild
  import opened BuildGuarantees

  /** The manifest dependencies of every module. */
  method DependencyTable(direct: map<Name, set<Name>>, w: Sources) returns (table: Graph<Name>)
    requires w.manifest == direct.Keys
    ensures table.Keys == direct.Keys && Closed(table)
    ensures forall m <- direct :: DependenciesOf(w, direct[m], table[m])
  {
    table := map[];
    var rest := direct.Keys;
    hide Imports;
    while rest != {}
      invariant rest <= direct.Keys && table.Keys == direct.Keys - rest
      invariant forall m <- table :: DependenciesOf(w, direct[m], table[m])
      decreases |rest|
    {
      var m :| m in rest;
      rest := rest - {m};
      var dependencies := Dependencies(direct[m], w);
      table := table[m := dependencies];
    }
  }

  /** How `build` ends: it returns, or raises one of two errors. */
  datatype Outcome = Built | DependencyCycle | CompileFailed(module_: Name)

  class Builder {
    var pending: set<Name>
    var running: set<Name>
    var completed: set<Name>
    ghost var finished: map<Name, bool>
    ghost var started: seq<Name>
    ghost var phase: Phase
    ghost var run: seq<State>

    ghost function Now(): State
      reads this
    {
      State(pending, running, completed, finished, started, phase)
    }

    /** The fields are the last state of a run. */
    ghost predicate Tracks(c: Config)
      reads this
    {
      IsRun(c, run) && run[|run| - 1] == Now()
    }

    constructor (c: Config)
      ensures Tracks(c) && run == [Init(c)]
    {
      pending, running, completed := c.dependencies.Keys, {}, {};
      finished, started, phase := map[], [], Looping;
      run := [Init(c)];
    }

    /** Record that the fields have moved by one step. */
    ghost method Advance(c: Config)
      requires IsRun(c, run) && Next(c, run[|run| - 1], Now())
      modifies this`run
      ensures Tracks(c) && old(run) <= run
    {
      RunGrows(c, run, Now());
      run := run + [Now()];
    }

    method Ready(c: Config) returns (ready: seq<Name>)
      ensures IsReadyList(c, Now(), ready)
    {
      ready := SortedList(set m | m in pending && m in c.dependencies && c.dependencies[m] <= completed);
    }

    /** The first ready module is no longer pending but running. */
    method SubmitNext(c: Config, ready: seq<Name>)
      requires Tracks(c) && phase == Filling(ready) && ready != [] && |running| < c.jobs
      modifies this
      ensures Tracks(c) && old(run) < run && phase == Filling(ready[1..]) && finished == old(finished)
    {
      ghost var before := Now();
      var module_ := ready[0];
      pending, running, started := pending - {module_}, running + {module_}, started + [module_];
      phase := Filling(ready[1..]);
      assert Submit(c, before, Now());
      Advance(c);
    }

    /** The main thread moves on to another phase. */
    ghost method Turn(c: Config, next: Phase)
      requires Tracks(c) && Next(c, Now(), Now().(phase := next))
      modifies this`phase, this`run
      ensures Tracks(c) && old(run) < run && phase == next
    {
      ghost var before := Now();
      phase := next;
      assert Now() == before.(phase := next);
      Advance(c);
    }

    /** Submit what is ready, as long as there are workers. */
    method Fill(c: Config)
      requires Tracks(c) && phase == Looping && pending + running != {}
      modifies this
      ensures Tracks(c) && old(run) < run
      ensures phase == if running == {} then Cyclic else Waiting
      ensures finished == old(finished)
    {
      var ready := Ready(c);
      assert Scan(c, Now(), Now().(phase := Filling(ready)));
      Turn(c, Filling(ready));
      hide Next, Tracks, Submit;
      while ready != [] && |running| < c.jobs
        invariant Tracks(c) && phase == Filling(ready) && old(run) < run && finished == old(finished)
        decreases |ready|
      {
        SubmitNext(c, ready);
        ready := ready[1..];
      }
      EndFillIsNext(c, Now(), if running == {} then Cyclic else Waiting);
      Turn(c, if running == {} then Cyclic else Waiting);
    }

    /** `concurrent.futures.wait`: one or more workers have finished, well or badly. */
    method Await(c: Config) returns (done: map<Name, bool>)
      requires Tracks(c) && phase == Waiting && running != {} && finished == map[]
      modifies this
      ensures Tracks(c) && old(run) < run && done != map[] && finished == done
      ensures phase == Collecting(done.Keys, false) && done.Keys <= running
    {
      hide Next, Tracks;
      var first :| first in running;
      var ok: bool := *;
      done := map[first := ok];
      FinishOne(c, first, ok);
      var others := running - {first};
      while others != {}
        invariant Tracks(c) && old(run) < run && phase == Waiting && running == old(running)
        invariant finished == done && done != map[] && done.Keys <= running - others && others <= running
        decreases |others|
      {
        var other :| other in others;
        others := others - {other};
        var finishes: bool := *;
        if finishes {
          ok := *;
          FinishOne(c, other, ok);
          done := done[other := ok];
        }
      }
      WakeIsNext(c, Now());
      Turn(c, Collecting(done.Keys, false));
    }

    ghost method FinishOne(c: Config, module_: Name, ok: bool)
      requires Tracks(c) && module_ in running && module_ !in finished
      modifies this`finished, this`run
      ensures Tracks(c) && old(run) < run && finished == old(finished)[module_ := ok]
    {
      ghost var before := Now();
      finished := finished[module_ := ok];
      assert Finish(before, Now(), module_, ok);
      Advance(c);
    }

    /** One finished module stops running, and is completed or its failure is raised. */
    method TakeOne(c: Config, rest: map<Name, bool>, module_: Name, ghost taken: bool)
      requires Tracks(c) && phase == Collecting(rest.Keys, taken) && finished == rest && module_ in rest
      modifies this
      ensures Tracks(c) && old(run) < run && finished == rest - {module_} && running == old(running) - {module_}
      ensures phase == if rest[module_] then Collecting(rest.Keys - {module_}, true) else Raised(module_)
    {
      ghost var before := Now();
      running := running - {module_};
      finished := finished - {module_};
      if rest[module_] {
        completed := completed + {module_};
        phase := Collecting(rest.Keys - {module_}, true);
      } else {
        phase := Raised(module_);
      }
      assert Take(before, Now(), module_);
      Advance(c);
    }

    /** Take what has finished; the first failure ends the build. */
    method Collect(c: Config, done: map<Name, bool>) returns (outcome: Outcome)
      requires Tracks(c) && phase == Collecting(done.Keys, false) && finished == done && done != map[]
      modifies this
      ensures Tracks(c) && old(run) < run
      ensures if outcome.CompileFailed? then phase == Raised(outcome.module_)
              else outcome == Built && phase == Looping && finished == map[]
    {
      hide Next, Tracks;
      var rest := done;
      ghost var taken := false;
      while rest != map[]
        invariant Tracks(c) && old(run) <= run && phase == Collecting(rest.Keys, taken) && finished == rest
        invariant rest == map[] ==> old(run) < run
        decreases |rest.Keys|
      {
        assert rest.Keys != {};
        var module_ :| module_ in rest.Keys;
        TakeOne(c, rest, module_, taken);
        if !rest[module_] {
          return CompileFailed(module_);
        }
        taken := true;
        assert (rest - {module_}).Keys == rest.Keys - {module_};
        rest := rest - {module_};
      }
      EndCollectIsNext(c, Now());
      Turn(c, Looping);
      outcome := Built;
    }

    /** `build`: returns normally, reports a dependency cycle, or raises the failure of a module. */
    method Build(c: Config) returns (outcome: Outcome)
      requires Legal(c) && Tracks(c) && phase == Looping && finished == map[]
      modifies this
      ensures Tracks(c) && old(run) <= run
      ensures outcome.DependencyCycle? ==> phase == Cyclic && HasCycle(c.dependencies)
      ensures outcome.Built? ==> phase == Complete && completed == c.dependencies.Keys && !HasCycle(c.dependencies)
      ensures outcome.CompileFailed? ==> phase == Raised(outcome.module_)
      ensures NoDup(started) && forall m, d :: m in started && DependsOn(c, m, d) ==> d in completed
    {
      while pending + running != {}
        invariant Tracks(c) && old(run) <= run && phase == Looping && finished == map[]
        decreases 7 * |c.dependencies.Keys| + 5 - |run|
      {
        Fill(c);
        if running == {} {
          Finished(c);
          return DependencyCycle;
        }
        var done := Await(c);
        outcome := Collect(c, done);
        RunsEnd(c, run, |run| - 1);
        if outcome.CompileFailed? {
          Finished(c);
          return;
        }
      }
      assert Scan(c, Now(), Now().(phase := Complete));
      Turn(c, Complete);
      Finished(c);
      outcome := Built;
    }

    lemma Finished(c: Config)
      requires Legal(c) && Tracks(c)
      ensures phase == Cyclic ==> HasCycle(c.dependencies)
      ensures phase == Complete ==> completed == c.dependencies.Keys && !HasCycle(c.dependencies)
      ensures NoDup(started) && forall m, d :: m in started && DependsOn(c, m, d) ==> d in completed
    {
      var last := |run| - 1;
      InvRun(c, run, last);
      PlacesAndJobs(c, run, last);
      hide IsRun, Inv, HasCycle, DependsOn;
      if phase == Cyclic {
        StuckHasCycle(c, Now());
      } else if phase == Complete {
        CompleteHasNoCycle(c, Now());
      }
      forall m, d | m in started && DependsOn(c, m, d) ensures d in completed {
        StartsAfterDependencies(c, run, last, m, d);
      }
    }
  }

  lemma EndFillIsNext(c: Config, s: State, p: Phase)
    requires s.phase.Filling? && (s.phase.ready == [] || |s.running| >= c.jobs)
    requires p == if s.running == {} then Cyclic else Waiting
    ensures Next(c, s, s.(phase := p))
  {
    assert EndFill(c, s, s.(phase := p));
  }

  lemma WakeIsNext(c: Config, s: State)
    requires s.phase == Waiting && s.finished != map[]
    ensures Next(c, s, s.(phase := Collecting(s.finished.Keys, false)))
  {
    assert s.finished.Keys != {} by {
      var m :| m in s.finished;
    }
    assert Wake(s, s.(phase := Collecting(s.finished.Keys, false)));
  }

  lemma EndCollectIsNext(c: Config, s: State)
    requires s.phase.Collecting? && s.phase.done == {}
    ensures Next(c, s, s.(phase := Looping))
  {
    assert EndCollect(s, s.(phase := Looping));
  }

  lemma RunGrows(c: Config, run: seq<State>, t: State)
    requires IsRun(c, run) && Next(c, run[|run| - 1], t)
    ensures IsRun(c, run + [t])
  {
    hide Next;
    var longer := run + [t];
    forall i | 0 < i < |longer| ensures Next(c, longer[i - 1], longer[i]) {
      if i < |run| {
        assert longer[i - 1] == run[i - 1] && longer[i] == run[i];
      }
    }
  }

  method SortedList(names: set<Name>) returns (list: seq<Name>)
    ensures NoDup(list) && Sorted(list, StringLe) && forall n :: n in list <==> n in names
  {
    list := [];
    var rest := names;
    StringsTotal();
    hide Sorted, Insert, TotalPreorder;
    EmptySorted();
    while rest != {}
      invariant rest <= names && NoDup(list) && Sorted(list, StringLe) && forall n :: n in list <==> n in names - rest
      decreases |rest|
    {
      var n :| n in rest;
      InsertSorted(n, list, StringLe);
      InsertFresh(n, list);
      list := Insert(n, list, StringLe);
      rest := rest - {n};
    }
  }

  lemma EmptySorted()
    ensures Sorted([], StringLe)
  {}

  lemma InsertFresh(n: Name, list: seq<Name>)
    requires NoDup(list) && n !in list
    ensures NoDup(Insert(n, list, StringLe))
    ensures forall x :: x in Insert(n, list, StringLe) <==> x in list || x == n
  {
    var next := Insert(n, list, StringLe);
    InsertElements(n, list, StringLe);
    hide Insert;
    NoDupCounts(list);
    assert multiset(list)[n] == 0;
    NoDupCounts(next);
    forall x ensures x in next <==> x in list || x == n {
      assert x in next <==> x in multiset(next);
      assert x in list <==> x in multiset(list);
    }
  }
}
