/** The parallel builder as a transition system: the main loop that fills, waits and collects, and
    the workers that finish whenever they like. */
module ParallelBuild {
  import opened Digraph
  import opened Listing
  import opened Sorting
  import opened Manifest

  /** The manifest dependencies of every module, and the number of workers. */
  datatype Config = Config(dependencies: Graph<Name>, jobs: nat)

  ghost predicate Legal(c: Config) { Closed(c.dependencies) && c.jobs >= 1 }

  /** Where the main thread is. `Collecting` holds the futures of this wake-up not yet looked at. */
  datatype Phase =
    | Looping | Filling(ready: seq<Name>) | Waiting | Collecting(done: set<Name>, taken: bool)
    | Complete | Cyclic | Raised(failed: Name)

  /** `finished` are the running modules whose worker is done, and whether it succeeded; `started`
      is the history of submissions. */
  datatype State = State(pending: set<Name>, running: set<Name>, completed: set<Name>, finished: map<Name, bool>,
                         started: seq<Name>, phase: Phase)

  function Init(c: Config): State {
    State(c.dependencies.Keys, {}, {}, map[], [], Looping)
  }

  ghost predicate Terminal(s: State) { s.phase.Complete? || s.phase.Cyclic? || s.phase.Raised? }

  // ------------------------------------------------------------ the steps

  /** The pending modules whose dependencies are all completed, by name. */
  ghost predicate IsReadyList(c: Config, s: State, ready: seq<Name>) {
    && NoDup(ready) && Sorted(ready, StringLe)
    && forall m :: m in ready <==> m in s.pending && m in c.dependencies && c.dependencies[m] <= s.completed
  }

  /** The loop ends, or computes what is ready. */
  ghost predicate Scan(c: Config, s: State, t: State) {
    && s.phase == Looping
    && if s.pending + s.running == {} then t == s.(phase := Complete)
       else exists ready :: IsReadyList(c, s, ready) && t == s.(phase := Filling(ready))
  }

  ghost predicate Submit(c: Config, s: State, t: State) {
    && s.phase.Filling? && s.phase.ready != [] && |s.running| < c.jobs
    && var m := s.phase.ready[0];
       t == s.(pending := s.pending - {m}, running := s.running + {m}, started := s.started + [m],
               phase := Filling(s.phase.ready[1..]))
  }

  /** Nothing more to submit: wait, or report a dependency cycle when nothing runs. */
  ghost predicate EndFill(c: Config, s: State, t: State) {
    && s.phase.Filling? && (s.phase.ready == [] || |s.running| >= c.jobs)
    && t == s.(phase := if s.running == {} then Cyclic else Waiting)
  }

  /** A worker finishes, at any time. */
  ghost predicate Finish(s: State, t: State, m: Name, ok: bool) {
    m in s.running && m !in s.finished && t == s.(finished := s.finished[m := ok])
  }

  /** The main thread wakes up with every future that is done. */
  ghost predicate Wake(s: State, t: State) {
    s.phase == Waiting && s.finished.Keys != {} && t == s.(phase := Collecting(s.finished.Keys, false))
  }

  /** It takes one of them: a success is completed, a failure is raised. */
  ghost predicate Take(s: State, t: State, m: Name) {
    && s.phase.Collecting? && m in s.phase.done && m in s.finished
    && t == s.(running := s.running - {m}, finished := s.finished - {m},
               completed := if s.finished[m] then s.completed + {m} else s.completed,
               phase := if s.finished[m] then Collecting(s.phase.done - {m}, true) else Raised(m))
  }

  ghost predicate EndCollect(s: State, t: State) {
    s.phase.Collecting? && s.phase.done == {} && t == s.(phase := Looping)
  }

  ghost predicate Next(c: Config, s: State, t: State) {
    || Scan(c, s, t) || Submit(c, s, t) || EndFill(c, s, t) || Wake(s, t) || EndCollect(s, t)
    || (exists m, ok :: Finish(s, t, m, ok)) || (exists m :: Take(s, t, m))
  }

  ghost predicate IsRun(c: Config, run: seq<State>) {
    run != [] && run[0] == Init(c) && forall i :: 0 < i < |run| ==> Next(c, run[i - 1], run[i])
  }

  // ------------------------------------------------------------ what every step keeps

  /** The module whose failure ended the build. */
  function RaisedSet(s: State): set<Name> { if s.phase.Raised? then {s.phase.failed} else {} }

  /** Every module is in exactly one place. */
  ghost predicate Partitioned(c: Config, s: State) {
    && (forall m :: m in s.pending ==> m !in s.running && m !in s.completed && m !in RaisedSet(s))
    && (forall m :: m in s.running ==> m !in s.completed && m !in RaisedSet(s))
    && (forall m :: m in s.completed ==> m !in RaisedSet(s))
    && (forall m :: m in c.dependencies <==> m in s.pending || m in s.running || m in s.completed || m in RaisedSet(s))
    && s.finished.Keys <= s.running
  }

  /** Each submission came after those of everything the module depends on. */
  ghost predicate InOrder(c: Config, started: seq<Name>) {
    NoDup(started) && forall i :: 0 <= i < |started| && started[i] in c.dependencies ==>
      forall d <- c.dependencies[started[i]] :: d in started[..i]
  }

  /** Modules were submitted once, and only when everything they depend on was completed. */
  ghost predicate Ordered(c: Config, s: State) {
    && InOrder(c, s.started)
    && (forall m :: m in s.started <==> m in s.running || m in s.completed || m in RaisedSet(s))
    && (forall m :: m in s.started && m in c.dependencies ==> c.dependencies[m] <= s.completed)
  }

  /** Something is pending, and nothing pending can start. */
  ghost predicate Stuck(c: Config, s: State) {
    s.pending != {} && forall m <- s.pending :: m in c.dependencies && !(c.dependencies[m] <= s.completed)
  }

  ghost predicate PhaseFits(c: Config, s: State) {
    && |s.running| <= c.jobs
    && match s.phase
       case Looping => true
       case Filling(ready) =>
         && NoDup(ready)
         && (forall m <- ready :: m in s.pending && m in c.dependencies && c.dependencies[m] <= s.completed)
         && (s.running == {} && ready == [] ==> Stuck(c, s))
       case Waiting => s.running != {}
       case Collecting(done, taken) => done <= s.finished.Keys && (done != {} || taken)
       case Complete => s.pending == {} && s.running == {}
       case Cyclic => s.running == {} && Stuck(c, s)
       case Raised(_) => true
  }

  ghost predicate Inv(c: Config, s: State) {
    Partitioned(c, s) && Ordered(c, s) && PhaseFits(c, s)
  }

  lemma InvInit(c: Config)
    requires Legal(c)
    ensures Inv(c, Init(c))
  {}

  /** A step that moves no module keeps the places. */
  lemma NothingMoves(c: Config, s: State, t: State)
    requires Partitioned(c, s) && Ordered(c, s)
    requires t.pending == s.pending && t.running == s.running && t.completed == s.completed && t.started == s.started
    requires t.finished.Keys <= t.running && RaisedSet(t) == RaisedSet(s)
    ensures Partitioned(c, t) && Ordered(c, t)
  {
    hide InOrder, RaisedSet;
  }

  lemma InvScan(c: Config, s: State, t: State)
    requires Legal(c) && Inv(c, s) && Scan(c, s, t)
    ensures Inv(c, t)
  {
    assert s.finished.Keys <= s.running;
    NothingMoves(c, s, t);
    hide Ordered;
    if s.pending + s.running != {} {
      var ready :| IsReadyList(c, s, ready) && t == s.(phase := Filling(ready));
      hide Sorted;
      if s.running == {} && ready == [] {
        assert s.pending != {};
        forall m | m in s.pending ensures m in c.dependencies && !(c.dependencies[m] <= s.completed) {
          assert m !in ready;
        }
      }
    }
  }

  lemma InvSubmit(c: Config, s: State, t: State)
    requires Legal(c) && Inv(c, s) && Submit(c, s, t)
    ensures Inv(c, t)
  {
    var ready := s.phase.ready;
    var m := ready[0];
    assert m in ready;
    SubmitPlaces(c, s, t, m);
    hide Ordered, Partitioned;
    forall r | r in ready[1..] ensures r in t.pending {
      var i :| 0 <= i < |ready[1..]| && ready[1..][i] == r;
      assert ready[i + 1] == r && r in ready;
    }
  }

  lemma SubmitPlaces(c: Config, s: State, t: State, m: Name)
    requires Partitioned(c, s) && Ordered(c, s) && m in s.pending && m in c.dependencies
    requires c.dependencies[m] <= s.completed && !s.phase.Raised? && !t.phase.Raised?
    requires t.started == s.started + [m] && t.running == s.running + {m} && t.completed == s.completed
    requires t.pending == s.pending - {m} && t.finished == s.finished
    ensures Partitioned(c, t) && Ordered(c, t)
  {
    assert m !in s.started;
    assert forall d <- c.dependencies[m] :: d in s.started;
    SubmitInOrder(c, s.started, m);
    hide InOrder;
  }

  lemma SubmitInOrder(c: Config, started: seq<Name>, m: Name)
    requires InOrder(c, started) && m !in started
    requires m in c.dependencies ==> forall d <- c.dependencies[m] :: d in started
    ensures InOrder(c, started + [m])
  {
    var after := started + [m];
    forall i | 0 <= i < |after| && after[i] in c.dependencies
      ensures forall d <- c.dependencies[after[i]] :: d in after[..i]
    {
      assert after[..i] == if i < |started| then started[..i] else started;
    }
  }

  lemma InvTurn(c: Config, s: State, t: State)
    requires Legal(c) && Inv(c, s) && (EndFill(c, s, t) || Wake(s, t) || EndCollect(s, t))
    ensures Inv(c, t)
  {
    assert s.finished.Keys <= s.running;
    NothingMoves(c, s, t);
    hide Ordered, Partitioned;
    if EndFill(c, s, t) && s.running == {} {
      assert |s.running| == 0;
    }
  }

  lemma InvFinish(c: Config, s: State, t: State, m: Name, ok: bool)
    requires Legal(c) && Inv(c, s) && Finish(s, t, m, ok)
    ensures Inv(c, t)
  {
    assert t.finished.Keys == s.finished.Keys + {m};
    NothingMoves(c, s, t);
    hide Ordered, Partitioned;
    assert Stuck(c, s) <==> Stuck(c, t);
  }

  lemma InvTake(c: Config, s: State, t: State, m: Name)
    requires Legal(c) && Inv(c, s) && Take(s, t, m)
    ensures Inv(c, t)
  {
    TakePlaces(c, s, t, m);
    hide Ordered, Partitioned;
    SubsetSize(t.running, s.running);
    assert t.finished.Keys == s.finished.Keys - {m};
  }

  lemma TakePlaces(c: Config, s: State, t: State, m: Name)
    requires Partitioned(c, s) && Ordered(c, s) && Take(s, t, m)
    ensures Partitioned(c, t) && Ordered(c, t)
  {
    hide InOrder;
    assert m in s.running && s.completed <= t.completed && RaisedSet(s) == {};
    assert t.finished.Keys == s.finished.Keys - {m};
  }

  /** Every step keeps the invariant. */
  lemma InvNext(c: Config, s: State, t: State)
    requires Legal(c) && Inv(c, s) && Next(c, s, t)
    ensures Inv(c, t)
  {
    hide Inv, Legal, Scan, Submit, EndFill, Wake, EndCollect, Finish, Take;
    if Scan(c, s, t) {
      InvScan(c, s, t);
    } else if Submit(c, s, t) {
      InvSubmit(c, s, t);
    } else if m :| Take(s, t, m) {
      InvTake(c, s, t, m);
    } else if m, ok :| Finish(s, t, m, ok) {
      InvFinish(c, s, t, m, ok);
    } else {
      InvTurn(c, s, t);
    }
  }

  /** Every state of every run satisfies the invariant. */
  lemma {:induction false} InvRun(c: Config, run: seq<State>, i: nat)
    requires Legal(c) && IsRun(c, run) && i < |run|
    ensures Inv(c, run[i])
  {
    hide Inv, Next;
    if i == 0 {
      InvInit(c);
    } else {
      InvRun(c, run, i - 1);
      InvNext(c, run[i - 1], run[i]);
    }
  }
}
