/** `reduce_trace` for one function instance: one pass that cuts the trace into occurrences. */
module TraceReduction {
  import opened Options
  import opened Listing
  import opened TraceSegments

  datatype Error = UnavailableRegister | LeftExtent | Unterminated | UnexpectedExit | MissingExitSnapshot
  datatype Result<T> = Ok(value: T) | Err(error: Error)

  datatype Occurrence = Occurrence(entryRegisters: Snapshot, afterPc: nat, afterRegisters: Option<Snapshot>,
                                   hostWrites: seq<HostWrite>, memoryWrites: seq<Store>, executedInstructionCount: nat)

  datatype Exit = Exit(beforePc: nat, afterPc: nat, afterRegisters: Snapshot)

  datatype Report = Report(occurrences: seq<Occurrence>, hostWrites: seq<HostWrite>, observedExtent: set<nat>,
                           observedOwned: set<nat>, exits: seq<Exit>)

  // ------------------------------------------------------------ what the report should hold

  /** The host writes of the executions from `a` up to, not including, `b`. */
  function Writes(t: Trace, a: nat, b: nat): seq<HostWrite>
    requires b <= |t|
  {
    if a >= b then [] else Writes(t, a, b - 1) + t[b - 1].hostWrites
  }

  function PcsIn(t: Trace, a: nat, b: nat): set<nat>
    requires b <= |t|
  {
    set k | a <= k < b :: t[k].pc
  }

  /** `accesses_by_execution`: the stores one execution made, in order. */
  function StoresOf(stores: seq<Store>, k: nat): seq<Store> {
    if stores == [] then [] else (if stores[0].execution == k then [stores[0]] else []) + StoresOf(stores[1..], k)
  }

  function StoresIn(stores: seq<Store>, a: nat, b: nat): seq<Store> {
    if a >= b then [] else StoresIn(stores, a, b - 1) + StoresOf(stores, b - 1)
  }

  function OccurrenceOf(t: Trace, stores: seq<Store>, i: Interval): Occurrence
    requires i.0 <= i.1 < |t| && t[i.0].registers.Some?
  {
    Occurrence(t[i.0].registers.value,
               if i.1 + 1 == |t| then t[i.1].pc else t[i.1 + 1].pc,
               if i.1 + 1 == |t| then None else t[i.1 + 1].registers,
               Writes(t, i.0, i.1 + 1), StoresIn(stores, i.0, i.1 + 1), i.1 - i.0 + 1)
  }

  /** Intervals inside the trace that start with a snapshot and end with one or at its end. */
  ghost predicate InTrace(t: Trace, intervals: seq<Interval>) {
    forall i <- intervals :: i.0 <= i.1 < |t| && t[i.0].registers.Some? && (i.1 + 1 < |t| ==> t[i.1 + 1].registers.Some?)
  }

  ghost function OccurrencesOf(t: Trace, stores: seq<Store>, intervals: seq<Interval>): seq<Occurrence>
    requires InTrace(t, intervals)
  {
    seq(|intervals|, j requires 0 <= j < |intervals| => OccurrenceOf(t, stores, intervals[j]))
  }

  ghost function AllWrites(t: Trace, intervals: seq<Interval>): seq<HostWrite>
    requires InTrace(t, intervals)
  {
    if intervals == [] then [] else
      var last := intervals[|intervals| - 1];
      AllWrites(t, intervals[..|intervals| - 1]) + Writes(t, last.0, last.1 + 1)
  }

  ghost function AllPcs(t: Trace, intervals: seq<Interval>): set<nat>
    requires InTrace(t, intervals)
  {
    if intervals == [] then {} else
      var last := intervals[|intervals| - 1];
      AllPcs(t, intervals[..|intervals| - 1]) + PcsIn(t, last.0, last.1 + 1)
  }

  /** Every occurrence but one cut off by the end of the trace is left by an exit. */
  ghost function AllExits(t: Trace, intervals: seq<Interval>): seq<Exit>
    requires InTrace(t, intervals)
  {
    if intervals == [] then [] else
      var last := intervals[|intervals| - 1];
      AllExits(t, intervals[..|intervals| - 1])
      + if last.1 + 1 == |t| then [] else [Exit(t[last.1].pc, t[last.1 + 1].pc, t[last.1 + 1].registers.value)]
  }

  ghost predicate Reports(t: Trace, x: Instance, stores: seq<Store>, intervals: seq<Interval>, r: Report) {
    && InTrace(t, intervals)
    && r.occurrences == OccurrencesOf(t, stores, intervals)
    && r.hostWrites == AllWrites(t, intervals)
    && r.observedExtent == AllPcs(t, intervals)
    && r.observedOwned == AllPcs(t, intervals) * x.owned
    && r.exits == AllExits(t, intervals)
  }

  /** Every snapshot taken at the entry recorded all registers. */
  ghost predicate EntriesAvailable(t: Trace, x: Instance) {
    forall k: nat :: IsEntry(t, x, k) ==> t[k].registers.value.available == ALL_AVAILABLE
  }

  /** The trace can be reduced for the instance. */
  ghost predicate Accepted(t: Trace, x: Instance) {
    EntriesAvailable(t, x) && exists cut :: Cut(t, x, cut)
  }

  // ------------------------------------------------------------ what a rejection says

  /** What is wrong with the occurrence that begins at `start`, seen at `end`. */
  ghost predicate FailsAt(t: Trace, x: Instance, start: nat, end: nat, error: Error) {
    && start <= end < |t|
    && match error
       case UnavailableRegister => false
       case LeftExtent => end == start && t[start].pc !in x.extent
       case Unterminated => Stays(t, x, start, end) && end + 1 == |t| && t[end].pc !in x.exits
       case UnexpectedExit =>
         Stays(t, x, start, end) && end + 1 < |t| && t[end + 1].pc !in x.extent && t[end + 1].pc !in x.exits
       case MissingExitSnapshot =>
         && Stays(t, x, start, end) && end + 1 < |t| && t[end + 1].pc !in x.extent && t[end + 1].pc in x.exits
         && (t[end + 1].registers.None? || t[end + 1].registers.value.available != ALL_AVAILABLE)
  }

  /** The occurrences found before, and the failure of the one that begins after them. */
  ghost predicate Rejected(t: Trace, x: Instance, intervals: seq<Interval>, error: Error) {
    && Chained(t, x, intervals)
    && exists start, end ::
         && After(intervals) <= start && IsEntry(t, x, start) && NoEntry(t, x, After(intervals), start)
         && FailsAt(t, x, start, end, error)
  }

  /** A failure leaves no cut. */
  lemma RejectedNoCut(t: Trace, x: Instance, intervals: seq<Interval>, error: Error, cut: seq<Interval>)
    requires Rejected(t, x, intervals, error)
    ensures !Cut(t, x, cut)
  {
    hide Chained, NoEntry, Cut, IsEntry, ExpectedEnd;
    if Cut(t, x, cut) {
      var start, end :| && After(intervals) <= start && IsEntry(t, x, start) && NoEntry(t, x, After(intervals), start)
                        && FailsAt(t, x, start, end, error);
      FailureUnexpected(t, x, intervals, cut, start, end, error);
    }
  }

  lemma FailureUnexpected(t: Trace, x: Instance, intervals: seq<Interval>, cut: seq<Interval>, start: nat, end: nat, error: Error)
    requires Chained(t, x, intervals) && Cut(t, x, cut)
    requires After(intervals) <= start && IsEntry(t, x, start) && NoEntry(t, x, After(intervals), start)
    ensures !FailsAt(t, x, start, end, error)
  {
    if FailsAt(t, x, start, end, error) {
      EntryInside(t, x, start, cut);
      assert Stays(t, x, start, end) && Leaves(t, x, end);
      hide Chained, NoEntry, Cut, IsEntry;
      CutNeedsEnd(t, x, intervals, start, end, cut);
    }
  }

  /** A trace can be rejected in one way only. */
  lemma RejectedOnce(t: Trace, x: Instance, a: seq<Interval>, b: seq<Interval>, e: Error, e': Error)
    requires Rejected(t, x, a, e) && Rejected(t, x, b, e')
    ensures a == b && e == e'
  {
    hide *;
    FailuresAligned(t, x, a, b, e, e', |a|);
    FailuresAligned(t, x, b, a, e', e, |b|);
    assert a[..|a|] == a && b[..|b|] == b;
    SameFailure(t, x, a, e, e');
  }

  lemma SameFailure(t: Trace, x: Instance, a: seq<Interval>, e: Error, e': Error)
    requires Rejected(t, x, a, e) && Rejected(t, x, a, e')
    ensures e == e'
  {
    hide Chained, NoEntry, FailsAt;
    var i, j :| After(a) <= i && IsEntry(t, x, i) && NoEntry(t, x, After(a), i) && FailsAt(t, x, i, j, e);
    var i', j' :| After(a) <= i' && IsEntry(t, x, i') && NoEntry(t, x, After(a), i') && FailsAt(t, x, i', j', e');
    OneStart(t, x, After(a), i, i');
    OneFailure(t, x, i, j, j', e, e');
  }

  lemma OneFailure(t: Trace, x: Instance, start: nat, end: nat, end': nat, e: Error, e': Error)
    requires FailsAt(t, x, start, end, e) && FailsAt(t, x, start, end', e')
    ensures e == e'
  {
    if !e.LeftExtent? && !e'.LeftExtent? {
      OneEnd(t, x, start, end, end');
    }
  }

  /** A chain before a failure is the start of every other. */
  lemma {:induction false} FailuresAligned(t: Trace, x: Instance, a: seq<Interval>, b: seq<Interval>, e: Error, e': Error, m: nat)
    requires Rejected(t, x, a, e) && Rejected(t, x, b, e') && m <= |a|
    ensures m <= |b| && a[..m] == b[..m]
  {
    hide *;
    if m > 0 {
      var j := m - 1;
      FailuresAligned(t, x, a, b, e, e', j);
      RejectedChained(t, x, a, e);
      RejectedChained(t, x, b, e');
      ChainAt(t, x, a, j);
      if j < |b| {
        ChainAt(t, x, b, j);
        SameOccurrence(t, x, After(a[..j]), a[j], b[j]);
        PrefixGrows(a, b, j);
      } else {
        assert b[..j] == b;
        OccurrenceNoFailure(t, x, b, e', a[j]);
      }
    }
  }

  lemma RejectedChained(t: Trace, x: Instance, a: seq<Interval>, e: Error)
    requires Rejected(t, x, a, e)
    ensures Chained(t, x, a)
  {}

  /** What fails is not an occurrence. */
  lemma OccurrenceNoFailure(t: Trace, x: Instance, a: seq<Interval>, e: Error, i: Interval)
    requires Rejected(t, x, a, e) && After(a) <= i.0 && NoEntry(t, x, After(a), i.0)
    ensures !IsOccurrence(t, x, i)
  {
    hide Chained, NoEntry, FailsAt, IsEntry, ExpectedEnd, Stays;
    var start, end :| && After(a) <= start && IsEntry(t, x, start) && NoEntry(t, x, After(a), start)
                      && FailsAt(t, x, start, end, e);
    if IsOccurrence(t, x, i) {
      OneStart(t, x, After(a), start, i.0);
      FailsOrEnds(t, x, i, end, e);
    }
  }

  lemma FailsOrEnds(t: Trace, x: Instance, i: Interval, end: nat, e: Error)
    requires IsOccurrence(t, x, i)
    ensures !FailsAt(t, x, i.0, end, e)
  {
    if FailsAt(t, x, i.0, end, e) && !e.LeftExtent? {
      OneEnd(t, x, i.0, i.1, end);
    }
  }

  // ------------------------------------------------------------ the state of the loop

  /** The loop's variables; `done` is the report so far. */
  datatype Progress = Progress(active: bool, start: nat, occurrenceWrites: seq<HostWrite>, done: Report)

  ghost predicate Where(t: Trace, x: Instance, i: nat, p: Progress, intervals: seq<Interval>) {
    && i <= |t| && Chained(t, x, intervals) && InTrace(t, intervals)
    && if p.active then
         && After(intervals) <= p.start <= i && IsEntry(t, x, p.start) && NoEntry(t, x, After(intervals), p.start)
         && forall k :: p.start <= k < i ==> t[k].pc in x.extent
       else After(intervals) <= i && NoEntry(t, x, After(intervals), i)
  }

  ghost predicate Holds(t: Trace, x: Instance, stores: seq<Store>, i: nat, p: Progress, intervals: seq<Interval>)
    requires i <= |t| && InTrace(t, intervals)
  {
    && (p.active ==> p.occurrenceWrites == Writes(t, p.start, i))
    && p.done.hostWrites == AllWrites(t, intervals) + (if p.active then Writes(t, p.start, i) else [])
    && p.done.observedExtent == AllPcs(t, intervals) + (if p.active then PcsIn(t, p.start, i) else {})
    && p.done.observedOwned == p.done.observedExtent * x.owned
    && p.done.exits == AllExits(t, intervals)
    && p.done.occurrences == OccurrencesOf(t, stores, intervals)
  }

  ghost predicate Fits(t: Trace, x: Instance, stores: seq<Store>, i: nat, p: Progress, intervals: seq<Interval>) {
    Where(t, x, i, p, intervals) && Holds(t, x, stores, i, p, intervals)
  }

  /** An occurrence begins. */
  function Begun(p: Progress, i: nat): Progress {
    p.(active := true, start := i, occurrenceWrites := [])
  }

  lemma BegunFits(t: Trace, x: Instance, stores: seq<Store>, i: nat, p: Progress, intervals: seq<Interval>)
    requires Fits(t, x, stores, i, p, intervals) && !p.active && IsEntry(t, x, i)
    ensures Fits(t, x, stores, i, Begun(p, i), intervals)
  {
    hide Chained, NoEntry;
    assert PcsIn(t, i, i) == {};
  }

  lemma IdleFits(t: Trace, x: Instance, stores: seq<Store>, i: nat, p: Progress, intervals: seq<Interval>)
    requires Fits(t, x, stores, i, p, intervals) && !p.active && i < |t| && !IsEntry(t, x, i)
    ensures Fits(t, x, stores, i + 1, p, intervals)
  {
    hide Chained, IsEntry;
  }

  /** What one execution inside an occurrence adds. */
  function Observed(t: Trace, x: Instance, p: Progress, i: nat): Progress
    requires i < |t|
  {
    p.(occurrenceWrites := p.occurrenceWrites + t[i].hostWrites,
       done := p.done.(hostWrites := p.done.hostWrites + t[i].hostWrites,
                       observedExtent := p.done.observedExtent + {t[i].pc},
                       observedOwned := if t[i].pc in x.owned then p.done.observedOwned + {t[i].pc} else p.done.observedOwned))
  }

  lemma PcsGrow(t: Trace, a: nat, i: nat)
    requires a <= i < |t|
    ensures PcsIn(t, a, i + 1) == PcsIn(t, a, i) + {t[i].pc}
  {}

  lemma ObservedHolds(t: Trace, x: Instance, stores: seq<Store>, i: nat, p: Progress, intervals: seq<Interval>)
    requires i < |t| && InTrace(t, intervals) && Holds(t, x, stores, i, p, intervals) && p.active && p.start <= i
    ensures Holds(t, x, stores, i + 1, Observed(t, x, p, i), intervals)
  {
    hide InTrace, AllWrites, AllPcs, AllExits, OccurrencesOf, PcsIn;
    PcsGrow(t, p.start, i);
  }

  lemma ObservedFits(t: Trace, x: Instance, stores: seq<Store>, i: nat, p: Progress, intervals: seq<Interval>)
    requires Fits(t, x, stores, i, p, intervals) && p.active && i < |t| && t[i].pc in x.extent
    ensures Fits(t, x, stores, i + 1, Observed(t, x, p, i), intervals)
  {
    hide Chained, NoEntry, InTrace, Holds;
    ObservedHolds(t, x, stores, i, p, intervals);
  }

  /** An occurrence ends with the execution at `i`. */
  function Closed(t: Trace, stores: seq<Store>, p: Progress, i: nat): Progress
    requires p.start <= i < |t| && t[p.start].registers.Some? && (i + 1 < |t| ==> t[i + 1].registers.Some?)
  {
    var o := Occurrence(t[p.start].registers.value,
                        if i + 1 == |t| then t[i].pc else t[i + 1].pc,
                        if i + 1 == |t| then None else t[i + 1].registers,
                        p.occurrenceWrites, StoresIn(stores, p.start, i + 1), i - p.start + 1);
    var exits := if i + 1 == |t| then [] else [Exit(t[i].pc, t[i + 1].pc, t[i + 1].registers.value)];
    p.(active := false, done := p.done.(occurrences := p.done.occurrences + [o], exits := p.done.exits + exits))
  }

  lemma ChainGrows(t: Trace, x: Instance, intervals: seq<Interval>, i: Interval)
    requires Chained(t, x, intervals) && IsOccurrence(t, x, i)
    requires After(intervals) <= i.0 && NoEntry(t, x, After(intervals), i.0)
    ensures Chained(t, x, intervals + [i]) && After(intervals + [i]) == i.1 + 1
  {
    var longer := intervals + [i];
    hide IsOccurrence, NoEntry;
    forall j | 0 <= j < |longer|
      ensures IsOccurrence(t, x, longer[j]) && After(longer[..j]) <= longer[j].0
      ensures NoEntry(t, x, After(longer[..j]), longer[j].0)
    {
      if j < |intervals| {
        assert longer[..j] == intervals[..j] && longer[j] == intervals[j];
      } else {
        assert longer[..j] == intervals;
      }
    }
  }

  lemma InTraceGrows(t: Trace, intervals: seq<Interval>, i: Interval)
    requires InTrace(t, intervals) && InTrace(t, [i])
    ensures InTrace(t, intervals + [i]) && (intervals + [i])[..|intervals|] == intervals
  {
    var longer := intervals + [i];
    assert i in [i];
    assert forall k <- longer :: k in intervals || k == i;
  }

  lemma OccurrencesGrow(t: Trace, stores: seq<Store>, intervals: seq<Interval>, i: Interval)
    requires InTrace(t, intervals) && InTrace(t, [i]) && InTrace(t, intervals + [i])
    ensures i.0 <= i.1 < |t| && t[i.0].registers.Some?
    ensures OccurrencesOf(t, stores, intervals + [i]) == OccurrencesOf(t, stores, intervals) + [OccurrenceOf(t, stores, i)]
  {
    assert i in [i];
    hide OccurrenceOf, InTrace;
  }

  lemma SumsGrow(t: Trace, intervals: seq<Interval>, i: Interval)
    requires InTrace(t, intervals) && InTrace(t, intervals + [i]) && (intervals + [i])[..|intervals|] == intervals
    requires i.0 <= i.1 < |t| && (i.1 + 1 < |t| ==> t[i.1 + 1].registers.Some?)
    ensures AllWrites(t, intervals + [i]) == AllWrites(t, intervals) + Writes(t, i.0, i.1 + 1)
    ensures AllPcs(t, intervals + [i]) == AllPcs(t, intervals) + PcsIn(t, i.0, i.1 + 1)
    ensures AllExits(t, intervals + [i]) == AllExits(t, intervals)
            + if i.1 + 1 == |t| then [] else [Exit(t[i.1].pc, t[i.1 + 1].pc, t[i.1 + 1].registers.value)]
  {
    hide Writes, PcsIn, InTrace;
  }

  lemma WhereCloses(t: Trace, x: Instance, i: nat, p: Progress, q: Progress, intervals: seq<Interval>)
    requires i < |t| && Where(t, x, i + 1, p, intervals) && p.active && p.start <= i && ExpectedEnd(t, x, i) && !q.active
    ensures t[p.start].registers.Some? && (i + 1 < |t| ==> t[i + 1].registers.Some?)
    ensures InTrace(t, [(p.start, i)]) && Where(t, x, i + 1, q, intervals + [(p.start, i)])
    ensures (intervals + [(p.start, i)])[..|intervals|] == intervals
  {
    var k := (p.start, i);
    assert IsOccurrence(t, x, k) && InTrace(t, [k]);
    hide IsOccurrence, InTrace, Chained;
    ChainGrows(t, x, intervals, k);
    InTraceGrows(t, intervals, k);
    assert NoEntry(t, x, i + 1, i + 1);
    hide NoEntry;
  }

  lemma HoldsCloses(t: Trace, x: Instance, stores: seq<Store>, i: nat, p: Progress, intervals: seq<Interval>)
    requires i < |t| && InTrace(t, intervals) && Holds(t, x, stores, i + 1, p, intervals) && p.active && p.start <= i
    requires t[p.start].registers.Some? && (i + 1 < |t| ==> t[i + 1].registers.Some?)
    requires InTrace(t, intervals + [(p.start, i)]) && (intervals + [(p.start, i)])[..|intervals|] == intervals
    requires InTrace(t, [(p.start, i)])
    ensures Holds(t, x, stores, i + 1, Closed(t, stores, p, i), intervals + [(p.start, i)])
  {
    var k := (p.start, i);
    hide InTrace, Writes, PcsIn, StoresIn, AllWrites, AllPcs, AllExits, OccurrencesOf;
    SumsGrow(t, intervals, k);
    OccurrencesGrow(t, stores, intervals, k);
  }

  lemma ClosedFits(t: Trace, x: Instance, stores: seq<Store>, i: nat, p: Progress, intervals: seq<Interval>)
    requires i < |t| && Fits(t, x, stores, i + 1, p, intervals) && p.active && p.start <= i && ExpectedEnd(t, x, i)
    ensures t[p.start].registers.Some? && (i + 1 < |t| ==> t[i + 1].registers.Some?)
    ensures Fits(t, x, stores, i + 1, Closed(t, stores, p, i), intervals + [(p.start, i)])
    ensures !Closed(t, stores, p, i).active
  {
    assert InTrace(t, intervals);
    hide Where, Holds, ExpectedEnd, InTrace;
    WhereCloses(t, x, i, p, p.(active := false), intervals);
    WherePlace(t, x, i + 1, p.(active := false), Closed(t, stores, p, i), intervals + [(p.start, i)]);
    HoldsCloses(t, x, stores, i, p, intervals);
  }

  lemma WherePlace(t: Trace, x: Instance, i: nat, p: Progress, q: Progress, intervals: seq<Interval>)
    requires Where(t, x, i, p, intervals) && p.active == q.active && p.start == q.start
    ensures Where(t, x, i, q, intervals) && InTrace(t, intervals)
  {
    hide Chained, InTrace, NoEntry;
  }

  // ------------------------------------------------------------ the pass

  method CheckEntries(t: Trace, x: Instance) returns (available: bool)
    ensures available <==> EntriesAvailable(t, x)
  {
    for k := 0 to |t|
      invariant forall j: nat :: j < k && IsEntry(t, x, j) ==> t[j].registers.value.available == ALL_AVAILABLE
    {
      if t[k].pc == x.entryPc && t[k].registers.Some? && t[k].registers.value.available != ALL_AVAILABLE {
        assert IsEntry(t, x, k);
        return false;
      }
    }
    available := true;
  }

  /** What is checked when an occurrence may end with the execution at `i`. */
  function EndError(t: Trace, x: Instance, i: nat): Result<bool>
    requires i < |t|
  {
    if i + 1 == |t| then
      if t[i].pc !in x.exits then Err(Unterminated) else Ok(true)
    else if t[i + 1].pc in x.extent then Ok(false)
    else if t[i + 1].pc !in x.exits then Err(UnexpectedExit)
    else if t[i + 1].registers.None? || t[i + 1].registers.value.available != ALL_AVAILABLE then Err(MissingExitSnapshot)
    else Ok(true)
  }

  lemma EndErrorIs(t: Trace, x: Instance, i: nat)
    requires i < |t|
    ensures EndError(t, x, i) == Ok(true) <==> ExpectedEnd(t, x, i)
    ensures EndError(t, x, i) == Ok(false) <==> !Leaves(t, x, i)
  {}

  /** One execution inside an occurrence, which it may end. */
  method Observe(t: Trace, x: Instance, stores: seq<Store>, i: nat, p: Progress, ghost intervals: seq<Interval>)
    returns (r: Result<Progress>, ghost intervals': seq<Interval>)
    requires i < |t| && Fits(t, x, stores, i, p, intervals) && p.active && (p.start < i ==> t[i].pc in x.extent)
    ensures r.Ok? ==> Fits(t, x, stores, i + 1, r.value, intervals')
    ensures r.Ok? && r.value.active ==> i + 1 < |t| && t[i + 1].pc in x.extent
    ensures r.Err? ==> intervals' == intervals && Rejected(t, x, intervals, r.error)
  {
    intervals' := intervals;
    hide Fits, ExpectedEnd, Rejected;
    if t[i].pc !in x.extent {
      Outside(t, x, stores, i, p, intervals);
      return Err(LeftExtent), intervals;
    }
    ObservedFits(t, x, stores, i, p, intervals);
    ActiveSince(t, x, stores, i, p, intervals);
    var q := Observed(t, x, p, i);
    var end := EndError(t, x, i);
    EndErrorIs(t, x, i);
    if end.Err? {
      FailsHere(t, x, stores, i, q, intervals);
      return Err(end.error), intervals;
    }
    if end.value {
      ClosedFits(t, x, stores, i, q, intervals);
      intervals' := intervals + [(q.start, i)];
      q := Closed(t, stores, q, i);
    }
    r := Ok(q);
  }

  /** The pass over the executions. `intervals` are the occurrences it found. */
  method ReduceInstance(t: Trace, x: Instance, stores: seq<Store>) returns (r: Result<Report>, ghost intervals: seq<Interval>)
    ensures r.Ok? ==> EntriesAvailable(t, x) && Cut(t, x, intervals) && Reports(t, x, stores, intervals, r.value)
    ensures r.Err? ==> (r.error.UnavailableRegister? <==> !EntriesAvailable(t, x))
    ensures r.Err? && EntriesAvailable(t, x) ==> Rejected(t, x, intervals, r.error) && forall cut :: !Cut(t, x, cut)
    ensures r.Err? && r.error.LeftExtent? ==> x.entryPc !in x.extent
  {
    hide *;
    intervals := [];
    var available := CheckEntries(t, x);
    if !available {
      return Err(UnavailableRegister), intervals;
    }
    var p := Progress(false, 0, [], Report([], [], {}, {}, []));
    NothingYet(t, x, stores, p);
    for i := 0 to |t|
      invariant Fits(t, x, stores, i, p, intervals)
      invariant p.active ==> i < |t| && t[i].pc in x.extent
    {
      if !p.active && t[i].pc == x.entryPc && t[i].registers.Some? {
        p := Activate(t, x, stores, i, p, intervals);
      }
      if !p.active {
        NotEntryAt(t, x, i);
        IdleFits(t, x, stores, i, p, intervals);
        continue;
      }
      var next;
      next, intervals := Observe(t, x, stores, i, p, intervals);
      if next.Err? {
        RejectedForGood(t, x, intervals, next.error);
        return Err(next.error), intervals;
      }
      p := next.value;
    }
    AllDone(t, x, stores, p, intervals);
    r := Ok(p.done);
  }

  lemma RejectedForGood(t: Trace, x: Instance, intervals: seq<Interval>, error: Error)
    requires Rejected(t, x, intervals, error)
    ensures !error.UnavailableRegister? && (error.LeftExtent? ==> x.entryPc !in x.extent) && forall cut :: !Cut(t, x, cut)
  {
    forall cut ensures !Cut(t, x, cut) {
      RejectedNoCut(t, x, intervals, error, cut);
    }
  }

  method Activate(t: Trace, x: Instance, stores: seq<Store>, i: nat, p: Progress, ghost intervals: seq<Interval>)
    returns (q: Progress)
    requires Fits(t, x, stores, i, p, intervals) && !p.active
    requires i < |t| && t[i].pc == x.entryPc && t[i].registers.Some?
    ensures Fits(t, x, stores, i, q, intervals) && q.active && q.start == i
  {
    assert IsEntry(t, x, i);
    hide Fits;
    BegunFits(t, x, stores, i, p, intervals);
    q := Begun(p, i);
  }

  lemma NothingYet(t: Trace, x: Instance, stores: seq<Store>, p: Progress)
    requires p == Progress(false, 0, [], Report([], [], {}, {}, []))
    ensures Fits(t, x, stores, 0, p, [])
  {}

  lemma NotEntryAt(t: Trace, x: Instance, i: nat)
    requires i < |t| && !(t[i].pc == x.entryPc && t[i].registers.Some?)
    ensures !IsEntry(t, x, i)
  {}

  lemma ActiveSince(t: Trace, x: Instance, stores: seq<Store>, i: nat, p: Progress, intervals: seq<Interval>)
    requires Fits(t, x, stores, i, p, intervals) && p.active
    ensures p.start <= i
  {}

  lemma AllDone(t: Trace, x: Instance, stores: seq<Store>, p: Progress, intervals: seq<Interval>)
    requires Fits(t, x, stores, |t|, p, intervals) && !p.active
    ensures Cut(t, x, intervals) && Reports(t, x, stores, intervals, p.done)
  {
    hide Chained, NoEntry, InTrace, AllWrites, AllPcs, AllExits, OccurrencesOf;
  }

  /** An active occurrence can be outside the extent only where it began. */
  lemma Outside(t: Trace, x: Instance, stores: seq<Store>, i: nat, p: Progress, intervals: seq<Interval>)
    requires Fits(t, x, stores, i, p, intervals) && p.active && i < |t| && t[i].pc !in x.extent
    requires p.start < i ==> t[i].pc in x.extent
    ensures Rejected(t, x, intervals, LeftExtent)
  {
    hide Chained, NoEntry, Holds, IsEntry;
    assert FailsAt(t, x, p.start, i, LeftExtent);
  }

  lemma FailsHere(t: Trace, x: Instance, stores: seq<Store>, i: nat, p: Progress, intervals: seq<Interval>)
    requires i < |t| && Fits(t, x, stores, i + 1, p, intervals) && p.active && p.start <= i
    requires EndError(t, x, i).Err?
    ensures Rejected(t, x, intervals, EndError(t, x, i).error)
  {
    hide Chained, NoEntry, Holds, IsEntry;
    assert Stays(t, x, p.start, i);
    assert FailsAt(t, x, p.start, i, EndError(t, x, i).error);
  }

  // ------------------------------------------------------------ conservation of writes

  /** The writes of all occurrences, one after the other. */
  ghost function Concatenated(occurrences: seq<Occurrence>): seq<HostWrite> {
    if occurrences == [] then [] else
      Concatenated(occurrences[..|occurrences| - 1]) + occurrences[|occurrences| - 1].hostWrites
  }

  lemma {:induction false} WritesConcatenate(t: Trace, stores: seq<Store>, intervals: seq<Interval>)
    requires InTrace(t, intervals)
    ensures AllWrites(t, intervals) == Concatenated(OccurrencesOf(t, stores, intervals))
  {
    var all := OccurrencesOf(t, stores, intervals);
    if intervals != [] {
      var last := |intervals| - 1;
      WritesConcatenate(t, stores, intervals[..last]);
      assert all[..last] == OccurrencesOf(t, stores, intervals[..last]);
      assert all[last] == OccurrenceOf(t, stores, intervals[last]);
    }
  }

  /** The host writes reported for the instance are those of its occurrences, in order. */
  lemma HostWritesConcatenate(t: Trace, x: Instance, stores: seq<Store>, intervals: seq<Interval>, r: Report)
    requires Reports(t, x, stores, intervals, r)
    ensures r.hostWrites == Concatenated(r.occurrences)
  {
    WritesConcatenate(t, stores, intervals);
  }

  lemma {:induction false} StoresOfCount(stores: seq<Store>, k: nat, s: Store)
    ensures multiset(StoresOf(stores, k))[s] == if s.execution == k then multiset(stores)[s] else 0
  {
    if stores != [] {
      StoresOfCount(stores[1..], k, s);
      assert stores == [stores[0]] + stores[1..];
    }
  }

  lemma {:induction false} StoresInCount(stores: seq<Store>, a: nat, b: nat, s: Store)
    ensures multiset(StoresIn(stores, a, b))[s] == if a <= s.execution < b then multiset(stores)[s] else 0
    decreases b
  {
    hide *;
    StoresInStep(stores, a, b);
    if a < b {
      StoresInCount(stores, a, b - 1, s);
      StoresOfCount(stores, b - 1, s);
      CountBoth(StoresIn(stores, a, b - 1), StoresOf(stores, b - 1), s);
    }
  }

  lemma StoresOfStep(stores: seq<Store>, k: nat)
    ensures stores == [] ==> StoresOf(stores, k) == []
    ensures stores != [] ==>
              StoresOf(stores, k) == (if stores[0].execution == k then [stores[0]] else []) + StoresOf(stores[1..], k)
  {}

  lemma {:induction false} StoresOfAppend(x: seq<Store>, y: seq<Store>, k: nat)
    ensures StoresOf(x + y, k) == StoresOf(x, k) + StoresOf(y, k)
  {
    hide *;
    StoresOfStep(x, k);
    if x == [] {
      assert x + y == y;
    } else {
      StoresOfAppend(x[1..], y, k);
      StoresOfStep(x + y, k);
      assert (x + y)[1..] == x[1..] + y;
    }
  }

  lemma {:induction false} StoresOfTwice(stores: seq<Store>, m: nat, k: nat)
    ensures StoresOf(StoresOf(stores, m), k) == if k == m then StoresOf(stores, m) else []
    ensures forall s <- StoresOf(stores, m) :: s.execution == m
  {
    hide *;
    StoresOfStep(stores, m);
    StoresOfStep([], k);
    if stores != [] {
      StoresOfTwice(stores[1..], m, k);
      if stores[0].execution == m {
        var one := [stores[0]];
        StoresOfAppend(one, StoresOf(stores[1..], m), k);
        StoresOfStep(one, k);
        assert one[1..] == [];
      } else {
        assert StoresOf(stores, m) == StoresOf(stores[1..], m);
      }
    }
  }

  lemma {:induction false} StoresInKept(stores: seq<Store>, a: nat, b: nat, k: nat)
    ensures StoresOf(StoresIn(stores, a, b), k) == if a <= k < b then StoresOf(stores, k) else []
    decreases b
  {
    hide *;
    StoresInStep(stores, a, b);
    StoresOfStep([], k);
    if a < b {
      StoresInKept(stores, a, b - 1, k);
      StoresOfTwice(stores, b - 1, k);
      StoresOfAppend(StoresIn(stores, a, b - 1), StoresOf(stores, b - 1), k);
    }
  }

  lemma {:induction false} StoresInAscend(stores: seq<Store>, a: nat, b: nat)
    ensures forall s <- StoresIn(stores, a, b) :: a <= s.execution < b
    ensures forall i, j :: 0 <= i < j < |StoresIn(stores, a, b)| ==>
              StoresIn(stores, a, b)[i].execution <= StoresIn(stores, a, b)[j].execution
    decreases b
  {
    hide *;
    StoresInStep(stores, a, b);
    if a < b {
      StoresInAscend(stores, a, b - 1);
      StoresOfTwice(stores, b - 1, 0);
      AscendAppend(StoresIn(stores, a, b - 1), StoresOf(stores, b - 1), b - 1);
    }
  }

  lemma AscendAppend(x: seq<Store>, y: seq<Store>, e: nat)
    requires forall i, j :: 0 <= i < j < |x| ==> x[i].execution <= x[j].execution
    requires (forall s <- x :: s.execution < e) && forall s <- y :: s.execution == e
    ensures forall i, j :: 0 <= i < j < |x + y| ==> (x + y)[i].execution <= (x + y)[j].execution
  {
    forall i, j | 0 <= i < j < |x + y| ensures (x + y)[i].execution <= (x + y)[j].execution {
      assert j >= |x| ==> y[j - |x|] in y;
      assert i < |x| ==> x[i] in x;
      assert i >= |x| ==> y[i - |x|] in y;
    }
  }

  /** The stores of an occurrence come by execution, those of one execution in the order recorded. */
  lemma StoresInOrder(t: Trace, stores: seq<Store>, interval: Interval, k: nat)
    requires interval.0 <= interval.1 < |t| && t[interval.0].registers.Some?
    ensures var written := OccurrenceOf(t, stores, interval).memoryWrites;
            && (forall i, j :: 0 <= i < j < |written| ==> written[i].execution <= written[j].execution)
            && StoresOf(written, k) == if interval.0 <= k <= interval.1 then StoresOf(stores, k) else []
  {
    StoresInAscend(stores, interval.0, interval.1 + 1);
    StoresInKept(stores, interval.0, interval.1 + 1, k);
    hide StoresIn, StoresOf, Writes;
  }

  lemma StoresInStep(stores: seq<Store>, a: nat, b: nat)
    ensures a >= b ==> StoresIn(stores, a, b) == []
    ensures a < b ==> StoresIn(stores, a, b) == StoresIn(stores, a, b - 1) + StoresOf(stores, b - 1)
  {
    hide StoresOf;
  }

  lemma CountBoth(x: seq<Store>, y: seq<Store>, s: Store)
    ensures multiset(x + y)[s] == multiset(x)[s] + multiset(y)[s]
  {}

  lemma ReportedWrites(t: Trace, x: Instance, stores: seq<Store>, intervals: seq<Interval>, r: Report, s: Store, j: nat)
    requires Reports(t, x, stores, intervals, r) && j < |r.occurrences|
    ensures |r.occurrences| == |intervals|
    ensures multiset(r.occurrences[j].memoryWrites)[s] ==
            if intervals[j].0 <= s.execution <= intervals[j].1 then multiset(stores)[s] else 0
  {
    assert intervals[j] in intervals;
    assert r.occurrences[j] == OccurrenceOf(t, stores, intervals[j]);
    StoresInCount(stores, intervals[j].0, intervals[j].1 + 1, s);
  }

  lemma OneOccurrence(t: Trace, x: Instance, intervals: seq<Interval>, k: nat, j: nat, e: nat)
    requires Chained(t, x, intervals) && k < |intervals| && j < |intervals|
    requires intervals[k].0 <= e <= intervals[k].1 && intervals[j].0 <= e <= intervals[j].1
    ensures k == j
  {
    hide Chained;
    if k < j {
      OccurrencesOrdered(t, x, intervals, k, j);
    } else if j < k {
      OccurrencesOrdered(t, x, intervals, j, k);
    }
  }

  /** A store is attributed, as often as it was recorded, to the occurrence whose interval holds its
      execution, and to no other. */
  lemma StoreAttributedOnce(t: Trace, x: Instance, stores: seq<Store>, intervals: seq<Interval>, r: Report, s: Store, j: nat, k: nat)
    requires Chained(t, x, intervals) && Reports(t, x, stores, intervals, r) && j < |r.occurrences| && k < |r.occurrences|
    ensures |r.occurrences| == |intervals|
    ensures multiset(r.occurrences[j].memoryWrites)[s] ==
            if intervals[j].0 <= s.execution <= intervals[j].1 then multiset(stores)[s] else 0
    ensures s in r.occurrences[j].memoryWrites && s in r.occurrences[k].memoryWrites ==> j == k
  {
    ReportedWrites(t, x, stores, intervals, r, s, j);
    ReportedWrites(t, x, stores, intervals, r, s, k);
    hide *;
    if s in r.occurrences[j].memoryWrites && s in r.occurrences[k].memoryWrites {
      assert multiset(r.occurrences[j].memoryWrites)[s] > 0 && multiset(r.occurrences[k].memoryWrites)[s] > 0;
      OneOccurrence(t, x, intervals, k, j, s.execution);
    }
  }

  // ------------------------------------------------------------ all instances

  lemma NotOrAccepted(t: Trace, x: Instance, ok: bool, cut: seq<Interval>)
    requires ok ==> EntriesAvailable(t, x) && Cut(t, x, cut)
    requires !ok && EntriesAvailable(t, x) ==> forall c :: !Cut(t, x, c)
    ensures ok <==> Accepted(t, x)
  {
    hide EntriesAvailable, Cut;
  }

  /** `reduce_trace`: every instance in turn; the first that is rejected rejects the trace, for its reason. */
  method ReduceTrace(t: Trace, instances: seq<Instance>, stores: seq<Store>)
    returns (r: Result<seq<Report>>, ghost cuts: seq<seq<Interval>>)
    ensures r.Ok? <==> forall x <- instances :: Accepted(t, x)
    ensures |cuts| <= |instances| && forall i :: 0 <= i < |cuts| ==>
              EntriesAvailable(t, instances[i]) && Cut(t, instances[i], cuts[i])
    ensures r.Ok? ==> |r.value| == |cuts| == |instances| && forall i :: 0 <= i < |instances| ==>
              Reports(t, instances[i], stores, cuts[i], r.value[i])
    ensures r.Err? ==> |cuts| < |instances| && var x := instances[|cuts|];
              if EntriesAvailable(t, x) then exists found :: Rejected(t, x, found, r.error)
              else r.error == UnavailableRegister
    ensures r.Err? && r.error.LeftExtent? ==> instances[|cuts|].entryPc !in instances[|cuts|].extent
  {
    var reports := [];
    cuts := [];
    hide *;
    for i := 0 to |instances|
      invariant |reports| == |cuts| == i
      invariant forall j :: 0 <= j < i ==> Accepted(t, instances[j])
      invariant forall j :: 0 <= j < i ==>
                  EntriesAvailable(t, instances[j]) && Cut(t, instances[j], cuts[j])
                  && Reports(t, instances[j], stores, cuts[j], reports[j])
    {
      var one, intervals := ReduceInstance(t, instances[i], stores);
      NotOrAccepted(t, instances[i], one.Ok?, intervals);
      if one.Err? {
        assert instances[i] in instances;
        return Err(one.error), cuts;
      }
      reports := reports + [one.value];
      cuts := cuts + [intervals];
    }
    r := Ok(reports);
  }
}
