/** What it means to cut an execution trace into the occurrences of one function instance. */
module TraceSegments {
  import opened Options
  import opened Listing


  datatype Snapshot = Snapshot(available: nat, values: seq<int>)
  datatype HostWrite = HostWrite(pc: nat, address: nat, bytes: string)
  datatype Execution = Execution(pc: nat, registers: Option<Snapshot>, hostWrites: seq<HostWrite>)
  type Trace = seq<Execution>

  /** A store, and the position of the execution that made it. */
  datatype Store = Store(pc: nat, address: nat, width: nat, value: nat, execution: nat)

  datatype Instance = Instance(entryPc: nat, extent: set<nat>, exits: set<nat>, owned: set<nat>)

  /** All 32 registers were recorded. */
  const ALL_AVAILABLE: nat := 0xffff_ffff

  // ------------------------------------------------------------ intervals

  /** First and last position of an occurrence. */
  type Interval = (nat, nat)

  ghost predicate IsEntry(t: Trace, x: Instance, k: nat) {
    k < |t| && t[k].pc == x.entryPc && t[k].registers.Some?
  }

  ghost predicate Stays(t: Trace, x: Instance, a: nat, b: nat) {
    b < |t| && forall k :: a <= k <= b ==> t[k].pc in x.extent
  }

  ghost predicate NoEntry(t: Trace, x: Instance, a: nat, b: nat) {
    forall k: nat :: a <= k < b ==> !IsEntry(t, x, k)
  }

  /** The trace leaves the extent after `b`, or ends there. */
  ghost predicate Leaves(t: Trace, x: Instance, b: nat) {
    b < |t| && (b + 1 == |t| || t[b + 1].pc !in x.extent)
  }

  /** It does so where the manifest expects it; outside the trace's end with all registers recorded. */
  ghost predicate ExpectedEnd(t: Trace, x: Instance, b: nat) {
    && Leaves(t, x, b)
    && if b + 1 == |t| then t[b].pc in x.exits
       else t[b + 1].pc in x.exits && t[b + 1].registers.Some? && t[b + 1].registers.value.available == ALL_AVAILABLE
  }

  ghost predicate IsOccurrence(t: Trace, x: Instance, i: Interval) {
    i.0 <= i.1 && IsEntry(t, x, i.0) && Stays(t, x, i.0, i.1) && ExpectedEnd(t, x, i.1)
  }

  /** Where the search for the next entry resumes. */
  function After(intervals: seq<Interval>): nat {
    if intervals == [] then 0 else intervals[|intervals| - 1].1 + 1
  }

  /** Consecutive occurrences, each starting at the first entry snapshot after the one before. */
  ghost predicate Chained(t: Trace, x: Instance, intervals: seq<Interval>) {
    forall j :: 0 <= j < |intervals| ==>
      && IsOccurrence(t, x, intervals[j])
      && After(intervals[..j]) <= intervals[j].0
      && NoEntry(t, x, After(intervals[..j]), intervals[j].0)
  }

  /** The trace cut into occurrences, up to its end. */
  ghost predicate Cut(t: Trace, x: Instance, intervals: seq<Interval>) {
    Chained(t, x, intervals) && NoEntry(t, x, After(intervals), |t|)
  }

  // ------------------------------------------------------------ the cut is unique

  lemma OneEnd(t: Trace, x: Instance, a: nat, b: nat, b': nat)
    requires a <= b && a <= b' && Stays(t, x, a, b) && Stays(t, x, a, b') && Leaves(t, x, b) && Leaves(t, x, b')
    ensures b == b'
  {}

  lemma OneStart(t: Trace, x: Instance, from: nat, a: nat, a': nat)
    requires from <= a && from <= a' && IsEntry(t, x, a) && IsEntry(t, x, a')
    requires NoEntry(t, x, from, a) && NoEntry(t, x, from, a')
    ensures a == a'
  {}

  /** A cut goes on as long as there is an entry to come. */
  lemma CutContinues(t: Trace, x: Instance, cut: seq<Interval>, j: nat, k: nat)
    requires Cut(t, x, cut) && j <= |cut| && IsEntry(t, x, k) && After(cut[..j]) <= k
    ensures j < |cut|
    ensures IsOccurrence(t, x, cut[j]) && After(cut[..j]) <= cut[j].0 && NoEntry(t, x, After(cut[..j]), cut[j].0)
  {
    assert cut[..|cut|] == cut;
    hide IsOccurrence;
  }

  lemma ChainAt(t: Trace, x: Instance, chain: seq<Interval>, j: nat)
    requires Chained(t, x, chain) && j < |chain|
    ensures IsOccurrence(t, x, chain[j]) && IsEntry(t, x, chain[j].0)
    ensures After(chain[..j]) <= chain[j].0 && NoEntry(t, x, After(chain[..j]), chain[j].0)
  {
    hide NoEntry;
  }

  lemma SameOccurrence(t: Trace, x: Instance, from: nat, i: Interval, k: Interval)
    requires IsOccurrence(t, x, i) && IsOccurrence(t, x, k) && from <= i.0 && from <= k.0
    requires NoEntry(t, x, from, i.0) && NoEntry(t, x, from, k.0)
    ensures i == k
  {
    OneStart(t, x, from, i.0, k.0);
    OneEnd(t, x, i.0, i.1, k.1);
  }

  lemma PrefixGrows<T>(a: seq<T>, b: seq<T>, j: nat)
    requires j < |a| && j < |b| && a[..j] == b[..j] && a[j] == b[j]
    ensures a[..j + 1] == b[..j + 1]
  {
    assert a[..j + 1] == a[..j] + [a[j]] && b[..j + 1] == b[..j] + [b[j]];
  }

  /** A chain is the start of every cut. */
  lemma {:induction false} ChainIsPrefix(t: Trace, x: Instance, chain: seq<Interval>, cut: seq<Interval>, m: nat)
    requires Chained(t, x, chain) && Cut(t, x, cut) && m <= |chain|
    ensures m <= |cut| && chain[..m] == cut[..m]
  {
    hide *;
    if m > 0 {
      var j := m - 1;
      ChainIsPrefix(t, x, chain, cut, j);
      ChainAt(t, x, chain, j);
      CutContinues(t, x, cut, j, chain[j].0);
      SameOccurrence(t, x, After(chain[..j]), chain[j], cut[j]);
      PrefixGrows(chain, cut, j);
    }
  }

  /** A trace has at most one cut. */
  lemma CutUnique(t: Trace, x: Instance, a: seq<Interval>, b: seq<Interval>)
    requires Cut(t, x, a) && Cut(t, x, b)
    ensures a == b
  {
    ChainIsPrefix(t, x, a, b, |a|);
    ChainIsPrefix(t, x, b, a, |b|);
    assert a[..|a|] == a && b[..|b|] == b;
  }

  /** Occurrences are ordered and disjoint. */
  lemma {:induction false} OccurrencesOrdered(t: Trace, x: Instance, intervals: seq<Interval>, i: nat, j: nat)
    requires Chained(t, x, intervals) && i < j < |intervals|
    ensures intervals[i].1 < intervals[j].0
    decreases j
  {
    assert After(intervals[..j]) == intervals[j - 1].1 + 1;
    if i < j - 1 {
      OccurrencesOrdered(t, x, intervals, i, j - 1);
      assert IsOccurrence(t, x, intervals[j - 1]);
    }
  }

  /** What was begun after a chain must end as expected, if the trace is to have a cut at all. */
  lemma CutNeedsEnd(t: Trace, x: Instance, chain: seq<Interval>, start: nat, end: nat, cut: seq<Interval>)
    requires Chained(t, x, chain) && After(chain) <= start <= end
    requires IsEntry(t, x, start) && NoEntry(t, x, After(chain), start)
    requires Stays(t, x, start, end) && Leaves(t, x, end)
    requires Cut(t, x, cut)
    ensures ExpectedEnd(t, x, end)
  {
    var m := |chain|;
    ChainIsPrefix(t, x, chain, cut, m);
    assert chain[..m] == chain;
    CutContinues(t, x, cut, m, start);
    hide NoEntry, Chained, Cut;
    OneStart(t, x, After(chain), start, cut[m].0);
    OneEnd(t, x, start, end, cut[m].1);
  }

  /** A trace with an entry has a cut only if the entry is in the extent. */
  lemma EntryInside(t: Trace, x: Instance, k: nat, cut: seq<Interval>)
    requires IsEntry(t, x, k) && Cut(t, x, cut)
    ensures x.entryPc in x.extent
  {
    CutContinues(t, x, cut, 0, k);
  }
}
