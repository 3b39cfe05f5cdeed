/** `maximal_repeats`: what the stack scan over the suffix array reports, and when that is each maximal
    repeat once. */
module RepeatReport {
  import opened Listing
  import opened AscendingLists
  import opened SuffixArray
  import opened Kasai
  import opened LcpExactness
  import opened LcpIntervals
  import opened MaximalRepeats

  type Span = (nat, nat, nat)            // (length, low, high)
  type Repeat = (nat, seq<nat>)

  /** What stands to the left of the positions, the edge of the stream included. */
  function Lefts(s: Stream, positions: seq<nat>): set<Neighbour> {
    set p | p in positions :: Previous(s, p)
  }

  lemma LeftsMaximal(s: Stream, positions: seq<nat>)
    ensures |Lefts(s, positions)| >= 2 <==> LeftMaximal(s, positions)
  {
    var left := Lefts(s, positions);
    if LeftMaximal(s, positions) {
      var a, b :| a in positions && b in positions && Previous(s, a) != Previous(s, b);
      SubsetSize({Previous(s, a), Previous(s, b)}, left);
    } else if positions != [] {
      forall a | a in positions ensures Previous(s, a) == Previous(s, positions[0]) {}
      SubsetSize(left, {Previous(s, positions[0])});
    } else {
      assert left == {};
    }
  }

  ghost predicate InOrder(order: seq<nat>, x: Span) {
    x.1 <= x.2 < |order|
  }

  /** What a range contributes to the report. */
  function Entries(s: Stream, order: seq<nat>, minimum: int, x: Span): seq<Repeat>
    requires InOrder(order, x)
  {
    if x.0 < minimum || |Lefts(s, Positions(order, x.1, x.2))| < 2 then [] else [(x.0, Positions(order, x.1, x.2))]
  }

  ghost function Report(s: Stream, order: seq<nat>, minimum: int, found: seq<Span>): seq<Repeat>
    requires forall x <- found :: InOrder(order, x)
  {
    if found == [] then [] else
      Report(s, order, minimum, found[..|found| - 1]) + Entries(s, order, minimum, found[|found| - 1])
  }

  // ------------------------------------------------------------ what the report holds

  ghost predicate ReportedBy(s: Stream, order: seq<nat>, minimum: int, found: seq<Span>, r: Repeat)
    requires forall x <- found :: InOrder(order, x)
  {
    exists i :: 0 <= i < |found| && Entries(s, order, minimum, found[i]) == [r]
  }

  lemma {:induction false} ReportMembers(s: Stream, order: seq<nat>, minimum: int, found: seq<Span>, r: Repeat)
    requires forall x <- found :: InOrder(order, x)
    ensures r in Report(s, order, minimum, found) <==> ReportedBy(s, order, minimum, found, r)
  {
    hide InOrder, Positions, Lefts;
    if found != [] {
      var n := |found| - 1;
      ReportMembers(s, order, minimum, found[..n], r);
      if r in Entries(s, order, minimum, found[n]) {
        assert Entries(s, order, minimum, found[n]) == [r];
      }
      if i :| 0 <= i < |found| && Entries(s, order, minimum, found[i]) == [r] {
        assert i < n ==> found[..n][i] == found[i];
      }
      if i :| 0 <= i < n && Entries(s, order, minimum, found[..n][i]) == [r] {
        assert found[..n][i] == found[i];
      }
    }
  }

  /** Different ranges of the sorted order hold different positions. */
  lemma PositionsInjective(order: seq<nat>, lo: nat, hi: nat, lo': nat, hi': nat)
    requires NoDup(order) && lo <= hi < |order| && lo' <= hi' < |order|
    requires Positions(order, lo, hi) == Positions(order, lo', hi')
    ensures lo == lo' && hi == hi'
  {
    PositionsAre(order, lo, hi);
    PositionsAre(order, lo', hi');
    hide Positions;
    assert order[lo] in Positions(order, lo', hi') && order[hi] in Positions(order, lo', hi');
    assert order[lo'] in Positions(order, lo, hi) && order[hi'] in Positions(order, lo, hi);
  }

  lemma EntriesInjective(s: Stream, order: seq<nat>, minimum: int, x: Span, y: Span)
    requires NoDup(order) && InOrder(order, x) && InOrder(order, y)
    requires Entries(s, order, minimum, x) == Entries(s, order, minimum, y) != []
    ensures x == y
  {
    var a, b := Entries(s, order, minimum, x), Entries(s, order, minimum, y);
    assert a[0] == b[0];
    PositionsInjective(order, x.1, x.2, y.1, y.2);
  }

  lemma {:induction false} ReportNoDup(s: Stream, order: seq<nat>, minimum: int, found: seq<Span>)
    requires NoDup(order) && NoDup(found) && forall x <- found :: InOrder(order, x)
    ensures NoDup(Report(s, order, minimum, found))
  {
    hide InOrder, Positions;
    if found != [] {
      var n := |found| - 1;
      var before, last := Report(s, order, minimum, found[..n]), Entries(s, order, minimum, found[n]);
      ReportNoDup(s, order, minimum, found[..n]);
      if last != [] {
        var r := last[0];
        assert last == [r];
        if r in before {
          ReportMembers(s, order, minimum, found[..n], r);
          var i :| 0 <= i < n && Entries(s, order, minimum, found[..n][i]) == [r];
          EntriesInjective(s, order, minimum, found[i], found[n]);
        }
      }
    }
  }

  /** A pair is reported: it belongs to an interval of the array, is long enough, and its positions have
      different left neighbours. */
  ghost predicate FromInterval(s: Stream, order: seq<nat>, lcp: seq<nat>, minimum: int, r: Repeat) {
    exists lo: nat, hi: nat :: IntervalOf(s, order, lcp, r, lo, hi) && r.0 >= minimum && LeftMaximal(s, r.1)
  }

  ghost predicate IntervalOf(s: Stream, order: seq<nat>, lcp: seq<nat>, r: Repeat, lo: nat, hi: nat) {
    Interval(lcp, r.0, lo, hi) && hi < |order| && r.1 == Positions(order, lo, hi)
  }

  /** Reporting from all intervals. */
  lemma ReportIs(s: Stream, order: seq<nat>, lcp: seq<nat>, minimum: int, found: seq<Span>, r: Repeat)
    requires |order| == |lcp|
    requires forall x <- found :: InOrder(order, x)
    requires forall x: Span :: x in found <==> Interval(lcp, x.0, x.1, x.2)
    ensures r in Report(s, order, minimum, found) <==> FromInterval(s, order, lcp, minimum, r)
  {
    ReportMembers(s, order, minimum, found, r);
    hide Report, Interval, Positions, LeftMaximal;
    if i :| 0 <= i < |found| && Entries(s, order, minimum, found[i]) == [r] {
      var x := found[i];
      LeftsMaximal(s, Positions(order, x.1, x.2));
      assert IntervalOf(s, order, lcp, r, x.1, x.2);
    }
    if lo: nat, hi: nat :| IntervalOf(s, order, lcp, r, lo, hi) && r.0 >= minimum && LeftMaximal(s, r.1) {
      LengthOfInterval(lcp, r.0, lo, hi);
      var x := (r.0, lo, hi);
      LeftsMaximal(s, r.1);
      assert x in found;
      var i :| 0 <= i < |found| && found[i] == x;
      assert Entries(s, order, minimum, found[i]) == [r];
    }
  }

  /** The least length that is reported. */
  function Least(minimum: int): nat { if minimum < 1 then 1 else minimum }

  /** Arrays that agree from `t` on have the same intervals from there on. */
  lemma SameIntervals(a: seq<nat>, b: seq<nat>, t: nat, v: nat, lo: nat, hi: nat)
    requires Agree(a, b, t) && v >= t && Interval(a, v, lo, hi)
    ensures Interval(b, v, lo, hi)
  {
    var k :| lo < k <= hi && a[k] == v;
    assert b[k] == v;
    assert Value(a, hi + 1) < v ==> Value(b, hi + 1) < v;
  }

  /** From an array that is exact from the minimum on, exactly the maximal repeats are reported. */
  lemma ReportExact(s: Stream, order: seq<nat>, lcp: seq<nat>, minimum: int, r: Repeat)
    requires InPlace(s, order) && |order| == |s| && Agree(lcp, TrueLcp(s, order), Least(minimum))
    ensures FromInterval(s, order, lcp, minimum, r) <==> r.0 >= minimum && IsMaximalRepeat(s, r.0, r.1)
  {
    var exact, t := TrueLcp(s, order), Least(minimum);
    TrueLcpIs(s, order);
    assert Indexed(s, order, exact);
    assert Agree(exact, lcp, t);
    hide Indexed, InPlace, TrueLcp, Agree, AllOccurrences, LeftMaximal, RightMaximal, StrictlyAscending, Positions, Interval;
    if lo: nat, hi: nat :| IntervalOf(s, order, lcp, r, lo, hi) && r.0 >= minimum && LeftMaximal(s, r.1) {
      LengthOfInterval(lcp, r.0, lo, hi);
      SameIntervals(lcp, exact, t, r.0, lo, hi);
      IntervalIsRepeat(s, order, exact, r.0, lo, hi);
    }
    if r.0 >= minimum && IsMaximalRepeat(s, r.0, r.1) {
      var lo, hi := RepeatIsInterval(s, order, exact, r.0, r.1);
      SameIntervals(exact, lcp, t, r.0, lo, hi);
      assert IntervalOf(s, order, lcp, r, lo, hi);
    }
  }

  /** What `maximal_repeats` returns: the intervals of the array the code computes, each once. */
  ghost predicate IsReport(s: Stream, minimum: int, results: seq<Repeat>) {
    NoDup(results) && exists order, lcp :: IsReportOf(s, order, lcp, minimum, results)
  }

  ghost predicate IsReportOf(s: Stream, order: seq<nat>, lcp: seq<nat>, minimum: int, results: seq<Repeat>) {
    && InPlace(s, order) && IsEntryArray(s, order, lcp)
    && forall r :: r in results <==> FromInterval(s, order, lcp, minimum, r)
  }

  /** The repeats of at least the minimum length. */
  ghost predicate IsExactReport(s: Stream, minimum: int, results: seq<Repeat>) {
    && NoDup(results)
    && forall r: Repeat :: r in results <==> r.0 >= minimum && IsMaximalRepeat(s, r.0, r.1)
  }

  /** The report is exact for every stream that passes the test at the minimum length. */
  lemma ReliableReport(s: Stream, minimum: int, results: seq<Repeat>)
    requires NoMarker(s) && IsReport(s, minimum, results) && Reliable(s, Least(minimum))
    ensures IsExactReport(s, minimum, results)
  {
    hide InPlace, IsEntryArray, NoMarker, FromInterval, IsMaximalRepeat, Reliable, NoDup;
    var order, lcp :| IsReportOf(s, order, lcp, minimum, results);
    InPlacePerm(s, order);
    ReliableIsExact(s, order, lcp, Least(minimum));
    forall r: Repeat ensures r in results <==> r.0 >= minimum && IsMaximalRepeat(s, r.0, r.1) {
      ReportExact(s, order, lcp, minimum, r);
    }
  }

  lemma LengthOfInterval(lcp: seq<nat>, v: nat, lo: nat, hi: nat)
    requires Interval(lcp, v, lo, hi)
    ensures v >= 1 && lo < hi < |lcp|
  {}

  // ------------------------------------------------------------ the scan

  /** The lengths and first suffixes of the ranges emitted so far. */
  ghost function Keys(order: seq<nat>, minimum: int, found: seq<Span>): set<(nat, nat)>
    requires forall x <- found :: InOrder(order, x)
  {
    set x: Span | x in found && InOrder(order, x) && x.0 >= minimum :: (x.0, order[x.1])
  }

  ghost predicate AllIntervals(order: seq<nat>, lcp: seq<nat>, found: seq<Span>) {
    forall x <- found :: Interval(lcp, x.0, x.1, x.2) && InOrder(order, x)
  }

  /** The state of the scan after the calls of `emit` listed in `found`. */
  ghost predicate Emitted(s: Stream, order: seq<nat>, lcp: seq<nat>, minimum: int, found: seq<Span>,
                          results: seq<Repeat>, seen: set<(nat, nat)>) {
    && AllIntervals(order, lcp, found)
    && results == Report(s, order, minimum, found) && seen == Keys(order, minimum, found)
  }

  lemma NotSeen(order: seq<nat>, lcp: seq<nat>, minimum: int, found: seq<Span>, x: Span)
    requires NoDup(order) && |order| == |lcp| && x !in found && Interval(lcp, x.0, x.1, x.2)
    requires AllIntervals(order, lcp, found)
    ensures InOrder(order, x) && (x.0, order[x.1]) !in Keys(order, minimum, found)
  {
    LengthOfInterval(lcp, x.0, x.1, x.2);
    forall y: Span | y in found && y.0 == x.0 ensures InOrder(order, y) && order[y.1] != order[x.1] {
      if order[y.1] == order[x.1] {
        IntervalUnique(lcp, x.0, x.1, x.2, y.2);
      }
    }
  }

  lemma KeysGrow(order: seq<nat>, minimum: int, found: seq<Span>, x: Span)
    requires InOrder(order, x) && forall y <- found :: InOrder(order, y)
    ensures Keys(order, minimum, found + [x]) ==
            Keys(order, minimum, found) + if x.0 >= minimum then {(x.0, order[x.1])} else {}
  {
    var all := found + [x];
    assert forall y :: y in all <==> y in found || y == x;
  }

  lemma AllGrow(order: seq<nat>, lcp: seq<nat>, found: seq<Span>, x: Span)
    requires AllIntervals(order, lcp, found) && Interval(lcp, x.0, x.1, x.2) && |order| == |lcp|
    ensures InOrder(order, x) && AllIntervals(order, lcp, found + [x])
  {}

  /** `emit`. The `seen` test never fires: a length and a low end determine the interval. */
  method Emit(stream: Stream, order: seq<nat>, ghost lcp: seq<nat>, minimum: int, ghost found: seq<Span>,
              results: seq<Repeat>, seen: set<(nat, nat)>, length: nat, low: nat, high: nat)
    returns (results': seq<Repeat>, seen': set<(nat, nat)>)
    requires NoDup(order) && |order| == |lcp| && Interval(lcp, length, low, high) && (length, low, high) !in found
    requires Emitted(stream, order, lcp, minimum, found, results, seen)
    ensures Emitted(stream, order, lcp, minimum, found + [(length, low, high)], results', seen')
  {
    ghost var x := (length, low, high);
    NotSeen(order, lcp, minimum, found, x);
    LengthOfInterval(lcp, length, low, high);
    AllGrow(order, lcp, found, x);
    hide Interval, NoDup, Positions;
    ghost var all := found + [x];
    assert all[..|all| - 1] == found;
    KeysGrow(order, minimum, found, x);
    hide Keys, AllIntervals;
    if length < minimum || high - low + 1 < 2 {
      return results, seen;
    }
    if (length, order[low]) in seen {
      return results, seen;
    }
    seen' := seen + {(length, order[low])};
    var positions := Positions(order, low, high);
    if |Lefts(stream, positions)| < 2 {
      return results, seen';
    }
    results' := results + [(length, positions)];
  }

  lemma PoppedIsInterval(lcp: seq<nat>, stack: seq<Entry>, index: nat, i: nat)
    requires 1 <= index <= |lcp| && Stacked(lcp, stack, index) && i < |stack| && stack[i].0 > Value(lcp, index)
    ensures stack[i].1 >= 1 && Interval(lcp, stack[i].0, stack[i].1 - 1, index - 1)
  {
    EntryOpen(lcp, stack, index, i);
    ClosingOpens(lcp, stack[i].0, stack[i].1 - 1, index - 1);
  }

  /** Popping one more entry finds one more interval. */
  lemma PopOne(lcp: seq<nat>, stack: seq<Entry>, found: seq<Span>, index: nat, kept: nat)
    requires 1 <= index <= |lcp| && Stacked(lcp, stack, index) && Popping(lcp, stack, found, index, kept)
    requires 0 < kept <= |stack| && stack[kept - 1].0 > Value(lcp, index)
    ensures stack[kept - 1].1 >= 1
    ensures var x := (stack[kept - 1].0, stack[kept - 1].1 - 1, index - 1);
            && Interval(lcp, x.0, x.1, x.2) && x !in found
            && Popping(lcp, stack, found + [x], index, kept - 1)
  {
    assert LcpIntervals.Ascending(stack);
    hide Stacked, Popping, Interval, LcpIntervals.Ascending;
    PoppedIsInterval(lcp, stack, index, kept - 1);
    PopNext(lcp, stack, found, index, kept);
    FreshlyFound(lcp, stack, found, (stack[kept - 1].0, stack[kept - 1].1 - 1, index - 1), index, kept - 1);
  }

  /** One turn of the inner loop. */
  method Pop(stream: Stream, order: seq<nat>, ghost lcp: seq<nat>, minimum: int, index: nat, full: seq<Entry>, kept: nat,
             ghost found: seq<Span>, results: seq<Repeat>, seen: set<(nat, nat)>)
    returns (ghost found': seq<Span>, results': seq<Repeat>, seen': set<(nat, nat)>)
    requires NoDup(order) && |order| == |lcp| && 1 <= index <= |lcp|
    requires Stacked(lcp, full, index) && Popping(lcp, full, found, index, kept)
    requires 0 < kept <= |full| && full[kept - 1].0 > Value(lcp, index)
    requires Emitted(stream, order, lcp, minimum, found, results, seen)
    ensures Popping(lcp, full, found', index, kept - 1)
    ensures Emitted(stream, order, lcp, minimum, found', results', seen')
  {
    hide *;
    var (length, low) := full[kept - 1];
    PopOne(lcp, full, found, index, kept);
    results', seen' := Emit(stream, order, lcp, minimum, found, results, seen, length, low - 1, index - 1);
    found' := found + [(length, low - 1, index - 1)];
  }

  /** The inner loop: pop and emit what closes at `index`. The stack is `full[..kept]`. */
  method PopAll(stream: Stream, order: seq<nat>, lcp: seq<nat>, minimum: int, index: nat, full: seq<Entry>,
                ghost found: seq<Span>, results: seq<Repeat>, seen: set<(nat, nat)>)
    returns (kept: nat, start: nat, ghost found': seq<Span>, results': seq<Repeat>, seen': set<(nat, nat)>)
    requires NoDup(order) && |order| == |lcp| && 1 <= index <= |lcp|
    requires Stacked(lcp, full, index) && Reported(lcp, found, index)
    requires Emitted(stream, order, lcp, minimum, found, results, seen)
    ensures PopsTo(full, kept, if index < |lcp| then lcp[index] else 0) && kept <= |full| && start == StartFrom(full, kept, index)
    ensures Reported(lcp, found', index + 1)
    ensures Emitted(stream, order, lcp, minimum, found', results', seen')
  {
    var value := if index < |lcp| then lcp[index] else 0;
    assert value == Value(lcp, index);
    PoppingStarts(lcp, full, found, index);
    found', results', seen' := found, results, seen;
    kept, start := |full|, index;
    hide *;
    while kept > 0 && full[kept - 1].0 > value
      invariant kept <= |full|
      invariant start == if kept == |full| then index else full[kept].1
      invariant forall i :: kept <= i < |full| ==> full[i].0 > value
      invariant Popping(lcp, full, found', index, kept)
      invariant Emitted(stream, order, lcp, minimum, found', results', seen')
    {
      found', results', seen' := Pop(stream, order, lcp, minimum, index, full, kept, found', results', seen');
      kept := kept - 1;
      start := full[kept].1;
    }
    PopsUntil(full, kept, index, value);
    PoppingEnds(lcp, full, found', index, kept);
  }

  lemma PopsUntil(stack: seq<Entry>, kept: nat, index: nat, value: nat)
    requires kept <= |stack| && (forall i :: kept <= i < |stack| ==> stack[i].0 > value)
    requires kept > 0 ==> stack[kept - 1].0 <= value
    ensures PopsTo(stack, kept, value)
    ensures StartFrom(stack, kept, index) == if kept == |stack| then index else stack[kept].1
  {}

  lemma FreshlyFound(lcp: seq<nat>, stack: seq<Entry>, found: seq<Span>, x: Span, index: nat, kept: nat)
    requires Popping(lcp, stack, found + [x], index, kept)
    ensures x !in found
  {
    var all := found + [x];
    forall i | 0 <= i < |found| ensures found[i] != x {
      assert all[i] == found[i] && all[|found|] == x;
    }
  }

  lemma NothingYet(s: Stream, order: seq<nat>, lcp: seq<nat>, minimum: int)
    requires |lcp| > 0
    ensures Stacked(lcp, [], 1) && Reported(lcp, [], 1) && Emitted(s, order, lcp, minimum, [], [], {})
  {}

  lemma AllFound(s: Stream, order: seq<nat>, lcp: seq<nat>, minimum: int, found: seq<Span>, results: seq<Repeat>,
                 seen: set<(nat, nat)>)
    requires InPlace(s, order) && IsEntryArray(s, order, lcp)
    requires Reported(lcp, found, |lcp| + 1) && Emitted(s, order, lcp, minimum, found, results, seen)
    ensures IsReport(s, minimum, results)
  {
    InPlacePerm(s, order);
    assert |lcp| == |order| && NoDup(order);
    AllReported(lcp, found);
    ReportNoDup(s, order, minimum, found);
    hide Reported, InPlace, IsEntryArray, Interval, FromInterval, NoDup;
    forall r: Repeat ensures r in results <==> FromInterval(s, order, lcp, minimum, r) {
      ReportIs(s, order, lcp, minimum, found, r);
    }
    assert IsReportOf(s, order, lcp, minimum, results);
  }

  lemma AllReported(lcp: seq<nat>, found: seq<Span>)
    requires Reported(lcp, found, |lcp| + 1)
    ensures NoDup(found) && forall x: Span :: x in found <==> Interval(lcp, x.0, x.1, x.2)
  {
    forall x: Span ensures x in found <==> Interval(lcp, x.0, x.1, x.2) {
      assert x == (x.0, x.1, x.2);
      if Interval(lcp, x.0, x.1, x.2) {
        LengthOfInterval(lcp, x.0, x.1, x.2);
      }
    }
  }

  lemma PushedIs(stack: seq<Entry>, kept: nat, value: nat, start: nat)
    requires kept <= |stack|
    ensures PushedStack(stack, kept, value, start) ==
            stack[..kept] + if stack[..kept] == [] || stack[..kept][kept - 1].0 < value then [(value, start)] else []
  {}

  method Index(stream: Stream) returns (order: seq<nat>, lcp: seq<nat>)
    requires NoMarker(stream) && BoundariesDiffer(stream) && stream != []
    ensures InPlace(stream, order) && IsEntryArray(stream, order, lcp) && NoDup(order)
    ensures |order| == |lcp| == |stream| && lcp[0] == 0
  {
    ghost var rounds, advances;
    order, rounds := Build(stream);
    hide NoMarker, BoundariesDiffer, Placed, Kasai.Entry, IsSuffixArray, EndSafe;
    lcp, advances := LcpArray(stream, order);
  }

  /** `maximal_repeats`. */
  method Find(stream: Stream, minimum: int) returns (results: seq<Repeat>)
    requires NoMarker(stream) && BoundariesDiffer(stream)
    ensures IsReport(stream, minimum, results)
    ensures Reliable(stream, Least(minimum)) ==> IsExactReport(stream, minimum, results)
  {
    hide *;
    var n := |stream|;
    if n == 0 {
      results := [];
      NothingReported(stream, minimum);
      ReportReliably(stream, minimum, results);
      return;
    }
    var order, lcp := Index(stream);
    NothingYet(stream, order, lcp, minimum);
    var seen: set<(nat, nat)> := {};
    var stack: seq<Entry> := [];
    ghost var found: seq<Span> := [];
    results := [];
    for index: nat := 1 to n + 1
      invariant index <= n ==> Stacked(lcp, stack, index)
      invariant Reported(lcp, found, index)
      invariant Emitted(stream, order, lcp, minimum, found, results, seen)
    {
      var value := if index < n then lcp[index] else 0;
      ghost var full := stack;
      var kept, start;
      kept, start, found, results, seen := PopAll(stream, order, lcp, minimum, index, stack, found, results, seen);
      if index < n {
        StackNext(lcp, full, index, kept);
        PushedIs(full, kept, value, start);
      }
      stack := stack[..kept];
      if stack == [] || stack[|stack| - 1].0 < value {
        stack := stack + [(value, start)];
      }
      assert index < n ==> stack == PushedStack(full, kept, value, start);
    }
    AllFound(stream, order, lcp, minimum, found, results, seen);
    ReportReliably(stream, minimum, results);
  }

  lemma ReportReliably(s: Stream, minimum: int, results: seq<Repeat>)
    requires NoMarker(s) && IsReport(s, minimum, results)
    ensures Reliable(s, Least(minimum)) ==> IsExactReport(s, minimum, results)
  {
    if Reliable(s, Least(minimum)) {
      ReliableReport(s, minimum, results);
    }
  }

  lemma NothingReported(s: Stream, minimum: int)
    requires s == []
    ensures IsReport(s, minimum, [])
  {
    EmptyInPlace(s);
    assert IsEntryArray(s, [], []);
    forall r ensures !FromInterval(s, [], [], minimum, r) {}
    assert IsReportOf(s, [], [], minimum, []);
  }
}
