/** Reports of `maximal_repeats` on streams that fail the test: how they go wrong, and one that does. */
module ReportExactness {
  import opened Listing
  import opened AscendingLists
  import opened SuffixArray
  import opened Kasai
  import opened LcpExactness
  import opened LcpIntervals
  import opened MaximalRepeats
  import opened RepeatReport

  // ------------------------------------------------------------ a sound report misses nothing

  /** All positions of a reported pair hold the same substring. */
  ghost predicate SameText(s: Stream, r: Repeat) {
    forall a, b :: a in r.1 && b in r.1 ==> Occurs(s, r.0, a, b)
  }

  /** Entries come out too long, never too short. */
  lemma EntriesLong(s: Stream, order: seq<nat>, lcp: seq<nat>)
    requires IsEntryArray(s, order, lcp)
    ensures |order| == |lcp| == |TrueLcp(s, order)| == |s|
    ensures forall p :: 0 <= p < |s| ==> TrueLcp(s, order)[p] <= lcp[p]
    ensures |s| > 0 ==> lcp[0] == 0
  {
    EntriesFit(s, order, lcp);
    hide *;
    forall p | 0 <= p < |s| ensures TrueLcp(s, order)[p] <= lcp[p] {
      if p > 0 {
        EntryAt(s, order, lcp, p);
      }
    }
  }

  /** What lies between the ends of a range whose positions hold one substring shares it. */
  lemma SameTextShares(s: Stream, order: seq<nat>, lcp: seq<nat>, r: Repeat, lo: nat, hi: nat, k: nat)
    requires IsEntryArray(s, order, lcp) && NoDup(order)
    requires IntervalOf(s, order, lcp, r, lo, hi) && SameText(s, r) && lo < k <= hi
    ensures |TrueLcp(s, order)| == |order| == |s| && k < |s|
    ensures TrueLcp(s, order)[k] >= r.0
  {
    EntriesLong(s, order, lcp);
    LengthOfInterval(lcp, r.0, lo, hi);
    PositionsAre(order, lo, hi);
    TrueLcpIs(s, order);
    hide Interval, Positions, IsEntryArray, NoDup, Occurs, TrueLcp;
    assert order[k - 1] in r.1 && order[k] in r.1;
    OccursIsCommon(s, r.0, order[k - 1], order[k]);
  }

  /** An interval between the exact array and the computed one is an interval of both. */
  lemma Squeezed(a: seq<nat>, b: seq<nat>, v: nat, lo: nat, hi: nat)
    requires |a| == |b| && (forall p :: 0 <= p < |a| ==> a[p] <= b[p])
    requires Interval(b, v, lo, hi) && forall k :: lo < k <= hi ==> a[k] >= v
    ensures Interval(a, v, lo, hi)
  {
    var k :| lo < k <= hi && b[k] == v;
    assert a[k] == v;
    assert Value(a, hi + 1) <= Value(b, hi + 1);
  }

  lemma FromWhere(s: Stream, order: seq<nat>, lcp: seq<nat>, minimum: int, r: Repeat) returns (lo: nat, hi: nat)
    requires FromInterval(s, order, lcp, minimum, r)
    ensures Interval(lcp, r.0, lo, hi) && lo <= hi < |order| && r.1 == Positions(order, lo, hi)
    ensures IntervalOf(s, order, lcp, r, lo, hi) && r.0 >= minimum && LeftMaximal(s, r.1)
  {
    hide Interval, LeftMaximal, Positions;
    lo, hi :| IntervalOf(s, order, lcp, r, lo, hi) && r.0 >= minimum && LeftMaximal(s, r.1);
    LengthOfInterval(lcp, r.0, lo, hi);
  }

  lemma IsRepeat(s: Stream, v: nat, p: seq<nat>)
    requires v >= 1 && |p| >= 2 && StrictlyAscending(p) && AllOccurrences(s, v, p)
    requires LeftMaximal(s, p) && RightMaximal(s, v, p)
    ensures IsMaximalRepeat(s, v, p)
  {}

  lemma ExactIsIndexed(s: Stream, order: seq<nat>)
    requires InPlace(s, order)
    ensures |order| == |s| && NoDup(order) && Indexed(s, order, TrueLcp(s, order))
  {
    TrueLcpIs(s, order);
  }

  lemma SoundIsMaximal(s: Stream, order: seq<nat>, lcp: seq<nat>, minimum: int, r: Repeat)
    requires InPlace(s, order) && IsEntryArray(s, order, lcp) && FromInterval(s, order, lcp, minimum, r) && SameText(s, r)
    ensures r.0 >= minimum && IsMaximalRepeat(s, r.0, r.1)
  {
    hide *;
    ExactIsIndexed(s, order);
    EntriesLong(s, order, lcp);
    var exact := TrueLcp(s, order);
    var lo, hi := FromWhere(s, order, lcp, minimum, r);
    LengthOfInterval(lcp, r.0, lo, hi);
    forall k | lo < k <= hi ensures exact[k] >= r.0 {
      SameTextShares(s, order, lcp, r, lo, hi, k);
    }
    Squeezed(exact, lcp, r.0, lo, hi);
    IntervalIsRepeat(s, order, exact, r.0, lo, hi);
    IsRepeat(s, r.0, r.1);
  }

  /** The widest range around another whose entries do not fall below the least of its entries. */
  lemma Around(lcp: seq<nat>, lo: nat, hi: nat, least: nat) returns (v: nat, from: nat, to: nat)
    requires lo < hi < |lcp| && lcp[0] == 0 && least >= 1 && forall k :: lo < k <= hi ==> lcp[k] >= least
    ensures v >= least && from <= lo && hi <= to && Interval(lcp, v, from, to)
    ensures forall k :: lo < k <= hi ==> lcp[k] >= v
  {
    v := LeastEntry(lcp, lo, hi);
    from, to := lo, hi;
    while lcp[from] >= v
      invariant from <= lo && forall k :: from < k <= hi ==> lcp[k] >= v
      decreases from
    {
      from := from - 1;
    }
    while to + 1 < |lcp| && lcp[to + 1] >= v
      invariant hi <= to < |lcp| && forall k :: from < k <= to ==> lcp[k] >= v
      decreases |lcp| - to
    {
      to := to + 1;
    }
  }

  lemma LeastEntry(lcp: seq<nat>, lo: nat, hi: nat) returns (v: nat)
    requires lo < hi < |lcp|
    ensures exists k :: lo < k <= hi && lcp[k] == v
    ensures forall k :: lo < k <= hi ==> lcp[k] >= v
  {
    var at := lo + 1;
    for k := lo + 2 to hi + 1
      invariant lo < at <= hi && forall i :: lo < i < k ==> lcp[i] >= lcp[at]
    {
      if lcp[k] < lcp[at] {
        at := k;
      }
    }
    v := lcp[at];
  }

  lemma WiderPositions(s: Stream, order: seq<nat>, lo: nat, hi: nat, from: nat, to: nat)
    requires NoDup(order) && from <= lo <= hi <= to < |order| && LeftMaximal(s, Positions(order, lo, hi))
    ensures LeftMaximal(s, Positions(order, from, to))
  {
    PositionsAre(order, lo, hi);
    PositionsAre(order, from, to);
  }

  lemma IntervalEntries(a: seq<nat>, v: nat, lo: nat, hi: nat)
    requires Interval(a, v, lo, hi)
    ensures v >= 1 && lo < hi < |a| && forall k :: lo < k <= hi ==> a[k] >= v
  {}

  lemma ReportedFrom(s: Stream, order: seq<nat>, lcp: seq<nat>, minimum: int, r: Repeat, lo: nat, hi: nat)
    requires Interval(lcp, r.0, lo, hi) && lo <= hi < |order| && r.1 == Positions(order, lo, hi)
    requires r.0 >= minimum && LeftMaximal(s, r.1)
    ensures IntervalOf(s, order, lcp, r, lo, hi) && FromInterval(s, order, lcp, minimum, r)
  {
    hide Interval, LeftMaximal, Positions;
    assert IntervalOf(s, order, lcp, r, lo, hi);
  }

  /** The interval of a maximal repeat is one of the computed array too, if what is reported is sound. */
  lemma SoundKeepsInterval(s: Stream, order: seq<nat>, lcp: seq<nat>, minimum: int, v: nat, lo: nat, hi: nat)
    requires InPlace(s, order) && IsEntryArray(s, order, lcp) && |order| == |s|
    requires forall r: Repeat :: FromInterval(s, order, lcp, minimum, r) ==> SameText(s, r)
    requires v >= minimum && Interval(TrueLcp(s, order), v, lo, hi) && LeftMaximal(s, Positions(order, lo, hi))
    ensures Interval(lcp, v, lo, hi)
  {
    hide *;
    ExactIsIndexed(s, order);
    EntriesLong(s, order, lcp);
    var exact := TrueLcp(s, order);
    IntervalEntries(exact, v, lo, hi);
    var v', from, to := Around(lcp, lo, hi, v);
    LengthOfInterval(lcp, v', from, to);
    var r: Repeat := (v', Positions(order, from, to));
    WiderPositions(s, order, lo, hi, from, to);
    ReportedFrom(s, order, lcp, minimum, r, from, to);
    forall k | from < k <= to ensures exact[k] >= v' {
      SameTextShares(s, order, lcp, r, from, to, k);
    }
    SameRange(exact, v, lo, hi, v', from, to);
  }

  lemma SameRange(a: seq<nat>, v: nat, lo: nat, hi: nat, v': nat, from: nat, to: nat)
    requires Interval(a, v, lo, hi) && v' >= v && from <= lo && hi <= to < |a|
    requires forall k :: from < k <= to ==> a[k] >= v'
    ensures v == v' && from == lo && to == hi
  {
    assert Value(a, hi + 1) == if hi + 1 < |a| then a[hi + 1] else 0;
    var k :| lo < k <= hi && a[k] == v;
  }

  /** A maximal repeat is reported, if what is reported is sound. */
  lemma MaximalIsReported(s: Stream, order: seq<nat>, lcp: seq<nat>, minimum: int, r: Repeat)
    requires InPlace(s, order) && IsEntryArray(s, order, lcp)
    requires forall r: Repeat :: FromInterval(s, order, lcp, minimum, r) ==> SameText(s, r)
    requires r.0 >= minimum && IsMaximalRepeat(s, r.0, r.1)
    ensures FromInterval(s, order, lcp, minimum, r)
  {
    assert LeftMaximal(s, r.1);
    hide *;
    ExactIsIndexed(s, order);
    var lo, hi := RepeatIsInterval(s, order, TrueLcp(s, order), r.0, r.1);
    LengthOfInterval(TrueLcp(s, order), r.0, lo, hi);
    SoundKeepsInterval(s, order, lcp, minimum, r.0, lo, hi);
    ReportedFrom(s, order, lcp, minimum, r, lo, hi);
  }

  /** A report is exact if and only if every pair in it lists positions of one substring. */
  lemma ExactIffSound(s: Stream, minimum: int, results: seq<Repeat>)
    requires IsReport(s, minimum, results)
    ensures IsExactReport(s, minimum, results) <==> forall r <- results :: SameText(s, r)
  {
    hide InPlace, IsEntryArray, FromInterval, NoDup, SameText, IsMaximalRepeat;
    var order, lcp :| IsReportOf(s, order, lcp, minimum, results);
    if forall r <- results :: SameText(s, r) {
      forall r: Repeat ensures r in results <==> r.0 >= minimum && IsMaximalRepeat(s, r.0, r.1) {
        if r in results {
          SoundIsMaximal(s, order, lcp, minimum, r);
        } else if r.0 >= minimum && IsMaximalRepeat(s, r.0, r.1) {
          MaximalIsReported(s, order, lcp, minimum, r);
        }
      }
    }
    if IsExactReport(s, minimum, results) {
      forall r | r in results ensures SameText(s, r) {
        MaximalIsSame(s, r);
      }
    }
  }

  lemma MaximalIsSame(s: Stream, r: Repeat)
    requires IsMaximalRepeat(s, r.0, r.1)
    ensures SameText(s, r)
  {
    forall a, b | a in r.1 && b in r.1 ensures Occurs(s, r.0, a, b) {
      MembersOccur(s, r.0, r.1, a, b);
    }
  }

  // ------------------------------------------------------------ a stream that fails the test

  /** A stream has only one order with every suffix in its place. */
  lemma InPlaceUnique(s: Stream, a: seq<nat>, b: seq<nat>)
    requires InPlace(s, a) && InPlace(s, b)
    ensures a == b
  {
    InPlacePerm(s, a);
    InPlacePerm(s, b);
    if a != b {
      var p: nat :| p < |s| && a[p] != b[p] && a[..p] == b[..p] by {
        FirstDifference(a, b);
      }
      LaterInPlace(s, a, b, p);
      LaterInPlace(s, b, a, p);
      PlacedAsymmetric(s, a[p], b[p]);
    }
  }

  lemma {:induction false} FirstDifference<T>(a: seq<T>, b: seq<T>)
    requires |a| == |b| && a != b
    ensures exists p: nat :: p < |a| && a[p] != b[p] && a[..p] == b[..p]
  {
    var p := 0;
    while a[p] == b[p]
      invariant p < |a| && a[..p] == b[..p] && a[p..] != b[p..]
      decreases |a| - p
    {
      assert a[p..] == [a[p]] + a[p + 1..] && b[p..] == [b[p]] + b[p + 1..];
      assert a[..p + 1] == a[..p] + [a[p]] && b[..p + 1] == b[..p] + [b[p]];
      p := p + 1;
    }
  }

  /** What stands first at `p` in one order stands later in the other. */
  lemma LaterInPlace(s: Stream, a: seq<nat>, b: seq<nat>, p: nat)
    requires InPlace(s, a) && Perm(b, |s|) && p < |s| == |a| == |b| && a[p] != b[p] && a[..p] == b[..p]
    ensures Placed(s, a[p], b[p])
  {
    PermOnto(a, |s|);
    hide Placed;
    forall i | 0 <= i < p ensures a[i] != b[p] {
      assert a[..p][i] == b[..p][i];
    }
    assert b[p] in a;
    var q: nat :| q < |s| && a[q] == b[p];
    assert p < q;
  }

  const TWICE: Stream := [0, 1, 2, -2, 0, 1, 2]
  const TWICE_ORDER: seq<nat> := [3, 0, 4, 5, 1, 2, 6]

  lemma FirstTokenPlaces(s: Stream, i: nat, j: nat)
    requires i < |s| && j < |s| && s[i] < s[j]
    ensures Placed(s, i, j)
  {
    assert Common(s, i, j) == 0;
  }

  lemma TwicePlaced(p: nat, q: nat)
    requires p < q < 7
    ensures Placed(TWICE, TWICE_ORDER[p], TWICE_ORDER[q])
  {
    var s, i, j := TWICE, TWICE_ORDER[p], TWICE_ORDER[q];
    hide Placed, Common;
    if s[i] < s[j] {
      FirstTokenPlaces(s, i, j);
    } else {
      assert i == 0 || i == 5 || i == 2;
      var x := if i == 5 then 1 else i;
      EndPlaced(s, x, 3 - x);
    }
  }

  lemma TwiceInPlace()
    ensures InPlace(TWICE, TWICE_ORDER)
  {
    hide Placed;
    forall p, q | 0 <= p < q < 7 ensures Placed(TWICE, TWICE_ORDER[p], TWICE_ORDER[q]) {
      TwicePlaced(p, q);
    }
  }

  const TWICE_POSITION: seq<nat> := [1, 4, 5, 0, 2, 3, 6]

  lemma TwicePerms()
    ensures |TWICE| == |TWICE_ORDER| == |TWICE_POSITION| == 7
    ensures Perm(TWICE_ORDER, 7) && Perm(TWICE_POSITION, 7)
    ensures forall i :: 0 <= i < 7 ==> TWICE_ORDER[TWICE_POSITION[i]] == i
  {}

  lemma TwicePosition()
    ensures Inverse(TWICE_ORDER) == TWICE_POSITION
  {
    TwicePerms();
    hide *;
    InverseOf(TWICE_ORDER, 7);
    InverseUnique(TWICE_ORDER, Inverse(TWICE_ORDER), TWICE_POSITION, 7);
  }

  lemma InverseUnique(f: seq<nat>, g: seq<nat>, h: seq<nat>, n: nat)
    requires Perm(f, n) && Perm(g, n) && Perm(h, n)
    requires forall i :: 0 <= i < n ==> f[g[i]] == i
    requires forall i :: 0 <= i < n ==> f[h[i]] == i
    ensures g == h
  {
    forall i | 0 <= i < n ensures g[i] == h[i] {}
  }

  lemma TwiceCommon()
    ensures Common(TWICE, 3, 0) == 0 && Common(TWICE, 4, 5) == 0 && Common(TWICE, 1, 2) == 0
    ensures Common(TWICE, 0, 4) == 3 && Common(TWICE, 5, 1) == 2 && Common(TWICE, 2, 6) == 1
  {
    EndPlaced(TWICE, 0, 3);
    EndPlaced(TWICE, 1, 2);
    EndPlaced(TWICE, 2, 1);
  }

  ghost function TwiceShared(i: nat): nat
    requires i < 7
  {
    TwicePerms();
    Shared(TWICE, TWICE_ORDER, TWICE_POSITION, i)
  }

  lemma TwiceShares()
    ensures TwiceShared(0) == 0 && TwiceShared(1) == 2 && TwiceShared(2) == 0 && TwiceShared(3) == 0
    ensures TwiceShared(4) == 3 && TwiceShared(5) == 0 && TwiceShared(6) == 1
  {
    TwicePerms();
    TwiceCommon();
    hide Common, Perm, TwiceShared;
    forall i | 0 <= i < 7
      ensures TwiceShared(i) == if TWICE_POSITION[i] == 0 then 0 else Common(TWICE, TWICE_ORDER[TWICE_POSITION[i] - 1], i)
    {
      TwiceSharedIs(i);
    }
  }

  lemma TwiceSharedIs(i: nat)
    requires i < 7
    ensures TwiceShared(i) == if TWICE_POSITION[i] == 0 then 0 else Common(TWICE, TWICE_ORDER[TWICE_POSITION[i] - 1], i)
  {
    TwicePerms();
    hide Common, Perm;
  }

  lemma TwiceEntry(lcp: seq<nat>, p: nat)
    requires IsEntryArray(TWICE, TWICE_ORDER, lcp) && 1 <= p < 7
    ensures |lcp| == 7 && TWICE_ORDER[p] < 7 && lcp[0] == 0
    ensures var i := TWICE_ORDER[p];
            lcp[p] == if i > 0 && TwiceShared(i - 1) > TwiceShared(i) + 1 then TwiceShared(i - 1) - 1 else TwiceShared(i)
  {
    TwicePosition();
    TwicePerms();
    hide Common, Perm, Inverse, Shared;
    assert TWICE_POSITION[TWICE_ORDER[p]] == p;
  }

  /** Two suffixes slip: the entries of those at 5 and 2 should be 0. */
  lemma TwiceEntries(lcp: seq<nat>)
    requires IsEntryArray(TWICE, TWICE_ORDER, lcp)
    ensures lcp == [0, 0, 3, 2, 2, 1, 1]
  {
    hide IsEntryArray, TwiceShared;
    TwiceShares();
    TwiceEntry(lcp, 1);
    TwiceEntry(lcp, 2);
    TwiceEntry(lcp, 3);
    TwiceEntry(lcp, 4);
    TwiceEntry(lcp, 5);
    TwiceEntry(lcp, 6);
  }

  /** Three equal tokens on both sides of a separator: the code reports four positions that do not
      hold one substring. */
  lemma TwiceMisreported(results: seq<Repeat>)
    requires IsReport(TWICE, 2, results)
    ensures (2, [0, 1, 4, 5]) in results && !IsExactReport(TWICE, 2, results)
  {
    var r: Repeat := (2, [0, 1, 4, 5]);
    TwiceInPlace();
    assert r in results by {
      hide InPlace, IsEntryArray, FromInterval;
      var order, lcp :| IsReportOf(TWICE, order, lcp, 2, results);
      InPlaceUnique(TWICE, order, TWICE_ORDER);
      TwiceEntries(lcp);
      TwiceReported(lcp, r);
    }
    ExactIffSound(TWICE, 2, results);
    TwiceDiffers();
    hide IsReport, IsExactReport, InPlace, Occurs;
    assert 0 in r.1 && 1 in r.1;
  }

  lemma TwiceDiffers()
    ensures !Occurs(TWICE, 2, 0, 1)
  {
    assert TWICE[0..2][0] == 0 && TWICE[1..3][0] == 1;
  }

  lemma TwiceReported(lcp: seq<nat>, r: Repeat)
    requires lcp == [0, 0, 3, 2, 2, 1, 1] && r == (2, [0, 1, 4, 5])
    ensures FromInterval(TWICE, TWICE_ORDER, lcp, 2, r)
  {
    assert Interval(lcp, 2, 1, 4) by {
      assert lcp[3] == 2 && Value(lcp, 5) == 1;
    }
    PositionsAre(TWICE_ORDER, 1, 4);
    hide Interval, Positions;
    var p := Positions(TWICE_ORDER, 1, 4);
    assert TWICE_ORDER[1] in p && TWICE_ORDER[2] in p && TWICE_ORDER[3] in p && TWICE_ORDER[4] in p;
    AscendingUnique(r.1, p);
    assert LeftMaximal(TWICE, r.1) by {
      assert 0 in r.1 && 1 in r.1 && Previous(TWICE, 0) != Previous(TWICE, 1);
    }
    ReportedFrom(TWICE, TWICE_ORDER, lcp, 2, r, 1, 4);
  }
}
