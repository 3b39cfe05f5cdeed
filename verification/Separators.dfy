/** `stream_with_separators`: one stream for all segments, with a different separator at each
    boundary, and what that does to the repeat index. */
module Separators {
  import opened SuffixArray
  import opened Kasai
  import opened LcpExactness
  import opened MaximalRepeats
  import opened RepeatReport
  import opened ReportExactness

  /** The first `n` segments, the separator `-1 - m` before segment `m`. */
  function Joined(segments: seq<seq<nat>>, n: nat): Stream
    requires n <= |segments|
  {
    if n == 0 then [] else Joined(segments, n - 1) + Block(segments, n - 1)
  }

  /** A segment behind its separator. */
  function Block(segments: seq<seq<nat>>, m: nat): Stream
    requires m < |segments|
  {
    var separator: seq<int>, tokens: seq<int> := if m > 0 then [-1 - m] else [], segments[m];
    separator + tokens
  }

  method StreamWithSeparators(segments: seq<seq<nat>>) returns (stream: Stream)
    ensures stream == Joined(segments, |segments|)
    ensures NoMarker(stream) && Separated(stream) && BoundariesDiffer(stream)
  {
    stream := [];
    for number := 0 to |segments|
      invariant stream == Joined(segments, number)
    {
      ghost var before := stream;
      if number > 0 {
        stream := stream + [-1 - number];
      }
      var index := 0;
      ghost var base := stream;
      while index < |segments[number]|
        invariant index <= |segments[number]| && stream == base + segments[number][..index]
      {
        stream := stream + [segments[number][index]];
        index := index + 1;
      }
      assert segments[number][..index] == segments[number];
      assert number == 0 ==> before + [] + segments[number] == stream;
    }
    JoinedSeparated(segments);
  }

  lemma {:induction false} JoinedPrefix(segments: seq<seq<nat>>, m: nat, n: nat)
    requires m <= n <= |segments|
    ensures |Joined(segments, m)| <= |Joined(segments, n)|
    ensures Joined(segments, m) == Joined(segments, n)[..|Joined(segments, m)|]
  {
    if m < n {
      JoinedPrefix(segments, m, n - 1);
      hide Block;
      assert Joined(segments, n) == Joined(segments, n - 1) + Block(segments, n - 1);
    }
  }

  /** A negative token is the separator of the segment it precedes. */
  lemma {:induction false} SeparatorAt(segments: seq<seq<nat>>, n: nat, i: nat) returns (m: nat)
    requires n <= |segments| && i < |Joined(segments, n)| && Joined(segments, n)[i] < 0
    ensures 1 <= m < n && i == |Joined(segments, m)| && Joined(segments, n)[i] == -1 - m
  {
    var before := Joined(segments, n - 1);
    if i < |before| {
      m := SeparatorAt(segments, n - 1, i);
    } else {
      m := n - 1;
      assert Joined(segments, n)[i] == Block(segments, m)[i - |before|];
      assert Block(segments, m)[i - |before|] < 0;
    }
  }

  /** Every separator occurs once. */
  lemma SeparatorsDiffer(segments: seq<seq<nat>>, i: nat, j: nat)
    requires var s := Joined(segments, |segments|); i < |s| && j < |s| && i != j && s[i] == s[j]
    ensures Joined(segments, |segments|)[i] >= 0
  {
    if Joined(segments, |segments|)[i] < 0 {
      var m := SeparatorAt(segments, |segments|, i);
      var n := SeparatorAt(segments, |segments|, j);
    }
  }

  lemma JoinedSeparated(segments: seq<seq<nat>>)
    ensures NoMarker(Joined(segments, |segments|)) && Separated(Joined(segments, |segments|))
    ensures BoundariesDiffer(Joined(segments, |segments|))
  {
    var s := Joined(segments, |segments|);
    hide Joined;
    forall i, k | 0 <= i < |s| && 0 <= k < |s| && s[i] == s[k] && s[i] < 0 ensures i == k {
      if i != k {
        SeparatorsDiffer(segments, i, k);
      }
    }
    forall i | 0 <= i < |s| ensures s[i] != -1 {
      if s[i] < 0 {
        var m := SeparatorAt(segments, |segments|, i);
      }
    }
    SeparatedDiffers(s);
  }

  /** So no maximal repeat spans two segments. */
  lemma RepeatsInsideSegments(segments: seq<seq<nat>>, length: nat, positions: seq<nat>, p: nat, k: nat)
    requires IsMaximalRepeat(Joined(segments, |segments|), length, positions) && p in positions && k < length
    ensures p + k < |Joined(segments, |segments|)| && Joined(segments, |segments|)[p + k] >= 0
  {
    var q := RepeatRecurs(Joined(segments, |segments|), length, positions, p, k);
    hide Joined, IsMaximalRepeat;
    SeparatorsDiffer(segments, p + k, q);
  }

  // ------------------------------------------------------------ how much of its ending a segment shares

  /** The last segment ends with the last `c` tokens of segment `m`. */
  predicate SharesEnd(segments: seq<seq<nat>>, m: nat, c: nat)
    requires m < |segments|
  {
    var last := segments[|segments| - 1];
    c <= |segments[m]| && c <= |last| && segments[m][|segments[m]| - c..] == last[|last| - c..]
  }

  /** A segment stands right before the next boundary, and behind a separator if it is not the first. */
  lemma SegmentTokens(segments: seq<seq<nat>>, m: nat)
    requires m < |segments|
    ensures var s, end := Joined(segments, |segments|), |Joined(segments, m + 1)|;
            && |segments[m]| <= end <= |s|
            && s[end - |segments[m]|..end] == segments[m]
            && (m == 0 ==> end == |segments[0]|)
            && (m > 0 ==> end > |segments[m]| && s[end - |segments[m]| - 1] < 0)
  {
    JoinedPrefix(segments, m + 1, |segments|);
    var s, a := Joined(segments, |segments|), Joined(segments, m + 1);
    assert a == Joined(segments, m) + Block(segments, m);
    assert m == 0 ==> Joined(segments, m) == [];
    assert s[|a| - |segments[m]|..|a|] == a[|a| - |segments[m]|..];
    assert m > 0 ==> s[|a| - |segments[m]| - 1] == a[|a| - |segments[m]| - 1] == -1 - m;
  }

  /** The last `c` tokens of a segment, in the stream. */
  lemma SegmentEnd(segments: seq<seq<nat>>, m: nat, c: nat)
    requires m < |segments| && c <= |segments[m]|
    ensures var s, end := Joined(segments, |segments|), |Joined(segments, m + 1)|;
            c <= end <= |s| && s[end - c..end] == segments[m][|segments[m]| - c..]
  {
    hide *;
    SegmentTokens(segments, m);
    SliceEnd(Joined(segments, |segments|), |Joined(segments, m + 1)|, segments[m], c);
  }

  lemma SliceEnd(s: Stream, end: nat, segment: seq<nat>, c: nat)
    requires c <= |segment| <= end <= |s| && s[end - |segment|..end] == segment
    ensures s[end - c..end] == segment[|segment| - c..]
  {
    assert s[end - c..end] == s[end - |segment|..end][|segment| - c..];
  }

  /** The separator behind segment `m`. */
  lemma BoundaryToken(segments: seq<seq<nat>>, m: nat)
    requires m + 1 < |segments|
    ensures var s, end := Joined(segments, |segments|), |Joined(segments, m + 1)|; end < |s| && s[end] == -2 - m
  {
    JoinedPrefix(segments, m + 1, |segments|);
    JoinedPrefix(segments, m + 2, |segments|);
    assert Joined(segments, m + 2) == Joined(segments, m + 1) + Block(segments, m + 1);
    assert Block(segments, m + 1)[0] == -2 - m;
  }

  /** A stretch without separators before a boundary lies in the segment there. */
  lemma InsideSegment(segments: seq<seq<nat>>, m: nat, c: nat)
    requires m < |segments| && c <= |Joined(segments, m + 1)| <= |Joined(segments, |segments|)|
    requires var s, end := Joined(segments, |segments|), |Joined(segments, m + 1)|;
             forall k :: end - c <= k < end ==> s[k] >= 0
    ensures c <= |segments[m]|
  {
    SegmentTokens(segments, m);
  }

  /** The tokens of a copy of the ending are no separators. */
  lemma CopyTokens(segments: seq<seq<nat>>, x: nat, c: nat)
    requires EndsLike(Joined(segments, |segments|), x, c)
    ensures var s := Joined(segments, |segments|);
            && c <= |s| && x + c < |s|
            && (forall k :: x <= k < x + c ==> s[k] >= 0)
            && (forall k :: |s| - c <= k < |s| ==> s[k] >= 0)
  {
    var s := Joined(segments, |segments|);
    hide Joined;
    var a, b, shift := s[x..x + c], s[|s| - c..], |s| - c - x;
    forall k | x <= k < x + c ensures s[k] >= 0 && s[k + shift] == s[k] {
      assert a[k - x] == b[k - x];
      SeparatorsDiffer(segments, k, k + shift);
    }
    forall k | |s| - c <= k < |s| ensures s[k] >= 0 {
      assert a[k - (|s| - c)] == b[k - (|s| - c)];
      assert s[k - shift] >= 0;
    }
  }

  /** A copy of the ending before a separator is the end of an earlier segment. */
  lemma CopyIsEnd(segments: seq<seq<nat>>, x: nat, c: nat) returns (m: nat)
    requires segments != [] && EndsLike(Joined(segments, |segments|), x, c)
    ensures m + 1 < |segments| && x + c == |Joined(segments, m + 1)| && SharesEnd(segments, m, c)
  {
    hide *;
    CopyTokens(segments, x, c);
    m := CopyBoundary(segments, x, c);
    JoinedLengths(segments, m + 1);
    InsideSegment(segments, m, c);
    InsideSegment(segments, |segments| - 1, c);
    EndsSlices(Joined(segments, |segments|), x, c);
    SharesIs(segments, m, c);
  }

  lemma JoinedLengths(segments: seq<seq<nat>>, m: nat)
    requires m <= |segments|
    ensures |Joined(segments, m)| <= |Joined(segments, |segments|)|
  {
    JoinedPrefix(segments, m, |segments|);
  }

  lemma SharesIs(segments: seq<seq<nat>>, m: nat, c: nat)
    requires m < |segments| && c <= |segments[m]| && c <= |segments[|segments| - 1]|
    ensures c <= |Joined(segments, m + 1)| <= |Joined(segments, |segments|)|
    ensures var s, end := Joined(segments, |segments|), |Joined(segments, m + 1)|;
            SharesEnd(segments, m, c) <==> s[end - c..end] == s[|s| - c..|s|]
  {
    hide Joined;
    SegmentEnd(segments, m, c);
    SegmentEnd(segments, |segments| - 1, c);
  }

  lemma CopyBoundary(segments: seq<seq<nat>>, x: nat, c: nat) returns (m: nat)
    requires segments != [] && EndsLike(Joined(segments, |segments|), x, c)
    ensures m + 1 < |segments| && x + c == |Joined(segments, m + 1)|
  {
    var after := SeparatorAt(segments, |segments|, x + c);
    m := after - 1;
  }

  lemma EndsSlices(s: Stream, x: nat, c: nat)
    requires EndsLike(s, x, c)
    ensures c <= |s| && x + c < |s| && s[x..x + c] == s[|s| - c..|s|]
  {}

  /** And the shared end of an earlier segment is such a copy. */
  lemma EndIsCopy(segments: seq<seq<nat>>, m: nat, c: nat)
    requires m + 1 < |segments| && SharesEnd(segments, m, c)
    ensures var s, end := Joined(segments, |segments|), |Joined(segments, m + 1)|;
            c <= end && EndsLike(s, end - c, c) && s[end] == -2 - m
  {
    hide *;
    SharesWithin(segments, m, c);
    SharesIs(segments, m, c);
    BoundaryToken(segments, m);
    IsCopy(Joined(segments, |segments|), |Joined(segments, m + 1)|, c);
  }

  lemma SharesWithin(segments: seq<seq<nat>>, m: nat, c: nat)
    requires m < |segments| && SharesEnd(segments, m, c)
    ensures c <= |segments[m]| && c <= |segments[|segments| - 1]|
  {}

  lemma IsCopy(s: Stream, end: nat, c: nat)
    requires c <= end < |s| && s[end - c..end] == s[|s| - c..|s|] && s[end] < 0
    ensures EndsLike(s, end - c, c)
  {}

  /** No earlier segment shares `c` ending tokens with the last. */
  predicate EndsApart(segments: seq<seq<nat>>, c: nat) {
    forall m :: 0 <= m < |segments| - 1 ==> !SharesEnd(segments, m, c)
  }

  /** A joined stream is shallow exactly when no earlier segment shares that much of the ending. */
  lemma ShallowIff(segments: seq<seq<nat>>, c: nat)
    requires segments != []
    ensures Shallow(Joined(segments, |segments|), c) <==> EndsApart(segments, c)
  {
    hide *;
    var s := Joined(segments, |segments|);
    if !Shallow(s, c) {
      var x := DeepCopy(s, c);
      var m := CopyIsEnd(segments, x, c);
      NotApart(segments, m, c);
    }
    if !EndsApart(segments, c) {
      var m := SharingSegment(segments, c);
      EndIsCopy(segments, m, c);
      DeepEnds(s, |Joined(segments, m + 1)| - c, c, c);
    }
  }

  lemma NotApart(segments: seq<seq<nat>>, m: nat, c: nat)
    requires m + 1 < |segments| && SharesEnd(segments, m, c)
    ensures !EndsApart(segments, c)
  {
    hide SharesEnd;
  }

  lemma SharingSegment(segments: seq<seq<nat>>, c: nat) returns (m: nat)
    requires !EndsApart(segments, c)
    ensures m + 1 < |segments| && SharesEnd(segments, m, c)
  {
    hide SharesEnd;
    m :| m < |segments| - 1 && SharesEnd(segments, m, c);
  }

  /** The end marker is safe exactly when no earlier segment ends with the last token of all. */
  lemma SafeIffLastTokenUnique(segments: seq<seq<nat>>)
    requires segments != []
    ensures EndSafe(Joined(segments, |segments|)) <==> EndsApart(segments, 1)
  {
    hide *;
    SafeIffShallow(Joined(segments, |segments|));
    ShallowIff(segments, 1);
  }

  // ------------------------------------------------------------ when a joined stream passes the test

  /** The last of the earlier segments that share `c` ending tokens with the last one. */
  predicate Latest(segments: seq<seq<nat>>, m: nat, c: nat)
    requires m < |segments|
  {
    SharesEnd(segments, m, c) && forall k :: m < k < |segments| - 1 ==> !SharesEnd(segments, k, c)
  }

  /** At most `t` ending tokens are shared, or one more if `t` is odd and the latest segment that shares
      `t` shares no more. */
  predicate EndsReliably(segments: seq<seq<nat>>, t: nat) {
    && EndsApart(segments, t + 2)
    && (t % 2 == 0 ==> EndsApart(segments, t + 1))
    && (t % 2 == 1 ==> forall m :: 0 <= m < |segments| - 1 && Latest(segments, m, t) ==> !SharesEnd(segments, m, t + 1))
  }

  /** The copy at the end of the latest segment comes first. */
  lemma LatestIsFirst(segments: seq<seq<nat>>, m: nat, c: nat)
    requires m + 1 < |segments| && Latest(segments, m, c)
    ensures c <= |Joined(segments, m + 1)|
    ensures First(Joined(segments, |segments|), |Joined(segments, m + 1)| - c, c)
  {
    var s := Joined(segments, |segments|);
    EndIsCopy(segments, m, c);
    hide Joined, EndsLike, SharesEnd;
    forall z | 0 <= z < |s| && EndsLike(s, z, c) ensures z + c < |s| && s[z + c] >= -2 - m {
      EndsWithin(s, z, c);
      var k := CopyIsEnd(segments, z, c);
      BoundaryToken(segments, k);
    }
  }

  /** And the first copy is that one. */
  lemma FirstIsLatest(segments: seq<seq<nat>>, x: nat, c: nat) returns (m: nat)
    requires segments != [] && First(Joined(segments, |segments|), x, c)
    ensures m + 1 < |segments| && x + c == |Joined(segments, m + 1)| && Latest(segments, m, c)
  {
    hide *;
    FirstBounds(Joined(segments, |segments|), x, x, c);
    m := CopyIsEnd(segments, x, c);
    BoundaryToken(segments, m);
    forall k | m < k < |segments| - 1 ensures !SharesEnd(segments, k, c) {
      if SharesEnd(segments, k, c) {
        EndIsCopy(segments, k, c);
        FirstBounds(Joined(segments, |segments|), x, |Joined(segments, k + 1)| - c, c);
      }
    }
    IsLatest(segments, m, c);
  }

  lemma FirstBounds(s: Stream, x: nat, z: nat, c: nat)
    requires First(s, x, c)
    ensures EndsLike(s, x, c) && x + c < |s|
    ensures EndsLike(s, z, c) ==> z + c < |s| && s[x + c] <= s[z + c]
  {
    hide EndsLike;
    EndsWithin(s, x, c);
    if EndsLike(s, z, c) {
      EndsWithin(s, z, c);
    }
  }

  lemma IsLatest(segments: seq<seq<nat>>, m: nat, c: nat)
    requires m < |segments| && SharesEnd(segments, m, c)
    requires forall k :: m < k < |segments| - 1 ==> !SharesEnd(segments, k, c)
    ensures Latest(segments, m, c)
  {}

  lemma SameBoundary(segments: seq<seq<nat>>, m: nat, k: nat)
    requires m + 1 < |segments| && k + 1 < |segments| && |Joined(segments, m + 1)| == |Joined(segments, k + 1)|
    ensures m == k
  {
    BoundaryToken(segments, m);
    BoundaryToken(segments, k);
  }

  lemma LatestExtends(segments: seq<seq<nat>>, m: nat, t: nat)
    requires m + 1 < |segments| && Latest(segments, m, t) && SharesEnd(segments, m, t + 1) && t % 2 == 1
    ensures !Reliable(Joined(segments, |segments|), t)
  {
    hide *;
    LatestIsFirst(segments, m, t);
    EndIsCopy(segments, m, t + 1);
    EndsWithin(Joined(segments, |segments|), |Joined(segments, m + 1)| - (t + 1), t + 1);
    FirstExtends(Joined(segments, |segments|), |Joined(segments, m + 1)| - t, t);
  }

  lemma FirstExtends(s: Stream, x: nat, t: nat)
    requires 1 <= x < |s| && First(s, x, t) && EndsLike(s, x - 1, t + 1) && t % 2 == 1
    ensures !Reliable(s, t)
  {
    hide First, EndsLike, Shallow;
  }

  lemma ExtendingCopy(segments: seq<seq<nat>>, t: nat, x: nat)
    requires segments != [] && t % 2 == 1 && 1 <= x && EndsReliably(segments, t)
    requires First(Joined(segments, |segments|), x, t)
    ensures !EndsLike(Joined(segments, |segments|), x - 1, t + 1)
  {
    hide *;
    var m := FirstIsLatest(segments, x, t);
    if EndsLike(Joined(segments, |segments|), x - 1, t + 1) {
      var k := CopyIsEnd(segments, x - 1, t + 1);
      SameBoundary(segments, m, k);
      LatestStops(segments, m, t);
    }
  }

  lemma LatestStops(segments: seq<seq<nat>>, m: nat, t: nat)
    requires EndsReliably(segments, t) && t % 2 == 1 && m + 1 < |segments| && Latest(segments, m, t)
    ensures !SharesEnd(segments, m, t + 1)
  {
    hide Latest, SharesEnd, EndsApart;
  }

  /** The test, on segments. */
  lemma ReliableIff(segments: seq<seq<nat>>, t: nat)
    requires segments != []
    ensures Reliable(Joined(segments, |segments|), t) <==> EndsReliably(segments, t)
  {
    var s := Joined(segments, |segments|);
    ShallowIff(segments, t + 2);
    ShallowIff(segments, t + 1);
    hide Joined, Shallow, First, EndsLike, EndsApart, Latest, SharesEnd;
    if Reliable(s, t) {
      forall m | 0 <= m < |segments| - 1 && t % 2 == 1 && Latest(segments, m, t) ensures !SharesEnd(segments, m, t + 1) {
        if SharesEnd(segments, m, t + 1) {
          LatestExtends(segments, m, t);
        }
      }
    }
    if EndsReliably(segments, t) {
      forall x | 1 <= x < |s| && t % 2 == 1 && First(s, x, t) ensures !EndsLike(s, x - 1, t + 1) {
        ExtendingCopy(segments, t, x);
      }
    }
  }

  /** `lcp_array` is right about joined segments exactly when no earlier segment shares three ending
      tokens with the last, and the latest that shares one shares no second. */
  lemma JoinedLcpExactIff(segments: seq<seq<nat>>, order: seq<nat>, lcp: seq<nat>)
    requires segments != []
    requires InPlace(Joined(segments, |segments|), order) && IsEntryArray(Joined(segments, |segments|), order, lcp)
    ensures IsLcpArray(Joined(segments, |segments|), order, lcp) <==>
            EndsApart(segments, 3) && forall m :: 0 <= m < |segments| - 1 && Latest(segments, m, 1) ==> !SharesEnd(segments, m, 2)
  {
    hide Joined, Latest, SharesEnd, EndsApart, InPlace, IsEntryArray, IsLcpArray, Reliable, NoMarker, Separated;
    JoinedSeparated(segments);
    LcpArrayExactIff(Joined(segments, |segments|), order, lcp);
    ReliableIff(segments, 1);
  }

  /** What is reported from joined segments is exact whenever the last segment shares at most
      `minimum` ending tokens with every earlier one. */
  lemma JoinedReportExact(segments: seq<seq<nat>>, minimum: int, results: seq<Repeat>)
    requires segments != [] && IsReport(Joined(segments, |segments|), minimum, results)
    requires EndsReliably(segments, Least(minimum)) || EndsApart(segments, Least(minimum) + 1)
    ensures IsExactReport(Joined(segments, |segments|), minimum, results)
  {
    hide *;
    var t := Least(minimum);
    JoinedSeparated(segments);
    if EndsApart(segments, t + 1) {
      ShallowIff(segments, t + 1);
      ShallowIsReliable(Joined(segments, |segments|), t);
    } else {
      ReliableIff(segments, t);
    }
    ReliableReport(Joined(segments, |segments|), minimum, results);
  }

  /** A stream without separators is reported exactly at every minimum. */
  lemma TokensReportExact(s: Stream, minimum: int, results: seq<Repeat>)
    requires (forall i :: 0 <= i < |s| ==> s[i] >= 0) && IsReport(s, minimum, results)
    ensures NoMarker(s) && BoundariesDiffer(s) && IsExactReport(s, minimum, results)
  {
    TokensAreSafe(s);
    hide *;
    SafeDiffers(s);
    SafeIsShallow(s, Least(minimum) + 1);
    ShallowIsReliable(s, Least(minimum));
    ReliableReport(s, minimum, results);
  }

  /** The same segment of two tokens twice is not sorted. */
  lemma EqualSegmentsMislead()
    ensures Joined([[0, 1], [0, 1]], 2) == [0, 1, -2, 0, 1]
    ensures !EndSafe([0, 1, -2, 0, 1])
  {
    JoinedTwice([0, 1]);
    assert Misleads([0, 1, -2, 0, 1], 1);
  }

  /** The same segment of three tokens twice is reported wrongly at the default minimum. */
  lemma EqualSegmentsMisreported(results: seq<Repeat>)
    requires IsReport(Joined([[0, 1, 2], [0, 1, 2]], 2), 2, results)
    ensures (2, [0, 1, 4, 5]) in results
    ensures !IsExactReport(Joined([[0, 1, 2], [0, 1, 2]], 2), 2, results)
  {
    hide IsReport, IsExactReport, Joined;
    JoinedTwice([0, 1, 2]);
    assert Joined([[0, 1, 2], [0, 1, 2]], 2) == TWICE;
    TwiceMisreported(results);
  }

  lemma JoinedTwice(segment: seq<nat>)
    ensures var tokens: seq<int> := segment; Joined([segment, segment], 2) == tokens + [-2] + tokens
  {
    var segments, tokens: seq<int> := [segment, segment], segment;
    assert Joined(segments, 1) == Joined(segments, 0) + Block(segments, 0) == tokens;
    assert Joined(segments, 2) == tokens + Block(segments, 1);
  }
}
