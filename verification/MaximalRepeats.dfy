/** Maximal repeats of a token stream: the definition over occurrence sets, and the suffix-array
    index that reports exactly those. */
module MaximalRepeats {
  import opened Listing
  import opened Sorting
  import opened AscendingLists
  import opened SuffixArray
  import opened Kasai
  import opened LcpExactness
  import opened LcpIntervals

  // ------------------------------------------------------------ the definition

  /** The substring of length `length` at `p` also occurs at `q`. */
  predicate Occurs(s: Stream, length: nat, p: nat, q: nat) {
    p + length <= |s| && q + length <= |s| && s[p..p + length] == s[q..q + length]
  }

  datatype Neighbour = Edge | Token(token: int)

  function Previous(s: Stream, p: nat): Neighbour {
    if 0 < p <= |s| then Token(s[p - 1]) else Edge
  }

  function Following(s: Stream, p: nat): Neighbour {
    if p < |s| then Token(s[p]) else Edge
  }

  /** `positions` lists every occurrence of some substring. */
  ghost predicate AllOccurrences(s: Stream, length: nat, positions: seq<nat>) {
    positions != [] && forall q: nat :: q in positions <==> Occurs(s, length, positions[0], q)
  }

  ghost predicate LeftMaximal(s: Stream, positions: seq<nat>) {
    exists a, b :: a in positions && b in positions && Previous(s, a) != Previous(s, b)
  }

  ghost predicate RightMaximal(s: Stream, length: nat, positions: seq<nat>) {
    exists a, b :: a in positions && b in positions && Following(s, a + length) != Following(s, b + length)
  }

  /** A non-empty substring that occurs twice or more and that no extension by one token preserves. */
  ghost predicate IsMaximalRepeat(s: Stream, length: nat, positions: seq<nat>) {
    && length >= 1 && |positions| >= 2 && StrictlyAscending(positions)
    && AllOccurrences(s, length, positions)
    && LeftMaximal(s, positions) && RightMaximal(s, length, positions)
  }

  // ------------------------------------------------------------ occurrences and common prefixes

  lemma OccursIsCommon(s: Stream, length: nat, p: nat, q: nat)
    ensures Occurs(s, length, p, q) <==> p + length <= |s| && q + length <= |s| && Common(s, p, q) >= length
  {
    if Occurs(s, length, p, q) {
      SlicesCommon(s, p, q, length);
    } else if p + length <= |s| && q + length <= |s| && Common(s, p, q) >= length {
      CommonSlices(s, p, q, length);
    }
  }

  /** Where two suffixes share exactly `v` tokens, what follows differs. */
  lemma {:induction false} ExactlyShared(s: Stream, i: nat, j: nat)
    requires i <= |s| && j <= |s| && i != j
    ensures var v := Common(s, i, j); Following(s, i + v) != Following(s, j + v)
    decreases |s| - i
  {
    if i < |s| && j < |s| && s[i] == s[j] {
      ExactlyShared(s, i + 1, j + 1);
    }
  }

  lemma SharedFollow(s: Stream, i: nat, j: nat, v: nat)
    requires Common(s, i, j) > v
    ensures Following(s, i + v) == Following(s, j + v)
  {
    CommonShift(s, i, j, v);
  }

  /** The suffixes at two positions of the order share `v` tokens exactly when every step between does. */
  lemma {:induction false} RangeShares(s: Stream, order: seq<nat>, lcp: seq<nat>, lo: nat, hi: nat, v: nat)
    requires InPlace(s, order) && IsLcpArray(s, order, lcp) && lo < hi < |s|
    ensures Common(s, order[lo], order[hi]) >= v <==> forall k :: lo < k <= hi ==> lcp[k] >= v
    decreases hi - lo
  {
    hide Common, Placed;
    if lo + 1 < hi {
      RangeShares(s, order, lcp, lo, hi - 1, v);
      if Common(s, order[lo], order[hi]) >= v {
        BetweenShares(s, order[lo], order[hi - 1], order[hi]);
      } else if Common(s, order[lo], order[hi - 1]) >= v && lcp[hi] >= v {
        CommonTransitive(s, order[lo], order[hi - 1], order[hi], v);
      }
    }
  }

  // ------------------------------------------------------------ intervals are repeats

  /** A range of the order as ascending positions of the stream. */
  function Positions(order: seq<nat>, lo: nat, hi: nat): (p: seq<nat>)
    requires lo <= hi < |order|
    ensures |p| == hi - lo + 1
  {
    Sort(order[lo..hi + 1], NatLe)
  }

  lemma PositionsAre(order: seq<nat>, lo: nat, hi: nat)
    requires NoDup(order) && lo <= hi < |order|
    ensures StrictlyAscending(Positions(order, lo, hi))
    ensures forall q: nat :: q in Positions(order, lo, hi) <==> exists k :: lo <= k <= hi && order[k] == q
  {
    var slice := order[lo..hi + 1];
    SortedNoDup(slice);
    forall q: nat ensures q in slice <==> exists k :: lo <= k <= hi && order[k] == q {
      if k :| lo <= k <= hi && order[k] == q {
        assert slice[k - lo] == q;
      }
    }
  }

  ghost predicate Indexed(s: Stream, order: seq<nat>, lcp: seq<nat>) {
    InPlace(s, order) && IsLcpArray(s, order, lcp)
  }

  /** The sorted positions whose suffixes start like the one at `lo` are those of its interval. */
  lemma IntervalMembers(s: Stream, order: seq<nat>, lcp: seq<nat>, v: nat, lo: nat, hi: nat, k: nat)
    requires Indexed(s, order, lcp) && Interval(lcp, v, lo, hi) && k < |s|
    ensures Occurs(s, v, order[lo], order[k]) <==> lo <= k <= hi
  {
    OccursIsCommon(s, v, order[lo], order[k]);
    if k < lo {
      RangeShares(s, order, lcp, k, lo, v);
      CommonSymmetric(s, order[k], order[lo]);
    } else if k > lo {
      RangeShares(s, order, lcp, lo, k, v);
      assert k > hi ==> lcp[hi + 1] == Value(lcp, hi + 1);
    } else {
      RangeShares(s, order, lcp, lo, hi, v);
    }
  }

  lemma OccursEquivalence(s: Stream, v: nat, p: nat, q: nat)
    requires Occurs(s, v, p, q)
    ensures forall r: nat :: Occurs(s, v, p, r) <==> Occurs(s, v, q, r)
  {}

  /** The sorted position of a suffix. */
  ghost function RankOf(order: seq<nat>, q: nat): (k: nat)
    requires Perm(order, |order|) && q < |order|
    ensures k < |order| && order[k] == q
  {
    PermOnto(order, |order|);
    assert q in order;
    var k: nat :| k < |order| && order[k] == q;
    k
  }

  lemma IntervalOccurrences(s: Stream, order: seq<nat>, lcp: seq<nat>, v: nat, lo: nat, hi: nat, q: nat)
    requires Indexed(s, order, lcp) && Interval(lcp, v, lo, hi)
    ensures q in Positions(order, lo, hi) <==> Occurs(s, v, Positions(order, lo, hi)[0], q)
  {
    var p := Positions(order, lo, hi);
    PositionsAre(order, lo, hi);
    assert p[0] in p;
    var first :| lo <= first <= hi && order[first] == p[0];
    IntervalMembers(s, order, lcp, v, lo, hi, first);
    hide Interval, InPlace, IsLcpArray, Positions;
    OccursEquivalence(s, v, order[lo], p[0]);
    if q < |s| {
      assert Perm(order, |order|) by {
        IndexedPerm(s, order, lcp);
      }
      var k := RankOf(order, q);
      IntervalMembers(s, order, lcp, v, lo, hi, k);
      assert q in p ==> exists i :: lo <= i <= hi && order[i] == q;
    } else {
      assert !(q in p) by {
        IndexedPerm(s, order, lcp);
      }
    }
  }

  lemma IndexedShape(s: Stream, order: seq<nat>, lcp: seq<nat>)
    requires Indexed(s, order, lcp)
    ensures InPlace(s, order) && IsLcpArray(s, order, lcp) && |order| == |lcp| == |s|
    ensures forall k :: 0 <= k < |s| ==> order[k] < |s|
  {}

  lemma IndexedPerm(s: Stream, order: seq<nat>, lcp: seq<nat>)
    requires Indexed(s, order, lcp)
    ensures Perm(order, |order|) && |order| == |lcp| == |s|
  {}

  lemma IntervalIsRepeat(s: Stream, order: seq<nat>, lcp: seq<nat>, v: nat, lo: nat, hi: nat)
    requires Indexed(s, order, lcp) && Interval(lcp, v, lo, hi)
    ensures lo < hi < |order|
    ensures var p := Positions(order, lo, hi);
            |p| >= 2 && StrictlyAscending(p) && AllOccurrences(s, v, p) && RightMaximal(s, v, p)
  {
    var p := Positions(order, lo, hi);
    PositionsAre(order, lo, hi);
    var k :| lo < k <= hi && lcp[k] == v;
    ExactlyShared(s, order[k - 1], order[k]);
    assert order[k - 1] in p && order[k] in p;
    hide Interval, Indexed, Positions;
    forall q: nat ensures q in p <==> Occurs(s, v, p[0], q) {
      IntervalOccurrences(s, order, lcp, v, lo, hi, q);
    }
  }

  // ------------------------------------------------------------ repeats are intervals

  /** The first and last sorted positions that hold a member of `p`. */
  lemma Extremes(order: seq<nat>, p: seq<nat>) returns (lo: nat, hi: nat)
    requires Perm(order, |order|) && p != [] && forall q <- p :: q < |order|
    ensures lo <= hi < |order| && order[lo] in p && order[hi] in p
    ensures forall k :: 0 <= k < |order| && order[k] in p ==> lo <= k <= hi
  {
    assert p[0] in p;
    var start := RankOf(order, p[0]);
    lo, hi := 0, |order| - 1;
    while order[lo] !in p
      invariant lo <= start < |order|
      invariant forall k :: 0 <= k < |order| && order[k] in p ==> lo <= k
      decreases start - lo
    {
      lo := lo + 1;
    }
    while order[hi] !in p
      invariant start <= hi < |order|
      invariant forall k :: 0 <= k < |order| && order[k] in p ==> k <= hi
      decreases hi
    {
      hi := hi - 1;
    }
  }

  /** A suffix is one of the occurrences exactly when it shares as much with one of them. */
  lemma MemberShares(s: Stream, v: nat, p: seq<nat>, a: nat, b: nat)
    requires AllOccurrences(s, v, p) && a in p
    ensures a + v <= |s|
    ensures b in p <==> b + v <= |s| && Common(s, a, b) >= v
  {
    assert Occurs(s, v, p[0], a);
    OccursEquivalence(s, v, p[0], a);
    OccursIsCommon(s, v, a, b);
  }

  lemma SharedFits(s: Stream, a: nat, b: nat, v: nat)
    requires b <= |s| && Common(s, a, b) >= v
    ensures b + v <= |s|
  {}

  lemma FilledInside(s: Stream, order: seq<nat>, lcp: seq<nat>, v: nat, p: seq<nat>, lo: nat, hi: nat, k: nat)
    requires Indexed(s, order, lcp) && AllOccurrences(s, v, p)
    requires lo < k <= hi < |s| && order[lo] in p && order[hi] in p
    ensures lcp[k] >= v && order[k] in p
  {
    hide *;
    IndexedShape(s, order, lcp);
    MemberShares(s, v, p, order[lo], order[hi]);
    RangeShares(s, order, lcp, lo, hi, v);
    RangeShares(s, order, lcp, lo, k, v);
    SharedFits(s, order[lo], order[k], v);
    MemberShares(s, v, p, order[lo], order[k]);
  }

  lemma FilledBelow(s: Stream, order: seq<nat>, lcp: seq<nat>, v: nat, p: seq<nat>, lo: nat)
    requires Indexed(s, order, lcp) && AllOccurrences(s, v, p)
    requires 0 < lo < |s| && order[lo] in p && order[lo - 1] !in p
    ensures lcp[lo] < v
  {
    hide *;
    IndexedShape(s, order, lcp);
    RangeShares(s, order, lcp, lo - 1, lo, v);
    CommonSymmetric(s, order[lo - 1], order[lo]);
    MemberShares(s, v, p, order[lo], order[lo - 1]);
    if lcp[lo] >= v {
      SharedFits(s, order[lo], order[lo - 1], v);
    }
  }

  lemma FilledAbove(s: Stream, order: seq<nat>, lcp: seq<nat>, v: nat, p: seq<nat>, hi: nat)
    requires Indexed(s, order, lcp) && AllOccurrences(s, v, p)
    requires hi + 1 < |s| && order[hi] in p && order[hi + 1] !in p
    ensures lcp[hi + 1] < v
  {
    hide *;
    IndexedShape(s, order, lcp);
    RangeShares(s, order, lcp, hi, hi + 1, v);
    MemberShares(s, v, p, order[hi], order[hi + 1]);
    if lcp[hi + 1] >= v {
      SharedFits(s, order[hi], order[hi + 1], v);
    }
  }

  /** The occurrences of a repeat fill a range of the order. */
  lemma RepeatFillsRange(s: Stream, order: seq<nat>, lcp: seq<nat>, v: nat, p: seq<nat>, lo: nat, hi: nat)
    requires Indexed(s, order, lcp) && AllOccurrences(s, v, p)
    requires lo < hi < |s| && order[lo] in p && order[hi] in p
    requires forall k :: 0 <= k < |s| && order[k] in p ==> lo <= k <= hi
    ensures forall k :: lo < k <= hi ==> lcp[k] >= v
    ensures forall k :: lo <= k <= hi ==> order[k] in p
    ensures lo > 0 ==> lcp[lo] < v
    ensures hi + 1 < |s| ==> lcp[hi + 1] < v
  {
    hide *;
    IndexedShape(s, order, lcp);
    forall k | lo < k <= hi ensures lcp[k] >= v && order[k] in p {
      FilledInside(s, order, lcp, v, p, lo, hi, k);
    }
    if lo > 0 {
      FilledBelow(s, order, lcp, v, p, lo);
    }
    if hi + 1 < |s| {
      FilledAbove(s, order, lcp, v, p, hi);
    }
  }

  /** A right-maximal repeat stops being shared somewhere in its range. */
  lemma RepeatEndsInRange(s: Stream, order: seq<nat>, lcp: seq<nat>, v: nat, p: seq<nat>, lo: nat, hi: nat)
    requires Indexed(s, order, lcp) && RightMaximal(s, v, p) && lo < hi < |s|
    requires forall q <- p :: exists k :: lo <= k <= hi && order[k] == q
    requires forall k :: lo < k <= hi ==> lcp[k] >= v
    ensures exists k :: lo < k <= hi && lcp[k] == v
  {
    hide *;
    IndexedShape(s, order, lcp);
    var next := Following(s, order[lo] + v);
    if forall k :: lo < k <= hi ==> lcp[k] >= v + 1 {
      forall q | q in p ensures Following(s, q + v) == next {
        var k :| lo <= k <= hi && order[k] == q;
        FollowAlike(s, order, lcp, v, lo, k, hi);
      }
      NotRightMaximal(s, v, p, next);
    } else {
      var k :| lo < k <= hi && !(lcp[k] >= v + 1);
      assert lcp[k] == v;
    }
  }

  lemma NotRightMaximal(s: Stream, v: nat, p: seq<nat>, next: Neighbour)
    requires forall q <- p :: Following(s, q + v) == next
    ensures !RightMaximal(s, v, p)
  {}

  lemma FollowAlike(s: Stream, order: seq<nat>, lcp: seq<nat>, v: nat, lo: nat, k: nat, hi: nat)
    requires Indexed(s, order, lcp) && lo <= k <= hi < |s|
    requires forall i :: lo < i <= hi ==> lcp[i] >= v + 1
    ensures Following(s, order[k] + v) == Following(s, order[lo] + v)
  {
    hide *;
    IndexedShape(s, order, lcp);
    if k > lo {
      RangeShares(s, order, lcp, lo, k, v + 1);
      SharedFollow(s, order[lo], order[k], v);
    }
  }

  lemma TwoPlaces(order: seq<nat>, p: seq<nat>, lo: nat, hi: nat)
    requires Perm(order, |order|) && |p| >= 2 && StrictlyAscending(p) && (forall q <- p :: q < |order|)
    requires lo <= hi < |order| && forall k :: 0 <= k < |order| && order[k] in p ==> lo <= k <= hi
    ensures lo < hi
  {
    assert p[0] in p && p[1] in p && p[0] < p[1];
    var a, b := RankOf(order, p[0]), RankOf(order, p[1]);
    assert a != b;
  }

  /** Every occurrence lies at one of the sorted positions that hold a member. */
  lemma RepeatPlaced(s: Stream, order: seq<nat>, v: nat, p: seq<nat>, lo: nat, hi: nat)
    requires Perm(order, |order|) && |order| == |s| && v >= 1 && AllOccurrences(s, v, p)
    requires forall k :: 0 <= k < |order| && order[k] in p ==> lo <= k <= hi
    ensures forall q <- p :: exists k :: lo <= k <= hi && k < |order| && order[k] == q
  {
    forall q | q in p ensures exists k :: lo <= k <= hi && k < |order| && order[k] == q {
      assert Occurs(s, v, p[0], q);
      var k := RankOf(order, q);
    }
  }

  lemma SamePositions(order: seq<nat>, p: seq<nat>, lo: nat, hi: nat)
    requires NoDup(order) && lo <= hi < |order| && StrictlyAscending(p)
    requires forall q <- p :: exists k :: lo <= k <= hi && k < |order| && order[k] == q
    requires forall k :: lo <= k <= hi ==> order[k] in p
    ensures p == Positions(order, lo, hi)
  {
    PositionsAre(order, lo, hi);
    AscendingUnique(p, Positions(order, lo, hi));
  }

  lemma RepeatIsInterval(s: Stream, order: seq<nat>, lcp: seq<nat>, v: nat, p: seq<nat>) returns (lo: nat, hi: nat)
    requires Indexed(s, order, lcp) && IsMaximalRepeat(s, v, p)
    ensures Interval(lcp, v, lo, hi) && hi < |order| && p == Positions(order, lo, hi)
  {
    IndexedPerm(s, order, lcp);
    assert AllOccurrences(s, v, p) && StrictlyAscending(p) && v >= 1;
    assert RightMaximal(s, v, p);
    forall q | q in p ensures q < |order| {
      assert Occurs(s, v, p[0], q);
    }
    assert lcp[0] == 0;
    hide IsMaximalRepeat, AllOccurrences, Occurs, RightMaximal, LeftMaximal, StrictlyAscending, Indexed, Positions;
    lo, hi := Extremes(order, p);
    TwoPlaces(order, p, lo, hi);
    RepeatFillsRange(s, order, lcp, v, p, lo, hi);
    RepeatPlaced(s, order, v, p, lo, hi);
    RepeatEndsInRange(s, order, lcp, v, p, lo, hi);
    SamePositions(order, p, lo, hi);
  }

  // ------------------------------------------------------------ maximal repeats are closed patterns

  /** Every occurrence continues alike: `l` tokens to the left and `r` to the right. */
  ghost predicate Extends(s: Stream, length: nat, positions: seq<nat>, l: nat, r: nat) {
    && positions != [] && positions[0] >= l
    && forall p <- positions :: p >= l && Occurs(s, l + length + r, positions[0] - l, p - l)
  }

  lemma SameTokens(s: Stream, n: nat, p: nat, q: nat, k: nat)
    requires Occurs(s, n, p, q) && k < n
    ensures s[p + k] == s[q + k]
  {
    assert s[p..p + n][k] == s[q..q + n][k];
  }

  lemma MembersOccur(s: Stream, length: nat, positions: seq<nat>, p: nat, q: nat)
    requires AllOccurrences(s, length, positions) && p in positions && q in positions
    ensures Occurs(s, length, p, q)
  {
    assert Occurs(s, length, positions[0], p) && Occurs(s, length, positions[0], q);
  }

  lemma AnotherMember(s: Stream, length: nat, positions: seq<nat>, p: nat) returns (q: nat)
    requires IsMaximalRepeat(s, length, positions)
    ensures q in positions && q != p && AllOccurrences(s, length, positions)
  {
    hide AllOccurrences, LeftMaximal, RightMaximal;
    assert positions[0] in positions && positions[1] in positions;
    q := if p == positions[0] then positions[1] else positions[0];
  }

  /** Every token of a repeat occurs elsewhere in the stream. */
  lemma RepeatRecurs(s: Stream, length: nat, positions: seq<nat>, p: nat, k: nat) returns (q: nat)
    requires IsMaximalRepeat(s, length, positions) && p in positions && k < length
    ensures p + k < |s| && q < |s| && q != p + k && s[q] == s[p + k]
  {
    hide *;
    var other := AnotherMember(s, length, positions, p);
    MembersOccur(s, length, positions, p, other);
    SameTokens(s, length, p, other, k);
    q := other + k;
  }

  lemma SameBefore(s: Stream, n: nat, l: nat, p: nat, q: nat)
    requires 0 < l <= n && p >= l && q >= l && Occurs(s, n, p - l, q - l)
    ensures Previous(s, p) == Previous(s, q)
  {
    SameTokens(s, n, p - l, q - l, l - 1);
  }

  lemma SameBehind(s: Stream, n: nat, l: nat, length: nat, p: nat, q: nat)
    requires l + length < n && p >= l && q >= l && Occurs(s, n, p - l, q - l)
    ensures Following(s, p + length) == Following(s, q + length)
  {
    SameTokens(s, n, p - l, q - l, l + length);
  }

  lemma ExtensionPreserves(s: Stream, length: nat, positions: seq<nat>, l: nat, r: nat)
    requires Extends(s, length, positions, l, r)
    ensures l > 0 ==> !LeftMaximal(s, positions)
    ensures r > 0 ==> !RightMaximal(s, length, positions)
  {
    var n, first := l + length + r, positions[0];
    hide Occurs, Previous, Following;
    forall p | p in positions && l > 0 ensures Previous(s, p) == Previous(s, first) {
      SameBefore(s, n, l, first, p);
    }
    forall p | p in positions && r > 0 ensures Following(s, p + length) == Following(s, first + length) {
      SameBehind(s, n, l, length, first, p);
    }
  }

  lemma LeftExtension(s: Stream, length: nat, positions: seq<nat>)
    requires |positions| >= 2 && StrictlyAscending(positions) && AllOccurrences(s, length, positions)
    requires !LeftMaximal(s, positions)
    ensures Extends(s, length, positions, 1, 0)
  {
    var a, b := positions[0], positions[1];
    assert a in positions && b in positions && b > 0;
    assert Previous(s, a) == Previous(s, b);
    forall p | p in positions ensures p >= 1 && Occurs(s, 1 + length, a - 1, p - 1) {
      assert Previous(s, p) == Previous(s, b) && Occurs(s, length, a, p);
      assert s[a - 1..a + length] == [s[a - 1]] + s[a..a + length] && s[p - 1..p + length] == [s[p - 1]] + s[p..p + length];
    }
  }

  lemma RightExtension(s: Stream, length: nat, positions: seq<nat>)
    requires |positions| >= 2 && StrictlyAscending(positions) && AllOccurrences(s, length, positions)
    requires !RightMaximal(s, length, positions)
    ensures Extends(s, length, positions, 0, 1)
  {
    var a, b := positions[0], positions[1];
    assert a in positions && b in positions && Occurs(s, length, a, b);
    forall p | p in positions ensures Occurs(s, length + 1, a, p) {
      assert Following(s, p + length) == Following(s, a + length) && Occurs(s, length, a, p);
      assert s[a..a + length + 1] == s[a..a + length] + [s[a + length]] && s[p..p + length + 1] == s[p..p + length] + [s[p + length]];
    }
  }

  /** A repeat is maximal on both sides exactly when no longer pattern occurs everywhere it does. */
  lemma MaximalIffClosed(s: Stream, length: nat, positions: seq<nat>)
    requires |positions| >= 2 && StrictlyAscending(positions) && AllOccurrences(s, length, positions)
    ensures LeftMaximal(s, positions) && RightMaximal(s, length, positions) <==>
            forall l: nat, r: nat :: Extends(s, length, positions, l, r) ==> l == 0 && r == 0
  {
    hide LeftMaximal, RightMaximal, AllOccurrences, StrictlyAscending, Extends;
    forall l: nat, r: nat | Extends(s, length, positions, l, r)
      ensures l > 0 ==> !LeftMaximal(s, positions)
      ensures r > 0 ==> !RightMaximal(s, length, positions)
    {
      ExtensionPreserves(s, length, positions, l, r);
    }
    if !LeftMaximal(s, positions) {
      LeftExtension(s, length, positions);
    }
    if !RightMaximal(s, length, positions) {
      RightExtension(s, length, positions);
    }
  }
}
