/** When the entries of `lcp_array` are the common prefixes they should be: for every threshold, the
    entries from there on are exact if and only if the stream passes a test on how it ends. */
module LcpExactness {
  import opened Listing
  import opened SuffixArray
  import opened Kasai

  // ------------------------------------------------------------ what should be recorded

  /** `lcp[p]` is the common prefix of the suffixes at positions `p - 1` and `p`; `lcp[0]` is 0. */
  ghost predicate IsLcpArray(s: Stream, order: seq<nat>, lcp: seq<nat>) {
    && |order| == |s| && |lcp| == |s| && (|s| > 0 ==> lcp[0] == 0)
    && forall p :: 1 <= p < |s| ==> lcp[p] == Common(s, order[p - 1], order[p])
  }

  ghost function TrueLcp(s: Stream, order: seq<nat>): (lcp: seq<nat>)
    requires |order| == |s|
    ensures |lcp| == |s|
  {
    seq(|s|, p requires 0 <= p < |s| => if p == 0 then 0 else Common(s, order[p - 1], order[p]))
  }

  lemma TrueLcpIs(s: Stream, order: seq<nat>)
    requires |order| == |s|
    ensures IsLcpArray(s, order, TrueLcp(s, order))
  {
    hide Common, Low;
  }

  /** The arrays differ only where both are below `t`. */
  ghost predicate Agree(a: seq<nat>, b: seq<nat>, t: nat) {
    |a| == |b| && forall p :: 0 <= p < |a| ==> a[p] == b[p] || (a[p] < t && b[p] < t)
  }

  // ------------------------------------------------------------ a test a caller can make

  /** No separator follows a copy of the last `c` tokens. */
  predicate Shallow(s: Stream, c: nat) {
    forall x :: 0 <= x < |s| ==> !EndsLike(s, x, c)
  }

  /** Of the copies of the last `c` tokens before a separator, the one before the least separator. */
  predicate First(s: Stream, x: nat, c: nat) {
    EndsLike(s, x, c) && forall z :: 0 <= z < |s| && EndsLike(s, z, c) ==> s[x + c] <= s[z + c]
  }

  /** At most `t` last tokens recur before a separator, or one more if `t` is odd and the first copy
      of the last `t` does not extend. */
  predicate Reliable(s: Stream, t: nat) {
    && Shallow(s, t + 2)
    && (t % 2 == 0 ==> Shallow(s, t + 1))
    && (t % 2 == 1 ==> forall x :: 1 <= x < |s| && First(s, x, t) ==> !EndsLike(s, x - 1, t + 1))
  }

  lemma ShallowIsReliable(s: Stream, t: nat)
    requires Shallow(s, t + 1)
    ensures Reliable(s, t)
  {
    hide EndsLike;
    var e := t + 2;
    forall x: nat | x < |s| ensures !EndsLike(s, x, e) {
      if EndsLike(s, x, e) {
        DeepEnds(s, x, e, t + 1);
      }
    }
  }

  /** Copies of more of the ending hold copies of less. */
  lemma DeepEnds(s: Stream, x: nat, e: nat, c: nat)
    requires EndsLike(s, x, e) && c <= e
    ensures !Shallow(s, c)
  {
    hide EndsLike;
    EndsShift(s, x, e, e - c);
    EndsWithin(s, x + (e - c), c);
  }

  lemma SafeIsShallow(s: Stream, c: nat)
    requires EndSafe(s) && c > 0
    ensures Shallow(s, c)
  {
    hide EndsLike, Misleads;
    forall x: nat | x < |s| ensures !EndsLike(s, x, c) {
      if EndsLike(s, x, c) {
        CopyMisleads(s, x, c);
        EndsWithin(s, x, c);
      }
    }
  }

  /** The end marker is safe exactly when the last token does not recur before a separator. */
  lemma SafeIffShallow(s: Stream)
    ensures EndSafe(s) <==> Shallow(s, 1)
  {
    if EndSafe(s) {
      SafeIsShallow(s, 1);
    } else {
      var i: nat :| i < |s| && Misleads(s, i);
      assert EndsLike(s, i, 1);
    }
  }

  lemma EndsWithin(s: Stream, x: nat, c: nat)
    requires EndsLike(s, x, c)
    ensures c <= |s| && x + c < |s|
  {}

  lemma EndsShift(s: Stream, x: nat, c: nat, k: nat)
    requires EndsLike(s, x, c) && k <= c
    ensures EndsLike(s, x + k, c - k)
  {
    assert s[x + k..x + c] == s[x..x + c][k..] == s[|s| - c..][k..] == s[|s| - (c - k)..];
  }

  // ------------------------------------------------------------ how copies of the ending are placed

  /** A copy of the ending shares exactly that with the end of the stream, and its place depends on
      the length. */
  lemma EndPlaced(s: Stream, x: nat, c: nat)
    requires NoMarker(s) && EndsLike(s, x, c)
    ensures Common(s, x, |s| - c) == c == Common(s, |s| - c, x)
    ensures c % 2 == 1 ==> Placed(s, x, |s| - c)
    ensures c % 2 == 0 ==> Placed(s, |s| - c, x)
  {
    SlicesCommon(s, x, |s| - c, c);
    CommonSymmetric(s, x, |s| - c);
  }

  /** Two copies before different separators share exactly the ending. */
  lemma CopiesPlaced(s: Stream, z: nat, x: nat, c: nat)
    requires EndsLike(s, z, c) && EndsLike(s, x, c) && s[z + c] < s[x + c]
    ensures Placed(s, z, x) && Common(s, z, x) == c
  {
    SlicesCommon(s, z, x, c);
    CommonShift(s, z, x, c);
  }

  // ------------------------------------------------------------ the test is enough

  lemma SlipBelow(s: Stream, order: seq<nat>, position: seq<nat>, y: nat, t: nat)
    requires NoMarker(s) && InPlace(s, order) && Perm(position, |s|) && position == Inverse(order)
    requires t >= 1 && Reliable(s, t) && y < |s| && Slips(s, order, position, y)
    ensures Shared(s, order, position, y - 1) - 1 < t
  {
    hide *;
    InPlacePerm(s, order);
    SlippedShares(s, order, position, y);
    SlipTurns(s, order, position, y);
    var c, j := Shared(s, order, position, y - 1), Predecessor(order, position, y - 1);
    if c >= t + 2 {
      ReliableShallow(s, t);
      DeepTurn(s, j, y - 1, c, t + 2);
    } else if c == t + 1 {
      FirstTurn(s, order, position, j, y - 1, t);
    }
  }

  lemma ReliableShallow(s: Stream, t: nat)
    requires Reliable(s, t)
    ensures Shallow(s, t + 2)
    ensures t % 2 == 0 ==> Shallow(s, t + 1)
  {}

  lemma DeepTurn(s: Stream, j: nat, x: nat, c: nat, e: nat)
    requires Turns(s, j, x, c) && e <= c
    ensures !Shallow(s, e)
  {
    hide EndsLike, Common;
    DeepEnds(s, if c % 2 == 0 then x else j, c, e);
  }

  /** At the last length the test allows, some copy comes first, and a slip there is undone by it. */
  lemma FirstTurn(s: Stream, order: seq<nat>, position: seq<nat>, j: nat, x: nat, t: nat)
    requires InPlace(s, order) && Perm(position, |s|) && position == Inverse(order) && Perm(order, |s|)
    requires t >= 1 && Reliable(s, t) && Turns(s, j, x, t + 1) && x + 1 < |s|
    ensures Shared(s, order, position, x + 1) >= t
  {
    hide *;
    ReliableShallow(s, t);
    if t % 2 == 0 {
      DeepTurn(s, j, x, t + 1, t + 1);
    } else {
      var z := EarlierCopy(s, j, x, t);
      CopiesPlaced(s, z, x + 1, t);
      SharedMost(s, order, position, z, x + 1);
    }
  }

  lemma EarlierCopy(s: Stream, j: nat, x: nat, t: nat) returns (z: nat)
    requires t % 2 == 1 && Reliable(s, t) && Turns(s, j, x, t + 1) && x + 1 < |s|
    ensures z < |s| && EndsLike(s, z, t) && EndsLike(s, x + 1, t) && s[z + t] < s[x + 1 + t]
  {
    hide *;
    TurnEnds(s, j, x, t + 1);
    EndsShift(s, x, t + 1, 1);
    EndsWithin(s, x + 1, t);
    NotFirst(s, x + 1, t);
    z := LesserCopy(s, x + 1, t);
  }

  lemma TurnEnds(s: Stream, j: nat, x: nat, c: nat)
    requires Turns(s, j, x, c) && c % 2 == 0
    ensures EndsLike(s, x, c)
  {}

  lemma NotFirst(s: Stream, y: nat, t: nat)
    requires t % 2 == 1 && Reliable(s, t) && 1 <= y < |s| && EndsLike(s, y - 1, t + 1)
    ensures !First(s, y, t)
  {
    hide First, EndsLike, Shallow;
  }

  lemma LesserCopy(s: Stream, y: nat, t: nat) returns (z: nat)
    requires EndsLike(s, y, t) && !First(s, y, t)
    ensures z < |s| && EndsLike(s, z, t) && s[z + t] < s[y + t]
  {
    z :| z < |s| && EndsLike(s, z, t) && s[z + t] < s[y + t];
  }

  /** From the threshold on the code records what it should. */
  lemma ReliableIsExact(s: Stream, order: seq<nat>, lcp: seq<nat>, t: nat)
    requires NoMarker(s) && InPlace(s, order) && IsEntryArray(s, order, lcp)
    requires t >= 1 && Reliable(s, t)
    ensures Agree(lcp, TrueLcp(s, order), t)
  {
    EntriesFit(s, order, lcp);
    var exact := TrueLcp(s, order);
    hide *;
    forall p | 0 <= p < |s| ensures lcp[p] == exact[p] || (lcp[p] < t && exact[p] < t) {
      if p > 0 {
        EntryAgrees(s, order, lcp, t, p);
      }
    }
    AgreeFrom(lcp, exact, t);
  }

  lemma EntryAgrees(s: Stream, order: seq<nat>, lcp: seq<nat>, t: nat, p: nat)
    requires NoMarker(s) && InPlace(s, order) && IsEntryArray(s, order, lcp)
    requires t >= 1 && Reliable(s, t) && 0 < p < |s|
    ensures |order| == |lcp| == |TrueLcp(s, order)| == |s|
    ensures lcp[p] == TrueLcp(s, order)[p] || TrueLcp(s, order)[p] < lcp[p] < t
  {
    hide *;
    EntryAt(s, order, lcp, p);
    if Slips(s, order, Inverse(order), order[p]) {
      SlipBelow(s, order, Inverse(order), order[p], t);
    }
  }

  lemma AgreeFrom(a: seq<nat>, b: seq<nat>, t: nat)
    requires |a| == |b| && forall p :: 0 <= p < |a| ==> a[p] == b[p] || (a[p] < t && b[p] < t)
    ensures Agree(a, b, t)
  {}

  lemma EntriesFit(s: Stream, order: seq<nat>, lcp: seq<nat>)
    requires IsEntryArray(s, order, lcp)
    ensures |order| == |lcp| == |TrueLcp(s, order)| == |s| && Perm(order, |s|) && Perm(Inverse(order), |s|)
    ensures |s| > 0 ==> lcp[0] == TrueLcp(s, order)[0] == 0
  {}

  /** A slip is what makes an entry too long. */
  lemma EntryAt(s: Stream, order: seq<nat>, lcp: seq<nat>, p: nat)
    requires IsEntryArray(s, order, lcp) && 0 < p < |s|
    ensures |order| == |lcp| == |TrueLcp(s, order)| == |s| && Perm(order, |s|) && Perm(Inverse(order), |s|) && order[p] < |s|
    ensures var slips := Slips(s, order, Inverse(order), order[p]);
            && (!slips ==> lcp[p] == TrueLcp(s, order)[p])
            && (slips ==> lcp[p] == Shared(s, order, Inverse(order), order[p] - 1) - 1 > TrueLcp(s, order)[p])
  {
    TrueIsShared(s, order, p);
    hide Common, Shared, TrueLcp, Perm;
  }

  lemma TrueIsShared(s: Stream, order: seq<nat>, p: nat)
    requires Perm(order, |s|) && Perm(Inverse(order), |s|) && 0 < p < |s|
    ensures TrueLcp(s, order)[p] == Shared(s, order, Inverse(order), order[p])
  {
    InverseOf(order, |s|);
    hide Common;
  }

  // ------------------------------------------------------------ and it is needed

  /** Every separator occurs once. */
  predicate Separated(s: Stream) {
    forall i, k :: 0 <= i < |s| && 0 <= k < |s| && s[i] == s[k] && s[i] < 0 ==> i == k
  }

  lemma SeparatedDiffers(s: Stream)
    requires Separated(s)
    ensures BoundariesDiffer(s)
  {}

  lemma SafeDiffers(s: Stream)
    requires EndSafe(s)
    ensures BoundariesDiffer(s)
  {}

  /** A separator behind a copy of the ending is placed before every suffix in the copy and in the
      ending: what recurs is no separator. */
  lemma SeparatorPlaced(s: Stream, x: nat, c: nat, k: nat)
    requires Separated(s) && EndsLike(s, x, c) && k < c
    ensures Placed(s, x + c, x + k) && Placed(s, x + c, |s| - c + k)
  {
    assert s[x + k] == s[x..x + c][k] == s[|s| - c..][k] == s[|s| - c + k];
    assert Common(s, x + c, x + k) == 0 && Common(s, x + c, |s| - c + k) == 0;
  }

  /** What ends with the stream behind an even number of shared tokens comes first. */
  lemma EvenEndFirst(s: Stream, z: nat, d: nat)
    requires 0 < d <= |s| && d % 2 == 0 && z < |s| && Placed(s, z, |s| - d)
    ensures Common(s, z, |s| - d) < d
  {}

  /** A copy of an odd number of last tokens makes the end of the stream slip one token on. */
  lemma EvenSlip(s: Stream, order: seq<nat>, position: seq<nat>, x: nat, d: nat)
    requires NoMarker(s) && Separated(s) && InPlace(s, order) && Perm(position, |s|) && position == Inverse(order)
    requires d >= 2 && d % 2 == 0 && x < |s| && EndsLike(s, x, d + 1)
    ensures Perm(order, |s|) && d + 1 <= |s|
    ensures Slips(s, order, position, |s| - d) && Shared(s, order, position, |s| - d - 1) >= d + 1
  {
    hide *;
    InPlacePerm(s, order);
    EndsWithin(s, x, d + 1);
    EndPlaced(s, x, d + 1);
    SeparatorPlaced(s, x, d + 1, 1);
    var y := |s| - d;
    SharedMost(s, order, position, x, y - 1);
    SharedMost(s, order, position, x + d + 1, y);
    PredecessorPlaced(s, order, position, y);
    EvenEndFirst(s, Predecessor(order, position, y), d);
    ItSlips(s, order, position, y, d);
  }

  lemma ItSlips(s: Stream, order: seq<nat>, position: seq<nat>, y: nat, d: nat)
    requires Perm(order, |s|) && Perm(position, |s|) && 0 < y < |s| && position[y] > 0
    requires Shared(s, order, position, y - 1) > d > Shared(s, order, position, y)
    ensures Slips(s, order, position, y)
  {}

  lemma FirstLeast(s: Stream, z: nat, x: nat, d: nat)
    requires First(s, x, d)
    ensures d <= |s| && x + d < |s| && s[x + d] < 0
    ensures z + d < |s| && s[z..z + d] == s[x..x + d] && s[z + d] < 0 ==> s[x + d] <= s[z + d]
  {
    assert z + d < |s| && s[z..z + d] == s[x..x + d] && s[z + d] < 0 ==> EndsLike(s, z, d);
  }

  lemma SharedBoundary(s: Stream, z: nat, x: nat, d: nat)
    requires Separated(s) && d < Common(s, z, x) && x + d < |s| && s[x + d] < 0
    ensures z == x
  {
    SharedToken(s, z, x, d);
  }

  lemma PlacedAtBoundary(s: Stream, z: nat, x: nat, d: nat)
    requires d % 2 == 1 && z < |s| && x + d < |s| && Common(s, z, x) == d && Placed(s, z, x)
    ensures z + d <= |s| && s[z..z + d] == s[x..x + d]
    ensures if z + d < |s| then s[z + d] < s[x + d] else -1 < s[x + d]
  {
    CommonSlices(s, z, x, d);
  }

  /** Nothing placed before the first copy of an odd number of last tokens shares them. */
  lemma FirstCopyFirst(s: Stream, z: nat, x: nat, d: nat)
    requires NoMarker(s) && Separated(s) && d % 2 == 1 && x < |s| && z < |s| && First(s, x, d) && Placed(s, z, x)
    ensures Common(s, z, x) < d
  {
    hide *;
    PlacedAsymmetric(s, z, x);
    FirstLeast(s, z, x, d);
    if Common(s, z, x) > d {
      SharedBoundary(s, z, x, d);
    } else if Common(s, z, x) == d {
      PlacedAtBoundary(s, z, x, d);
    }
  }

  /** If the first copy of an odd number of last tokens extends, it slips itself. */
  lemma OddSlip(s: Stream, order: seq<nat>, position: seq<nat>, x: nat, d: nat)
    requires NoMarker(s) && Separated(s) && InPlace(s, order) && Perm(position, |s|) && position == Inverse(order)
    requires d % 2 == 1 && 0 < x < |s| && First(s, x, d) && EndsLike(s, x - 1, d + 1)
    ensures Perm(order, |s|)
    ensures Slips(s, order, position, x) && Shared(s, order, position, x - 1) >= d + 1
  {
    hide *;
    InPlacePerm(s, order);
    EndsWithin(s, x - 1, d + 1);
    EndPlaced(s, x - 1, d + 1);
    SeparatorPlaced(s, x - 1, d + 1, 1);
    SharedMost(s, order, position, |s| - d - 1, x - 1);
    SharedMost(s, order, position, x + d, x);
    PredecessorPlaced(s, order, position, x);
    FirstCopyFirst(s, Predecessor(order, position, x), x, d);
    ItSlips(s, order, position, x, d);
  }

  lemma DeepCopy(s: Stream, c: nat) returns (x: nat)
    requires !Shallow(s, c)
    ensures x < |s| && EndsLike(s, x, c)
  {
    x :| x < |s| && EndsLike(s, x, c);
  }

  /** A stream that fails the test has a suffix that slips from a length above the threshold. */
  lemma UnreliableSlips(s: Stream, order: seq<nat>, position: seq<nat>, t: nat) returns (y: nat)
    requires NoMarker(s) && Separated(s) && InPlace(s, order) && Perm(position, |s|) && position == Inverse(order)
    requires t >= 1 && !Reliable(s, t)
    ensures Perm(order, |s|) && 0 < y < |s|
    ensures Slips(s, order, position, y) && Shared(s, order, position, y - 1) >= t + 1
  {
    hide EndsLike, First, Common, Placed, InPlace, Slips, Shared, Perm, Shallow, Separated;
    if !Shallow(s, t + 2) {
      var x := DeepCopy(s, t + 2);
      if t % 2 == 1 {
        EvenSlip(s, order, position, x, t + 1);
        y := |s| - (t + 1);
      } else {
        EndsShift(s, x, t + 2, 1);
        EndsWithin(s, x + 1, t + 1);
        EvenSlip(s, order, position, x + 1, t);
        y := |s| - t;
      }
    } else if t % 2 == 0 {
      var x := DeepCopy(s, t + 1);
      EvenSlip(s, order, position, x, t);
      y := |s| - t;
    } else {
      y :| 1 <= y < |s| && First(s, y, t) && EndsLike(s, y - 1, t + 1);
      OddSlip(s, order, position, y, t);
    }
  }

  lemma UnreliableIsWrong(s: Stream, order: seq<nat>, lcp: seq<nat>, t: nat)
    requires NoMarker(s) && Separated(s) && InPlace(s, order) && IsEntryArray(s, order, lcp)
    requires t >= 1 && !Reliable(s, t)
    ensures !Agree(lcp, TrueLcp(s, order), t)
  {
    EntriesFit(s, order, lcp);
    InverseOf(order, |s|);
    var position := Inverse(order);
    hide Reliable, Common, Placed, InPlace, Slips, Shared, Perm, TrueLcp, IsEntryArray, Separated;
    var y := UnreliableSlips(s, order, position, t);
    SlippedShares(s, order, position, y);
    EntryAt(s, order, lcp, position[y]);
    assert lcp[position[y]] >= t;
  }

  /** The entries from `t` on are exact if and only if the stream passes the test. */
  lemma ExactIffReliable(s: Stream, order: seq<nat>, lcp: seq<nat>, t: nat)
    requires NoMarker(s) && Separated(s) && InPlace(s, order) && IsEntryArray(s, order, lcp) && t >= 1
    ensures Agree(lcp, TrueLcp(s, order), t) <==> Reliable(s, t)
  {
    if Reliable(s, t) {
      ReliableIsExact(s, order, lcp, t);
    } else {
      UnreliableIsWrong(s, order, lcp, t);
    }
  }

  /** In particular for the whole array. */
  lemma LcpArrayExactIff(s: Stream, order: seq<nat>, lcp: seq<nat>)
    requires NoMarker(s) && Separated(s) && InPlace(s, order) && IsEntryArray(s, order, lcp)
    ensures IsLcpArray(s, order, lcp) <==> Reliable(s, 1)
  {
    ExactIffReliable(s, order, lcp, 1);
    EntriesFit(s, order, lcp);
    TrueLcpIs(s, order);
    hide Reliable, Common, Placed, InPlace, IsEntryArray, Separated;
    assert IsLcpArray(s, order, lcp) ==> forall p :: 0 <= p < |s| ==> lcp[p] == TrueLcp(s, order)[p];
  }
}
