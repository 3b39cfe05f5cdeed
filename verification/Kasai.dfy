/** Kasai's algorithm: the common prefix of every adjacent pair of suffixes, in linear time, and the
    entries that come out too long where the order is not lexicographic. */
module Kasai {
  import opened Listing
  import opened SuffixArray

  // ------------------------------------------------------------ facts about the order

  /** A suffix between two others shares with both at least what they share with each other. */
  lemma BetweenShares(s: Stream, i: nat, j: nat, k: nat)
    requires Placed(s, i, j) && Placed(s, j, k)
    ensures Common(s, i, k) <= Common(s, j, k) && Common(s, i, k) <= Common(s, i, j)
  {
    CommonSymmetric(s, i, k);
    CommonSymmetric(s, j, k);
    CommonSymmetric(s, i, j);
    var c, d := Common(s, i, k), Common(s, j, k);
    hide Common;
    if Common(s, i, j) < d {
      d := Common(s, i, j);
    }
    if d < c {
      if Common(s, i, j) > d {
        CommonTransitive(s, k, i, j, d + 1);
      }
      if Common(s, j, k) > d {
        CommonTransitive(s, j, k, i, d + 1);
      }
      SharedSeen(s, i, k, d);
    }
  }

  lemma SharedSeen(s: Stream, i: nat, j: nat, k: nat)
    requires k < Common(s, i, j)
    ensures Seen(s, i, k) == Seen(s, j, k)
  {
    SharedToken(s, i, j, k);
  }

  /** An earlier suffix shares no more with a suffix than its predecessor does. */
  lemma PredecessorShares(s: Stream, order: seq<nat>, p: nat, q: nat)
    requires InPlace(s, order) && p < q < |s|
    ensures Common(s, order[p], order[q]) <= Common(s, order[q - 1], order[q])
  {
    hide Common, Placed;
    if p < q - 1 {
      BetweenShares(s, order[p], order[q - 1], order[q]);
    }
  }

  /** What a suffix shares with its predecessor in the sorted order; 0 for the first. */
  ghost function Shared(s: Stream, order: seq<nat>, position: seq<nat>, i: nat): (d: nat)
    requires Perm(order, |s|) && Perm(position, |s|) && i < |s|
    ensures i + d <= |s|
  {
    if position[i] == 0 then 0 else Common(s, order[position[i] - 1], i)
  }

  /** The suffix before the one at `i`. */
  ghost function Predecessor(order: seq<nat>, position: seq<nat>, i: nat): nat
    requires i < |position| && 0 < position[i] < |order|
  {
    order[position[i] - 1]
  }

  /** Whatever is placed before a suffix shares no more with it than its predecessor does. */
  lemma SharedMost(s: Stream, order: seq<nat>, position: seq<nat>, j: nat, i: nat)
    requires InPlace(s, order) && Perm(position, |s|) && position == Inverse(order)
    requires i < |s| && j < |s| && Placed(s, j, i)
    ensures |position| == |order| == |s| && 0 < position[i] < |s|
    ensures Shared(s, order, position, i) >= Common(s, j, i)
  {
    InverseOf(order, |s|);
    hide Common, Placed;
    InPlacePositions(s, order, position[j], position[i]);
    PredecessorShares(s, order, position[j], position[i]);
  }

  lemma PredecessorPlaced(s: Stream, order: seq<nat>, position: seq<nat>, i: nat)
    requires InPlace(s, order) && Perm(position, |s|) && position == Inverse(order)
    requires i < |s| && position[i] > 0
    ensures var j := Predecessor(order, position, i);
            j < |s| && Placed(s, j, i) && Shared(s, order, position, i) == Common(s, j, i)
  {
    InverseOf(order, |s|);
    hide Common, Placed;
    InPlacePositions(s, order, position[i] - 1, position[i]);
  }

  // ------------------------------------------------------------ what dropping a token costs

  /** The suffix at `i` shares two tokens less with its predecessor than the one before it does. */
  ghost predicate Slips(s: Stream, order: seq<nat>, position: seq<nat>, i: nat)
    requires Perm(order, |s|) && Perm(position, |s|) && i < |s|
  {
    i > 0 && position[i] > 0 && Shared(s, order, position, i - 1) > Shared(s, order, position, i) + 1
  }

  /** The last `c` tokens of the stream, at `x` and before a separator. */
  predicate EndsLike(s: Stream, x: nat, c: nat) {
    c <= |s| && x + c < |s| && s[x..x + c] == s[|s| - c..] && s[x + c] < 0
  }

  /** The order turns round between two suffixes and their tails: one of them is the last `c` tokens,
      the other a copy before a separator. */
  ghost predicate Turns(s: Stream, j: nat, i: nat, c: nat) {
    && c >= 2 && Common(s, j, i) == c
    && (c % 2 == 0 ==> j + c == |s| && EndsLike(s, i, c))
    && (c % 2 == 1 ==> i + c == |s| && EndsLike(s, j, c))
  }

  lemma TailsTurn(s: Stream, j: nat, i: nat)
    requires NoMarker(s) && j < |s| && i < |s| && Placed(s, j, i) && Common(s, j, i) >= 2
    ensures j + 1 < |s| && i + 1 < |s| && Common(s, j + 1, i + 1) == Common(s, j, i) - 1
    ensures !Placed(s, j + 1, i + 1) ==> Turns(s, j, i, Common(s, j, i))
  {
    var c := Common(s, j, i);
    SharedToken(s, j, i, 1);
    CommonShift(s, j, i, 1);
    CommonSlices(s, j, i, c);
    TurnsAtEnd(s, j, i, c);
  }

  /** Of two suffixes that are placed otherwise without their first token, one ends with what they share. */
  lemma TurnsAtEnd(s: Stream, j: nat, i: nat, c: nat)
    requires NoMarker(s) && j + c <= |s| && i + c <= |s| && c >= 2 && s[j..j + c] == s[i..i + c]
    requires Common(s, j, i) == c && Common(s, j + 1, i + 1) == c - 1 && Placed(s, j, i)
    ensures !Placed(s, j + 1, i + 1) ==> Turns(s, j, i, c)
  {
    hide Common;
    assert Seen(s, j, c) < Seen(s, i, c);
    if !Placed(s, j + 1, i + 1) {
      assert !(Seen(s, j + 1, c - 1) < Seen(s, i + 1, c - 1));
      assert j + c < |s| ==> Seen(s, j + 1, c - 1) == Seen(s, j, c) == s[j + c];
      assert i + c < |s| ==> Seen(s, i + 1, c - 1) == Seen(s, i, c) == s[i + c];
      assert j + c == |s| ==> s[j..j + c] == s[|s| - c..];
      assert i + c == |s| ==> s[i..i + c] == s[|s| - c..];
    }
  }

  lemma SlippedShares(s: Stream, order: seq<nat>, position: seq<nat>, i: nat)
    requires Perm(order, |s|) && Perm(position, |s|) && i < |s| && Slips(s, order, position, i)
    ensures i > 0 && 0 < position[i] < |s| && 0 < position[i - 1] < |s|
    ensures Shared(s, order, position, i - 1) > Shared(s, order, position, i) + 1
  {}

  lemma InPlacePerm(s: Stream, order: seq<nat>)
    requires InPlace(s, order)
    ensures Perm(order, |s|) && |order| == |s|
  {}

  /** Dropping the first token costs at most one shared token, unless the order turns round. */
  lemma SlipTurns(s: Stream, order: seq<nat>, position: seq<nat>, i: nat)
    requires NoMarker(s) && InPlace(s, order) && Perm(position, |s|) && position == Inverse(order)
    requires i < |s| && Slips(s, order, position, i)
    ensures position[i - 1] > 0
    ensures Turns(s, Predecessor(order, position, i - 1), i - 1, Shared(s, order, position, i - 1))
  {
    hide *;
    InPlacePerm(s, order);
    SlippedShares(s, order, position, i);
    PredecessorPlaced(s, order, position, i - 1);
    var j := Predecessor(order, position, i - 1);
    TailsTurn(s, j, i - 1);
    if Placed(s, j + 1, i) {
      SharedMost(s, order, position, j + 1, i);
    }
  }

  lemma SlipsOnce(s: Stream, order: seq<nat>, position: seq<nat>, i: nat)
    requires Perm(order, |s|) && Perm(position, |s|) && i + 1 < |s| && Slips(s, order, position, i)
    requires Shared(s, order, position, i + 1) >= Shared(s, order, position, i - 1) - 2
    ensures !Slips(s, order, position, i + 1)
  {
    hide Shared, Perm;
  }

  /** Dropping two tokens never costs more than two. */
  lemma SlipRecovers(s: Stream, order: seq<nat>, position: seq<nat>, i: nat)
    requires NoMarker(s) && InPlace(s, order) && Perm(position, |s|) && position == Inverse(order)
    requires i + 1 < |s| && Slips(s, order, position, i)
    ensures Shared(s, order, position, i + 1) >= Shared(s, order, position, i - 1) - 2
    ensures !Slips(s, order, position, i + 1)
  {
    hide *;
    InPlacePerm(s, order);
    SlippedShares(s, order, position, i);
    PredecessorPlaced(s, order, position, i - 1);
    var j := Predecessor(order, position, i - 1);
    if Shared(s, order, position, i - 1) > 2 {
      PlacedShift(s, j, i - 1, 2);
      SharedToken(s, j, i - 1, 2);
      SharedMost(s, order, position, j + 2, i + 1);
    }
    SlipsOnce(s, order, position, i);
  }

  /** Each separator behind a copy of the last token differs from all other tokens. */
  predicate BoundariesDiffer(s: Stream) {
    forall i, k :: 0 <= i < |s| && 0 <= k < |s| && Misleads(s, i) && s[k] == s[i + 1] ==> k == i + 1
  }

  /** Where the order turns round, the longer comparison ends at the boundary. */
  lemma TurnStops(s: Stream, before: nat, x: nat, c: nat, j: nat)
    requires BoundariesDiffer(s) && Turns(s, before, x, c) && j != x + 1
    ensures !Continues(s, j, x + 1, c - 1)
  {
    hide Common, BoundariesDiffer;
    if c % 2 == 0 && Continues(s, j, x + 1, c - 1) {
      BoundaryOnce(s, x, c, j + c - 1);
    }
  }

  /** After a slip the comparison starts where it fails at once. */
  lemma SlipStops(s: Stream, order: seq<nat>, position: seq<nat>, i: nat)
    requires NoMarker(s) && InPlace(s, order) && Perm(position, |s|) && position == Inverse(order)
    requires BoundariesDiffer(s) && i < |s| && Slips(s, order, position, i)
    ensures !Continues(s, Predecessor(order, position, i), i, Shared(s, order, position, i - 1) - 1)
  {
    hide *;
    InPlacePerm(s, order);
    SlippedShares(s, order, position, i);
    SlipTurns(s, order, position, i);
    PredecessorPlaced(s, order, position, i);
    var j := Predecessor(order, position, i);
    PlacedAsymmetric(s, j, i);
    TurnStops(s, Predecessor(order, position, i - 1), i - 1, Shared(s, order, position, i - 1), j);
  }

  lemma CopyMisleads(s: Stream, x: nat, c: nat)
    requires EndsLike(s, x, c) && c > 0
    ensures Misleads(s, x + c - 1)
  {
    assert s[x..x + c][c - 1] == s[|s| - c..][c - 1];
  }

  lemma BoundaryOnce(s: Stream, x: nat, c: nat, k: nat)
    requires BoundariesDiffer(s) && EndsLike(s, x, c) && c > 0 && k < |s| && s[k] == s[x + c]
    ensures k == x + c
  {
    CopyMisleads(s, x, c);
  }

  // ------------------------------------------------------------ the algorithm

  /** The tokens `d` on are there and equal. */
  predicate Continues(s: Stream, j: nat, i: nat, d: nat) {
    i + d < |s| && j + d < |s| && s[i + d] == s[j + d]
  }

  /** The inner loop: extend a common prefix known to have at least `start` tokens. A start beyond
      what is shared is kept when the next tokens differ. */
  method Extend(stream: Stream, previous: nat, suffix: nat, start: nat) returns (length: nat, ghost advances: nat)
    requires previous < |stream| && suffix < |stream|
    requires start <= Common(stream, previous, suffix) || !Continues(stream, previous, suffix, start)
    ensures length == if start <= Common(stream, previous, suffix) then Common(stream, previous, suffix) else start
    ensures advances == length - start
  {
    length, advances := start, 0;
    if start <= Common(stream, previous, suffix) {
      CommonShift(stream, previous, suffix, start);
    }
    while suffix + length < |stream| && previous + length < |stream|
          && stream[suffix + length] == stream[previous + length]
      invariant start <= length && advances == length - start
      invariant start <= Common(stream, previous, suffix) ==>
                  Common(stream, previous, suffix) == length + Common(stream, previous + length, suffix + length)
      invariant start > Common(stream, previous, suffix) ==> length == start
      decreases |stream| - suffix - length
    {
      length := length + 1;
      advances := advances + 1;
    }
  }

  /** What the code records for the suffix at `i`: what it shares with its predecessor, or one less
      than the suffix before it does, if that is more. */
  ghost function Entry(s: Stream, order: seq<nat>, position: seq<nat>, i: nat): (d: nat)
    requires Perm(order, |s|) && Perm(position, |s|) && i < |s|
    ensures i + d <= |s|
    ensures !Slips(s, order, position, i) ==> d == Shared(s, order, position, i)
  {
    if Slips(s, order, position, i) then Shared(s, order, position, i - 1) - 1 else Shared(s, order, position, i)
  }

  /** A length from which the inner loop ends at the entry of the suffix at `i`. */
  ghost predicate StartFits(s: Stream, order: seq<nat>, position: seq<nat>, i: nat, start: nat)
    requires Perm(order, |s|) && Perm(position, |s|) && i < |s|
  {
    && (Slips(s, order, position, i) ==> start == Shared(s, order, position, i - 1) - 1)
    && (!Slips(s, order, position, i) ==> start <= Shared(s, order, position, i))
  }

  lemma NextFits(s: Stream, order: seq<nat>, position: seq<nat>, i: nat)
    requires NoMarker(s) && InPlace(s, order) && Perm(position, |s|) && position == Inverse(order)
    requires i + 1 < |s| && position[i + 1] > 0
    ensures var d := Entry(s, order, position, i);
            StartFits(s, order, position, i + 1, if d > 0 then d - 1 else 0)
  {
    assert Perm(order, |s|);
    hide Shared, InPlace, Perm;
    if Slips(s, order, position, i) {
      SlipRecovers(s, order, position, i);
    }
  }

  /** One turn of the outer loop at a suffix that has a predecessor. */
  method Step(stream: Stream, order: seq<nat>, position: seq<nat>, suffix: nat, start: nat)
    returns (length: nat, next: nat, ghost advances: nat)
    requires NoMarker(stream) && BoundariesDiffer(stream)
    requires InPlace(stream, order) && position == Inverse(order) && Perm(position, |stream|)
    requires suffix < |stream| && position[suffix] > 0 && StartFits(stream, order, position, suffix, start)
    ensures length == Entry(stream, order, position, suffix) && length >= start && advances == length - start
    ensures next == if length > 0 then length - 1 else 0
  {
    PredecessorPlaced(stream, order, position, suffix);
    if Slips(stream, order, position, suffix) {
      SlipStops(stream, order, position, suffix);
    }
    hide Common, Placed, Slips, Continues, InPlace;
    length, advances := Extend(stream, order[position[suffix] - 1], suffix, start);
    next := if length > 0 then length - 1 else 0;
  }

  /** Every entry is what the code records, and the first is 0. */
  ghost predicate IsEntryArray(s: Stream, order: seq<nat>, lcp: seq<nat>) {
    && Perm(order, |s|) && Perm(Inverse(order), |s|) && |lcp| == |s| && (|s| > 0 ==> lcp[0] == 0)
    && forall p :: 1 <= p < |s| ==> lcp[p] == Entry(s, order, Inverse(order), order[p])
  }

  /** The state of the outer loop before the suffix at `i`. */
  ghost predicate Scanned(s: Stream, order: seq<nat>, position: seq<nat>, i: nat, lcp: seq<nat>, length: nat, advances: nat) {
    && InPlace(s, order) && Perm(position, |s|) && position == Inverse(order)
    && |lcp| == |s| && i + length <= |s|
    && (i < |s| && position[i] > 0 ==> StartFits(s, order, position, i, length))
    && Filled(s, order, position, lcp, i)
    && advances <= i + length + (if |s| > 0 && order[0] < i then |s| else 0)
  }

  lemma ScanStarts(s: Stream, order: seq<nat>)
    requires InPlace(s, order)
    ensures Scanned(s, order, Inverse(order), 0, seq(|s|, _ => 0), 0, 0)
  {
    InverseOf(order, |s|);
    hide Common, Placed, InPlace;
  }

  /** The next suffix finds a length that fits. */
  lemma ScanOn(s: Stream, order: seq<nat>, position: seq<nat>, i: nat)
    requires NoMarker(s) && InPlace(s, order) && Perm(position, |s|) && position == Inverse(order) && i < |s|
    ensures Perm(order, |s|) && |position| == |s|
    ensures var d := Entry(s, order, position, i);
            i + 1 < |s| && position[i + 1] > 0 ==> StartFits(s, order, position, i + 1, if d > 0 then d - 1 else 0)
  {
    hide *;
    InPlacePerm(s, order);
    PermLength(position, |s|);
    if i + 1 < |s| && position[i + 1] > 0 {
      NextFits(s, order, position, i);
    }
  }

  /** A turn at the first suffix of the order forgets the length. */
  lemma ScanRestarts(s: Stream, order: seq<nat>, position: seq<nat>, i: nat, lcp: seq<nat>, length: nat, advances: nat)
    requires NoMarker(s) && i < |s| && Scanned(s, order, position, i, lcp, length, advances) && position[i] == 0
    ensures Scanned(s, order, position, i + 1, lcp, 0, advances)
  {
    ScanOn(s, order, position, i);
    InverseOf(order, |s|);
    hide InPlace, Perm, StartFits, Entry, Filled, Inverse, NoMarker;
    FillNext(s, order, position, lcp, i);
  }

  /** Any other turn enters what is found. */
  lemma ScanEnters(s: Stream, order: seq<nat>, position: seq<nat>, i: nat, lcp: seq<nat>, length: nat, advances: nat)
    requires NoMarker(s) && i < |s| && Scanned(s, order, position, i, lcp, length, advances) && position[i] > 0
    requires Entry(s, order, position, i) >= length
    ensures position[i] < |s|
    ensures var d := Entry(s, order, position, i);
            Scanned(s, order, position, i + 1, lcp[position[i] := d], if d > 0 then d - 1 else 0, advances + d - length)
  {
    ScanOn(s, order, position, i);
    InverseOf(order, |s|);
    hide InPlace, Perm, StartFits, Entry, Filled, Inverse, NoMarker;
    FillNext(s, order, position, lcp, i);
  }

  /** What the loop relies on. */
  lemma ScannedFits(s: Stream, order: seq<nat>, position: seq<nat>, i: nat, lcp: seq<nat>, length: nat, advances: nat)
    requires Scanned(s, order, position, i, lcp, length, advances)
    ensures InPlace(s, order) && position == Inverse(order) && Perm(position, |s|) && |lcp| == |position| == |s|
    ensures i < |s| && position[i] > 0 ==> StartFits(s, order, position, i, length)
  {}

  lemma ScanEnds(s: Stream, order: seq<nat>, position: seq<nat>, lcp: seq<nat>, length: nat, advances: nat)
    requires Scanned(s, order, position, |s|, lcp, length, advances)
    ensures IsEntryArray(s, order, lcp) && advances <= 2 * |s|
  {
    InverseOf(order, |s|);
    hide InPlace, StartFits;
    AllEntered(s, order, position, lcp);
  }

  /** `lcp_array`, counting how often its inner loop advances. */
  method LcpArray(stream: Stream, order: seq<nat>) returns (lcp: seq<nat>, ghost advances: nat)
    requires NoMarker(stream) && BoundariesDiffer(stream) && InPlace(stream, order)
    ensures IsEntryArray(stream, order, lcp)
    ensures advances <= 2 * |stream|
  {
    hide *;
    var n := |stream|;
    var position := Inverse(order);
    lcp := seq(n, _ => 0);
    var length: nat := 0;
    advances := 0;
    ScanStarts(stream, order);
    for suffix := 0 to n
      invariant Scanned(stream, order, position, suffix, lcp, length, advances)
    {
      ScannedFits(stream, order, position, suffix, lcp, length, advances);
      if position[suffix] == 0 {
        ScanRestarts(stream, order, position, suffix, lcp, length, advances);
        length := 0;
      } else {
        var value, next, more := Step(stream, order, position, suffix, length);
        ScanEnters(stream, order, position, suffix, lcp, length, advances);
        advances := advances + more;
        lcp := lcp[position[suffix] := value];
        length := next;
      }
    }
    ScanEnds(stream, order, position, lcp, length, advances);
  }

  /** The entries of the first `k` suffixes are in place, and the first entry is 0. */
  ghost predicate Filled(s: Stream, order: seq<nat>, position: seq<nat>, lcp: seq<nat>, k: nat)
    requires Perm(order, |s|) && Perm(position, |s|) && k <= |s| && |lcp| == |s|
  {
    (|s| > 0 ==> lcp[0] == 0) && forall i :: 0 <= i < k ==> lcp[position[i]] == Entry(s, order, position, i)
  }

  lemma FillNext(s: Stream, order: seq<nat>, position: seq<nat>, lcp: seq<nat>, k: nat)
    requires Perm(order, |s|) && Perm(position, |s|) && k < |s| && |lcp| == |s|
    requires Filled(s, order, position, lcp, k)
    requires forall i :: 0 <= i < |s| ==> order[position[i]] == i
    ensures position[k] < |s| && position[k] == 0 ==>
              order[0] == k && Entry(s, order, position, k) == 0 && Filled(s, order, position, lcp, k + 1)
    ensures position[k] > 0 ==>
              Filled(s, order, position, lcp[position[k] := Entry(s, order, position, k)], k + 1)
  {
    hide Entry;
    if position[k] == 0 {
      NoEntry(s, order, position, k);
    }
  }

  lemma NoEntry(s: Stream, order: seq<nat>, position: seq<nat>, k: nat)
    requires Perm(order, |s|) && Perm(position, |s|) && k < |s| && position[k] == 0
    ensures Entry(s, order, position, k) == 0
  {}

  lemma AllEntered(s: Stream, order: seq<nat>, position: seq<nat>, lcp: seq<nat>)
    requires Perm(order, |s|) && Perm(position, |s|) && |lcp| == |s| && position == Inverse(order)
    requires Filled(s, order, position, lcp, |s|)
    requires forall i :: 0 <= i < |s| ==> position[order[i]] == i
    ensures IsEntryArray(s, order, lcp)
  {
    hide Entry;
    forall p | 1 <= p < |s| ensures lcp[p] == Entry(s, order, position, order[p]) {
      assert lcp[position[order[p]]] == Entry(s, order, position, order[p]);
    }
  }
}
