/** Suffix arrays by prefix doubling: the order that comes out, and exactly when it is the sorted one. */
module SuffixArray {
  import opened Listing
  import opened Sorting

  type Stream = seq<int>

  /** No token is the end marker. Tables number tokens from 0 and separators from -2 down. */
  predicate NoMarker(s: Stream) { forall i :: 0 <= i < |s| ==> s[i] != -1 }

  /** The last token recurs at `i`, before a separator that sorts below the end marker. */
  predicate Misleads(s: Stream, i: nat) {
    i + 1 < |s| && s[i] == s[|s| - 1] && s[i + 1] < 0
  }

  /** The end marker is met only where it sorts first. */
  predicate EndSafe(s: Stream) { forall i :: 0 <= i < |s| ==> !Misleads(s, i) }

  lemma TokensAreSafe(s: Stream)
    requires forall i :: 0 <= i < |s| ==> s[i] >= 0
    ensures NoMarker(s) && EndSafe(s)
  {}

  // ------------------------------------------------------------ the order on suffixes

  /** The order of Python's lists: a proper prefix comes first. */
  predicate LexLess(a: seq<int>, b: seq<int>) {
    b != [] && (a == [] || a[0] < b[0] || (a[0] == b[0] && LexLess(a[1..], b[1..])))
  }

  /** The length of the longest common prefix of the suffixes at `i` and `j`. */
  ghost function Common(s: Stream, i: nat, j: nat): (d: nat)
    ensures i <= |s| ==> i + d <= |s|
    ensures j <= |s| ==> j + d <= |s|
    decreases |s| - i
  {
    if i < |s| && j < |s| && s[i] == s[j] then 1 + Common(s, i + 1, j + 1) else 0
  }

  /** Less than every token: what the end of the stream counts as, to put prefixes first. */
  ghost function Low(s: Stream): (m: int)
    ensures forall i :: 0 <= i < |s| ==> m < s[i]
  {
    if s == [] then -1 else
      var m := Low(s[1..]);
      assert forall i :: 1 <= i < |s| ==> s[i] == s[1..][i - 1];
      if m < s[0] then m else s[0] - 1
  }

  ghost function At(s: Stream, i: nat): int { if i < |s| then s[i] else Low(s) }

  ghost predicate Before(s: Stream, i: nat, j: nat) {
    var d := Common(s, i, j);
    At(s, i + d) < At(s, j + d)
  }

  lemma BeforeStep(s: Stream, i: nat, j: nat)
    requires i < |s| && j < |s| && s[i] == s[j]
    ensures Before(s, i, j) <==> Before(s, i + 1, j + 1)
  {}

  lemma {:induction false} BeforeIsLexLess(s: Stream, i: nat, j: nat)
    requires i <= |s| && j <= |s|
    ensures Before(s, i, j) <==> LexLess(s[i..], s[j..])
    decreases |s| - i
  {
    if i < |s| && j < |s| && s[i] == s[j] {
      BeforeIsLexLess(s, i + 1, j + 1);
      BeforeStep(s, i, j);
      assert s[i..][1..] == s[i + 1..] && s[j..][1..] == s[j + 1..];
    }
  }

  lemma {:induction false} LexAsymmetric(a: seq<int>, b: seq<int>)
    requires LexLess(a, b)
    ensures !LexLess(b, a)
  {
    if a != [] && a[0] == b[0] {
      LexAsymmetric(a[1..], b[1..]);
    }
  }

  lemma {:induction false} CommonShift(s: Stream, i: nat, j: nat, k: nat)
    requires k <= Common(s, i, j)
    ensures Common(s, i, j) == k + Common(s, i + k, j + k)
    decreases k
  {
    if k > 0 {
      CommonShift(s, i + 1, j + 1, k - 1);
    }
  }

  lemma {:induction false} CommonSymmetric(s: Stream, i: nat, j: nat)
    ensures Common(s, i, j) == Common(s, j, i)
    decreases |s| - i
  {
    if i < |s| && j < |s| && s[i] == s[j] {
      CommonSymmetric(s, i + 1, j + 1);
    }
  }

  /** Sharing a prefix of a given length is transitive. */
  lemma {:induction false} CommonTransitive(s: Stream, i: nat, j: nat, k: nat, v: nat)
    requires Common(s, i, j) >= v && Common(s, j, k) >= v
    ensures Common(s, i, k) >= v
    decreases v
  {
    if v > 0 {
      CommonTransitive(s, i + 1, j + 1, k + 1, v - 1);
    }
  }

  /** Two suffixes go on alike within what they share. */
  lemma SharedToken(s: Stream, i: nat, j: nat, k: nat)
    requires k < Common(s, i, j)
    ensures i + k < |s| && j + k < |s| && s[i + k] == s[j + k]
  {
    CommonShift(s, i, j, k);
  }

  /** Equal slices are shared. */
  lemma {:induction false} SlicesCommon(s: Stream, i: nat, j: nat, c: nat)
    requires i + c <= |s| && j + c <= |s| && s[i..i + c] == s[j..j + c]
    ensures Common(s, i, j) >= c
    decreases c
  {
    if c > 0 {
      assert s[i] == s[i..i + c][0] == s[j..j + c][0] == s[j];
      assert s[i + 1..i + c] == s[i..i + c][1..] == s[j..j + c][1..] == s[j + 1..j + c];
      SlicesCommon(s, i + 1, j + 1, c - 1);
    }
  }

  /** What is shared are equal slices. */
  lemma CommonSlices(s: Stream, i: nat, j: nat, c: nat)
    requires c <= Common(s, i, j) && i <= |s| && j <= |s|
    ensures i + c <= |s| && j + c <= |s| && s[i..i + c] == s[j..j + c]
  {
    hide Common;
    if c > 0 {
      SharedToken(s, i, j, c - 1);
    }
    var a, b := s[i..i + c], s[j..j + c];
    forall k | 0 <= k < c ensures a[k] == b[k] {
      SharedToken(s, i, j, k);
    }
  }

  // ------------------------------------------------------------ the order the code produces

  /** What the end of the stream counts as behind `d` shared tokens. A key compares it as the marker
      itself only in the first round, which decides what comes behind an odd number of tokens. */
  ghost function EndBehind(s: Stream, d: nat): int { if d % 2 == 1 then -1 else Low(s) }

  /** What the key of the suffix at `i` holds `d` tokens on. */
  ghost function Seen(s: Stream, i: nat, d: nat): int { if i + d < |s| then s[i + d] else EndBehind(s, d) }

  /** The suffix at `i` is placed before the one at `j`. */
  ghost predicate Placed(s: Stream, i: nat, j: nat) {
    var d := Common(s, i, j);
    Seen(s, i, d) < Seen(s, j, d)
  }

  /** What a copy of the last tokens goes on with, where the end marker is safe. */
  lemma SafeBehind(s: Stream, i: nat, j: nat)
    requires EndSafe(s) && var d := Common(s, i, j); d > 0 && i + d < |s| == j + d
    ensures s[i + Common(s, i, j)] >= 0
  {
    var d := Common(s, i, j);
    SharedToken(s, i, j, d - 1);
    assert !Misleads(s, i + d - 1);
  }

  /** Where the end marker is safe, that is the lexicographic order. */
  lemma PlacedIsLexLess(s: Stream, i: nat, j: nat)
    requires EndSafe(s) && i < |s| && j < |s| && i != j
    ensures Placed(s, i, j) <==> LexLess(s[i..], s[j..])
  {
    BeforeIsLexLess(s, i, j);
    CommonSymmetric(s, i, j);
    var d := Common(s, i, j);
    hide EndSafe, LexLess;
    if d % 2 == 1 && i + d < |s| == j + d {
      SafeBehind(s, i, j);
    } else if d % 2 == 1 && j + d < |s| == i + d {
      SafeBehind(s, j, i);
    }
  }

  lemma PlacedAsymmetric(s: Stream, i: nat, j: nat)
    requires Placed(s, i, j)
    ensures !Placed(s, j, i) && i != j
  {
    CommonSymmetric(s, i, j);
  }

  /** Dropping an even number of shared tokens changes nothing. */
  lemma PlacedShift(s: Stream, i: nat, j: nat, h: nat)
    requires h <= Common(s, i, j) && h % 2 == 0
    ensures Common(s, i, j) == h + Common(s, i + h, j + h)
    ensures Placed(s, i, j) <==> Placed(s, i + h, j + h)
  {
    CommonShift(s, i, j, h);
  }

  // ------------------------------------------------------------ ranks by prefixes of length `h`

  ghost predicate PlacedWithin(s: Stream, i: nat, j: nat, h: nat) {
    Common(s, i, j) < h && Placed(s, i, j)
  }

  ghost predicate SameWithin(s: Stream, i: nat, j: nat, h: nat) {
    i == j || Common(s, i, j) >= h
  }

  /** Ranks are equal exactly for equal prefixes of length `h`. */
  ghost predicate Tells(s: Stream, rank: seq<int>, h: nat) {
    && |rank| == |s| && NoMarker(rank)
    && forall i: nat, j: nat :: i < |s| && j < |s| ==> (rank[i] == rank[j] <==> SameWithin(s, i, j, h))
  }

  /** And they order the prefixes of length `h`. */
  ghost predicate Ranked(s: Stream, rank: seq<int>, h: nat) {
    && Tells(s, rank, h) && ((rank == s && h == 1) || (h % 2 == 0 && NonNegative(rank)))
    && forall i: nat, j: nat :: i < |s| && j < |s| ==> (rank[i] < rank[j] <==> PlacedWithin(s, i, j, h))
  }

  predicate NonNegative(rank: seq<int>) { forall i :: 0 <= i < |rank| ==> rank[i] >= 0 }

  lemma StreamTells(s: Stream)
    requires NoMarker(s)
    ensures Tells(s, s, 1)
  {
    forall i: nat, j: nat | i < |s| && j < |s| ensures s[i] == s[j] <==> SameWithin(s, i, j, 1) {
      assert s[i] != s[j] ==> Common(s, i, j) == 0;
    }
  }

  lemma StreamRanked(s: Stream)
    requires NoMarker(s)
    ensures Ranked(s, s, 1)
  {
    StreamTells(s);
    forall i: nat, j: nat | i < |s| && j < |s| ensures s[i] < s[j] <==> PlacedWithin(s, i, j, 1) {
      assert s[i] != s[j] ==> Common(s, i, j) == 0 && Seen(s, i, 0) == s[i] && Seen(s, j, 0) == s[j];
    }
  }

  // ------------------------------------------------------------ one doubling

  function Key(rank: seq<int>, step: nat, i: nat): (int, int) {
    (if i < |rank| then rank[i] else -1, if i + step < |rank| then rank[i + step] else -1)
  }

  predicate KeyLess(a: (int, int), b: (int, int)) { a.0 < b.0 || (a.0 == b.0 && a.1 < b.1) }

  function ByKey(rank: seq<int>, step: nat): (nat, nat) -> bool {
    (i: nat, j: nat) => !KeyLess(Key(rank, step, j), Key(rank, step, i))
  }

  lemma ByKeyPreorder(rank: seq<int>, step: nat)
    ensures TotalPreorder(ByKey(rank, step))
  {}

  /** Two ranks `h` apart tell prefixes of length `2h` apart. */
  lemma KeysTell(s: Stream, rank: seq<int>, h: nat, i: nat, j: nat)
    requires Tells(s, rank, h) && h > 0 && i < |s| && j < |s|
    ensures Key(rank, h, i) == Key(rank, h, j) <==> SameWithin(s, i, j, 2 * h)
  {
    var d := Common(s, i, j);
    if i != j && d >= h {
      CommonShift(s, i, j, h);
    }
  }

  /** In the first round the second part of a key is the second token, or the end marker. */
  lemma FirstKey(s: Stream, i: nat, j: nat)
    requires i < |s| && j < |s| && i != j && Common(s, i, j) == 1
    ensures Key(s, 1, i).1 < Key(s, 1, j).1 <==> Placed(s, i, j)
  {
    assert 1 % 2 == 1 && EndBehind(s, 1) == -1;
    assert Seen(s, i, 1) == Key(s, 1, i).1 && Seen(s, j, 1) == Key(s, 1, j).1;
  }

  /** Later it is a rank, or less than every rank. */
  lemma LaterKey(s: Stream, rank: seq<int>, h: nat, i: nat, j: nat)
    requires Ranked(s, rank, h) && NonNegative(rank) && h > 0 && h % 2 == 0
    requires i < |s| && j < |s| && i != j && h <= Common(s, i, j)
    ensures Key(rank, h, i).1 < Key(rank, h, j).1 <==> PlacedWithin(s, i, j, 2 * h)
  {
    PlacedShift(s, i, j, h);
    hide Placed, Common;
    if i + h < |s| && j + h < |s| {
      assert rank[i + h] < rank[j + h] <==> PlacedWithin(s, i + h, j + h, h);
    } else {
      OneEnds(s, i, j, h);
    }
  }

  lemma OneEnds(s: Stream, i: nat, j: nat, h: nat)
    requires h % 2 == 0 && h <= Common(s, i, j) && i != j && i < |s| && j < |s|
    requires i + h == |s| || j + h == |s|
    ensures Common(s, i, j) == h
    ensures Placed(s, i, j) <==> i + h == |s|
  {
    CommonShift(s, i, j, h);
  }

  /** Comparing two ranks `h` apart compares prefixes of length `2h`. */
  lemma KeyDoubles(s: Stream, rank: seq<int>, h: nat, i: nat, j: nat)
    requires Ranked(s, rank, h) && h > 0 && i < |s| && j < |s|
    ensures KeyLess(Key(rank, h, i), Key(rank, h, j)) <==> PlacedWithin(s, i, j, 2 * h)
    ensures Key(rank, h, i) == Key(rank, h, j) <==> SameWithin(s, i, j, 2 * h)
  {
    KeysTell(s, rank, h, i, j);
    hide Placed;
    if i != j && Common(s, i, j) >= h {
      assert rank[i] == rank[j];
      if h % 2 == 0 {
        LaterKey(s, rank, h, i, j);
      } else if Common(s, i, j) == 1 {
        FirstKey(s, i, j);
      }
    } else if i != j {
      assert rank[i] < rank[j] <==> PlacedWithin(s, i, j, h);
    } else {
      NotPlacedHere(s, i);
    }
  }

  lemma NotPlacedHere(s: Stream, i: nat)
    ensures !Placed(s, i, i)
  {}

  // ------------------------------------------------------------ dense ranks

  ghost predicate Ascending(k: seq<(int, int)>) {
    forall p, q :: 0 <= p < q < |k| ==> !KeyLess(k[q], k[p])
  }

  /** One more at each change of key. */
  ghost predicate Dense(k: seq<(int, int)>, v: seq<int>) {
    && |v| == |k| && (|v| > 0 ==> v[0] == 0)
    && forall p :: 1 <= p < |v| ==> v[p] == v[p - 1] + (if k[p] != k[p - 1] then 1 else 0)
  }

  ghost predicate Faithful(k: seq<(int, int)>, v: seq<int>)
    requires |v| == |k|
  {
    forall p, q :: 0 <= p <= q < |k| ==> v[p] <= v[q] && (v[p] == v[q] <==> k[p] == k[q])
  }

  lemma {:induction false} DenseFaithful(k: seq<(int, int)>, v: seq<int>)
    requires Ascending(k) && Dense(k, v)
    ensures Faithful(k, v)
    ensures forall p :: 0 <= p < |v| ==> 0 <= v[p] <= p
    decreases |k|
  {
    var n := |k| - 1;
    if n >= 1 {
      DenseFaithful(k[..n], v[..n]);
      forall p | 0 <= p < n ensures v[p] <= v[n] && (v[p] == v[n] <==> k[p] == k[n]) {
        assert v[..n][p] <= v[..n][n - 1] && (v[..n][p] == v[..n][n - 1] <==> k[..n][p] == k[..n][n - 1]);
        assert !KeyLess(k[n], k[n - 1]) && !KeyLess(k[n - 1], k[p]);
      }
      forall p, q | 0 <= p <= q < n ensures v[p] <= v[q] && (v[p] == v[q] <==> k[p] == k[q]) {
        assert v[..n][p] <= v[..n][q] && (v[..n][p] == v[..n][q] <==> k[..n][p] == k[..n][q]);
      }
      assert 0 <= v[..n][n - 1] <= n - 1;
      forall p | 0 <= p < n ensures 0 <= v[p] <= p {
        assert 0 <= v[..n][p] <= p;
      }
    }
  }

  lemma Decides(k: seq<(int, int)>, v: seq<int>, p: nat, q: nat)
    requires Ascending(k) && |v| == |k| && Faithful(k, v) && p < |k| && q < |k|
    ensures v[p] < v[q] <==> KeyLess(k[p], k[q])
    ensures v[p] == v[q] <==> k[p] == k[q]
  {
    assert p < q ==> !KeyLess(k[q], k[p]);
    assert q < p ==> !KeyLess(k[p], k[q]);
  }

  /** The last rank is as large as it can be exactly when no key repeats. */
  lemma {:induction false} DenseFull(k: seq<(int, int)>, v: seq<int>)
    requires Ascending(k) && Dense(k, v) && k != []
    ensures v[|v| - 1] == |v| - 1 <==> forall p, q :: 0 <= p < q < |k| ==> k[p] != k[q]
    decreases |k|
  {
    var n := |k| - 1;
    if n >= 1 {
      DenseFaithful(k, v);
      DenseFull(k[..n], v[..n]);
      assert v[..n][n - 1] == v[n - 1];
      if v[n] == n {
        forall p, q | 0 <= p < q < |k| ensures k[p] != k[q] {
          if q < n {
            assert k[..n][p] != k[..n][q];
          } else {
            assert v[p] <= v[n - 1] < v[n];
          }
        }
      }
      if forall p, q :: 0 <= p < q < |k| ==> k[p] != k[q] {
        assert k[n] != k[n - 1];
        assert forall p, q :: 0 <= p < q < n ==> k[..n][p] != k[..n][q];
      }
    }
  }

  /** The ranks of the next round, as the keys of this one decide them. */
  ghost predicate Next(rank: seq<int>, h: nat, newRank: seq<int>) {
    && |newRank| == |rank| && (forall i :: 0 <= i < |rank| ==> newRank[i] >= 0)
    && (forall i: nat, j: nat :: i < |rank| && j < |rank| ==>
          (newRank[i] < newRank[j] <==> KeyLess(Key(rank, h, i), Key(rank, h, j))))
    && (forall i: nat, j: nat :: i < |rank| && j < |rank| ==>
          (newRank[i] == newRank[j] <==> Key(rank, h, i) == Key(rank, h, j)))
  }

  /** `new_rank`, filled along the sorted order. */
  method NewRanks(rank: seq<int>, step: nat, order: seq<nat>) returns (newRank: seq<int>)
    requires rank != [] && Perm(order, |rank|) && Sorted(order, ByKey(rank, step))
    ensures |newRank| == |rank| && Next(rank, step, newRank)
    ensures newRank[order[|order| - 1]] == |order| - 1 <==>
            forall i: nat, j: nat :: i < j < |rank| ==> Key(rank, step, i) != Key(rank, step, j)
  {
    hide Key, KeyLess, ByKey;
    newRank := seq(|rank|, _ => 0);
    for position := 1 to |order|
      invariant |newRank| == |rank|
      invariant forall p :: 1 <= p < position ==>
                  newRank[order[p]] == newRank[order[p - 1]]
                    + (if Key(rank, step, order[p]) != Key(rank, step, order[p - 1]) then 1 else 0)
      invariant forall p :: position <= p < |order| ==> newRank[order[p]] == 0
      invariant newRank[order[0]] == 0
    {
      var here, previous := order[position], order[position - 1];
      newRank := newRank[here := newRank[previous] + (if Key(rank, step, here) != Key(rank, step, previous) then 1 else 0)];
    }
    RanksFaithful(rank, step, order, newRank);
  }

  ghost function KeysAlong(rank: seq<int>, step: nat, order: seq<nat>): (k: seq<(int, int)>)
    ensures |k| == |order| && forall p :: 0 <= p < |order| ==> k[p] == Key(rank, step, order[p])
  {
    seq(|order|, p requires 0 <= p < |order| => Key(rank, step, order[p]))
  }

  ghost function RanksAlong(newRank: seq<int>, order: seq<nat>): (v: seq<int>)
    requires Perm(order, |newRank|)
    ensures |v| == |order| && forall p :: 0 <= p < |order| ==> v[p] == newRank[order[p]]
  {
    seq(|order|, p requires 0 <= p < |order| => newRank[order[p]])
  }

  lemma KeysAscend(rank: seq<int>, step: nat, order: seq<nat>)
    requires Sorted(order, ByKey(rank, step))
    ensures Ascending(KeysAlong(rank, step, order))
  {
    forall p, q | 0 <= p < q < |order| ensures !KeyLess(KeysAlong(rank, step, order)[q], KeysAlong(rank, step, order)[p]) {
      assert ByKey(rank, step)(order[p], order[q]);
    }
  }

  lemma RanksFaithful(rank: seq<int>, step: nat, order: seq<nat>, newRank: seq<int>)
    requires rank != [] && Perm(order, |rank|) && Sorted(order, ByKey(rank, step)) && |newRank| == |rank|
    requires newRank[order[0]] == 0
    requires forall p :: 1 <= p < |order| ==>
               newRank[order[p]] == newRank[order[p - 1]]
                 + (if Key(rank, step, order[p]) != Key(rank, step, order[p - 1]) then 1 else 0)
    ensures Next(rank, step, newRank)
    ensures newRank[order[|order| - 1]] == |order| - 1 <==>
            forall i: nat, j: nat :: i < j < |rank| ==> Key(rank, step, i) != Key(rank, step, j)
  {
    hide Key, KeyLess, ByKey, Sorted, KeysAlong, RanksAlong;
    var k, v := KeysAlong(rank, step, order), RanksAlong(newRank, order);
    KeysAscend(rank, step, order);
    assert Dense(k, v);
    DenseFaithful(k, v);
    DenseFull(k, v);
    DistinctKeys(rank, step, order, k);
    hide Ascending, Dense, Faithful, Perm;
    forall i: nat, j: nat | i < |rank| && j < |rank|
      ensures newRank[i] >= 0
      ensures newRank[i] < newRank[j] <==> KeyLess(Key(rank, step, i), Key(rank, step, j))
      ensures newRank[i] == newRank[j] <==> Key(rank, step, i) == Key(rank, step, j)
    {
      DecidesAt(rank, step, order, newRank, k, v, i, j);
    }
  }

  lemma DecidesAt(rank: seq<int>, step: nat, order: seq<nat>, newRank: seq<int>, k: seq<(int, int)>, v: seq<int>, i: nat, j: nat)
    requires Perm(order, |rank|) && |newRank| == |k| == |v| == |rank| && i < |rank| && j < |rank|
    requires forall p :: 0 <= p < |order| ==> k[p] == Key(rank, step, order[p]) && v[p] == newRank[order[p]] && v[p] >= 0
    requires Ascending(k) && Faithful(k, v)
    ensures newRank[i] >= 0
    ensures newRank[i] < newRank[j] <==> KeyLess(Key(rank, step, i), Key(rank, step, j))
    ensures newRank[i] == newRank[j] <==> Key(rank, step, i) == Key(rank, step, j)
  {
    InverseOf(order, |rank|);
    var p, q := Inverse(order)[i], Inverse(order)[j];
    hide Key, KeyLess, Inverse;
    Decides(k, v, p, q);
  }

  lemma DistinctKeys(rank: seq<int>, step: nat, order: seq<nat>, k: seq<(int, int)>)
    requires Perm(order, |rank|) && |k| == |rank|
    requires forall p :: 0 <= p < |k| ==> k[p] == Key(rank, step, order[p])
    ensures (forall p, q :: 0 <= p < q < |k| ==> k[p] != k[q]) <==>
            (forall i: nat, j: nat :: i < j < |rank| ==> Key(rank, step, i) != Key(rank, step, j))
  {
    hide Key;
    var at := Inverse(order);
    InverseOf(order, |rank|);
    if forall p, q :: 0 <= p < q < |k| ==> k[p] != k[q] {
      forall i: nat, j: nat | i < j < |rank| ensures Key(rank, step, i) != Key(rank, step, j) {
        assert k[at[i]] == Key(rank, step, i) && k[at[j]] == Key(rank, step, j);
        assert at[i] < at[j] || at[j] < at[i];
      }
    }
    if forall i: nat, j: nat :: i < j < |rank| ==> Key(rank, step, i) != Key(rank, step, j) {
      forall p, q | 0 <= p < q < |k| ensures k[p] != k[q] {
        assert order[p] < order[q] || order[q] < order[p];
      }
    }
  }

  // ------------------------------------------------------------ the algorithm

  /** The positions of the stream in strictly increasing order of their suffixes. */
  ghost predicate IsSuffixArray(s: Stream, order: seq<nat>) {
    Perm(order, |s|) && forall p, q :: 0 <= p < q < |s| ==> LexLess(s[order[p]..], s[order[q]..])
  }

  function Power2(k: nat): nat { if k == 0 then 1 else 2 * Power2(k - 1) }

  lemma TellsDouble(s: Stream, rank: seq<int>, h: nat, newRank: seq<int>)
    requires Tells(s, rank, h) && h > 0 && Next(rank, h, newRank)
    ensures Tells(s, newRank, 2 * h)
  {
    hide Key, KeyLess, SameWithin;
    forall i: nat, j: nat | i < |s| && j < |s| ensures newRank[i] == newRank[j] <==> SameWithin(s, i, j, 2 * h) {
      KeysTell(s, rank, h, i, j);
    }
  }

  lemma RanksDouble(s: Stream, rank: seq<int>, h: nat, newRank: seq<int>)
    requires Ranked(s, rank, h) && h > 0 && Next(rank, h, newRank)
    ensures Ranked(s, newRank, 2 * h)
  {
    TellsDouble(s, rank, h, newRank);
    hide Key, KeyLess, PlacedWithin, SameWithin;
    forall i: nat, j: nat | i < |s| && j < |s| ensures newRank[i] < newRank[j] <==> PlacedWithin(s, i, j, 2 * h) {
      KeyDoubles(s, rank, h, i, j);
    }
  }

  /** The positions of the stream, each suffix placed before all later ones. */
  ghost predicate InPlace(s: Stream, order: seq<nat>) {
    Perm(order, |s|) && forall p, q :: 0 <= p < q < |s| ==> Placed(s, order[p], order[q])
  }

  lemma InPlacePositions(s: Stream, order: seq<nat>, p: nat, q: nat)
    requires InPlace(s, order) && p < |s| && q < |s|
    ensures Placed(s, order[p], order[q]) <==> p < q
  {
    hide Placed;
    if q < p {
      PlacedAsymmetric(s, order[q], order[p]);
    } else if p == q {
      NotPlacedHere(s, order[p]);
    }
  }

  /** Once no key repeats, sorting by keys puts every suffix in its place. */
  lemma DistinctInPlace(s: Stream, rank: seq<int>, h: nat, order: seq<nat>)
    requires Ranked(s, rank, h) && h > 0
    requires Perm(order, |s|) && Sorted(order, ByKey(rank, h))
    requires forall i: nat, j: nat :: i < j < |rank| ==> Key(rank, h, i) != Key(rank, h, j)
    ensures InPlace(s, order)
  {
    hide Placed, SameWithin, Key;
    forall p, q | 0 <= p < q < |s| ensures Placed(s, order[p], order[q]) {
      var i, j := order[p], order[q];
      assert ByKey(rank, h)(i, j);
      assert Key(rank, h, i) != Key(rank, h, j) by {
        assert i < j || j < i;
      }
      assert KeyLess(Key(rank, h, i), Key(rank, h, j));
      KeyDoubles(s, rank, h, i, j);
    }
  }

  /** Prefixes as long as the stream tell all suffixes apart. */
  lemma LongEnough(s: Stream, rank: seq<int>, h: nat)
    requires Tells(s, rank, h) && h > 0 && 2 * h >= |s|
    ensures forall i: nat, j: nat :: i < j < |rank| ==> Key(rank, h, i) != Key(rank, h, j)
  {
    forall i: nat, j: nat | i < j < |rank| ensures Key(rank, h, i) != Key(rank, h, j) {
      KeysTell(s, rank, h, i, j);
    }
  }

  // ------------------------------------------------------------ where the end marker misleads

  /** A copy of the last token before a separator is placed before the last suffix, which is a proper
      prefix of the suffix there. */
  lemma MisleadingCopy(s: Stream, v: nat)
    requires NoMarker(s) && Misleads(s, v)
    ensures Placed(s, v, |s| - 1) && LexLess(s[|s| - 1..], s[v..])
  {
    var last := |s| - 1;
    assert Common(s, v, last) == 1 + Common(s, v + 1, last + 1);
    assert Seen(s, v, 1) == s[v + 1] && Seen(s, last, 1) == -1;
    assert s[last..][0] == s[v..][0] && s[last..][1..] == [] && s[v..][1..] != [];
  }

  /** The order is lexicographic exactly when there is no such copy. */
  lemma InPlaceSortedIff(s: Stream, order: seq<nat>)
    requires NoMarker(s) && InPlace(s, order)
    ensures IsSuffixArray(s, order) <==> EndSafe(s)
  {
    hide Placed, LexLess, Misleads;
    if EndSafe(s) {
      forall p, q | 0 <= p < q < |s| ensures LexLess(s[order[p]..], s[order[q]..]) {
        PlacedIsLexLess(s, order[p], order[q]);
      }
    } else {
      var v: nat :| v < |s| && Misleads(s, v);
      MisplacedUnsorted(s, order, v);
    }
  }

  lemma MisplacedUnsorted(s: Stream, order: seq<nat>, v: nat)
    requires NoMarker(s) && InPlace(s, order) && v < |s| && Misleads(s, v)
    ensures !IsSuffixArray(s, order)
  {
    var last := |s| - 1;
    MisleadingCopy(s, v);
    hide Placed, LexLess, Misleads;
    LexAsymmetric(s[last..], s[v..]);
    InverseOf(order, |s|);
    var p, q := Inverse(order)[v], Inverse(order)[last];
    InPlacePositions(s, order, p, q);
  }

  // ------------------------------------------------------------ the loop

  lemma RankedLength(s: Stream, rank: seq<int>, h: nat)
    requires Ranked(s, rank, h)
    ensures |rank| == |s| && Tells(s, rank, h)
  {}

  /** One round: sort by pairs of ranks, and number the positions along the sorted order. */
  method Round(stream: Stream, rank: seq<int>, step: nat, before: seq<nat>) returns (order: seq<nat>, newRank: seq<int>)
    requires stream != [] && Ranked(stream, rank, step) && step > 0 && Perm(before, |stream|)
    ensures Perm(order, |stream|) && |newRank| == |stream| && Ranked(stream, newRank, 2 * step)
    ensures newRank[order[|stream| - 1]] == |stream| - 1 ==> InPlace(stream, order)
    ensures newRank[order[|stream| - 1]] != |stream| - 1 ==> 2 * step < |stream|
  {
    PermLength(before, |stream|);
    hide *;
    RankedLength(stream, rank, step);
    SortedPerm(before, rank, step);
    order := Sort(before, ByKey(rank, step));
    newRank := NewRanks(rank, step, order);
    RanksDouble(stream, rank, step, newRank);
    PermLength(order, |stream|);
    if newRank[order[|stream| - 1]] == |stream| - 1 {
      DistinctInPlace(stream, rank, step, order);
    } else if 2 * step >= |stream| {
      LongEnough(stream, rank, step);
    }
  }

  lemma PermLength(order: seq<nat>, n: nat)
    requires Perm(order, n)
    ensures |order| == n && forall p :: 0 <= p < n ==> order[p] < n
  {}

  /** `suffix_array`, with the number of doublings it takes. Every suffix is in its place, and that is
      the sorted order exactly when the end marker is safe. */
  method Build(stream: Stream) returns (order: seq<nat>, ghost rounds: nat)
    requires NoMarker(stream)
    ensures InPlace(stream, order)
    ensures IsSuffixArray(stream, order) <==> EndSafe(stream)
    ensures rounds > 1 ==> Power2(rounds - 1) < |stream|
  {
    hide *;
    var n := |stream|;
    rounds := 0;
    if n == 0 {
      EmptyInPlace(stream);
      return [], 0;
    }
    order := seq(n, i requires 0 <= i < n => i);
    var rank, step: nat := stream, 1;
    StreamRanked(stream);
    PowerSteps(0);
    IdentityPerm(order, n);
    while true
      invariant Perm(order, n) && |rank| == n && Ranked(stream, rank, step)
      invariant step == Power2(rounds) && 0 < step
      invariant rounds > 0 ==> step < n
      decreases n - step
    {
      order, rank := Round(stream, rank, step, order);
      PermLength(order, n);
      PowerSteps(rounds);
      rounds := rounds + 1;
      if rank[order[n - 1]] == n - 1 {
        InPlaceSortedIff(stream, order);
        return;
      }
      step := step * 2;
    }
  }

  lemma EmptyInPlace(s: Stream)
    requires s == []
    ensures InPlace(s, []) && IsSuffixArray(s, []) && EndSafe(s)
  {}

  lemma IdentityPerm(order: seq<nat>, n: nat)
    requires |order| == n && forall i :: 0 <= i < n ==> order[i] == i
    ensures Perm(order, n)
  {}

  lemma PowerSteps(k: nat)
    ensures Power2(0) == 1 && Power2(k + 1) == 2 * Power2(k)
  {}

  lemma SortedPerm(order: seq<nat>, rank: seq<int>, step: nat)
    requires Perm(order, |rank|)
    ensures Perm(Sort(order, ByKey(rank, step)), |rank|)
    ensures Sorted(Sort(order, ByKey(rank, step)), ByKey(rank, step))
  {
    var sorted := Sort(order, ByKey(rank, step));
    ByKeyPreorder(rank, step);
    hide ByKey;
    SortSorted(order, ByKey(rank, step));
    NoDupCounts(order);
    NoDupCounts(sorted);
    forall p | 0 <= p < |sorted| ensures sorted[p] < |rank| {
      assert sorted[p] in multiset(sorted);
      assert sorted[p] in multiset(order);
    }
  }
}
