/** Windows inside segments, and their grouping by key. */
module Segments {
  import opened Packing
  import opened PatternCover

  // ------------------------------------------------------------ segments

  /** Runs of consecutive indices, in ascending order. */
  predicate Runs(segments: seq<Window>) {
    && (forall i :: 0 <= i < |segments| ==> IsRun(segments[i], |segments[i]|))
    && (forall i, j :: 0 <= i < j < |segments| ==> segments[i][0] + |segments[i]| <= segments[j][0])
  }

  // ------------------------------------------------------------ windows

  function Slice(segment: Window, offset: nat, length: nat): (w: Window)
    requires offset + length <= |segment|
    ensures |w| == length
  {
    segment[offset..offset + length]
  }

  function SegmentWindows(segment: Window, length: nat): (ws: seq<Window>)
    requires length >= 1
  {
    if |segment| < length then [] else
      seq(|segment| - length + 1, offset requires 0 <= offset < |segment| - length + 1 => Slice(segment, offset, length))
  }

  /** `TokenStream.windows`. */
  function Windows(segments: seq<Window>, length: nat): seq<Window>
    requires length >= 1
  {
    if segments == [] then [] else SegmentWindows(segments[0], length) + Windows(segments[1..], length)
  }

  /** `w` is a contiguous stretch of the segment. */
  ghost predicate Within(segment: Window, length: nat, w: Window) {
    exists offset: nat :: offset + length <= |segment| && w == Slice(segment, offset, length)
  }

  lemma SegmentWindowsExact(segment: Window, length: nat, w: Window)
    requires length >= 1
    ensures w in SegmentWindows(segment, length) <==> Within(segment, length, w)
  {
    var ws := SegmentWindows(segment, length);
    if offset: nat :| offset + length <= |segment| && w == Slice(segment, offset, length) {
      assert ws[offset] == w;
    }
  }

  /** The windows are the contiguous stretches of that length that cross no segment boundary. */
  lemma {:induction false} WindowsExact(segments: seq<Window>, length: nat, w: Window)
    requires length >= 1
    ensures w in Windows(segments, length) <==> exists i :: 0 <= i < |segments| && Within(segments[i], length, w)
  {
    hide Within, SegmentWindows;
    if segments != [] {
      WindowsExact(segments[1..], length, w);
      SegmentWindowsExact(segments[0], length, w);
      if i :| 0 <= i < |segments[1..]| && Within(segments[1..][i], length, w) {
        assert segments[i + 1] == segments[1..][i];
      }
      if i :| 0 <= i < |segments| && Within(segments[i], length, w) {
        assert i > 0 ==> segments[1..][i - 1] == segments[i];
      }
    }
  }

  lemma SegmentInOrder(segment: Window, length: nat)
    requires length >= 1 && IsRun(segment, |segment|)
    ensures InStartOrder(SegmentWindows(segment, length), length)
    ensures forall w <- SegmentWindows(segment, length) :: segment[0] <= w[0] < segment[0] + |segment|
  {
    var ws := SegmentWindows(segment, length);
    forall i | 0 <= i < |ws| ensures IsRun(ws[i], length) && ws[i][0] == segment[0] + i {
      forall k | 0 <= k < length ensures ws[i][k] == ws[i][0] + k {
        assert ws[i][k] == segment[i + k];
      }
    }
  }

  lemma OrderAppends(a: seq<Window>, b: seq<Window>, n: nat)
    requires InStartOrder(a, n) && InStartOrder(b, n)
    requires forall i, j :: 0 <= i < |a| && 0 <= j < |b| ==> a[i][0] < b[j][0]
    ensures InStartOrder(a + b, n)
  {
    var all := a + b;
    forall i | 0 <= i < |all| ensures IsRun(all[i], n) {
      assert i >= |a| ==> all[i] == b[i - |a|];
    }
    hide IsRun;
    forall i, j | 0 <= i < j < |all| ensures all[i][0] < all[j][0] {
      assert j >= |a| ==> all[j] == b[j - |a|];
      assert i >= |a| ==> all[i] == b[i - |a|];
    }
  }

  lemma {:induction false} WindowsInOrder(segments: seq<Window>, length: nat)
    requires length >= 1 && Runs(segments)
    ensures InStartOrder(Windows(segments, length), length)
    ensures forall w <- Windows(segments, length) :: w != [] && segments != [] && w[0] >= segments[0][0]
  {
    if segments != [] {
      var here, rest := SegmentWindows(segments[0], length), Windows(segments[1..], length);
      WindowsInOrder(segments[1..], length);
      SegmentInOrder(segments[0], length);
      forall w | w in rest ensures w != [] && w[0] >= segments[0][0] + |segments[0]| {
        assert segments[1..][0] == segments[1];
      }
      forall i, j | 0 <= i < |here| && 0 <= j < |rest| ensures here[i][0] < rest[j][0] {
        assert here[i] in here && rest[j] in rest;
      }
      OrderAppends(here, rest, length);
    }
  }

  // ------------------------------------------------------------ filtering and grouping

  function Filter(ws: seq<Window>, keep: Window -> bool): seq<Window> {
    if ws == [] then [] else (if keep(ws[0]) then [ws[0]] else []) + Filter(ws[1..], keep)
  }

  lemma {:induction false} FilterMembers(ws: seq<Window>, keep: Window -> bool)
    ensures forall w :: w in Filter(ws, keep) <==> w in ws && keep(w)
  {
    if ws != [] {
      FilterMembers(ws[1..], keep);
    }
  }

  lemma {:induction false} FilterInOrder(ws: seq<Window>, n: nat, keep: Window -> bool)
    requires InStartOrder(ws, n)
    ensures InStartOrder(Filter(ws, keep), n)
  {
    if ws != [] {
      FilterInOrder(ws[1..], n, keep);
      FilterMembers(ws[1..], keep);
      FirstBefore(ws, n, Filter(ws[1..], keep));
      hide IsRun, InStartOrder;
      assert [] + Filter(ws[1..], keep) == Filter(ws[1..], keep);
    }
  }

  /** A selection from the rest of an ordered list follows its first window. */
  lemma FirstBefore(ws: seq<Window>, n: nat, rest: seq<Window>)
    requires ws != [] && InStartOrder(ws, n) && InStartOrder(rest, n) && forall w <- rest :: w in ws[1..]
    ensures InStartOrder([ws[0]] + rest, n)
  {
    forall j | 0 <= j < |rest| ensures ws[0][0] < rest[j][0] {
      assert rest[j] in rest;
      var i :| 0 <= i < |ws[1..]| && ws[1..][i] == rest[j];
      assert ws[i + 1] == rest[j];
    }
    OrderAppends([ws[0]], rest, n);
  }

  /** The windows with key `k`, in order. */
  function OfKey<K(==)>(ws: seq<Window>, key: Window -> K, k: K): seq<Window> {
    if ws == [] then [] else
      OfKey(ws[..|ws| - 1], key, k) + if key(ws[|ws| - 1]) == k then [ws[|ws| - 1]] else []
  }

  lemma {:induction false} OfKeyMembers<K>(ws: seq<Window>, key: Window -> K, k: K)
    ensures forall w :: w in OfKey(ws, key, k) <==> w in ws && key(w) == k
  {
    if ws != [] {
      OfKeyMembers(ws[..|ws| - 1], key, k);
    }
  }

  lemma {:induction false} OfKeyInOrder<K>(ws: seq<Window>, n: nat, key: Window -> K, k: K)
    requires InStartOrder(ws, n)
    ensures InStartOrder(OfKey(ws, key, k), n)
  {
    if ws != [] {
      var before, w := OfKey(ws[..|ws| - 1], key, k), ws[|ws| - 1];
      OfKeyInOrder(ws[..|ws| - 1], n, key, k);
      OfKeyMembers(ws[..|ws| - 1], key, k);
      assert before == before + [];
      forall i | 0 <= i < |before| ensures before[i][0] < w[0] {
        assert before[i] in ws[..|ws| - 1];
      }
      OrderAppends(before, [w], n);
    }
  }

  function KeyIndex<K(==)>(groups: Candidates<K>, k: K): (i: nat)
    ensures i <= |groups| && (i < |groups| ==> groups[i].0 == k)
    ensures forall j :: 0 <= j < i ==> groups[j].0 != k
  {
    if groups == [] || groups[0].0 == k then 0 else 1 + KeyIndex(groups[1..], k)
  }

  /** What the dictionary of lists holds after the windows were appended one by one. */
  ghost predicate GroupsOf<K(!new)>(groups: Candidates<K>, ws: seq<Window>, key: Window -> K) {
    && (forall i, j :: 0 <= i < j < |groups| ==> groups[i].0 != groups[j].0)
    && (forall i :: 0 <= i < |groups| ==> groups[i].1 != [] && groups[i].1 == OfKey(ws, key, groups[i].0))
    && (forall k :: OfKey(ws, key, k) != [] ==> exists i :: 0 <= i < |groups| && groups[i].0 == k)
  }

  /** `groups`: windows by key, keys in order of first use. */
  function Grouped<K(==)>(ws: seq<Window>, key: Window -> K): Candidates<K> {
    if ws == [] then [] else
      var before := Grouped(ws[..|ws| - 1], key);
      var w := ws[|ws| - 1];
      Appended(before, key(w), w)
  }

  function Appended<K(==)>(groups: Candidates<K>, k: K, w: Window): Candidates<K> {
    var i := KeyIndex(groups, k);
    if i < |groups| then groups[i := (k, groups[i].1 + [w])] else groups + [(k, [w])]
  }

  method Groups<K(==)>(windows: seq<Window>, key: Window -> K) returns (groups: Candidates<K>)
    ensures groups == Grouped(windows, key)
  {
    groups := [];
    for i := 0 to |windows|
      invariant groups == Grouped(windows[..i], key)
    {
      assert windows[..i + 1][..i] == windows[..i];
      groups := Appended(groups, key(windows[i]), windows[i]);
    }
    assert windows[..|windows|] == windows;
  }

  /** The grouping is exact: distinct keys, and each with all of its windows in order. */
  lemma {:induction false} GroupedExact<K(!new)>(ws: seq<Window>, key: Window -> K)
    ensures GroupsOf(Grouped(ws, key), ws, key)
  {
    if ws == [] {
    } else {
      var before, w := ws[..|ws| - 1], ws[|ws| - 1];
      GroupedExact(before, key);
      AppendedExact(Grouped(before, key), before, w, key);
      assert before + [w] == ws;
    }
  }

  lemma NewGroup<K(!new)>(groups: Candidates<K>, ws: seq<Window>, w: Window, key: Window -> K)
    requires GroupsOf(groups, ws, key) && forall i :: 0 <= i < |groups| ==> groups[i].0 != key(w)
    ensures GroupsOf(groups + [(key(w), [w])], ws + [w], key)
  {
    var all, next := ws + [w], groups + [(key(w), [w])];
    OfKeyNext(ws, w, key);
    hide OfKey;
    assert next[|groups|] == (key(w), [w]) && OfKey(ws, key, key(w)) == [];
    forall i | 0 <= i < |groups| ensures next[i] == groups[i] {}
    forall k | OfKey(all, key, k) != [] ensures exists i :: 0 <= i < |next| && next[i].0 == k {
      if k != key(w) {
        var i :| 0 <= i < |groups| && groups[i].0 == k;
        assert next[i].0 == k;
      }
    }
  }

  lemma OldGroup<K(!new)>(groups: Candidates<K>, ws: seq<Window>, w: Window, key: Window -> K, at: nat)
    requires GroupsOf(groups, ws, key) && at < |groups| && groups[at].0 == key(w)
    ensures GroupsOf(groups[at := (key(w), groups[at].1 + [w])], ws + [w], key)
  {
    var all, next := ws + [w], groups[at := (key(w), groups[at].1 + [w])];
    OfKeyNext(ws, w, key);
    hide OfKey;
    forall i | 0 <= i < |groups| ensures next[i].0 == groups[i].0 {}
    forall k | OfKey(all, key, k) != [] ensures exists i :: 0 <= i < |next| && next[i].0 == k {
      if k == key(w) {
        assert next[at].0 == k;
      } else {
        var i :| 0 <= i < |groups| && groups[i].0 == k;
        assert next[i].0 == k;
      }
    }
  }

  lemma OfKeyNext<K(!new)>(ws: seq<Window>, w: Window, key: Window -> K)
    ensures forall k :: OfKey(ws + [w], key, k) == OfKey(ws, key, k) + if key(w) == k then [w] else []
  {
    var all := ws + [w];
    assert all[..|all| - 1] == ws;
  }

  lemma AppendedExact<K(!new)>(groups: Candidates<K>, ws: seq<Window>, w: Window, key: Window -> K)
    requires GroupsOf(groups, ws, key)
    ensures GroupsOf(Appended(groups, key(w), w), ws + [w], key)
  {
    hide GroupsOf, KeyIndex;
    var at := KeyIndex(groups, key(w));
    if at < |groups| {
      OldGroup(groups, ws, w, key, at);
    } else {
      NewGroup(groups, ws, w, key);
    }
  }

  // ------------------------------------------------------------ the order of the keys

  /** Where the first of the windows starts. */
  ghost function FirstStart(ws: seq<Window>): int { if ws == [] || ws[0] == [] then -1 else ws[0][0] }

  /** Keys come in the order in which they are first used. */
  ghost predicate ByFirstUse<K>(groups: Candidates<K>) {
    forall i, j :: 0 <= i < j < |groups| ==> FirstStart(groups[i].1) < FirstStart(groups[j].1)
  }

  lemma FirstOfKey<K(!new)>(ws: seq<Window>, n: nat, key: Window -> K, k: K, limit: nat)
    requires InStartOrder(ws, n) && OfKey(ws, key, k) != [] && forall w <- ws :: w != [] ==> w[0] < limit
    ensures 0 <= FirstStart(OfKey(ws, key, k)) < limit
  {
    OfKeyMembers(ws, key, k);
    assert OfKey(ws, key, k)[0] in ws;
  }

  lemma AppendedByFirstUse<K(!new)>(groups: Candidates<K>, ws: seq<Window>, w: Window, n: nat, key: Window -> K)
    requires InStartOrder(ws, n) && w != [] && (forall u <- ws :: u != [] ==> u[0] < w[0])
    requires GroupsOf(groups, ws, key) && ByFirstUse(groups)
    ensures ByFirstUse(Appended(groups, key(w), w))
  {
    var after := Appended(groups, key(w), w);
    forall i | 0 <= i < |groups|
      ensures FirstStart(after[i].1) == FirstStart(groups[i].1) < w[0]
    {
      FirstOfKey(ws, n, key, groups[i].0, w[0]);
    }
    hide OfKey, InStartOrder, KeyIndex;
  }

  /** Windows in start order are grouped by first use. */
  lemma {:induction false} GroupedByFirstUse<K(!new)>(ws: seq<Window>, n: nat, key: Window -> K)
    requires InStartOrder(ws, n)
    ensures ByFirstUse(Grouped(ws, key))
  {
    if ws != [] {
      var before, w := ws[..|ws| - 1], ws[|ws| - 1];
      assert IsRun(w, n) && forall u <- before :: u != [] ==> u[0] < w[0];
      GroupedByFirstUse(before, n, key);
      GroupedExact(before, key);
      AppendedByFirstUse(Grouped(before, key), before, w, n, key);
    }
  }
}
