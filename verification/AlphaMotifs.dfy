/** Alpha-renamed motifs, and the one-step closure test that stands for every extension. */
module AlphaMotifs {
  import opened Listing
  import opened Sorting
  import opened AscendingLists
  import opened Segments
  import opened Windows
  import opened Renaming
  import P = Packing

  const MAXIMUM_LENGTH: nat := 40

  type Motif = seq<string>
  type Table = map<Motif, seq<nat>>

  // ------------------------------------------------------------ occurrences

  /** The window of that length at `start` lies inside one segment. */
  ghost predicate InSegments(segments: seq<P.Window>, start: nat, length: nat) {
    exists i :: 0 <= i < |segments| && segments[i] != []
                && segments[i][0] <= start && start + length <= segments[i][0] + |segments[i]|
  }

  /** Segments are runs of instructions of the code, in order. */
  ghost predicate Covers(segments: seq<P.Window>, code: Window) {
    && Runs(segments) && PlainMnemonics(code)
    && forall s <- segments :: s != [] ==> s[0] + |s| <= |code|
  }

  function MotifAt(code: Window, start: nat, length: nat): Motif
    requires start + length <= |code|
  {
    Alpha(code[start..start + length])
  }

  ghost predicate OccursAt(code: Window, segments: seq<P.Window>, length: nat, motif: Motif, start: nat) {
    InSegments(segments, start, length) && start + length <= |code| && MotifAt(code, start, length) == motif
  }

  /** All the starts of a motif, ascending. */
  ghost predicate Starts(code: Window, segments: seq<P.Window>, length: nat, motif: Motif, starts: seq<nat>) {
    StrictlyAscending(starts) && forall s: nat :: s in starts <==> OccursAt(code, segments, length, motif, s)
  }

  /** The table holds the motifs that occur at least twice, with all their starts. */
  ghost predicate Repeated(code: Window, segments: seq<P.Window>, length: nat, table: Table) {
    && (forall motif <- table :: |table[motif]| >= 2 && Starts(code, segments, length, motif, table[motif]))
    && (forall motif, a: nat, b: nat ::
          (a < b && OccursAt(code, segments, length, motif, a) && OccursAt(code, segments, length, motif, b))
          ==> motif in table)
  }

  lemma StartOfWindow(segments: seq<P.Window>, length: nat, w: P.Window)
    requires length >= 1 && Runs(segments) && w in Segments.Windows(segments, length)
    ensures |w| == length && InSegments(segments, w[0], length)
  {
    WindowsExact(segments, length, w);
    var i :| 0 <= i < |segments| && Within(segments[i], length, w);
    var offset: nat :| offset + length <= |segments[i]| && w == Slice(segments[i], offset, length);
    assert P.IsRun(segments[i], |segments[i]|);
  }

  lemma WindowAtStart(segments: seq<P.Window>, length: nat, start: nat) returns (w: P.Window)
    requires length >= 1 && Runs(segments) && InSegments(segments, start, length)
    ensures w in Segments.Windows(segments, length) && w != [] && w[0] == start
  {
    var i :| 0 <= i < |segments| && segments[i] != []
             && segments[i][0] <= start && start + length <= segments[i][0] + |segments[i]|;
    var offset: nat := start - segments[i][0];
    w := Slice(segments[i], offset, length);
    assert P.IsRun(segments[i], |segments[i]|);
    assert Within(segments[i], length, w);
    WindowsExact(segments, length, w);
  }

  // ------------------------------------------------------------ enumeration at one length

  ghost predicate Holds(occurrences: Table, motif: Motif, s: nat) {
    motif in occurrences && s in occurrences[motif]
  }

  /** One of the first `k` windows starts at `s` and has that motif. */
  ghost predicate Seen(code: Window, length: nat, starts: seq<nat>, k: nat, motif: Motif, s: nat)
    requires k <= |starts| && forall i :: 0 <= i < |starts| ==> starts[i] + length <= |code|
  {
    exists j :: 0 <= j < k && starts[j] == s && MotifAt(code, starts[j], length) == motif
  }

  /** The dictionary of lists after the first `k` windows. */
  ghost predicate Collected(code: Window, length: nat, starts: seq<nat>, k: nat, occurrences: Table)
    requires k <= |starts| && forall i :: 0 <= i < |starts| ==> starts[i] + length <= |code|
  {
    && (forall motif <- occurrences :: StrictlyAscending(occurrences[motif]))
    && (forall motif, s: nat :: Holds(occurrences, motif, s) <==> Seen(code, length, starts, k, motif, s))
  }

  /** One more start recorded under its motif. */
  function Noted(occurrences: Table, motif: Motif, start: nat): Table {
    occurrences[motif := (if motif in occurrences then occurrences[motif] else []) + [start]]
  }

  lemma HoldsNext(occurrences: Table, motif: Motif, start: nat, m: Motif, s: nat)
    ensures Holds(Noted(occurrences, motif, start), m, s) <==> Holds(occurrences, m, s) || (m == motif && s == start)
  {}

  lemma SeenNext(code: Window, length: nat, starts: seq<nat>, k: nat, m: Motif, s: nat)
    requires k < |starts| && forall i :: 0 <= i < |starts| ==> starts[i] + length <= |code|
    ensures Seen(code, length, starts, k + 1, m, s) <==>
            Seen(code, length, starts, k, m, s) || (m == MotifAt(code, starts[k], length) && s == starts[k])
  {
    hide MotifAt;
    if Seen(code, length, starts, k + 1, m, s) {
      var j :| 0 <= j < k + 1 && starts[j] == s && MotifAt(code, starts[j], length) == m;
      assert j < k ==> Seen(code, length, starts, k, m, s);
    }
  }

  lemma CollectedNext(code: Window, length: nat, starts: seq<nat>, k: nat, occurrences: Table)
    requires k < |starts| && StrictlyAscending(starts)
    requires forall i :: 0 <= i < |starts| ==> starts[i] + length <= |code|
    requires Collected(code, length, starts, k, occurrences)
    ensures Collected(code, length, starts, k + 1, Noted(occurrences, MotifAt(code, starts[k], length), starts[k]))
  {
    var start, after := starts[k], k + 1;
    var motif := MotifAt(code, start, length);
    hide MotifAt;
    var next := Noted(occurrences, motif, start);
    forall s | Holds(occurrences, motif, s) ensures s < start {
      assert Seen(code, length, starts, k, motif, s);
    }
    forall m | m in next ensures StrictlyAscending(next[m]) {
      if m == motif && m in occurrences {
        assert forall s <- occurrences[m] :: Holds(occurrences, m, s);
        AscendingAppends(occurrences[m], start);
      }
    }
    hide Holds, Seen, Noted, StrictlyAscending;
    forall m, s: nat ensures Holds(next, m, s) <==> Seen(code, length, starts, after, m, s) {
      HoldsNext(occurrences, motif, start, m, s);
      SeenNext(code, length, starts, k, m, s);
    }
  }

  lemma AscendingAppends(a: seq<nat>, x: nat)
    requires StrictlyAscending(a) && forall y <- a :: y < x
    ensures StrictlyAscending(a + [x])
  {
    forall i | 0 <= i < |a| ensures a[i] < x {
      assert a[i] in a;
    }
  }

  /** The motifs recorded at least twice, each with its starts in ascending order. */
  function Frequent(occurrences: Table): Table {
    map motif | motif in occurrences && |occurrences[motif]| >= 2 :: Sort(occurrences[motif], NatLe)
  }

  lemma FrequentExact(code: Window, segments: seq<P.Window>, length: nat, occurrences: Table)
    requires forall motif <- occurrences :: StrictlyAscending(occurrences[motif])
    requires forall motif, s: nat :: Holds(occurrences, motif, s) <==> OccursAt(code, segments, length, motif, s)
    ensures Repeated(code, segments, length, Frequent(occurrences))
  {
    var table := Frequent(occurrences);
    hide OccursAt;
    forall motif | motif in table ensures |table[motif]| >= 2 && Starts(code, segments, length, motif, table[motif]) {
      SortedNoDup(occurrences[motif]);
      hide StrictlyAscending, Sort;
      assert forall s: nat :: s in table[motif] <==> Holds(occurrences, motif, s);
    }
    forall motif, a: nat, b: nat |
      a < b && OccursAt(code, segments, length, motif, a) && OccursAt(code, segments, length, motif, b)
      ensures motif in table
    {
      assert Holds(occurrences, motif, a) && Holds(occurrences, motif, b);
      TwoMembers(occurrences[motif], a, b);
    }
  }

  lemma TwoMembers(list: seq<nat>, a: nat, b: nat)
    requires a in list && b in list && a != b
    ensures |list| >= 2
  {
    var i :| 0 <= i < |list| && list[i] == a;
    var j :| 0 <= j < |list| && list[j] == b;
  }

  /** The start of every window, in order. */
  function WindowStarts(segments: seq<P.Window>, length: nat): (starts: seq<nat>)
    requires length >= 1 && Runs(segments)
  {
    var ws := Segments.Windows(segments, length);
    WindowsInOrder(segments, length);
    seq(|ws|, i requires 0 <= i < |ws| => ws[i][0])
  }

  lemma WindowStartsExact(segments: seq<P.Window>, length: nat)
    requires length >= 1 && Runs(segments)
    ensures StrictlyAscending(WindowStarts(segments, length))
    ensures forall s: nat :: s in WindowStarts(segments, length) <==> InSegments(segments, s, length)
  {
    var ws, starts := Segments.Windows(segments, length), WindowStarts(segments, length);
    WindowsInOrder(segments, length);
    forall s: nat ensures s in starts <==> InSegments(segments, s, length) {
      if s in starts {
        var i :| 0 <= i < |starts| && starts[i] == s;
        StartOfWindow(segments, length, ws[i]);
      }
      if InSegments(segments, s, length) {
        var w := WindowAtStart(segments, length, s);
        var i :| 0 <= i < |ws| && ws[i] == w;
        assert starts[i] == s;
      }
    }
  }

  lemma StartFits(segments: seq<P.Window>, code: Window, length: nat, start: nat)
    requires Covers(segments, code) && InSegments(segments, start, length)
    ensures start + length <= |code|
  {
    var i :| 0 <= i < |segments| && segments[i] != []
             && segments[i][0] <= start && start + length <= segments[i][0] + |segments[i]|;
    assert segments[i] in segments;
  }

  lemma CollectedExact(code: Window, segments: seq<P.Window>, length: nat, starts: seq<nat>, occurrences: Table)
    requires Covers(segments, code) && length >= 1 && starts == WindowStarts(segments, length)
    requires (forall i :: 0 <= i < |starts| ==> starts[i] + length <= |code|)
             && Collected(code, length, starts, |starts|, occurrences)
    ensures forall motif, s: nat :: Holds(occurrences, motif, s) <==> OccursAt(code, segments, length, motif, s)
  {
    WindowStartsExact(segments, length);
    hide InSegments, Covers, WindowStarts, MotifAt, Holds;
    forall motif, s: nat ensures Seen(code, length, starts, |starts|, motif, s) <==> OccursAt(code, segments, length, motif, s) {
      if Seen(code, length, starts, |starts|, motif, s) {
        assert s in starts;
      }
      if OccursAt(code, segments, length, motif, s) {
        assert s in starts;
        var j :| 0 <= j < |starts| && starts[j] == s;
      }
    }
  }

  lemma CoversRuns(segments: seq<P.Window>, code: Window)
    requires Covers(segments, code)
    ensures Runs(segments)
  {}

  method MotifsOfLength(code: Window, segments: seq<P.Window>, length: nat) returns (table: Table, anyWindow: bool)
    requires Covers(segments, code) && length >= 1
    ensures anyWindow <==> exists start: nat :: InSegments(segments, start, length)
    ensures Repeated(code, segments, length, table)
  {
    hide *;
    CoversRuns(segments, code);
    var starts := WindowStarts(segments, length);
    StartsFit(segments, code, length);
    var occurrences: Table := map[];
    NothingCollected(code, length, starts);
    anyWindow := false;
    for k := 0 to |starts|
      invariant Collected(code, length, starts, k, occurrences)
      invariant anyWindow <==> k > 0
    {
      anyWindow := true;
      var start := starts[k];
      var motif := AlphaRename(code[start..start + length]);
      MotifIs(code, start, length);
      CollectedNext(code, length, starts, k, occurrences);
      occurrences := Noted(occurrences, motif, start);
    }
    table := Frequent(occurrences);
    AllCollected(code, segments, length, starts, occurrences);
  }

  lemma AllCollected(code: Window, segments: seq<P.Window>, length: nat, starts: seq<nat>, occurrences: Table)
    requires Covers(segments, code) && length >= 1 && starts == WindowStarts(segments, length)
    requires (forall i :: 0 <= i < |starts| ==> starts[i] + length <= |code|)
             && Collected(code, length, starts, |starts|, occurrences)
    ensures Repeated(code, segments, length, Frequent(occurrences))
  {
    hide *;
    CollectedExact(code, segments, length, starts, occurrences);
    CollectedAscends(code, length, starts, |starts|, occurrences);
    FrequentExact(code, segments, length, occurrences);
  }

  lemma NothingCollected(code: Window, length: nat, starts: seq<nat>)
    requires forall i :: 0 <= i < |starts| ==> starts[i] + length <= |code|
    ensures Collected(code, length, starts, 0, map[])
  {}

  lemma MotifIs(code: Window, start: nat, length: nat)
    requires start + length <= |code|
    ensures MotifAt(code, start, length) == Alpha(code[start..start + length])
  {}

  lemma CollectedAscends(code: Window, length: nat, starts: seq<nat>, k: nat, occurrences: Table)
    requires k <= |starts| && forall i :: 0 <= i < |starts| ==> starts[i] + length <= |code|
    requires Collected(code, length, starts, k, occurrences)
    ensures forall motif <- occurrences :: StrictlyAscending(occurrences[motif])
  {}

  lemma StartsFit(segments: seq<P.Window>, code: Window, length: nat)
    requires Covers(segments, code) && length >= 1
    ensures var starts := WindowStarts(segments, length);
            && StrictlyAscending(starts) && (forall i :: 0 <= i < |starts| ==> starts[i] + length <= |code|)
            && (|starts| > 0 <==> exists start: nat :: InSegments(segments, start, length))
  {
    var starts := WindowStarts(segments, length);
    WindowStartsExact(segments, length);
    hide InSegments, Covers, WindowStarts;
    forall i | 0 <= i < |starts| ensures starts[i] + length <= |code| && InSegments(segments, starts[i], length) {
      assert starts[i] in starts;
      StartFits(segments, code, length, starts[i]);
    }
    if start: nat :| InSegments(segments, start, length) {
      assert start in starts;
    }
    if |starts| > 0 {
      assert InSegments(segments, starts[0], length);
    }
  }

  /** The tables of every length up to the cap for which some segment has a window. */
  ghost predicate Enumerated(code: Window, segments: seq<P.Window>, byLength: map<nat, Table>) {
    forall length: nat ::
      && (length in byLength <==> 2 <= length <= MAXIMUM_LENGTH && exists start: nat :: InSegments(segments, start, length))
      && (length in byLength ==> Repeated(code, segments, length, byLength[length]))
  }

  lemma ShorterFits(segments: seq<P.Window>, start: nat, length: nat, offset: nat, shorter: nat)
    requires InSegments(segments, start, length) && offset + shorter <= length
    ensures InSegments(segments, start + offset, shorter)
  {}

  /** `alpha_motifs`. */
  method AlphaMotifs(code: Window, segments: seq<P.Window>) returns (byLength: map<nat, Table>)
    requires Covers(segments, code)
    ensures Enumerated(code, segments, byLength)
  {
    byLength := map[];
    hide InSegments, Covers, Repeated;
    for length: nat := 2 to MAXIMUM_LENGTH + 1
      invariant forall l: nat :: l in byLength <==> 2 <= l < length && exists start: nat :: InSegments(segments, start, l)
      invariant forall l: nat :: l in byLength ==> Repeated(code, segments, l, byLength[l])
    {
      var table, anyWindow := MotifsOfLength(code, segments, length);
      if !anyWindow {
        forall l: nat, start: nat | l >= length ensures !InSegments(segments, start, l) {
          if InSegments(segments, start, l) {
            ShorterFits(segments, start, l, 0, length);
          }
        }
        break;
      }
      byLength := byLength[length := table];
    }
  }

  // ------------------------------------------------------------ closed motifs

  /** The starts, all moved to the right by `o`. */
  function Shifted(starts: seq<nat>, o: nat): (r: seq<nat>)
    ensures |r| == |starts| && forall i :: 0 <= i < |starts| ==> r[i] == starts[i] + o
  {
    seq(|starts|, i requires 0 <= i < |starts| => starts[i] + o)
  }

  /** Some longer motif of the next length occurs exactly at the starts, or exactly one before them. */
  predicate ExtendsByOne(longer: Table, starts: seq<nat>) {
    exists motif <- longer :: longer[motif] == starts || Shifted(longer[motif], 1) == starts
  }

  function LongerOf(byLength: map<nat, Table>, length: nat): Table {
    if length + 1 in byLength then byLength[length + 1] else map[]
  }

  type Closed = (nat, Motif, seq<nat>)

  ghost predicate IsClosed(byLength: map<nat, Table>, c: Closed) {
    && c.0 in byLength && c.1 in byLength[c.0] && c.2 == byLength[c.0][c.1]
    && !ExtendsByOne(LongerOf(byLength, c.0), c.2)
  }

  /** The motifs of one length that no one-step extension preserves. */
  method ClosedOfLength(length: nat, motifs: Table, longer: Table) returns (closed: seq<Closed>)
    ensures NoDup(closed)
    ensures forall c :: c in closed <==>
              c.0 == length && c.1 in motifs && c.2 == motifs[c.1] && !ExtendsByOne(longer, c.2)
  {
    var rightExtended := set m | m in longer :: longer[m];
    var leftExtended := set m | m in longer :: Shifted(longer[m], 1);
    closed := [];
    var remaining := motifs.Keys;
    while remaining != {}
      invariant remaining <= motifs.Keys && NoDup(closed)
      invariant forall c :: c in closed <==>
                  c.0 == length && c.1 in motifs && c.1 !in remaining && c.2 == motifs[c.1] && !ExtendsByOne(longer, c.2)
      decreases |remaining|
    {
      var motif :| motif in remaining;
      var key := motifs[motif];
      ghost var before, left := closed, remaining;
      remaining := remaining - {motif};
      if key !in rightExtended && key !in leftExtended {
        closed := closed + [(length, motif, key)];
        assert forall c :: c in closed <==> c in before || c == (length, motif, key);
      }
    }
  }

  /** `closed_alpha_motifs`. */
  method ClosedAlphaMotifs(byLength: map<nat, Table>) returns (closed: seq<Closed>)
    ensures NoDup(closed) && forall c :: c in closed <==> IsClosed(byLength, c)
  {
    closed := [];
    var remaining := byLength.Keys;
    while remaining != {}
      invariant remaining <= byLength.Keys && NoDup(closed)
      invariant forall c :: c in closed <==> c.0 !in remaining && IsClosed(byLength, c)
      decreases |remaining|
    {
      var length :| length in remaining;
      remaining := remaining - {length};
      var more := ClosedOfLength(length, byLength[length], LongerOf(byLength, length));
      ghost var before := closed;
      closed := closed + more;
      assert forall c :: c in closed <==> c in before || c in more;
      assert NoDup(closed) by {
        forall i, j | 0 <= i < |before| && 0 <= j < |more| ensures before[i] != more[j] {
          assert before[i] in before && more[j] in more;
        }
        NoDupAppends(before, more);
      }
    }
  }

  lemma NoDupAppends<A>(a: seq<A>, b: seq<A>)
    requires NoDup(a) && NoDup(b) && forall i, j :: 0 <= i < |a| && 0 <= j < |b| ==> a[i] != b[j]
    ensures NoDup(a + b)
  {}

  // ------------------------------------------------------------ one step stands for all

  /** A motif of length `longer`, seen `o` tokens earlier, occurs exactly where the starts are. */
  ghost predicate Preserves(code: Window, segments: seq<P.Window>, starts: seq<nat>, longer: nat, o: nat, motif: Motif) {
    && (forall s <- starts :: s >= o && OccursAt(code, segments, longer, motif, s - o))
    && (forall t: nat :: OccursAt(code, segments, longer, motif, t) ==> t + o in starts)
  }

  lemma SliceOfSlice<T>(s: seq<T>, a: nat, n: nat, o: nat, m: nat)
    requires a + n <= |s| && o + m <= n
    ensures s[a..a + n][o..o + m] == s[a + o..a + o + m]
  {
    var u, w := s[a..a + n][o..o + m], s[a + o..a + o + m];
    assert forall k :: 0 <= k < m ==> u[k] == w[k];
  }

  lemma PlainSlice(code: Window, a: nat, n: nat)
    requires a + n <= |code| && PlainMnemonics(code)
    ensures PlainMnemonics(code[a..a + n])
  {
    forall i | i in code[a..a + n] ensures '(' !in i.mnemonic {
      assert i in code;
    }
  }

  /** Windows that are equal at one length are equal on every stretch inside. */
  lemma EqualStretches(code: Window, length: nat, s: nat, t: nat, o: nat, shorter: nat)
    requires PlainMnemonics(code) && o + shorter <= length && s + length <= |code| && t + length <= |code|
    requires MotifAt(code, s, length) == MotifAt(code, t, length)
    ensures MotifAt(code, s + o, shorter) == MotifAt(code, t + o, shorter)
  {
    PlainSlice(code, s, length);
    PlainSlice(code, t, length);
    hide Alpha, PlainMnemonics;
    SubWindowsEqual(code[s..s + length], code[t..t + length], o, o + shorter);
    SliceOfSlice(code, s, length, o, shorter);
    SliceOfSlice(code, t, length, o, shorter);
  }

  lemma StretchesEqual(code: Window, segments: seq<P.Window>, length: nat, motif: Motif, s: nat, t: nat, o: nat, shorter: nat)
    requires Covers(segments, code) && o + shorter <= length
    requires OccursAt(code, segments, length, motif, s) && OccursAt(code, segments, length, motif, t)
    ensures InSegments(segments, s + o, shorter) && s + o + shorter <= |code|
    ensures OccursAt(code, segments, shorter, MotifAt(code, s + o, shorter), t + o)
  {
    ShorterFits(segments, s, length, o, shorter);
    ShorterFits(segments, t, length, o, shorter);
    assert PlainMnemonics(code);
    hide InSegments, MotifAt, PlainMnemonics;
    EqualStretches(code, length, s, t, o, shorter);
  }

  /** An occurrence of the extension by one holds an occurrence of the motif. */
  lemma StepForward(code: Window, segments: seq<P.Window>, length: nat, motif: Motif, first: nat, d: nat, one: Motif, t: nat)
    requires Covers(segments, code) && d <= 1 && first >= d
    requires OccursAt(code, segments, length, motif, first)
    requires OccursAt(code, segments, length + 1, one, first - d) && OccursAt(code, segments, length + 1, one, t)
    ensures OccursAt(code, segments, length, motif, t + d)
  {
    hide *;
    StretchesEqual(code, segments, length + 1, one, first - d, t, d, length);
    OccursMotif(code, segments, length, motif, first);
  }

  lemma OccursMotif(code: Window, segments: seq<P.Window>, length: nat, motif: Motif, start: nat)
    requires OccursAt(code, segments, length, motif, start)
    ensures start + length <= |code| && MotifAt(code, start, length) == motif
  {}

  lemma PreservedAt(code: Window, segments: seq<P.Window>, starts: seq<nat>, longer: nat, o: nat, motif: Motif, s: nat)
    requires Preserves(code, segments, starts, longer, o, motif) && s in starts
    ensures s >= o && OccursAt(code, segments, longer, motif, s - o)
  {
    hide OccursAt;
  }

  /** Where the longer motif precedes a start, so does the extension by one. */
  lemma StepBack(code: Window, segments: seq<P.Window>, starts: seq<nat>, longer: nat, o: nat, extension: Motif,
                 first: nat, d: nat, next: nat, s: nat)
    requires Covers(segments, code) && Preserves(code, segments, starts, longer, o, extension)
    requires first in starts && s in starts && d <= o && o - d + next <= longer
    ensures first >= d && first - d + next <= |code| && s >= d
    ensures OccursAt(code, segments, next, MotifAt(code, first - d, next), s - d)
  {
    hide *;
    PreservedAt(code, segments, starts, longer, o, extension, first);
    PreservedAt(code, segments, starts, longer, o, extension, s);
    StretchesEqual(code, segments, longer, extension, first - o, s - o, o - d, next);
  }

  /** A preserving extension yields a preserving extension by one. */
  lemma PreservedByOne(code: Window, segments: seq<P.Window>, length: nat, motif: Motif, starts: seq<nat>,
                       longer: nat, o: nat, extension: Motif) returns (one: Motif, d: nat)
    requires Covers(segments, code) && Starts(code, segments, length, motif, starts) && starts != []
    requires longer > length && o + length <= longer && Preserves(code, segments, starts, longer, o, extension)
    ensures d <= 1 && Preserves(code, segments, starts, length + 1, d, one)
  {
    d := if o >= 1 then 1 else 0;
    hide *;
    var first := starts[0];
    assert first in starts;
    StartsHold(code, segments, length, motif, starts, first);
    StepBack(code, segments, starts, longer, o, extension, first, d, length + 1, first);
    one := MotifAt(code, first - d, length + 1);
    AllBack(code, segments, starts, longer, o, extension, first, d, length + 1);
    AllForward(code, segments, length, motif, starts, first, d, one);
    PreservesAll(code, segments, starts, length + 1, d, one);
  }

  lemma AllBack(code: Window, segments: seq<P.Window>, starts: seq<nat>, longer: nat, o: nat, extension: Motif,
                first: nat, d: nat, next: nat)
    requires Covers(segments, code) && Preserves(code, segments, starts, longer, o, extension)
    requires first in starts && d <= o && o - d + next <= longer && first >= d && first - d + next <= |code|
    ensures forall s <- starts :: s >= d && OccursAt(code, segments, next, MotifAt(code, first - d, next), s - d)
  {
    hide *;
    forall s | s in starts ensures s >= d && OccursAt(code, segments, next, MotifAt(code, first - d, next), s - d) {
      StepBack(code, segments, starts, longer, o, extension, first, d, next, s);
    }
  }

  lemma AllForward(code: Window, segments: seq<P.Window>, length: nat, motif: Motif, starts: seq<nat>, first: nat, d: nat,
                   one: Motif)
    requires Covers(segments, code) && Starts(code, segments, length, motif, starts) && d <= 1 && first >= d
    requires OccursAt(code, segments, length, motif, first) && OccursAt(code, segments, length + 1, one, first - d)
    ensures forall t: nat, next: nat :: next == length + 1 && OccursAt(code, segments, next, one, t) ==> t + d in starts
  {
    hide *;
    forall t: nat, next: nat | next == length + 1 && OccursAt(code, segments, next, one, t) ensures t + d in starts {
      StepForward(code, segments, length, motif, first, d, one, t);
      StartsHold(code, segments, length, motif, starts, t + d);
    }
  }

  lemma StartsHold(code: Window, segments: seq<P.Window>, length: nat, motif: Motif, starts: seq<nat>, s: nat)
    requires Starts(code, segments, length, motif, starts)
    ensures s in starts <==> OccursAt(code, segments, length, motif, s)
  {
    hide OccursAt;
  }

  lemma PreservesAll(code: Window, segments: seq<P.Window>, starts: seq<nat>, longer: nat, o: nat, motif: Motif)
    requires forall s <- starts :: s >= o && OccursAt(code, segments, longer, motif, s - o)
    requires forall t: nat :: OccursAt(code, segments, longer, motif, t) ==> t + o in starts
    ensures Preserves(code, segments, starts, longer, o, motif)
  {
    hide OccursAt;
  }

  lemma ShiftedMembers(list: seq<nat>, o: nat, x: nat)
    ensures x in Shifted(list, o) <==> x >= o && x - o in list
  {
    var r := Shifted(list, o);
    if x in r {
      var i :| 0 <= i < |r| && r[i] == x;
      assert list[i] == x - o;
    }
    if x >= o && x - o in list {
      var i :| 0 <= i < |list| && list[i] == x - o;
      assert r[i] == x;
    }
  }

  lemma ShiftedAscends(list: seq<nat>, o: nat)
    requires StrictlyAscending(list)
    ensures StrictlyAscending(Shifted(list, o))
  {}

  lemma ShiftPreserves(code: Window, segments: seq<P.Window>, longer: nat, o: nat, motif: Motif, list: seq<nat>)
    requires Starts(code, segments, longer, motif, list)
    ensures Preserves(code, segments, Shifted(list, o), longer, o, motif)
  {
    hide OccursAt, Shifted, StrictlyAscending;
    forall s | s in Shifted(list, o) ensures s >= o && OccursAt(code, segments, longer, motif, s - o) {
      ShiftedMembers(list, o, s);
    }
    forall t: nat | OccursAt(code, segments, longer, motif, t) ensures t + o in Shifted(list, o) {
      ShiftedMembers(list, o, t + o);
    }
  }

  lemma PreservingShifts(code: Window, segments: seq<P.Window>, starts: seq<nat>, longer: nat, o: nat, motif: Motif, list: seq<nat>)
    requires StrictlyAscending(starts) && Starts(code, segments, longer, motif, list)
    requires Preserves(code, segments, starts, longer, o, motif)
    ensures Shifted(list, o) == starts
  {
    var shifted := Shifted(list, o);
    ShiftedAscends(list, o);
    hide OccursAt, Shifted, StrictlyAscending;
    forall x: nat ensures x in shifted <==> x in starts {
      ShiftedMembers(list, o, x);
      if x >= o && x - o in list {
        assert x - o + o in starts;
      }
    }
    AscendingUnique(shifted, starts);
  }

  /** An ascending occurrence list is the starts, shifted, exactly when its motif preserves them. */
  lemma ShiftIsPreserving(code: Window, segments: seq<P.Window>, starts: seq<nat>, longer: nat, o: nat, motif: Motif, list: seq<nat>)
    requires StrictlyAscending(starts) && Starts(code, segments, longer, motif, list)
    ensures Shifted(list, o) == starts <==> Preserves(code, segments, starts, longer, o, motif)
  {
    hide *;
    ShiftPreserves(code, segments, longer, o, motif, list);
    if Preserves(code, segments, starts, longer, o, motif) {
      PreservingShifts(code, segments, starts, longer, o, motif, list);
    }
  }

  /** A motif one longer that preserves repeated starts is in the table of its length. */
  lemma PreservingIsListed(code: Window, segments: seq<P.Window>, byLength: map<nat, Table>, starts: seq<nat>, longer: nat,
                           d: nat, one: Motif)
    requires Enumerated(code, segments, byLength) && 2 <= longer <= MAXIMUM_LENGTH
    requires StrictlyAscending(starts) && |starts| >= 2 && Preserves(code, segments, starts, longer, d, one)
    ensures longer in byLength && one in byLength[longer]
    ensures Starts(code, segments, longer, one, byLength[longer][one])
  {
    var a, b := starts[0], starts[1];
    assert a in starts && b in starts && a < b;
    PreservedAt(code, segments, starts, longer, d, one, a);
    PreservedAt(code, segments, starts, longer, d, one, b);
    assert InSegments(segments, a - d, longer);
    hide InSegments, OccursAt, Starts, Preserves, StrictlyAscending;
    assert longer in byLength;
    assert Repeated(code, segments, longer, byLength[longer]);
    hide Enumerated;
  }

  lemma ListedStarts(code: Window, segments: seq<P.Window>, byLength: map<nat, Table>, length: nat, motif: Motif)
    requires Enumerated(code, segments, byLength) && length in byLength && motif in byLength[length]
    ensures 2 <= length <= MAXIMUM_LENGTH && |byLength[length][motif]| >= 2
    ensures Starts(code, segments, length, motif, byLength[length][motif])
    ensures StrictlyAscending(byLength[length][motif])
  {
    hide InSegments, OccursAt;
  }

  lemma OneStepExtends(code: Window, segments: seq<P.Window>, byLength: map<nat, Table>, length: nat, starts: seq<nat>)
    requires Enumerated(code, segments, byLength) && StrictlyAscending(starts)
    requires ExtendsByOne(LongerOf(byLength, length), starts)
    ensures HasExtension(code, segments, starts, length)
  {
    var next := length + 1;
    var m :| m in byLength[next] && (byLength[next][m] == starts || Shifted(byLength[next][m], 1) == starts);
    hide *;
    var list := byLength[next][m];
    ListedStarts(code, segments, byLength, next, m);
    ShiftedZero(list);
    ShiftIsPreserving(code, segments, starts, next, 0, m, list);
    ShiftIsPreserving(code, segments, starts, next, 1, m, list);
    ExtensionFound(code, segments, starts, length, next, if Shifted(list, 1) == starts then 1 else 0, m);
  }

  lemma ExtensionFound(code: Window, segments: seq<P.Window>, starts: seq<nat>, length: nat, longer: nat, o: nat, extension: Motif)
    requires length < longer <= MAXIMUM_LENGTH && o + length <= longer
    requires Preserves(code, segments, starts, longer, o, extension)
    ensures HasExtension(code, segments, starts, length)
  {}

  lemma ShrinkExtension(code: Window, segments: seq<P.Window>, length: nat, motif: Motif, starts: seq<nat>)
    returns (one: Motif, d: nat)
    requires Covers(segments, code) && starts != []
    requires Starts(code, segments, length, motif, starts) && HasExtension(code, segments, starts, length)
    ensures d <= 1 && length + 1 <= MAXIMUM_LENGTH && Preserves(code, segments, starts, length + 1, d, one)
  {
    hide Covers, Starts, Preserves;
    var longer: nat, o: nat, extension :|
      length < longer <= MAXIMUM_LENGTH && o + length <= longer && Preserves(code, segments, starts, longer, o, extension);
    one, d := PreservedByOne(code, segments, length, motif, starts, longer, o, extension);
  }

  lemma ExtensionExtends(code: Window, segments: seq<P.Window>, byLength: map<nat, Table>, length: nat, motif: Motif, starts: seq<nat>)
    requires Covers(segments, code) && Enumerated(code, segments, byLength) && 1 <= length && |starts| >= 2
    requires Starts(code, segments, length, motif, starts) && HasExtension(code, segments, starts, length)
    ensures ExtendsByOne(LongerOf(byLength, length), starts)
  {
    hide *;
    StartsPreserve(code, segments, length, motif, starts);
    var one, d := ShrinkExtension(code, segments, length, motif, starts);
    PreservingIsListed(code, segments, byLength, starts, length + 1, d, one);
    ShiftIsPreserving(code, segments, starts, length + 1, d, one, byLength[length + 1][one]);
    ShiftedZero(byLength[length + 1][one]);
    OneFound(byLength, length, starts, one, d);
  }

  lemma OneFound(byLength: map<nat, Table>, length: nat, starts: seq<nat>, one: Motif, d: nat)
    requires length + 1 in byLength && one in byLength[length + 1] && d <= 1 && Shifted(byLength[length + 1][one], d) == starts
    ensures ExtendsByOne(LongerOf(byLength, length), starts)
  {
    ShiftedZero(byLength[length + 1][one]);
  }

  /** The one-step test finds a preserving extension exactly when there is one of any size, on any
      side, up to the cap. */
  lemma OneStepSuffices(code: Window, segments: seq<P.Window>, byLength: map<nat, Table>, length: nat, motif: Motif)
    requires Covers(segments, code) && Enumerated(code, segments, byLength)
    requires length in byLength && motif in byLength[length]
    ensures ExtendsByOne(LongerOf(byLength, length), byLength[length][motif]) <==>
            HasExtension(code, segments, byLength[length][motif], length)
  {
    hide *;
    var starts := byLength[length][motif];
    ListedStarts(code, segments, byLength, length, motif);
    if ExtendsByOne(LongerOf(byLength, length), starts) {
      OneStepExtends(code, segments, byLength, length, starts);
    }
    if HasExtension(code, segments, starts, length) {
      ExtensionExtends(code, segments, byLength, length, motif, starts);
    }
  }

  lemma ShiftedZero(list: seq<nat>)
    ensures Shifted(list, 0) == list
  {}

  /** Some longer motif, up to the cap, holds the motif and occurs exactly around its starts. */
  ghost predicate HasExtension(code: Window, segments: seq<P.Window>, starts: seq<nat>, length: nat) {
    exists longer: nat, o: nat, extension ::
      length < longer <= MAXIMUM_LENGTH && o + length <= longer && Preserves(code, segments, starts, longer, o, extension)
  }

  /** `closed_alpha_motifs` after `alpha_motifs`: exactly the repeated motifs, with all their starts,
      that no longer motif up to the cap preserves. */
  lemma ClosedExactly(code: Window, segments: seq<P.Window>, byLength: map<nat, Table>, c: Closed)
    requires Covers(segments, code) && Enumerated(code, segments, byLength)
    ensures IsClosed(byLength, c) <==>
              && 2 <= c.0 <= MAXIMUM_LENGTH && |c.2| >= 2 && Starts(code, segments, c.0, c.1, c.2)
              && !HasExtension(code, segments, c.2, c.0)
  {
    if c.0 in byLength && c.1 in byLength[c.0] {
      OneStepSuffices(code, segments, byLength, c.0, c.1);
      ListedStarts(code, segments, byLength, c.0, c.1);
    }
    hide HasExtension, ExtendsByOne, Covers;
    if 2 <= c.0 <= MAXIMUM_LENGTH && |c.2| >= 2 && Starts(code, segments, c.0, c.1, c.2) {
      StartsPreserve(code, segments, c.0, c.1, c.2);
      PreservingIsListed(code, segments, byLength, c.2, c.0, 0, c.1);
    }
    hide Enumerated;
    if c.0 in byLength && c.1 in byLength[c.0] && Starts(code, segments, c.0, c.1, c.2) {
      StartsUnique(code, segments, c.0, c.1, c.2, byLength[c.0][c.1]);
    }
  }

  lemma StartsPreserve(code: Window, segments: seq<P.Window>, length: nat, motif: Motif, starts: seq<nat>)
    requires Starts(code, segments, length, motif, starts)
    ensures StrictlyAscending(starts) && Preserves(code, segments, starts, length, 0, motif)
  {
    hide OccursAt;
  }

  lemma StartsUnique(code: Window, segments: seq<P.Window>, length: nat, motif: Motif, a: seq<nat>, b: seq<nat>)
    requires Starts(code, segments, length, motif, a) && Starts(code, segments, length, motif, b)
    ensures a == b
  {
    hide OccursAt;
    AscendingUnique(a, b);
  }
}
