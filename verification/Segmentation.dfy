/** `segment`: maximal straight-line runs of instructions. A run goes on while the addresses follow each
    other, nothing transfers control, and at most one edge of the flow graph leads to the next. */
module Segmentation {
  import opened Packing
  import opened Segments
  import opened Renaming
  import W = Windows
  import AlphaMotifs

  /** An instruction at its address. */
  datatype Located = Located(address: int, instruction: W.Instruction)

  // ------------------------------------------------------------ flow predecessors

  /** How many of the listed successors are `address`. */
  function Entering(rows: seq<seq<int>>, address: int): nat {
    if rows == [] then 0 else Entering(rows[..|rows| - 1], address) + multiset(rows[|rows| - 1])[address]
  }

  function Counted(counts: map<int, nat>, address: int): nat {
    if address in counts then counts[address] else 0
  }

  /** One row of the database counts each of its successors once more. */
  method CountRow(row: seq<int>, counts: map<int, nat>) returns (after: map<int, nat>)
    ensures forall a :: Counted(after, a) == Counted(counts, a) + multiset(row)[a]
  {
    after := counts;
    assert row[..0] == [];
    for k := 0 to |row|
      invariant forall a :: Counted(after, a) == Counted(counts, a) + multiset(row[..k])[a]
    {
      assert row[..k + 1] == row[..k] + [row[k]];
      after := after[row[k] := Counted(after, row[k]) + 1];
    }
    assert row[..|row|] == row;
  }

  method CountPredecessors(rows: seq<seq<int>>) returns (counts: map<int, nat>)
    ensures forall a :: Counted(counts, a) == Entering(rows, a)
  {
    counts := map[];
    assert rows[..0] == [];
    for k := 0 to |rows|
      invariant forall a :: Counted(counts, a) == Entering(rows[..k], a)
    {
      assert rows[..k + 1][..k] == rows[..k];
      counts := CountRow(rows[k], counts);
    }
    assert rows[..|rows|] == rows;
  }

  // ------------------------------------------------------------ segments

  /** The instruction at `index` follows the one before it in memory and in control, and no other edge
      leads to it. */
  predicate Contiguous(code: seq<Located>, rows: seq<seq<int>>, index: nat)
    requires 0 < index < |code|
  {
    && code[index].address == code[index - 1].address + 4
    && !W.Transfers(code[index - 1].instruction)
    && Entering(rows, code[index].address) <= 1
  }

  function Continues(code: seq<Located>, rows: seq<seq<int>>): nat -> bool {
    (index: nat) => 0 < index < |code| && Contiguous(code, rows, index)
  }

  /** The segments partition `0 .. count`, and a boundary falls exactly where the next instruction
      does not continue its predecessor. */
  ghost predicate Partition(segments: seq<Window>, count: nat, continues: nat -> bool) {
    && Runs(segments)
    && (segments == [] <==> count == 0)
    && (segments != [] ==> segments[0][0] == 0 && segments[|segments| - 1][0] + |segments[|segments| - 1]| == count)
    && (forall i :: 0 < i < |segments| ==> segments[i][0] == segments[i - 1][0] + |segments[i - 1]| && !continues(segments[i][0]))
    && (forall i, k :: 0 <= i < |segments| && 0 < k < |segments[i]| ==> continues(segments[i][k]))
  }

  lemma ContinuesIs(code: seq<Located>, rows: seq<seq<int>>, index: nat)
    requires 0 < index < |code|
    ensures Continues(code, rows)(index) <==> Contiguous(code, rows, index)
  {}

  /** `segment`. */
  method Segment(code: seq<Located>, rows: seq<seq<int>>) returns (segments: seq<Window>)
    ensures Partition(segments, |code|, Continues(code, rows))
  {
    var predecessors := CountPredecessors(rows);
    ghost var continues := Continues(code, rows);
    segments := [];
    var current: Window := [];
    hide Partition, Entering;
    for index := 0 to |code|
      invariant index > 0 ==> current != [] && current[|current| - 1] == index - 1
      invariant index > 0 ==> Partition(segments + [current], index, continues)
      invariant index == 0 ==> current == [] && segments == []
    {
      if current != [] {
        var previous := code[current[|current| - 1]];
        var contiguous := code[index].address == previous.address + 4
                          && !W.Transfers(previous.instruction)
                          && Counted(predecessors, code[index].address) <= 1;
        assert Counted(predecessors, code[index].address) == Entering(rows, code[index].address);
        assert contiguous <==> Contiguous(code, rows, index);
        ContinuesIs(code, rows, index);
        if contiguous {
          Extends(segments, current, index, continues);
        } else {
          Starts(segments, current, index, continues);
          segments := segments + [current];
          current := [];
          assert [] + [index] == [index];
        }
      }
      if index == 0 {
        FirstSegment(continues);
        assert current + [index] == [0] && segments + [[0]] == [[0]];
      }
      current := current + [index];
    }
    if current != [] {
      segments := segments + [current];
    } else {
      NoSegment(continues);
    }
  }

  lemma NoSegment(continues: nat -> bool)
    ensures Partition([], 0, continues)
  {}

  lemma FirstSegment(continues: nat -> bool)
    ensures Partition([[0]], 1, continues)
  {}

  lemma Extends(segments: seq<Window>, current: Window, index: nat, continues: nat -> bool)
    requires current != [] && Partition(segments + [current], index, continues) && continues(index)
    ensures Partition(segments + [current + [index]], index + 1, continues)
  {
    var before, after := segments + [current], segments + [current + [index]];
    var last := |segments|;
    assert before[last] == current && after[last] == current + [index];
    assert forall i :: 0 <= i < last ==> before[i] == after[i];
    assert IsRun(current, |current|);
    forall k | 0 <= k < |after[last]| ensures after[last][k] == after[last][0] + k && (k > 0 ==> continues(after[last][k])) {
      if k < |current| {
        assert before[last][k] == after[last][k];
      }
    }
  }

  lemma Starts(segments: seq<Window>, current: Window, index: nat, continues: nat -> bool)
    requires current != [] && Partition(segments + [current], index, continues) && !continues(index)
    ensures Partition(segments + [current] + [[index]], index + 1, continues)
  {
    var before, after := segments + [current], segments + [current] + [[index]];
    var last := |before|;
    assert after[last] == [index] && forall i :: 0 <= i < last ==> before[i] == after[i];
    EndsBefore(before, index, continues);
  }

  lemma EndsBefore(segments: seq<Window>, count: nat, continues: nat -> bool)
    requires Partition(segments, count, continues)
    ensures forall i :: 0 <= i < |segments| ==> segments[i][0] + |segments[i]| <= count
  {
    forall i | 0 <= i < |segments| ensures segments[i][0] + |segments[i]| <= count {
      var last := |segments| - 1;
      assert IsRun(segments[last], |segments[last]|);
      if i < last {
        assert segments[i][0] + |segments[i]| <= segments[last][0];
      }
    }
  }

  // ------------------------------------------------------------ where runs go on, over the rows themselves

  /** At most one edge of the flow graph leads to `address`: no two places of the rows list it. */
  ghost predicate OneEdge(rows: seq<seq<int>>, address: int) {
    forall a, i, b, j | 0 <= a < |rows| && 0 <= i < |rows[a]| && 0 <= b < |rows| && 0 <= j < |rows[b]| ::
      (rows[a][i] == address && rows[b][j] == address) ==> (a == b && i == j)
  }

  lemma {:induction false} ListedOnce(row: seq<int>, address: int)
    ensures multiset(row)[address] == 0 <==> address !in row
    ensures multiset(row)[address] <= 1 <==>
            forall i, j :: 0 <= i < |row| && 0 <= j < |row| && row[i] == address && row[j] == address ==> i == j
  {
    if row != [] {
      var last := |row| - 1;
      ListedOnce(row[..last], address);
      assert row == row[..last] + [row[last]];
      if i :| 0 <= i < last && row[i] == address && row[last] == address {
        assert row[..last][i] == address;
      }
      assert forall i :: 0 <= i < last ==> row[..last][i] == row[i];
    }
  }

  lemma {:induction false} EnteringNone(rows: seq<seq<int>>, address: int)
    ensures Entering(rows, address) == 0 <==> forall a :: 0 <= a < |rows| ==> address !in rows[a]
  {
    if rows != [] {
      var last := |rows| - 1;
      EnteringNone(rows[..last], address);
      ListedOnce(rows[last], address);
      assert forall a :: 0 <= a < last ==> rows[..last][a] == rows[a];
    }
  }

  /** What the counters are compared with. */
  lemma {:induction false} EnteringOnce(rows: seq<seq<int>>, address: int)
    ensures Entering(rows, address) <= 1 <==> OneEdge(rows, address)
  {
    if rows != [] {
      var last := |rows| - 1;
      var before := rows[..last];
      EnteringOnce(before, address);
      EnteringNone(before, address);
      ListedOnce(rows[last], address);
      OneEdgeLast(rows, address);
    }
  }

  lemma OneEdgeLast(rows: seq<seq<int>>, address: int)
    requires rows != []
    ensures var before, row := rows[..|rows| - 1], rows[|rows| - 1];
            OneEdge(rows, address) <==>
              && OneEdge(before, address)
              && (forall i, j :: 0 <= i < |row| && 0 <= j < |row| && row[i] == address && row[j] == address ==> i == j)
              && (address !in row || forall a :: 0 <= a < |before| ==> address !in before[a])
  {
    var last := |rows| - 1;
    var before, row := rows[..last], rows[last];
    assert forall a :: 0 <= a < last ==> before[a] == rows[a];
    if OneEdge(rows, address) && address in row {
      var j :| 0 <= j < |row| && row[j] == address;
      forall a, i | 0 <= a < last && 0 <= i < |rows[a]| ensures rows[a][i] != address {}
      assert forall a :: 0 <= a < last ==> address !in rows[a];
    }
  }

  /** The instruction at `index` is in the segment of the one before it. */
  ghost predicate Joined(segments: seq<Window>, index: nat) {
    exists i, k :: 0 <= i < |segments| && 0 < k < |segments[i]| && segments[i][k - 1] + 1 == segments[i][k] == index
  }

  lemma SegmentOf(segments: seq<Window>, count: nat, continues: nat -> bool, index: nat, i: nat) returns (j: nat)
    requires Partition(segments, count, continues) && index < count && i < |segments| && segments[i][0] <= index
    ensures j < |segments| && segments[j][0] <= index < segments[j][0] + |segments[j]|
    decreases |segments| - i
  {
    j := i;
    if segments[i][0] + |segments[i]| <= index {
      j := SegmentOf(segments, count, continues, index, i + 1);
    }
  }

  /** A run goes on exactly four bytes further, after an instruction that does not transfer control, to an
      instruction that at most one edge leads to. */
  lemma JoinedIff(code: seq<Located>, rows: seq<seq<int>>, segments: seq<Window>, index: nat)
    requires Partition(segments, |code|, Continues(code, rows)) && 0 < index < |code|
    ensures Joined(segments, index) <==>
            && code[index].address == code[index - 1].address + 4
            && code[index - 1].instruction.transfer == "ordinary"
            && OneEdge(rows, code[index].address)
  {
    var continues := Continues(code, rows);
    ContinuesIs(code, rows, index);
    EnteringOnce(rows, code[index].address);
    hide Entering, OneEdge, Continues;
    if Joined(segments, index) {
      var i, k :| 0 <= i < |segments| && 0 < k < |segments[i]| && segments[i][k - 1] + 1 == segments[i][k] == index;
    }
    if continues(index) {
      var i := SegmentOf(segments, |code|, continues, index, 0);
      SegmentInside(segments, |code|, continues, i);
      var k := index - segments[i][0];
      assert i > 0 ==> !continues(segments[i][0]);
      assert segments[i][k - 1] + 1 == segments[i][k] == index;
    }
  }

  // ------------------------------------------------------------ what segments are good for

  /** The instructions at some indices. */
  function Code(code: seq<Located>, w: Window): (r: W.Window)
    requires forall k :: 0 <= k < |w| ==> w[k] < |code|
    ensures |r| == |w|
  {
    seq(|w|, k requires 0 <= k < |w| => code[w[k]].instruction)
  }

  lemma SegmentInside(segments: seq<Window>, count: nat, continues: nat -> bool, i: nat)
    requires Partition(segments, count, continues) && i < |segments|
    ensures segments[i] != [] && segments[i][0] + |segments[i]| <= count
    ensures forall k :: 0 <= k < |segments[i]| ==> segments[i][k] == segments[i][0] + k
    ensures forall k :: 0 < k < |segments[i]| ==> continues(segments[i][k])
  {
    EndsBefore(segments, count, continues);
    assert IsRun(segments[i], |segments[i]|);
  }

  /** Every window of a segment is straight-line code: only its last instruction may transfer control,
      its instructions follow each other in memory, and nothing else leads into its middle. */
  lemma WindowsStraightLine(code: seq<Located>, rows: seq<seq<int>>, segments: seq<Window>, length: nat, w: Window)
    requires length >= 1 && Partition(segments, |code|, Continues(code, rows)) && w in Segments.Windows(segments, length)
    ensures |w| == length && (forall k :: 0 <= k < |w| ==> w[k] < |code|)
    ensures W.StraightLine(Code(code, w))
    ensures forall k :: 0 < k < |w| ==> code[w[k]].address == code[w[k - 1]].address + 4
    ensures forall k :: 0 < k < |w| ==> Entering(rows, code[w[k]].address) <= 1
  {
    hide *;
    var start := WindowIn(segments, |code|, Continues(code, rows), length, w);
    forall k | 0 < k < |w|
      ensures code[w[k]].address == code[w[k - 1]].address + 4 && Entering(rows, code[w[k]].address) <= 1
    {
      Continued(code, rows, w[k]);
    }
    forall k | 0 <= k < |w| - 1 ensures !W.Transfers(code[w[k]].instruction) {
      Continued(code, rows, w[k + 1]);
    }
    CodeStraightLine(code, w);
  }

  lemma Continued(code: seq<Located>, rows: seq<seq<int>>, index: nat)
    requires Continues(code, rows)(index)
    ensures 0 < index < |code| && code[index].address == code[index - 1].address + 4
    ensures Entering(rows, code[index].address) <= 1 && !W.Transfers(code[index - 1].instruction)
  {}

  lemma CodeStraightLine(code: seq<Located>, w: Window)
    requires forall k :: 0 <= k < |w| ==> w[k] < |code|
    requires forall k :: 0 <= k < |w| - 1 ==> !W.Transfers(code[w[k]].instruction)
    ensures W.StraightLine(Code(code, w))
  {}

  /** A window is a run of indices, each of which continues the one before it. */
  lemma WindowIn(segments: seq<Window>, count: nat, continues: nat -> bool, length: nat, w: Window) returns (start: nat)
    requires length >= 1 && Partition(segments, count, continues) && w in Segments.Windows(segments, length)
    ensures |w| == length && start + length <= count && forall k :: 0 <= k < length ==> w[k] == start + k
    ensures forall k :: 0 < k < length ==> continues(w[k])
  {
    WindowsExact(segments, length, w);
    hide Segments.Windows;
    var i :| 0 <= i < |segments| && Within(segments[i], length, w);
    SegmentInside(segments, count, continues, i);
    hide Partition;
    var offset: nat :| offset + length <= |segments[i]| && w == Slice(segments[i], offset, length);
    start := segments[i][0] + offset;
    forall k | 0 <= k < length ensures w[k] == start + k && (k > 0 ==> continues(w[k])) {
      assert w[k] == segments[i][offset + k];
    }
  }

  /** The segments are what alpha motifs are collected from. */
  lemma SegmentsCover(code: seq<Located>, rows: seq<seq<int>>, segments: seq<Window>, instructions: W.Window)
    requires Partition(segments, |code|, Continues(code, rows))
    requires |instructions| == |code| && PlainMnemonics(instructions)
    ensures AlphaMotifs.Covers(segments, instructions)
  {
    EndsBefore(segments, |code|, Continues(code, rows));
  }
}
