/** Greedy packing of equal-length windows: scanning in start order is optimal. */
module Packing {
  import opened Listing

  /** The indices of consecutive instructions. */
  type Window = seq<nat>

  predicate IsRun(w: Window, n: nat) {
    n >= 1 && |w| == n && forall k :: 0 <= k < n ==> w[k] == w[0] + k
  }

  predicate Free(w: Window, covered: set<nat>) {
    forall k :: 0 <= k < |w| ==> w[k] !in covered
  }

  ghost predicate Apart(u: Window, w: Window) {
    forall x :: x in u ==> x !in w
  }

  /** Windows of one length, by strictly ascending start. */
  predicate InStartOrder(ws: seq<Window>, n: nat) {
    && (forall i :: 0 <= i < |ws| ==> IsRun(ws[i], n))
    && (forall i, j :: 0 <= i < j < |ws| ==> ws[i][0] < ws[j][0])
  }

  /** Pairwise disjoint windows that touch nothing covered. */
  ghost predicate IsPacking(chosen: seq<Window>, covered: set<nat>) {
    && (forall i :: 0 <= i < |chosen| ==> Free(chosen[i], covered))
    && (forall i, j :: 0 <= i < j < |chosen| ==> Apart(chosen[i], chosen[j]))
  }

  /** Some of the windows, pairwise disjoint and clear of what is covered: any solution at all. */
  ghost predicate Solution(family: set<Window>, ws: seq<Window>, covered: set<nat>) {
    && (forall w :: w in family ==> w in ws && Free(w, covered))
    && (forall u, w :: u in family && w in family && u != w ==> Apart(u, w))
  }

  // ------------------------------------------------------------ the scan

  /** The greedy choice among windows starting after `limit`. */
  function Pack(ws: seq<Window>, n: nat, covered: set<nat>, limit: int): (chosen: seq<Window>)
    requires InStartOrder(ws, n)
  {
    if ws == [] then []
    else if ws[0][0] <= limit || !Free(ws[0], covered) then Pack(ws[1..], n, covered, limit)
    else [ws[0]] + Pack(ws[1..], n, covered, ws[0][n - 1])
  }

  /** The inner loop of the cover. */
  method Scan(windows: seq<Window>, n: nat, covered: set<nat>) returns (chosen: seq<Window>)
    requires InStartOrder(windows, n)
    ensures chosen == Pack(windows, n, covered, -1)
  {
    chosen := [];
    var limit: int := -1;
    assert windows[0..] == windows;
    for i := 0 to |windows|
      invariant InStartOrder(windows[i..], n)
      invariant chosen + Pack(windows[i..], n, covered, limit) == Pack(windows, n, covered, -1)
    {
      var window := windows[i];
      assert windows[i..][0] == window && windows[i..][1..] == windows[i + 1..];
      assert IsRun(window, n);
      if window[0] <= limit || !Free(window, covered) {
        continue;
      }
      chosen := chosen + [window];
      limit := window[|window| - 1];
    }
  }

  // ------------------------------------------------------------ it packs

  lemma {:induction false} PackMembers(ws: seq<Window>, n: nat, covered: set<nat>, limit: int)
    requires InStartOrder(ws, n)
    ensures forall w <- Pack(ws, n, covered, limit) :: w in ws && w[0] > limit && Free(w, covered) && IsRun(w, n)
  {
    if ws != [] {
      if ws[0][0] <= limit || !Free(ws[0], covered) {
        PackMembers(ws[1..], n, covered, limit);
      } else {
        PackMembers(ws[1..], n, covered, ws[0][n - 1]);
      }
    }
  }

  lemma RunCells(w: Window, n: nat, x: nat)
    requires IsRun(w, n)
    ensures x in w <==> w[0] <= x < w[0] + n
  {
    if w[0] <= x < w[0] + n {
      assert w[x - w[0]] == x;
    }
  }

  /** Two windows of one length meet exactly when they start less than a length apart. */
  lemma RunsMeet(u: Window, w: Window, n: nat)
    requires IsRun(u, n) && IsRun(w, n) && u[0] <= w[0]
    ensures Apart(u, w) && Apart(w, u) <==> w[0] > u[n - 1]
    ensures w[0] <= u[n - 1] ==> !Apart(u, w) && !Apart(w, u)
  {
    forall x: nat ensures x in u <==> u[0] <= x < u[0] + n {
      RunCells(u, n, x);
    }
    forall x: nat ensures x in w <==> w[0] <= x < w[0] + n {
      RunCells(w, n, x);
    }
    assert w[0] in w;
  }

  lemma PackingGrows(w: Window, rest: seq<Window>, n: nat, covered: set<nat>)
    requires IsRun(w, n) && Free(w, covered) && InStartOrder(rest, n) && IsPacking(rest, covered)
    requires forall j :: 0 <= j < |rest| ==> w[n - 1] < rest[j][0]
    ensures IsPacking([w] + rest, covered) && InStartOrder([w] + rest, n)
  {
    var all := [w] + rest;
    forall j | 0 <= j < |rest| ensures Apart(w, rest[j]) && w[0] < rest[j][0] {
      RunsMeet(w, rest[j], n);
    }
    hide IsRun, Free, Apart;
    forall i, j | 0 <= i < j < |all| ensures Apart(all[i], all[j]) && all[i][0] < all[j][0] {
      assert all[j] == rest[j - 1] && (i > 0 ==> all[i] == rest[i - 1]);
    }
  }

  lemma {:induction false} PackIsPacking(ws: seq<Window>, n: nat, covered: set<nat>, limit: int)
    requires InStartOrder(ws, n)
    ensures IsPacking(Pack(ws, n, covered, limit), covered)
    ensures InStartOrder(Pack(ws, n, covered, limit), n)
  {
    hide Apart, Free;
    if ws != [] {
      if ws[0][0] <= limit || !Free(ws[0], covered) {
        PackIsPacking(ws[1..], n, covered, limit);
      } else {
        PackIsPacking(ws[1..], n, covered, ws[0][n - 1]);
        PackMembers(ws[1..], n, covered, ws[0][n - 1]);
        PackingGrows(ws[0], Pack(ws[1..], n, covered, ws[0][n - 1]), n, covered);
      }
    }
  }

  // ------------------------------------------------------------ it is optimal

  /** Among windows that start no later than the first one ends, at most one fits. */
  lemma AtMostOne(family: set<Window>, ws: seq<Window>, n: nat, covered: set<nat>)
    requires InStartOrder(ws, n) && ws != [] && Solution(family, ws, covered)
    ensures |set w | w in family && w[0] <= ws[0][n - 1]| <= 1
    requires forall w <- family :: IsRun(w, n) && w[0] >= ws[0][0]
  {
    var early := set w | w in family && w[0] <= ws[0][n - 1];
    if u :| u in early {
      forall w | w in early ensures w == u {
        if u[0] <= w[0] {
          RunsMeet(u, w, n);
        } else {
          RunsMeet(w, u, n);
        }
      }
      SubsetSize(early, {u});
    } else {
      assert early == {};
    }
  }

  lemma StartsAfterFirst(family: set<Window>, ws: seq<Window>, n: nat, covered: set<nat>)
    requires InStartOrder(ws, n) && ws != [] && Solution(family, ws, covered)
    ensures forall w <- family :: IsRun(w, n) && w[0] >= ws[0][0] && (w == ws[0] || w in ws[1..])
  {
    forall w | w in family ensures IsRun(w, n) && w[0] >= ws[0][0] && (w == ws[0] || w in ws[1..]) {
      var i :| 0 <= i < |ws| && ws[i] == w;
      assert i > 0 ==> ws[1..][i - 1] == w;
    }
  }

  /** No solution among the windows after `limit` is larger than the greedy one. */
  lemma {:induction false} PackOptimal(ws: seq<Window>, n: nat, covered: set<nat>, limit: int, family: set<Window>)
    requires InStartOrder(ws, n) && Solution(family, ws, covered)
    requires forall w <- family :: w != [] ==> w[0] > limit
    ensures |family| <= |Pack(ws, n, covered, limit)|
  {
    if ws == [] {
      assert family == {};
    } else {
      StartsAfterFirst(family, ws, n, covered);
      if ws[0][0] <= limit || !Free(ws[0], covered) {
        PackOptimal(ws[1..], n, covered, limit, family);
      } else {
        AtMostOne(family, ws, n, covered);
        var early := set w | w in family && w[0] <= ws[0][n - 1];
        var late := set w | w in family && w[0] > ws[0][n - 1];
        assert family == early + late;
        PackOptimal(ws[1..], n, covered, ws[0][n - 1], late);
      }
    }
  }

  /** No solution at all is larger than the greedy packing. */
  lemma PackMaximum(ws: seq<Window>, n: nat, covered: set<nat>, family: set<Window>)
    requires InStartOrder(ws, n) && Solution(family, ws, covered)
    ensures |family| <= |Pack(ws, n, covered, -1)|
  {
    forall w | w in family ensures w != [] ==> w[0] > -1 {}
    PackOptimal(ws, n, covered, -1, family);
  }

  /** The greedy packing is itself a solution. */
  lemma PackSolves(ws: seq<Window>, n: nat, covered: set<nat>)
    requires InStartOrder(ws, n)
    ensures Solution((set w | w in Pack(ws, n, covered, -1)), ws, covered)
    ensures |set w | w in Pack(ws, n, covered, -1)| == |Pack(ws, n, covered, -1)|
  {
    var chosen := Pack(ws, n, covered, -1);
    var family := set w | w in chosen;
    PackMembers(ws, n, covered, -1);
    PackIsPacking(ws, n, covered, -1);
    NoDupMultiset(chosen);
    forall u, w | u in family && w in family && u != w ensures Apart(u, w) {
      var i :| 0 <= i < |chosen| && chosen[i] == u;
      var j :| 0 <= j < |chosen| && chosen[j] == w;
      assert i < j || j < i;
      assert Apart(chosen[if i < j then i else j], chosen[if i < j then j else i]);
    }
  }

  // ------------------------------------------------------------ what packing leaves

  /** The cells of the chosen windows. */
  function Cells(chosen: seq<Window>): set<nat> {
    if chosen == [] then {} else (set x: nat | x in chosen[0]) + Cells(chosen[1..])
  }

  lemma {:induction false} InCells(chosen: seq<Window>, x: nat)
    ensures x in Cells(chosen) <==> exists i :: 0 <= i < |chosen| && x in chosen[i]
  {
    if chosen != [] {
      InCells(chosen[1..], x);
      if i :| 0 <= i < |chosen[1..]| && x in chosen[1..][i] {
        assert chosen[1..][i] == chosen[i + 1];
      }
      if i :| 0 <= i < |chosen| && x in chosen[i] {
        assert i > 0 ==> chosen[1..][i - 1] == chosen[i];
      }
    }
  }

  /** Every window that could still start meets something covered or chosen. */
  lemma {:induction false} PackLeavesNothing(ws: seq<Window>, n: nat, covered: set<nat>, limit: int, w: Window)
    requires InStartOrder(ws, n) && w in ws && w[0] > limit
    ensures !Free(w, covered + Cells(Pack(ws, n, covered, limit)))
  {
    var i :| 0 <= i < |ws| && ws[i] == w;
    assert i > 0 ==> ws[1..][i - 1] == w;
    var chosen := Pack(ws, n, covered, limit);
    if !Free(w, covered) {
      var k :| 0 <= k < |w| && w[k] in covered;
      assert w[k] in covered + Cells(chosen);
    } else if ws[0][0] <= limit || !Free(ws[0], covered) {
      PackLeavesNothing(ws[1..], n, covered, limit, w);
    } else if w[0] <= ws[0][n - 1] {
      RunCells(ws[0], n, w[0]);
      assert chosen[0] == ws[0];
      assert w[0] in Cells(chosen);
    } else {
      var rest := Pack(ws[1..], n, covered, ws[0][n - 1]);
      PackLeavesNothing(ws[1..], n, covered, ws[0][n - 1], w);
      var k :| 0 <= k < |w| && w[k] in covered + Cells(rest);
      assert chosen[1..] == rest;
    }
  }

  /** With nothing free there is nothing to pack. */
  lemma {:induction false} NothingFree(ws: seq<Window>, n: nat, covered: set<nat>, limit: int)
    requires InStartOrder(ws, n) && forall w <- ws :: !Free(w, covered)
    ensures Pack(ws, n, covered, limit) == []
  {
    if ws != [] {
      NothingFree(ws[1..], n, covered, limit);
    }
  }

  /** After a candidate is placed, it has nothing left, whatever else is covered later. */
  lemma PackedOut(ws: seq<Window>, n: nat, covered: set<nat>, later: set<nat>)
    requires InStartOrder(ws, n) && covered + Cells(Pack(ws, n, covered, -1)) <= later
    ensures Pack(ws, n, later, -1) == []
  {
    var now := covered + Cells(Pack(ws, n, covered, -1));
    forall w | w in ws ensures !Free(w, later) {
      PackLeavesNothing(ws, n, covered, -1, w);
      var k :| 0 <= k < |w| && w[k] in now;
      assert w[k] in later;
    }
    NothingFree(ws, n, later, -1);
  }

  lemma FirstApart(chosen: seq<Window>, covered: set<nat>)
    requires chosen != [] && IsPacking(chosen, covered)
    ensures forall x <- chosen[0] :: x !in Cells(chosen[1..]) && x !in covered
    ensures IsPacking(chosen[1..], covered)
  {
    forall i | 0 <= i < |chosen[1..]| ensures Apart(chosen[0], chosen[1..][i]) {
      assert chosen[1..][i] == chosen[i + 1];
    }
    forall x | x in chosen[0] ensures x !in Cells(chosen[1..]) {
      InCells(chosen[1..], x);
    }
  }

  lemma RunSize(w: Window, n: nat)
    requires IsRun(w, n)
    ensures |set x: nat | x in w| == n
  {
    NoDupMultiset(w);
  }

  lemma CellsSplit(chosen: seq<Window>, n: nat, covered: set<nat>)
    requires chosen != [] && IsPacking(chosen, covered) && IsRun(chosen[0], n)
    ensures |Cells(chosen)| == n + |Cells(chosen[1..])|
    ensures Cells(chosen[1..]) !! covered ==> Cells(chosen) !! covered
  {
    FirstApart(chosen, covered);
    RunSize(chosen[0], n);
    hide IsPacking, IsRun;
    var first, rest := (set x: nat | x in chosen[0]), Cells(chosen[1..]);
    assert first !! rest && Cells(chosen) == first + rest;
  }

  lemma TailInOrder(ws: seq<Window>, n: nat)
    requires ws != [] && InStartOrder(ws, n)
    ensures InStartOrder(ws[1..], n) && IsRun(ws[0], n)
  {
    hide IsRun;
  }

  /** Disjoint windows of one length cover that many cells each. */
  lemma {:induction false} CellsCount(chosen: seq<Window>, n: nat, covered: set<nat>)
    requires InStartOrder(chosen, n) && IsPacking(chosen, covered)
    ensures |Cells(chosen)| == n * |chosen|
    ensures Cells(chosen) !! covered
    decreases |chosen|
  {
    hide InStartOrder, IsPacking, IsRun;
    if chosen == [] {
      assert n * |chosen| == 0;
    } else {
      FirstApart(chosen, covered);
      TailInOrder(chosen, n);
      CellsSplit(chosen, n, covered);
      CellsCount(chosen[1..], n, covered);
      assert n * |chosen| == n + n * |chosen[1..]|;
    }
  }

  // ------------------------------------------------------------ occurrences of one string

  function RunAt(p: nat, length: nat): Window { seq(length, k requires 0 <= k < length => p + k) }

  function RunsAt(positions: seq<nat>, length: nat): (ws: seq<Window>)
    ensures |ws| == |positions| && forall i :: 0 <= i < |ws| ==> ws[i] == RunAt(positions[i], length)
  {
    MapSeq(p => RunAt(p, length), positions)
  }

  /** The last cell before a limit. */
  ghost function Before(limit: int): int { if limit < 0 then -1 else limit - 1 }

  lemma PackFirst(ws: seq<Window>, n: nat, position: nat, limit: int)
    requires InStartOrder(ws, n) && n >= 1 && ws != [] && ws[0] == RunAt(position, n) && limit >= -1
    ensures |Pack(ws, n, {}, Before(limit))| ==
            if position >= limit then 1 + |Pack(ws[1..], n, {}, Before(position + n))|
            else |Pack(ws[1..], n, {}, Before(limit))|
  {
    assert ws[0][0] == position && ws[0][n - 1] == position + n - 1 && Free(ws[0], {});
  }

  /** `non_overlapping`: the count is that of the largest disjoint selection of occurrences. */
  method NonOverlapping(positions: seq<nat>, length: nat) returns (count: nat)
    requires length >= 1 && forall i, j :: 0 <= i < j < |positions| ==> positions[i] < positions[j]
    ensures exists family :: Solution(family, RunsAt(positions, length), {}) && |family| == count
    ensures forall family :: Solution(family, RunsAt(positions, length), {}) ==> |family| <= count
  {
    ghost var ws := RunsAt(positions, length);
    assert InStartOrder(ws, length);
    count := 0;
    var limit: int := -1;
    assert ws[0..] == ws;
    for i := 0 to |positions|
      invariant limit >= -1
      invariant count + |Pack(ws[i..], length, {}, Before(limit))| == |Pack(ws, length, {}, -1)|
    {
      assert ws[i..][0] == RunAt(positions[i], length) && ws[i..][1..] == ws[i + 1..];
      PackFirst(ws[i..], length, positions[i], limit);
      if positions[i] >= limit {
        count := count + 1;
        limit := positions[i] + length;
      }
    }
    PackSolves(ws, length, {});
    assert Solution((set w | w in Pack(ws, length, {}, -1)), ws, {});
    forall family | Solution(family, ws, {}) ensures |family| <= count {
      PackMaximum(ws, length, {}, family);
    }
  }
}
