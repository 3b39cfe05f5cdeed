/** Orders of a window that respect its dependences, and why running the window in such an order
    computes the same state. */
module Schedules {
  import opened Listing
  import opened Windows

  predicate Within(order: seq<nat>, n: nat) {
    forall p :: 0 <= p < |order| ==> order[p] < n
  }

  function Permute(w: Window, order: seq<nat>): (r: Window)
    requires Within(order, |w|)
    ensures |r| == |order|
  {
    seq(|order|, p requires 0 <= p < |order| => w[order[p]])
  }

  ghost predicate Before(s: seq<nat>, x: nat, y: nat) {
    exists i, j :: 0 <= i < j < |s| && s[i] == x && s[j] == y
  }

  /** A topological order of the dependence edges. */
  ghost predicate Respects(w: Window, order: seq<nat>) {
    && Perm(order, |w|)
    && forall i: nat, j: nat, kind :: i < j < |w| && DependsOn(w, i, j, kind) ==> Before(order, i, j)
  }

  lemma BeforeTransitive(s: seq<nat>, x: nat, y: nat, z: nat)
    requires NoDup(s) && Before(s, x, y) && Before(s, y, z)
    ensures Before(s, x, z)
  {
    var i, j :| 0 <= i < j < |s| && s[i] == x && s[j] == y;
    var k, l :| 0 <= k < l < |s| && s[k] == y && s[l] == z;
    assert j == k;
  }

  lemma BeforeTotal(s: seq<nat>, x: nat, y: nat)
    requires NoDup(s) && x in s && y in s && x != y
    ensures Before(s, x, y) <==> !Before(s, y, x)
  {
    var i :| 0 <= i < |s| && s[i] == x;
    var j :| 0 <= j < |s| && s[j] == y;
    assert i < j ==> Before(s, x, y);
    assert j < i ==> Before(s, y, x);
  }

  lemma {:induction false} OrderedBefore(w: Window, order: seq<nat>, i: nat, j: nat)
    requires Respects(w, order) && i < j < |w| && Ordered(w, i, j)
    ensures Before(order, i, j)
    decreases j - i
  {
    if kind :| DependsOn(w, i, j, kind) {
    } else {
      var m :| i < m < j && Ordered(w, i, m) && Ordered(w, m, j);
      OrderedBefore(w, order, i, m);
      OrderedBefore(w, order, m, j);
      BeforeTransitive(order, i, m, j);
    }
  }

  /** Conflicting instructions, and instructions before a transfer, keep their order. */
  lemma ConflictsKeepOrder(w: Window, order: seq<nat>, i: nat, j: nat)
    requires Respects(w, order) && i < j < |w|
    requires Conflict(w[i], w[j]) || Transfers(w[j])
    ensures Before(order, i, j)
  {
    ConflictsOrdered(w, i, j);
    OrderedBefore(w, order, i, j);
  }

  /** The converse: an order that keeps every conflict in place respects every edge. */
  lemma KeepingConflictsRespects(w: Window, order: seq<nat>)
    requires Perm(order, |w|)
    requires forall i: nat, j: nat :: i < j < |w| && (Conflict(w[i], w[j]) || Transfers(w[j])) ==> Before(order, i, j)
    ensures Respects(w, order)
  {
    forall i: nat, j: nat, kind | i < j < |w| && DependsOn(w, i, j, kind) ensures Before(order, i, j) {
      EdgesConflict(w, i, j, kind);
    }
  }

  // ------------------------------------------------------------ meaning

  /** Registers and memory; the values and the shape of memory are left open. */
  datatype State<V, M> = State(regs: map<Reg, V>, mem: M)

  ghost predicate SameReg<V, M>(s: State<V, M>, t: State<V, M>, r: Reg) {
    (r in s.regs <==> r in t.regs) && (r in s.regs ==> s.regs[r] == t.regs[r])
  }

  ghost predicate SameInputs<V, M>(i: Instruction, s: State<V, M>, t: State<V, M>) {
    && (forall r :: r in EffectiveReads(i) ==> SameReg(s, t, r))
    && (Loads(i) || Stores(i) ==> s.mem == t.mem)
  }

  /** Executing an instruction changes only what it declares to write, as a function of what it
      declares to read. */
  ghost predicate Faithful<V(!new), M(!new)>(exec: (Instruction, State<V, M>) -> State<V, M>) {
    && (forall i: Instruction, s, r :: r !in i.writeSet ==> SameReg(exec(i, s), s, r))
    && (forall i: Instruction, s :: !Stores(i) ==> exec(i, s).mem == s.mem)
    && (forall i: Instruction, s, t, r :: SameInputs(i, s, t) && r in i.writeSet ==> SameReg(exec(i, s), exec(i, t), r))
    && (forall i: Instruction, s, t :: SameInputs(i, s, t) && Stores(i) ==> exec(i, s).mem == exec(i, t).mem)
  }

  ghost function Run<V(!new), M(!new)>(exec: (Instruction, State<V, M>) -> State<V, M>, w: Window, s: State<V, M>): State<V, M> {
    if w == [] then s else Run(exec, w[1..], exec(w[0], s))
  }

  /** The instructions take effect one after the other. */
  lemma {:induction false} RunInTurn<V(!new), M(!new)>(exec: (Instruction, State<V, M>) -> State<V, M>, w: Window,
                                                       states: seq<State<V, M>>)
    requires |states| == |w| + 1 && forall k :: 0 <= k < |w| ==> states[k + 1] == exec(w[k], states[k])
    ensures Run(exec, w, states[0]) == states[|w|]
    decreases |w|
  {
    if w != [] {
      assert states[0 + 1] == exec(w[0], states[0]);
      forall k | 0 <= k < |w[1..]| ensures states[1..][k + 1] == exec(w[1..][k], states[1..][k]) {
        assert states[(k + 1) + 1] == exec(w[k + 1], states[k + 1]);
      }
      RunInTurn(exec, w[1..], states[1..]);
    }
  }

  lemma InputsKept<V(!new), M(!new)>(exec: (Instruction, State<V, M>) -> State<V, M>,
                                     a: Instruction, b: Instruction, s: State<V, M>)
    requires Faithful(exec) && !Conflict(a, b)
    ensures SameInputs(a, s, exec(b, s))
  {
    forall r | r in EffectiveReads(a) ensures SameReg(s, exec(b, s), r) {
      assert !ConflictAt(a, b, Register(r));
    }
    assert !ConflictAt(a, b, Memory);
  }

  lemma ConflictSymmetric(a: Instruction, b: Instruction)
    ensures Conflict(a, b) <==> Conflict(b, a)
  {
    assert forall l :: ConflictAt(a, b, l) <==> ConflictAt(b, a, l);
  }

  lemma Commute<V(!new), M(!new)>(exec: (Instruction, State<V, M>) -> State<V, M>,
                                  a: Instruction, b: Instruction, s: State<V, M>)
    requires Faithful(exec) && !Conflict(a, b)
    ensures exec(b, exec(a, s)) == exec(a, exec(b, s))
  {
    ConflictSymmetric(a, b);
    InputsKept(exec, a, b, s);
    InputsKept(exec, b, a, s);
    var x, y := exec(b, exec(a, s)), exec(a, exec(b, s));
    forall r: Reg ensures SameReg(x, y, r) {
      assert !ConflictAt(a, b, Register(r));
      if r in a.writeSet {
        assert r !in b.writeSet && SameInputs(a, s, exec(b, s));
        assert SameReg(x, exec(a, s), r) && SameReg(exec(a, s), y, r);
      } else if r in b.writeSet {
        assert SameInputs(b, s, exec(a, s));
        assert SameReg(y, exec(b, s), r) && SameReg(exec(b, s), x, r);
      } else {
        assert SameReg(x, exec(a, s), r) && SameReg(exec(a, s), s, r);
        assert SameReg(y, exec(b, s), r) && SameReg(exec(b, s), s, r);
      }
    }
    assert !ConflictAt(a, b, Memory);
    SameState(x, y);
  }

  lemma SameState<V, M>(x: State<V, M>, y: State<V, M>)
    requires (forall r: Reg :: SameReg(x, y, r)) && x.mem == y.mem
    ensures x == y
  {
    forall r: Reg ensures r in x.regs <==> r in y.regs {
      assert SameReg(x, y, r);
    }
    forall r: Reg | r in x.regs ensures x.regs[r] == y.regs[r] {
      assert SameReg(x, y, r);
    }
    assert x.regs == y.regs;
  }

  lemma {:induction false} RunAppend<V(!new), M(!new)>(exec: (Instruction, State<V, M>) -> State<V, M>,
                                                       u: Window, v: Window, s: State<V, M>)
    ensures Run(exec, u + v, s) == Run(exec, v, Run(exec, u, s))
  {
    if u == [] {
      assert u + v == v;
    } else {
      assert (u + v)[1..] == u[1..] + v;
      RunAppend(exec, u[1..], v, exec(u[0], s));
    }
  }

  /** An instruction that conflicts with nothing before it may go first. */
  lemma {:induction false} MoveToFront<V(!new), M(!new)>(exec: (Instruction, State<V, M>) -> State<V, M>,
                                                         u: Window, x: Instruction, s: State<V, M>)
    requires Faithful(exec) && forall y <- u :: !Conflict(y, x)
    ensures Run(exec, u + [x], s) == Run(exec, [x] + u, s)
  {
    if u == [] {
      assert u + [x] == [x] + u;
    } else {
      var y, v := u[0], u[1..];
      assert (u + [x])[1..] == v + [x];
      MoveToFront(exec, v, x, exec(y, s));
      assert ([x] + v)[1..] == v && ([x] + u)[1..] == u;
      assert y in u;
      Commute(exec, y, x, s);
    }
  }

  /** No conflicting pair is swapped between two orders. */
  ghost predicate Agree(w: Window, a: seq<nat>, b: seq<nat>)
    requires Within(a, |w|)
  {
    forall x, y :: x in a && y in a && Conflict(w[x], w[y]) && Before(a, x, y) ==> !Before(b, y, x)
  }

  function Rest(a: seq<nat>, p: nat): (r: seq<nat>)
    requires p < |a|
    ensures |r| == |a| - 1
  {
    a[..p] + a[p + 1..]
  }

  lemma {:induction false} AgreeingRuns<V(!new), M(!new)>(exec: (Instruction, State<V, M>) -> State<V, M>,
                                                          w: Window, a: seq<nat>, b: seq<nat>, s: State<V, M>)
    requires Faithful(exec)
    requires NoDup(a) && NoDup(b) && (forall x :: x in a <==> x in b) && Within(a, |w|) && Within(b, |w|)
    requires Agree(w, a, b)
    ensures Run(exec, Permute(w, a), s) == Run(exec, Permute(w, b), s)
    decreases |b|
  {
    hide Faithful, Agree, NoDup, Rest;
    SameElements(a, b);
    if b != [] {
      assert b[0] in b;
      var p :| 0 <= p < |a| && a[p] == b[0];
      FrontMayMove(w, a, b, p);
      FrontMoves(exec, w, a, p, s);
      FrontMayMove(w, b, b, 0);
      FrontMoves(exec, w, b, 0, s);
      RestElements(a, b[0], p);
      RestElements(b, b[0], 0);
      RestAgrees(w, a, b, p);
      AgreeingRuns(exec, w, Rest(a, p), Rest(b, 0), exec(w[b[0]], s));
    }
  }

  lemma FrontMayMove(w: Window, a: seq<nat>, b: seq<nat>, p: nat)
    requires NoDup(a) && NoDup(b) && (forall x :: x in a <==> x in b) && Within(a, |w|)
    requires b != [] && p < |a| && a[p] == b[0]
    requires p == 0 || Agree(w, a, b)
    ensures forall y <- Permute(w, a[..p]) :: !Conflict(y, w[a[p]])
  {
    forall q | 0 <= q < p ensures !Conflict(w[a[q]], w[a[p]]) {
      assert a[q] in b && a[p] in a && a[q] in a;
      var r :| 0 <= r < |b| && b[r] == a[q];
      assert Before(a, a[q], a[p]) && Before(b, a[p], a[q]);
    }
  }

  lemma FrontMoves<V(!new), M(!new)>(exec: (Instruction, State<V, M>) -> State<V, M>,
                                     w: Window, a: seq<nat>, p: nat, s: State<V, M>)
    requires Faithful(exec) && Within(a, |w|) && p < |a|
    requires forall y <- Permute(w, a[..p]) :: !Conflict(y, w[a[p]])
    ensures Within(Rest(a, p), |w|)
    ensures Run(exec, Permute(w, a), s) == Run(exec, Permute(w, Rest(a, p)), exec(w[a[p]], s))
  {
    hide Faithful;
    var x, u, v := w[a[p]], Permute(w, a[..p]), Permute(w, a[p + 1..]);
    assert Permute(w, a) == u + [x] + v;
    assert Permute(w, Rest(a, p)) == u + v;
    RunAppend(exec, u + [x], v, s);
    MoveToFront(exec, u, x, s);
    RunAppend(exec, u, v, exec(x, s));
    assert ([x] + u)[1..] == u;
  }

  lemma RestElements(a: seq<nat>, x: nat, p: nat)
    requires NoDup(a) && p < |a| && a[p] == x
    ensures NoDup(Rest(a, p)) && forall n: nat :: Within(a, n) ==> Within(Rest(a, p), n)
    ensures forall y :: y in Rest(a, p) <==> y in a && y != x
  {
    var rest := Rest(a, p);
    forall y ensures y in rest <==> y in a && y != x {
      if y in a && y != x {
        var i :| 0 <= i < |a| && a[i] == y;
        assert rest[if i < p then i else i - 1] == y;
      }
    }
  }

  lemma RestBefore(a: seq<nat>, p: nat, x: nat, y: nat)
    requires p < |a| && Before(Rest(a, p), x, y)
    ensures Before(a, x, y)
  {
    var rest := Rest(a, p);
    var i, j :| 0 <= i < j < |rest| && rest[i] == x && rest[j] == y;
    var i', j' := (if i < p then i else i + 1), (if j < p then j else j + 1);
    assert a[i'] == x && a[j'] == y;
  }

  lemma RestAgrees(w: Window, a: seq<nat>, b: seq<nat>, p: nat)
    requires Within(a, |w|) && Agree(w, a, b) && b != [] && p < |a|
    ensures Within(Rest(a, p), |w|) && Agree(w, Rest(a, p), Rest(b, 0))
  {
    hide Before;
    var c, d := Rest(a, p), Rest(b, 0);
    forall x, y | x in c && y in c && Conflict(w[x], w[y]) && Before(c, x, y) ensures !Before(d, y, x) {
      RestBefore(a, p, x, y);
      if Before(d, y, x) {
        RestBefore(b, 0, y, x);
      }
    }
  }

  /** Re-scheduling preserves meaning: any topological order of the dependence edges takes every
      state to the state the original window takes it to. */
  lemma ReschedulingPreservesMeaning<V(!new), M(!new)>(exec: (Instruction, State<V, M>) -> State<V, M>,
                                                       w: Window, order: seq<nat>, s: State<V, M>)
    requires Faithful(exec) && Respects(w, order)
    ensures Run(exec, Permute(w, order), s) == Run(exec, w, s)
  {
    var ids: seq<nat> := seq(|w|, i requires 0 <= i < |w| => i);
    PermOnto(order, |w|);
    assert forall i: nat :: i < |w| ==> ids[i] == i;
    forall x, y | x in order && y in order && Conflict(w[x], w[y]) && Before(order, x, y) ensures !Before(ids, y, x) {
      if Before(ids, y, x) {
        assert y < x;
        ConflictSymmetric(w[x], w[y]);
        ConflictsKeepOrder(w, order, y, x);
        BeforeTotal(order, x, y);
      }
    }
    assert Permute(w, ids) == w;
    AgreeingRuns(exec, w, order, ids, s);
  }
}
