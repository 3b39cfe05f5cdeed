/** The labelled graph of a window: one node per instruction, labelled by mnemonic, one virtual node
    per register used before it is written; and why a re-scheduled window has the same graph. */
module DagGraph {
  import opened Text
  import opened Listing
  import opened Rendering
  import opened CanonicalForm
  import opened Windows
  import opened Schedules
  import Dependence

  function LiveLabel(r: Reg): string {
    if r in PINNED then "in:" + r else "in"
  }

  /** The uses of an instruction that are not of a register already defined, with their edge kinds. */
  function Uses(i: Instruction, defined: set<Reg>): set<(Reg, string)> {
    (set s | s in SourceSlots(i) && s.1 !in defined :: (s.1, "in" + Decimal(s.0)))
    + (set r | r in EffectiveReads(i) && r !in ExplicitReads(i) && r !in defined :: (r, "in*"))
  }

  // ------------------------------------------------------------ uses, over the fields

  lemma SlotKinds(s: nat, t: nat)
    ensures "in" + Decimal(s) == "in" + Decimal(t) ==> s == t
    ensures "in" + Decimal(s) != "in*"
  {
    assert ("in" + Decimal(s))[2..] == Decimal(s) && ("in" + Decimal(t))[2..] == Decimal(t);
    if "in" + Decimal(s) == "in" + Decimal(t) {
      DecimalInjective(s, t);
    }
    assert "in*"[2..] == "*" && '*' in "*";
  }

  /** A use by slot says which operand the register is. */
  lemma SlotUse(i: Instruction, r: Reg, s: nat)
    ensures (r, "in" + Decimal(s)) in Uses(i, {}) <==> ReadSlot(i, s) && i.registers[s] == r
  {
    hide SourceSlots, ReadSlot;
    SlotsExactly(i, s, r);
    SlotKinds(s, s);
    if (r, "in" + Decimal(s)) in Uses(i, {}) {
      var t :| t in SourceSlots(i) && (t.1, "in" + Decimal(t.0)) == (r, "in" + Decimal(s));
      SlotKinds(s, t.0);
      assert t == (s, r);
    }
    if (s, r) in SourceSlots(i) {
      var t := (s, r);
      assert (t.1, "in" + Decimal(t.0)) in Uses(i, {});
    }
  }

  /** An implicit use is of a declared register that stands in no source slot. */
  lemma ImplicitUse(i: Instruction, r: Reg)
    ensures (r, "in*") in Uses(i, {}) <==>
            r in i.readSet && !exists k: nat :: ReadSlot(i, k) && i.registers[k] == r
  {
    InSlot(i, r);
    ImplicitIs(i, r);
  }

  lemma ImplicitIs(i: Instruction, r: Reg)
    ensures (r, "in*") in Uses(i, {}) <==> r in i.readSet && r !in ExplicitReads(i)
  {
    DeclaredOrInSlot(i, r);
    hide SourceSlots, ExplicitReads, EffectiveReads;
    forall s: nat ensures "in" + Decimal(s) != "in*" {
      SlotKinds(s, s);
    }
    assert r in EffectiveReads(i) && r !in ExplicitReads(i) ==> (r, "in*") in Uses(i, {});
  }

  lemma UseKinds(i: Instruction, r: Reg, kind: string)
    requires (r, kind) in Uses(i, {})
    ensures kind == "in*" || exists s: nat :: kind == "in" + Decimal(s)
  {
    hide SourceSlots, Decimal;
    if kind != "in*" {
      var s :| s in SourceSlots(i) && (s.1, "in" + Decimal(s.0)) == (r, kind);
      assert kind == "in" + Decimal(s.0);
    }
  }

  // ------------------------------------------------------------ the graph, stated over the window

  /** Instruction `i` reads `r` and nothing before it writes `r`. */
  ghost predicate LiveUse(w: Window, i: nat, r: Reg)
    requires i < |w|
  {
    r in EffectiveReads(w[i]) && forall k :: 0 <= k < i ==> r !in w[k].writeSet
  }

  ghost predicate LiveEdge(w: Window, live: seq<Reg>, m: nat, n: nat, kind: string) {
    && n < |w| && |w| <= m < |w| + |live|
    && LiveUse(w, n, live[m - |w|])
    && (live[m - |w|], kind) in Uses(w[n], {})
  }

  ghost predicate IsLive(w: Window, r: Reg) {
    exists i :: 0 <= i < |w| && LiveUse(w, i, r)
  }

  function Mnemonic(): Instruction -> string { (i: Instruction) => i.mnemonic }

  /** `live` lists the live-in registers in the order they were given nodes. */
  ghost predicate IsDagGraph(w: Window, g: Graph, live: seq<Reg>) {
    && NoDup(live)
    && (forall r :: r in live <==> IsLive(w, r))
    && g.labels == MapSeq(Mnemonic(), w) + MapSeq(LiveLabel, live)
    && (forall m: nat, n: nat, k :: (m, n, k) in g.edges <==> IsEdge(w, m, n, k) || LiveEdge(w, live, m, n, k))
  }

  // ------------------------------------------------------------ the graph, over the fields

  /** Nothing before instruction `n` writes the register. */
  ghost predicate UnwrittenBefore(w: Window, n: nat, r: Reg)
    requires n <= |w|
  {
    forall k :: 0 <= k < n ==> r !in w[k].writeSet
  }

  /** An edge of kind "in" and a slot number for each operand that is a live-in register, one of kind
      "in*" for each other register that is read and live-in; nothing else leaves a virtual node. */
  ghost predicate LiveEdgesOverFields(w: Window, g: Graph, live: seq<Reg>, t: nat, n: nat)
    requires t < |live| && n < |w|
  {
    var m, r := |w| + t, live[t];
    && (forall s: nat :: (m, n, "in" + Decimal(s)) in g.edges <==>
          ReadSlot(w[n], s) && w[n].registers[s] == r && UnwrittenBefore(w, n, r))
    && ((m, n, "in*") in g.edges <==>
          r in w[n].readSet && UnwrittenBefore(w, n, r) && !exists s: nat :: ReadSlot(w[n], s) && w[n].registers[s] == r)
    && (forall kind :: (m, n, kind) in g.edges ==> kind == "in*" || exists s: nat :: kind == "in" + Decimal(s))
  }

  /** Labels are mnemonics, and for virtual nodes "in", with the register if it is pinned. */
  ghost predicate LabelsOverFields(w: Window, g: Graph, live: seq<Reg>) {
    && |g.labels| == |w| + |live|
    && (forall n :: 0 <= n < |w| ==> g.labels[n] == w[n].mnemonic)
    && (forall t :: 0 <= t < |live| ==> g.labels[|w| + t] == if live[t] in PINNED then "in:" + live[t] else "in")
  }

  ghost predicate GraphOverFields(w: Window, g: Graph, live: seq<Reg>) {
    && NoDup(live)
    && (forall r :: r in live <==> exists n :: 0 <= n < |w| && ReadsRegister(w[n], r) && UnwrittenBefore(w, n, r))
    && LabelsOverFields(w, g, live)
    && (forall m: nat, n: nat, kind | m <= n < |w| :: (m, n, kind) in g.edges <==> EdgeOverFields(w, m, n, kind))
    && (forall t: nat, n: nat | t < |live| && n < |w| :: LiveEdgesOverFields(w, g, live, t, n))
    && (forall m: nat, n: nat, kind :: (m, n, kind) in g.edges ==> n < |w| && (m <= n || |w| <= m < |w| + |live|))
  }

  lemma LiveUseExactly(w: Window, n: nat, r: Reg)
    requires n < |w|
    ensures LiveUse(w, n, r) <==> ReadsRegister(w[n], r) && UnwrittenBefore(w, n, r)
  {
    ReadsExactly(w[n], r);
    hide EffectiveReads, ReadsRegister;
  }

  /** A register in a source slot is read. */
  lemma SlotIsRead(i: Instruction, s: nat)
    requires ReadSlot(i, s)
    ensures ReadsRegister(i, i.registers[s])
  {}

  lemma LiveEdgesExactly(w: Window, g: Graph, live: seq<Reg>, t: nat, n: nat)
    requires IsDagGraph(w, g, live) && t < |live| && n < |w|
    ensures LiveEdgesOverFields(w, g, live, t, n)
  {
    var m, r := |w| + t, live[t];
    hide *;
    forall kind ensures (m, n, kind) in g.edges <==> LiveUse(w, n, r) && (r, kind) in Uses(w[n], {}) {
      EdgeIsUse(w, g, live, t, n, kind);
    }
    forall s: nat ensures (m, n, "in" + Decimal(s)) in g.edges <==>
                          ReadSlot(w[n], s) && SlotHolds(w[n], s, r) && UnwrittenBefore(w, n, r)
    {
      SlotLives(w, n, r, s);
    }
    ImplicitLives(w, n, r);
    forall kind | (m, n, kind) in g.edges ensures kind == "in*" || exists s: nat :: kind == "in" + Decimal(s) {
      UseKinds(w[n], r, kind);
    }
    LiveEdgesAre(w, g, live, t, n, m);
  }

  ghost predicate SlotHolds(i: Instruction, s: nat, r: Reg) { s < |i.registers| && i.registers[s] == r }

  lemma LiveEdgesAre(w: Window, g: Graph, live: seq<Reg>, t: nat, n: nat, m: nat)
    requires t < |live| && n < |w| && m == |w| + t
    requires forall s: nat :: (m, n, "in" + Decimal(s)) in g.edges <==>
               ReadSlot(w[n], s) && SlotHolds(w[n], s, live[t]) && UnwrittenBefore(w, n, live[t])
    requires (m, n, "in*") in g.edges <==> UnwrittenBefore(w, n, live[t]) && ImplicitRead(w[n], live[t])
    requires forall kind :: (m, n, kind) in g.edges ==> kind == "in*" || exists s: nat :: kind == "in" + Decimal(s)
    ensures LiveEdgesOverFields(w, g, live, t, n)
  {
    hide Decimal, UnwrittenBefore;
  }

  ghost predicate ImplicitRead(i: Instruction, r: Reg) {
    r in i.readSet && !exists s: nat :: ReadSlot(i, s) && i.registers[s] == r
  }

  lemma EdgeIsUse(w: Window, g: Graph, live: seq<Reg>, t: nat, n: nat, kind: string)
    requires IsDagGraph(w, g, live) && t < |live| && n < |w|
    ensures (|w| + t, n, kind) in g.edges <==> LiveUse(w, n, live[t]) && (live[t], kind) in Uses(w[n], {})
  {
    NoEdgeFromLive(w, |w| + t, n);
    hide IsEdge, LiveUse, Uses, NoDup, IsLive;
    assert (|w| + t, n, kind) in g.edges <==> LiveEdge(w, live, |w| + t, n, kind);
  }

  lemma SlotLives(w: Window, n: nat, r: Reg, s: nat)
    requires n < |w|
    ensures LiveUse(w, n, r) && (r, "in" + Decimal(s)) in Uses(w[n], {}) <==>
            ReadSlot(w[n], s) && SlotHolds(w[n], s, r) && UnwrittenBefore(w, n, r)
  {
    LiveUseExactly(w, n, r);
    SlotUse(w[n], r, s);
    hide LiveUse, Uses, UnwrittenBefore, ReadsRegister;
    if ReadSlot(w[n], s) {
      SlotIsRead(w[n], s);
    }
  }

  lemma ImplicitLives(w: Window, n: nat, r: Reg)
    requires n < |w|
    ensures LiveUse(w, n, r) && (r, "in*") in Uses(w[n], {}) <==> UnwrittenBefore(w, n, r) && ImplicitRead(w[n], r)
  {
    LiveUseExactly(w, n, r);
    ImplicitUse(w[n], r);
    DeclaredIsRead(w[n], r);
    hide LiveUse, Uses, UnwrittenBefore, ReadsRegister, ReadSlot;
  }

  lemma DeclaredIsRead(i: Instruction, r: Reg)
    ensures r in i.readSet ==> ReadsRegister(i, r)
  {}

  lemma NoEdgeFromLive(w: Window, m: nat, n: nat)
    requires |w| <= m
    ensures forall kind :: !IsEdge(w, m, n, kind)
  {
    hide DependsOn;
  }

  lemma LabelsExactly(w: Window, g: Graph, live: seq<Reg>)
    requires IsDagGraph(w, g, live)
    ensures LabelsOverFields(w, g, live)
  {
    hide IsEdge, LiveEdge, IsLive, NoDup;
  }

  lemma DependencesExactly(w: Window, g: Graph, live: seq<Reg>, m: nat, n: nat, kind: string)
    requires IsDagGraph(w, g, live)
    ensures m <= n < |w| ==> ((m, n, kind) in g.edges <==> EdgeOverFields(w, m, n, kind))
    ensures (m, n, kind) in g.edges ==> n < |w| && (m <= n || |w| <= m < |w| + |live|)
  {
    hide LiveUse, Uses, NoDup, EdgeOverFields, DependsOn, SelfEdge, IsLive;
    if m <= n < |w| {
      EdgesExactly(w, m, n, kind);
    }
    assert (m, n, kind) in g.edges <==> IsEdge(w, m, n, kind) || LiveEdge(w, live, m, n, kind);
  }

  /** The graph of a window is exactly that. */
  lemma GraphExactly(w: Window, g: Graph, live: seq<Reg>)
    requires IsDagGraph(w, g, live)
    ensures GraphOverFields(w, g, live)
  {
    assert NoDup(live);
    hide *;
    LabelsExactly(w, g, live);
    LiveExactly(w, g, live);
    forall m: nat, n: nat, kind
      ensures m <= n < |w| ==> ((m, n, kind) in g.edges <==> EdgeOverFields(w, m, n, kind))
      ensures (m, n, kind) in g.edges ==> n < |w| && (m <= n || |w| <= m < |w| + |live|)
    {
      DependencesExactly(w, g, live, m, n, kind);
    }
    forall t: nat, n: nat | t < |live| && n < |w| ensures LiveEdgesOverFields(w, g, live, t, n) {
      LiveEdgesExactly(w, g, live, t, n);
    }
    OverFields(w, g, live);
  }

  lemma OverFields(w: Window, g: Graph, live: seq<Reg>)
    requires NoDup(live) && LabelsOverFields(w, g, live)
    requires forall r :: r in live <==> exists n :: 0 <= n < |w| && ReadsRegister(w[n], r) && UnwrittenBefore(w, n, r)
    requires forall m: nat, n: nat, kind :: m <= n < |w| ==> ((m, n, kind) in g.edges <==> EdgeOverFields(w, m, n, kind))
    requires forall m: nat, n: nat, kind :: (m, n, kind) in g.edges ==> n < |w| && (m <= n || |w| <= m < |w| + |live|)
    requires forall t: nat, n: nat | t < |live| && n < |w| :: LiveEdgesOverFields(w, g, live, t, n)
    ensures GraphOverFields(w, g, live)
  {
    hide NoDup, LabelsOverFields, EdgeOverFields, LiveEdgesOverFields, ReadsRegister, UnwrittenBefore;
  }

  lemma LiveExactly(w: Window, g: Graph, live: seq<Reg>)
    requires IsDagGraph(w, g, live)
    ensures forall r :: r in live <==> exists n :: 0 <= n < |w| && ReadsRegister(w[n], r) && UnwrittenBefore(w, n, r)
  {
    hide IsEdge, LiveEdge, LiveUse, ReadsRegister, UnwrittenBefore, NoDup;
    forall r ensures IsLive(w, r) <==> exists n :: 0 <= n < |w| && ReadsRegister(w[n], r) && UnwrittenBefore(w, n, r) {
      forall n | 0 <= n < |w| ensures LiveUse(w, n, r) <==> ReadsRegister(w[n], r) && UnwrittenBefore(w, n, r) {
        LiveUseExactly(w, n, r);
      }
    }
  }

  // ------------------------------------------------------------ operands are told apart

  /** The node of a register the first instruction reads in a slot, and the edge from it. */
  lemma FirstOperand(w: Window, g: Graph, live: seq<Reg>, s: nat) returns (t: nat)
    requires w != [] && GraphOverFields(w, g, live) && ReadSlot(w[0], s)
    ensures t < |live| && live[t] == w[0].registers[s] && (|w| + t, 0, "in" + Decimal(s)) in g.edges
    ensures |w| + t < |g.labels|
  {
    var r := w[0].registers[s];
    SlotIsRead(w[0], s);
    hide ReadsRegister, EdgeOverFields, ReadSlot, Decimal;
    assert UnwrittenBefore(w, 0, r);
    assert r in live;
    t :| t < |live| && live[t] == r;
    assert LiveEdgesOverFields(w, g, live, t, 0);
  }

  /** An edge of kind "in1" into a single instruction comes from the register in its slot 1. */
  lemma SecondSlotSource(w: Window, g: Graph, live: seq<Reg>, m: nat, n: nat) returns (t: nat)
    requires |w| == 1 && GraphOverFields(w, g, live) && (m, n, "in1") in g.edges
    ensures n == 0 && t < |live| && m == 1 + t && ReadSlot(w[0], 1) && w[0].registers[1] == live[t]
  {
    hide ReadsRegister, ReadSlot, LabelsOverFields, Decimal;
    NoSlotEdge(w, m, n);
    t := m - 1;
    assert LiveEdgesOverFields(w, g, live, t, n);
    OneDigit();
    assert (m, n, "in" + Decimal(1)) in g.edges;
  }

  lemma NoSlotEdge(w: Window, m: nat, n: nat)
    ensures m <= n < |w| ==> !EdgeOverFields(w, m, n, "in1")
  {
    assert "in1"[0] == 'i';
  }

  lemma OneDigit()
    ensures Decimal(1) == "1" && "in" + Decimal(1) == "in1"
  {}

  /** A virtual node's label says which pinned register it is, and nothing of another. */
  lemma PinnedLabel(w: Window, g: Graph, live: seq<Reg>, t: nat)
    requires GraphOverFields(w, g, live) && t < |live|
    ensures |g.labels| == |w| + |live| && g.labels[|w| + t] == if live[t] in PINNED then "in:" + live[t] else "in"
  {}

  /** Two pinned live-in registers have different labels, and none has that of an unpinned one. */
  lemma PinnedApart(w: Window, g: Graph, live: seq<Reg>, s: nat, t: nat)
    requires GraphOverFields(w, g, live) && s < |live| && t < |live| && live[s] in PINNED && s != t
    ensures |g.labels| == |w| + |live| && g.labels[|w| + s] != g.labels[|w| + t]
  {
    assert live[s] != live[t];
    PinnedLabel(w, g, live, s);
    PinnedLabel(w, g, live, t);
    hide GraphOverFields, NoDup;
    assert ("in:" + live[s])[3..] == live[s] && ("in:" + live[t])[3..] == live[t];
    assert |"in:" + live[s]| > |"in"|;
  }

  lemma Carried(g: Graph, h: Graph, f: seq<nat>, m: nat, n: nat, kind: string)
    requires Isomorphism(g, h, f) && m < |g.labels| && n < |g.labels| && (m, n, kind) in g.edges
    ensures m < |f| && n < |f| && f[m] < |h.labels| && (f[m], f[n], kind) in h.edges && h.labels[f[m]] == g.labels[m]
  {}

  /** Exchanging two source operands, one of them pinned, changes the graph. */
  lemma ExchangedOperands(i: Instruction, j: Instruction, g: Graph, live: seq<Reg>, h: Graph, live': seq<Reg>)
    requires |i.registers| == 3 && j.registers == [i.registers[0], i.registers[2], i.registers[1]]
    requires i.registers[1] in PINNED && i.registers[2] !in PINNED
    requires IsDagGraph([i], g, live) && IsDagGraph([j], h, live')
    ensures !Isomorphic(g, h)
  {
    hide *;
    GraphExactly([i], g, live);
    GraphExactly([j], h, live');
    OneDigit();
    SecondIsRead(i);
    var t := FirstOperand([i], g, live, 1);
    PinnedLabel([i], g, live, t);
    LabelsClash(live[t]);
    if Isomorphic(g, h) {
      var f := SomeIsomorphism(g, h);
      Carried(g, h, f, 1 + t, 0, "in1");
      var s := SecondSlotSource([j], h, live', f[1 + t], f[0]);
      PinnedLabel([j], h, live', s);
    }
  }

  lemma SecondIsRead(i: Instruction)
    requires |i.registers| >= 2
    ensures ReadSlot(i, 1)
  {}

  lemma LabelsClash(r: Reg)
    ensures "in:" + r != "in"
  {
    assert |"in:" + r| > |"in"|;
  }

  lemma SomeIsomorphism(g: Graph, h: Graph) returns (f: seq<nat>)
    requires Isomorphic(g, h)
    ensures Isomorphism(g, h, f)
  {
    f :| Isomorphism(g, h, f);
  }

  // ------------------------------------------------------------ building it

  lemma UsesAfter(w: Window, i: nat, defined: set<Reg>, u: (Reg, string))
    requires i < |w| && forall r :: r in defined <==> exists k :: 0 <= k < i && r in w[k].writeSet
    ensures u in Uses(w[i], defined) <==> LiveUse(w, i, u.0) && u in Uses(w[i], {})
  {
    hide SourceSlots;
    UsesUndefined(w[i], defined, u);
  }

  lemma UsesUndefined(i: Instruction, defined: set<Reg>, u: (Reg, string))
    ensures u in Uses(i, defined) <==> u in Uses(i, {}) && u.0 !in defined
    ensures u in Uses(i, {}) ==> u.0 in EffectiveReads(i)
  {
    hide SourceSlots;
  }

  lemma EveryReadUsed(i: Instruction, r: Reg)
    requires r in EffectiveReads(i)
    ensures exists kind :: (r, kind) in Uses(i, {})
  {
    hide SourceSlots;
    if r in ExplicitReads(i) {
      var s :| s in SourceSlots(i) && s.1 == r;
      assert (r, "in" + Decimal(s.0)) in Uses(i, {});
    } else {
      assert (r, "in*") in Uses(i, {});
    }
  }

  /** The live-in part after `k` instructions. */
  ghost predicate LiveSoFar(w: Window, k: nat, live: seq<Reg>, edges: set<Edge>)
    requires k <= |w|
  {
    && NoDup(live)
    && (forall r :: r in live <==> exists i :: 0 <= i < k && LiveUse(w, i, r))
    && (forall m: nat, n: nat, kind :: (m, n, kind) in edges <==> n < k && LiveEdge(w, live, m, n, kind))
  }

  /** A live-in edge recorded for register `r` within instruction `k`, after the uses in `done`. */
  ghost predicate Row(w: Window, k: nat, done: set<(Reg, string)>, r: Reg, n: nat, kind: string)
    requires k < |w|
  {
    (n < k && LiveUse(w, n, r) && (r, kind) in Uses(w[n], {})) || (n == k && (r, kind) in done)
  }

  ghost predicate LiveWithin(w: Window, k: nat, done: set<(Reg, string)>, live: seq<Reg>, edges: set<Edge>)
    requires k < |w|
  {
    && NoDup(live)
    && (forall r :: r in live <==> (exists i :: 0 <= i < k && LiveUse(w, i, r)) || (exists kind :: (r, kind) in done))
    && (forall m: nat, n: nat, kind :: (m, n, kind) in edges <==>
         |w| <= m < |w| + |live| && Row(w, k, done, live[m - |w|], n, kind))
  }

  lemma WithinStart(w: Window, k: nat, live: seq<Reg>, edges: set<Edge>)
    requires k < |w| && LiveSoFar(w, k, live, edges)
    ensures LiveWithin(w, k, {}, live, edges)
  {
    hide Uses;
  }

  lemma WithinNext(w: Window, k: nat, done: set<(Reg, string)>, live: seq<Reg>, edges: set<Edge>, u: (Reg, string))
    requires k < |w| && LiveWithin(w, k, done, live, edges)
    ensures var live' := if u.0 in live then live else live + [u.0];
            LiveWithin(w, k, done + {u}, live', edges + {(|w| + IndexOf(live', u.0), k, u.1)})
  {
    var live' := if u.0 in live then live else live + [u.0];
    var x := IndexOf(live', u.0);
    var edges' := edges + {(|w| + x, k, u.1)};
    forall r, n: nat, kind ensures Row(w, k, done + {u}, r, n, kind) <==>
                              Row(w, k, done, r, n, kind) || (r, n, kind) == (u.0, k, u.1)
    {
      assert (r, kind) == u <==> r == u.0 && kind == u.1;
    }
    NewRegisterNoRows(w, k, done, live, edges, u.0);
    forall r ensures r in live' <==> (exists i :: 0 <= i < k && LiveUse(w, i, r)) || (exists kind :: (r, kind) in done + {u}) {
      assert (u.0, u.1) in done + {u};
    }
    hide Row, LiveUse, Uses, IndexOf;
    forall m: nat, n: nat, kind
      ensures (m, n, kind) in edges' <==>
              |w| <= m < |w| + |live'| && Row(w, k, done + {u}, live'[m - |w|], n, kind)
    {
      if |w| <= m < |w| + |live'| && live'[m - |w|] == u.0 {
        assert m - |w| == x;
      }
    }
  }

  lemma NewRegisterNoRows(w: Window, k: nat, done: set<(Reg, string)>, live: seq<Reg>, edges: set<Edge>, r: Reg)
    requires k < |w| && LiveWithin(w, k, done, live, edges)
    ensures r !in live ==> forall n: nat, kind :: !Row(w, k, done, r, n, kind)
  {
    hide Uses;
  }

  lemma WithinEnd(w: Window, k: nat, defined: set<Reg>, live: seq<Reg>, edges: set<Edge>)
    requires k < |w| && (forall r :: r in defined <==> exists i :: 0 <= i < k && r in w[i].writeSet)
    requires LiveWithin(w, k, Uses(w[k], defined), live, edges)
    ensures LiveSoFar(w, k + 1, live, edges)
  {
    hide Uses;
    forall u ensures u in Uses(w[k], defined) <==> LiveUse(w, k, u.0) && u in Uses(w[k], {}) {
      UsesAfter(w, k, defined, u);
    }
    forall r ensures (exists kind :: (r, kind) in Uses(w[k], defined)) <==> LiveUse(w, k, r) {
      if LiveUse(w, k, r) {
        EveryReadUsed(w[k], r);
        var kind :| (r, kind) in Uses(w[k], {});
        assert (r, kind) in Uses(w[k], defined);
      }
    }
  }

  /** `dag_graph`; the order in which one instruction's uses get their nodes is left open. */
  method BuildDagGraph(w: Window) returns (g: Graph, live: seq<Reg>)
    ensures IsDagGraph(w, g, live) && g.Valid() && GraphOverFields(w, g, live)
  {
    hide LiveSoFar, LiveWithin, Uses, EffectiveReads;
    var dependences := Dependence.DependenceEdges(w);
    var edges: set<Edge> := {};
    live := [];
    var defined: set<Reg> := {};
    NoneLive(w);
    for index := 0 to |w|
      invariant LiveSoFar(w, index, live, edges)
      invariant forall r :: r in defined <==> exists i :: 0 <= i < index && r in w[i].writeSet
    {
      WithinStart(w, index, live, edges);
      var uses := Uses(w[index], defined);
      var todo := uses;
      assert uses - todo == {};
      while todo != {}
        invariant todo <= uses
        invariant LiveWithin(w, index, uses - todo, live, edges)
      {
        var u :| u in todo;
        WithinNext(w, index, uses - todo, live, edges, u);
        if u.0 !in live {
          live := live + [u.0];
        }
        edges := edges + {(|w| + IndexOf(live, u.0), index, u.1)};
        assert uses - (todo - {u}) == uses - todo + {u};
        todo := todo - {u};
      }
      assert uses - todo == uses;
      WithinEnd(w, index, defined, live, edges);
      defined := defined + w[index].writeSet;
    }
    g := Graph(MapSeq(Mnemonic(), w) + MapSeq(LiveLabel, live), dependences + edges);
    Complete(w, g, live, dependences, edges);
    GraphExactly(w, g, live);
  }

  lemma NoneLive(w: Window)
    ensures LiveSoFar(w, 0, [], {})
  {}

  lemma Complete(w: Window, g: Graph, live: seq<Reg>, dependences: set<Edge>, edges: set<Edge>)
    requires Dependence.EdgesUpTo(w, |w|, dependences) && LiveSoFar(w, |w|, live, edges)
    requires g == Graph(MapSeq(Mnemonic(), w) + MapSeq(LiveLabel, live), dependences + edges)
    ensures IsDagGraph(w, g, live) && g.Valid()
  {
    hide LiveUse, Uses, DependsOn, SelfEdge;
    forall e | e in g.edges ensures e.0 < |g.labels| && e.1 < |g.labels| {
      assert e == (e.0, e.1, e.2);
      assert IsEdge(w, e.0, e.1, e.2) || LiveEdge(w, live, e.0, e.1, e.2);
    }
  }
}
