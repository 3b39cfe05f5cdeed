/** Straight-line instruction windows: what an instruction reads and writes, and the dependences a
    re-scheduling has to respect, stated over the whole window rather than over a scan of it. */
module Windows {

  type Reg = string

  /** The registers the calling convention pins. */
  const PINNED: set<Reg> := {"zero", "ra", "sp", "gp", "tp"}

  datatype Instruction = Instruction(
    mnemonic: string,
    registers: seq<Reg>,             // operand registers, in source order
    readSet: set<Reg>,
    writeSet: set<Reg>,
    memory: seq<(string, nat)>,      // (kind, bytes)
    transfer: string)

  type Window = seq<Instruction>

  /** Operand slots that are read: slot 0 is skipped when it is the destination. */
  function SourceSlots(i: Instruction): (slots: seq<(nat, Reg)>) {
    if i.registers == [] then []
    else if i.writeSet != {} && i.registers[0] in i.writeSet then Slots(i.registers, 1)
    else Slots(i.registers, 0)
  }

  function Slots(registers: seq<Reg>, start: nat): (slots: seq<(nat, Reg)>)
    requires start <= |registers|
  {
    seq(|registers| - start, k requires 0 <= k < |registers| - start => (start + k, registers[start + k]))
  }

  function ExplicitReads(i: Instruction): set<Reg> {
    set s | s in SourceSlots(i) :: s.1
  }

  function EffectiveReads(i: Instruction): set<Reg> {
    i.readSet + ExplicitReads(i)
  }

  predicate Loads(i: Instruction) { exists m :: m in i.memory && m.0 == "read" }
  predicate Stores(i: Instruction) { exists m :: m in i.memory && m.0 == "write" }
  predicate Transfers(i: Instruction) { i.transfer != "ordinary" }

  /** Straight-line code: only the last instruction may transfer control. */
  predicate StraightLine(w: Window) {
    forall i :: 0 <= i < |w| - 1 ==> !Transfers(w[i])
  }

  // ------------------------------------------------------------ what is read, over the fields

  /** Operand slot `k` is a source: not the first slot when that is written. */
  ghost predicate ReadSlot(i: Instruction, k: nat) {
    k < |i.registers| && !(k == 0 && i.registers[0] in i.writeSet)
  }

  /** The instruction reads the register: as declared, or by standing in a source slot. */
  ghost predicate ReadsRegister(i: Instruction, r: Reg) {
    r in i.readSet || exists k: nat :: ReadSlot(i, k) && i.registers[k] == r
  }

  /** The source slots are exactly those, each with its register. */
  lemma SlotsExactly(i: Instruction, k: nat, r: Reg)
    ensures (k, r) in SourceSlots(i) <==> ReadSlot(i, k) && i.registers[k] == r
  {
    if i.registers != [] {
      var start := if i.registers[0] in i.writeSet then 1 else 0;
      SlotsFrom(i.registers, start, k, r);
    }
  }

  lemma SlotsFrom(registers: seq<Reg>, start: nat, k: nat, r: Reg)
    requires start <= |registers|
    ensures (k, r) in Slots(registers, start) <==> start <= k < |registers| && registers[k] == r
  {
    if start <= k < |registers| {
      assert Slots(registers, start)[k - start] == (k, registers[k]);
    }
  }

  lemma InSlot(i: Instruction, r: Reg)
    ensures r in ExplicitReads(i) <==> exists k: nat :: ReadSlot(i, k) && i.registers[k] == r
  {
    hide SourceSlots;
    if r in ExplicitReads(i) {
      var s :| s in SourceSlots(i) && s.1 == r;
      assert s == (s.0, s.1);
      SlotsExactly(i, s.0, r);
    }
    if k: nat :| ReadSlot(i, k) && i.registers[k] == r {
      SlotsExactly(i, k, r);
      assert (k, r) in SourceSlots(i);
    }
  }

  lemma DeclaredOrInSlot(i: Instruction, r: Reg)
    ensures r in EffectiveReads(i) <==> r in i.readSet || r in ExplicitReads(i)
  {}

  lemma ReadsExactly(i: Instruction, r: Reg)
    ensures r in EffectiveReads(i) <==> ReadsRegister(i, r)
  {
    InSlot(i, r);
    hide ExplicitReads;
  }

  /** A destination is not mistaken for a use. */
  lemma DestinationNotRead(i: Instruction)
    requires i.registers != [] && i.registers[0] in i.writeSet && i.registers[0] !in i.readSet
    requires forall k :: 1 <= k < |i.registers| ==> i.registers[k] != i.registers[0]
    ensures i.registers[0] !in EffectiveReads(i)
  {
    ReadsExactly(i, i.registers[0]);
  }

  // ------------------------------------------------------------ locations and conflicts

  /** Memory is one location: two accesses are never proved disjoint. */
  datatype Location = Register(r: Reg) | Memory

  predicate Reads(i: Instruction, l: Location) {
    match l case Register(r) => r in EffectiveReads(i) case Memory => Loads(i)
  }

  predicate Writes(i: Instruction, l: Location) {
    match l case Register(r) => r in i.writeSet case Memory => Stores(i)
  }

  ghost predicate ConflictAt(a: Instruction, b: Instruction, l: Location) {
    (Writes(a, l) && (Reads(b, l) || Writes(b, l))) || (Reads(a, l) && Writes(b, l))
  }

  ghost predicate Conflict(a: Instruction, b: Instruction) {
    exists l :: ConflictAt(a, b, l)
  }

  // ------------------------------------------------------------ dependence edges

  /** No instruction strictly between `i` and `j` writes `l`. */
  ghost predicate Quiet(w: Window, i: nat, j: nat, l: Location)
    requires j <= |w|
  {
    forall k :: i < k < j ==> !Writes(w[k], l)
  }

  ghost predicate Raw(w: Window, i: nat, j: nat, l: Location)
    requires i < j < |w|
  {
    Writes(w[i], l) && Reads(w[j], l) && Quiet(w, i, j, l)
  }

  ghost predicate Waw(w: Window, i: nat, j: nat, l: Location)
    requires i < j < |w|
  {
    Writes(w[i], l) && Writes(w[j], l) && Quiet(w, i, j, l)
  }

  /** A reader that itself overwrites the location is ordered by its write instead. */
  ghost predicate War(w: Window, i: nat, j: nat, l: Location)
    requires i < j < |w|
  {
    Reads(w[i], l) && !Writes(w[i], l) && Writes(w[j], l) && Quiet(w, i, j, l)
  }

  const RAW := "raw"
  const WAW := "waw"
  const WAR := "war"
  const MEM := "mem"
  const TERMINATOR := "terminator"

  /** An edge between two different instructions of the window. */
  ghost predicate DependsOn(w: Window, i: nat, j: nat, kind: string)
    requires i < j < |w|
  {
    || (kind == RAW && exists r :: Raw(w, i, j, Register(r)))
    || (kind == WAW && exists r :: Waw(w, i, j, Register(r)))
    || (kind == WAR && exists r :: War(w, i, j, Register(r)))
    || (kind == MEM && (Raw(w, i, j, Memory) || Waw(w, i, j, Memory) || War(w, i, j, Memory)))
    || (kind == TERMINATOR && Transfers(w[j]))
  }

  /** An instruction that both loads and stores is recorded as ordered before itself. */
  ghost predicate SelfEdge(w: Window, i: nat, kind: string)
    requires i < |w|
  {
    kind == MEM && Loads(w[i]) && Stores(w[i])
  }

  ghost predicate IsEdge(w: Window, i: nat, j: nat, kind: string) {
    (i < j < |w| && DependsOn(w, i, j, kind)) || (i == j < |w| && SelfEdge(w, i, kind))
  }

  // ------------------------------------------------------------ the edges, over the fields

  /** Some access of that kind. */
  ghost predicate Accessed(i: Instruction, kind: string) {
    exists k :: 0 <= k < |i.memory| && i.memory[k].0 == kind
  }

  ghost predicate UnwrittenBetween(w: Window, i: nat, j: nat, r: Reg)
    requires j <= |w|
  {
    forall k :: i < k < j ==> r !in w[k].writeSet
  }

  ghost predicate NotStoredBetween(w: Window, i: nat, j: nat)
    requires j <= |w|
  {
    forall k :: i < k < j ==> !Accessed(w[k], "write")
  }

  /** An edge, by the operands, declared registers and accesses of the two instructions and of those
      between them. */
  ghost predicate EdgeOverFields(w: Window, i: nat, j: nat, kind: string)
    requires i <= j < |w|
  {
    var a, b := w[i], w[j];
    if i == j then kind == "mem" && Accessed(a, "read") && Accessed(a, "write")
    else
      || (kind == "raw" && exists r :: r in a.writeSet && ReadsRegister(b, r) && UnwrittenBetween(w, i, j, r))
      || (kind == "waw" && exists r :: r in a.writeSet && r in b.writeSet && UnwrittenBetween(w, i, j, r))
      || (kind == "war" && exists r :: ReadsRegister(a, r) && r !in a.writeSet && r in b.writeSet && UnwrittenBetween(w, i, j, r))
      || (kind == "mem" && NotStoredBetween(w, i, j)
          && if Accessed(a, "write") then Accessed(b, "read") || Accessed(b, "write")
             else Accessed(a, "read") && Accessed(b, "write"))
      || (kind == "terminator" && b.transfer != "ordinary")
  }

  lemma AccessesExactly(i: Instruction)
    ensures Loads(i) <==> Accessed(i, "read")
    ensures Stores(i) <==> Accessed(i, "write")
  {}

  lemma QuietRegister(w: Window, i: nat, j: nat, r: Reg)
    requires j <= |w|
    ensures Quiet(w, i, j, Register(r)) <==> UnwrittenBetween(w, i, j, r)
  {}

  lemma QuietMemory(w: Window, i: nat, j: nat)
    requires j <= |w|
    ensures Quiet(w, i, j, Memory) <==> NotStoredBetween(w, i, j)
  {
    forall k | i < k < j ensures Writes(w[k], Memory) <==> Accessed(w[k], "write") {
      AccessesExactly(w[k]);
    }
  }

  lemma RegisterEdges(w: Window, i: nat, j: nat, r: Reg)
    requires i < j < |w|
    ensures Raw(w, i, j, Register(r)) <==> r in w[i].writeSet && ReadsRegister(w[j], r) && UnwrittenBetween(w, i, j, r)
    ensures Waw(w, i, j, Register(r)) <==> r in w[i].writeSet && r in w[j].writeSet && UnwrittenBetween(w, i, j, r)
    ensures War(w, i, j, Register(r)) <==>
            ReadsRegister(w[i], r) && r !in w[i].writeSet && r in w[j].writeSet && UnwrittenBetween(w, i, j, r)
  {
    QuietRegister(w, i, j, r);
    ReadsExactly(w[i], r);
    ReadsExactly(w[j], r);
    hide EffectiveReads, ReadsRegister, Quiet, UnwrittenBetween;
  }

  lemma AccessEdges(w: Window, i: nat, j: nat)
    requires i < j < |w|
    ensures Raw(w, i, j, Memory) || Waw(w, i, j, Memory) || War(w, i, j, Memory) <==>
            NotStoredBetween(w, i, j)
            && if Accessed(w[i], "write") then Accessed(w[j], "read") || Accessed(w[j], "write")
               else Accessed(w[i], "read") && Accessed(w[j], "write")
  {
    QuietMemory(w, i, j);
    AccessesExactly(w[i]);
    AccessesExactly(w[j]);
    hide Loads, Stores, Accessed, Quiet, NotStoredBetween;
  }

  /** The edges are exactly those. */
  lemma EdgesExactly(w: Window, i: nat, j: nat, kind: string)
    requires i <= j < |w|
    ensures IsEdge(w, i, j, kind) <==> EdgeOverFields(w, i, j, kind)
  {
    AccessesExactly(w[i]);
    hide Loads, Stores, Accessed, ReadsRegister, UnwrittenBetween, NotStoredBetween, Raw, Waw, War;
    if i < j {
      AccessEdges(w, i, j);
      forall r
        ensures Raw(w, i, j, Register(r)) <==> r in w[i].writeSet && ReadsRegister(w[j], r) && UnwrittenBetween(w, i, j, r)
        ensures Waw(w, i, j, Register(r)) <==> r in w[i].writeSet && r in w[j].writeSet && UnwrittenBetween(w, i, j, r)
        ensures War(w, i, j, Register(r)) <==>
                ReadsRegister(w[i], r) && r !in w[i].writeSet && r in w[j].writeSet && UnwrittenBetween(w, i, j, r)
      {
        RegisterEdges(w, i, j, r);
      }
    }
  }

  const LOAD_IMMEDIATE := Instruction("li", ["a0"], {}, {"a0"}, [], "ordinary")

  /** A register set twice is overwritten, not read. */
  lemma SetTwice(i: nat, j: nat, kind: string)
    ensures IsEdge([LOAD_IMMEDIATE, LOAD_IMMEDIATE], i, j, kind) <==> i == 0 && j == 1 && kind == "waw"
  {
    var w := [LOAD_IMMEDIATE, LOAD_IMMEDIATE];
    if i <= j < 2 {
      EdgesExactly(w, i, j, kind);
      forall r ensures !ReadsRegister(LOAD_IMMEDIATE, r) {}
      assert "a0" in w[0].writeSet && UnwrittenBetween(w, 0, 1, "a0");
    }
  }

  // ------------------------------------------------------------ edges order every conflict

  /** The transitive closure of the edges. */
  ghost predicate Ordered(w: Window, i: nat, j: nat)
    requires i < j < |w|
    decreases j - i
  {
    || (exists kind :: DependsOn(w, i, j, kind))
    || (exists m :: i < m < j && Ordered(w, i, m) && Ordered(w, m, j))
  }

  lemma {:induction false} ConflictAtOrdered(w: Window, i: nat, j: nat, l: Location)
    requires i < j < |w| && ConflictAt(w[i], w[j], l)
    ensures Ordered(w, i, j)
    decreases j - i
  {
    if Quiet(w, i, j, l) {
      var kind := if l == Memory then MEM
                  else if Writes(w[i], l) && Reads(w[j], l) then RAW
                  else if Writes(w[i], l) then WAW else WAR;
      assert DependsOn(w, i, j, kind);
    } else {
      var m :| i < m < j && Writes(w[m], l);
      ConflictAtOrdered(w, i, m, l);
      ConflictAtOrdered(w, m, j, l);
    }
  }

  /** Whatever conflicts, and whatever precedes a transfer, is ordered by a chain of edges. */
  lemma ConflictsOrdered(w: Window, i: nat, j: nat)
    requires i < j < |w|
    requires Conflict(w[i], w[j]) || Transfers(w[j])
    ensures Ordered(w, i, j)
  {
    if Transfers(w[j]) {
      assert DependsOn(w, i, j, TERMINATOR);
    } else {
      var l :| ConflictAt(w[i], w[j], l);
      ConflictAtOrdered(w, i, j, l);
    }
  }

  /** Every edge is there for a reason: its ends conflict, or its sink ends the window. */
  lemma EdgesConflict(w: Window, i: nat, j: nat, kind: string)
    requires i < j < |w| && DependsOn(w, i, j, kind)
    ensures Conflict(w[i], w[j]) || Transfers(w[j])
  {
    if Raw(w, i, j, Memory) || Waw(w, i, j, Memory) || War(w, i, j, Memory) {
      assert ConflictAt(w[i], w[j], Memory);
    } else if exists r :: Raw(w, i, j, Register(r)) || Waw(w, i, j, Register(r)) || War(w, i, j, Register(r)) {
      var r :| Raw(w, i, j, Register(r)) || Waw(w, i, j, Register(r)) || War(w, i, j, Register(r));
      assert ConflictAt(w[i], w[j], Register(r));
    }
  }
}
