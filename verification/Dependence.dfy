/** The one-pass scan that builds the dependence edges, against the statement in `Windows`. */
module Dependence {
  import opened Options
  import opened Windows

  type Edge = (nat, nat, string)

  // ------------------------------------------------------------ what the scan remembers

  /** The last of the first `k` instructions to write `l`. */
  ghost function LastWrite(w: Window, k: nat, l: Location): (r: Option<nat>)
    requires k <= |w|
    ensures r.None? ==> forall i :: 0 <= i < k ==> !Writes(w[i], l)
    ensures r.Some? ==> r.value < k && Writes(w[r.value], l) && Quiet(w, r.value, k, l)
  {
    if k == 0 then None else if Writes(w[k - 1], l) then Some(k - 1) else LastWrite(w, k - 1, l)
  }

  /** The readers of `l` since its last write. */
  ghost function OpenReads(w: Window, k: nat, l: Location): (r: set<nat>)
    requires k <= |w|
    ensures forall i :: i in r <==> 0 <= i < k && Reads(w[i], l) && !Writes(w[i], l) && Quiet(w, i, k, l)
  {
    if k == 0 then {}
    else if Writes(w[k - 1], l) then {}
    else if Reads(w[k - 1], l) then OpenReads(w, k - 1, l) + {k - 1}
    else OpenReads(w, k - 1, l)
  }

  function Lookup(m: map<Reg, nat>, r: Reg): Option<nat> {
    if r in m then Some(m[r]) else None
  }

  function Readers(lastReads: map<Reg, set<nat>>, r: Reg): set<nat> {
    if r in lastReads then lastReads[r] else {}
  }

  ghost predicate Remembers(w: Window, k: nat, lastWrite: map<Reg, nat>, lastReads: map<Reg, set<nat>>)
    requires k <= |w|
  {
    && (forall r :: Lookup(lastWrite, r) == LastWrite(w, k, Register(r)))
    && (forall r :: Readers(lastReads, r) == OpenReads(w, k, Register(r)))
  }

  // ------------------------------------------------------------ the register part of one step

  /** The loop over the registers an instruction effectively reads. */
  method ScanReads(index: nat, registers: set<Reg>, lastWrite: map<Reg, nat>,
                   lastReads: map<Reg, set<nat>>, edges: set<Edge>)
    returns (lastReads': map<Reg, set<nat>>, edges': set<Edge>)
    ensures forall r :: Readers(lastReads', r) == Readers(lastReads, r) + (if r in registers then {index} else {})
    ensures forall e :: e in edges' <==> e in edges || IsRawStep(index, registers, lastWrite, e)
  {
    lastReads', edges' := lastReads, edges;
    var todo := registers;
    while todo != {}
      invariant todo <= registers
      invariant forall r :: Readers(lastReads', r)
                            == Readers(lastReads, r) + (if r in registers - todo then {index} else {})
      invariant forall e :: e in edges' <==> e in edges || IsRawStep(index, registers - todo, lastWrite, e)
    {
      var r :| r in todo;
      if r in lastWrite {
        edges' := edges' + {(lastWrite[r], index, RAW)};
      }
      lastReads' := lastReads'[r := Readers(lastReads', r) + {index}];
      todo := todo - {r};
    }
    assert registers - todo == registers;
  }

  ghost predicate IsRawStep(index: nat, registers: set<Reg>, lastWrite: map<Reg, nat>, e: Edge) {
    exists r :: r in registers && Lookup(lastWrite, r) == Some(e.0) && e == (e.0, index, RAW)
  }

  function WriteEdges(index: nat, last: Option<nat>, readers: set<nat>): set<Edge> {
    (if last.Some? then {(last.value, index, WAW)} else {})
    + set reader | reader in readers && reader != index :: (reader, index, WAR)
  }

  /** The loop over the registers it writes. */
  method ScanWrites(index: nat, registers: set<Reg>, lastWrite: map<Reg, nat>,
                    lastReads: map<Reg, set<nat>>, edges: set<Edge>)
    returns (lastWrite': map<Reg, nat>, lastReads': map<Reg, set<nat>>, edges': set<Edge>)
    ensures forall r :: Lookup(lastWrite', r) == if r in registers then Some(index) else Lookup(lastWrite, r)
    ensures forall r :: Readers(lastReads', r) == if r in registers then {} else Readers(lastReads, r)
    ensures forall e :: e in edges' <==> e in edges || IsWriteStep(index, registers, lastWrite, lastReads, e)
  {
    hide WriteEdges;
    lastWrite', lastReads', edges' := lastWrite, lastReads, edges;
    var todo := registers;
    while todo != {}
      invariant todo <= registers
      invariant forall r :: Lookup(lastWrite', r) == if r in registers - todo then Some(index) else Lookup(lastWrite, r)
      invariant forall r :: Readers(lastReads', r) == if r in registers - todo then {} else Readers(lastReads, r)
      invariant forall e :: e in edges' <==>
                            e in edges || IsWriteStep(index, registers - todo, lastWrite, lastReads, e)
    {
      var r :| r in todo;
      edges' := edges' + WriteEdges(index, Lookup(lastWrite', r), Readers(lastReads', r));
      lastReads' := lastReads'[r := {}];
      lastWrite' := lastWrite'[r := index];
      todo := todo - {r};
    }
    assert registers - todo == registers;
  }

  ghost predicate IsWriteStep(index: nat, registers: set<Reg>, lastWrite: map<Reg, nat>,
                              lastReads: map<Reg, set<nat>>, e: Edge) {
    exists r :: r in registers && e in WriteEdges(index, Lookup(lastWrite, r), Readers(lastReads, r))
  }

  // ------------------------------------------------------------ the memory part

  function MemoryEdges(index: nat, loads: bool, stores: bool, lastStore: Option<nat>, lastLoads: set<nat>): set<Edge> {
    (if (loads || stores) && lastStore.Some? then {(lastStore.value, index, MEM)} else {})
    + (if stores then set loader | loader in lastLoads + (if loads then {index} else {}) :: (loader, index, MEM) else {})
  }

  method ScanMemory(index: nat, i: Instruction, lastStore: Option<nat>, lastLoads: set<nat>, edges: set<Edge>)
    returns (lastStore': Option<nat>, lastLoads': set<nat>, edges': set<Edge>)
    ensures lastStore' == if Stores(i) then Some(index) else lastStore
    ensures lastLoads' == if Stores(i) then {} else if Loads(i) then lastLoads + {index} else lastLoads
    ensures edges' == edges + MemoryEdges(index, Loads(i), Stores(i), lastStore, lastLoads)
  {
    lastStore', lastLoads', edges' := lastStore, lastLoads, edges;
    if Loads(i) {
      if lastStore'.Some? {
        edges' := edges' + {(lastStore'.value, index, MEM)};
      }
      lastLoads' := lastLoads' + {index};
    }
    if Stores(i) {
      if lastStore'.Some? {
        edges' := edges' + {(lastStore'.value, index, MEM)};
      }
      edges' := edges' + set loader | loader in lastLoads' :: (loader, index, MEM);
      lastLoads' := {};
      lastStore' := Some(index);
    }
  }

  // ------------------------------------------------------------ the scan

  ghost predicate EdgesUpTo(w: Window, k: nat, edges: set<Edge>) {
    forall e :: e in edges <==> e.1 < k && IsEdge(w, e.0, e.1, e.2)
  }

  /** The whole function: it returns exactly the edges of the window. */
  method DependenceEdges(w: Window) returns (edges: set<Edge>)
    ensures EdgesUpTo(w, |w|, edges)
    ensures forall i: nat, j: nat, kind :: (i, j, kind) in edges <==> i <= j < |w| && EdgeOverFields(w, i, j, kind)
  {
    hide Remembers, EdgesUpTo, SourceSlots, Loads, Stores, IsRawStep, IsWriteStep, MemoryEdges;
    edges := {};
    var lastWrite: map<Reg, nat>, lastReads: map<Reg, set<nat>> := map[], map[];
    var lastStore: Option<nat>, lastLoads: set<nat> := None, {};
    NothingScanned(w);
    for index := 0 to |w|
      invariant Remembers(w, index, lastWrite, lastReads)
      invariant lastStore == LastWrite(w, index, Memory) && lastLoads == OpenReads(w, index, Memory)
      invariant EdgesUpTo(w, index, edges)
    {
      ghost var before, lastWrite0, lastReads0, store0, loads0 := edges, lastWrite, lastReads, lastStore, lastLoads;
      var instruction := w[index];
      if Transfers(instruction) {
        edges := edges + set earlier | 0 <= earlier < index :: (earlier, index, TERMINATOR);
      }
      lastReads, edges := ScanReads(index, EffectiveReads(instruction), lastWrite, lastReads, edges);
      ghost var lastReads1 := lastReads;
      lastWrite, lastReads, edges := ScanWrites(index, instruction.writeSet, lastWrite, lastReads, edges);
      lastStore, lastLoads, edges := ScanMemory(index, instruction, lastStore, lastLoads, edges);
      forall e ensures e in edges <==> e in before || IsStep(w, index, lastWrite0, lastReads1, store0, loads0, e) {
      }
      RememberNext(w, index, lastWrite0, lastReads0, lastWrite, lastReads);
      StepIsEdge(w, index, lastWrite0, lastReads0, lastReads1, store0, loads0, before, edges);
    }
    AllOverFields(w, edges);
  }

  lemma AllOverFields(w: Window, edges: set<Edge>)
    requires EdgesUpTo(w, |w|, edges)
    ensures forall i: nat, j: nat, kind :: (i, j, kind) in edges <==> i <= j < |w| && EdgeOverFields(w, i, j, kind)
  {
    hide EdgeOverFields, DependsOn, SelfEdge;
    forall i: nat, j: nat, kind ensures (i, j, kind) in edges <==> i <= j < |w| && EdgeOverFields(w, i, j, kind) {
      if i <= j < |w| {
        EdgesExactly(w, i, j, kind);
      }
    }
  }

  /** The edges added for one instruction. */
  ghost predicate IsStep(w: Window, k: nat, lastWrite: map<Reg, nat>, lastReads: map<Reg, set<nat>>,
                         lastStore: Option<nat>, lastLoads: set<nat>, e: Edge)
    requires k < |w|
  {
    || (Transfers(w[k]) && 0 <= e.0 < k && e == (e.0, k, TERMINATOR))
    || IsRawStep(k, EffectiveReads(w[k]), lastWrite, e)
    || IsWriteStep(k, w[k].writeSet, lastWrite, lastReads, e)
    || e in MemoryEdges(k, Loads(w[k]), Stores(w[k]), lastStore, lastLoads)
  }

  lemma NothingScanned(w: Window)
    ensures Remembers(w, 0, map[], map[]) && EdgesUpTo(w, 0, {})
  {}

  lemma RememberNext(w: Window, k: nat, lastWrite: map<Reg, nat>, lastReads: map<Reg, set<nat>>,
                     lastWrite': map<Reg, nat>, lastReads': map<Reg, set<nat>>)
    requires k < |w| && Remembers(w, k, lastWrite, lastReads)
    requires forall r :: Lookup(lastWrite', r) == if r in w[k].writeSet then Some(k) else Lookup(lastWrite, r)
    requires forall r :: Readers(lastReads', r)
               == if r in w[k].writeSet then {}
                  else Readers(lastReads, r) + (if r in EffectiveReads(w[k]) then {k} else {})
    ensures Remembers(w, k + 1, lastWrite', lastReads')
  {
    hide EffectiveReads;
    forall r ensures Readers(lastReads', r) == OpenReads(w, k + 1, Register(r)) {
      assert Reads(w[k], Register(r)) <==> r in EffectiveReads(w[k]);
    }
  }

  // ------------------------------------------------------------ a step adds the edges into its instruction

  lemma LastIsRaw(w: Window, i: nat, k: nat, l: Location)
    requires i < k < |w|
    ensures Raw(w, i, k, l) <==> Reads(w[k], l) && LastWrite(w, k, l) == Some(i)
    ensures Waw(w, i, k, l) <==> Writes(w[k], l) && LastWrite(w, k, l) == Some(i)
  {
    var r := LastWrite(w, k, l);
    assert r.Some? ==> r.value == i || !Quiet(w, i, k, l) || !Writes(w[i], l);
  }

  lemma RawSteps(w: Window, k: nat, lastWrite: map<Reg, nat>, lastReads: map<Reg, set<nat>>, e: Edge)
    requires k < |w| && Remembers(w, k, lastWrite, lastReads)
    ensures IsRawStep(k, EffectiveReads(w[k]), lastWrite, e) <==>
            e.0 < e.1 == k && e.2 == RAW && exists r :: Raw(w, e.0, k, Register(r))
  {
    hide EffectiveReads, Quiet;
    if e.0 < k {
      forall r ensures r in EffectiveReads(w[k]) && Lookup(lastWrite, r) == Some(e.0) <==> Raw(w, e.0, k, Register(r)) {
        LastIsRaw(w, e.0, k, Register(r));
      }
    }
  }

  lemma WriteSteps(w: Window, k: nat, lastWrite: map<Reg, nat>, lastReads: map<Reg, set<nat>>,
                   lastReads1: map<Reg, set<nat>>, e: Edge)
    requires k < |w| && Remembers(w, k, lastWrite, lastReads)
    requires forall r :: Readers(lastReads1, r)
               == Readers(lastReads, r) + (if r in EffectiveReads(w[k]) then {k} else {})
    ensures IsWriteStep(k, w[k].writeSet, lastWrite, lastReads1, e) <==>
            e.0 < e.1 == k && ((e.2 == WAW && exists r :: Waw(w, e.0, k, Register(r)))
                               || (e.2 == WAR && exists r :: War(w, e.0, k, Register(r))))
  {
    hide EffectiveReads, Quiet;
    forall r
      ensures e in WriteEdges(k, Lookup(lastWrite, r), Readers(lastReads1, r)) && r in w[k].writeSet <==>
              e.0 < e.1 == k && ((e.2 == WAW && Waw(w, e.0, k, Register(r)))
                                 || (e.2 == WAR && War(w, e.0, k, Register(r))))
    {
      WriteStep(w, k, lastWrite, lastReads, lastReads1, e, r);
    }
  }

  lemma WriteStep(w: Window, k: nat, lastWrite: map<Reg, nat>, lastReads: map<Reg, set<nat>>,
                  lastReads1: map<Reg, set<nat>>, e: Edge, r: Reg)
    requires k < |w| && Remembers(w, k, lastWrite, lastReads)
    requires Readers(lastReads1, r)
               == Readers(lastReads, r) + (if r in EffectiveReads(w[k]) then {k} else {})
    ensures e in WriteEdges(k, Lookup(lastWrite, r), Readers(lastReads1, r)) && r in w[k].writeSet <==>
            e.0 < e.1 == k && ((e.2 == WAW && Waw(w, e.0, k, Register(r)))
                               || (e.2 == WAR && War(w, e.0, k, Register(r))))
  {
    hide EffectiveReads;
    var l := Register(r);
    assert Writes(w[k], l) <==> r in w[k].writeSet;
    assert Lookup(lastWrite, r) == LastWrite(w, k, l) && Readers(lastReads, r) == OpenReads(w, k, l);
    if e.0 < k {
      LastIsRaw(w, e.0, k, l);
      assert War(w, e.0, k, l) <==> r in w[k].writeSet && e.0 in OpenReads(w, k, l);
    }
    assert e == (e.0, e.1, e.2);
  }

  lemma MemoryEdge(k: nat, loads: bool, stores: bool, last: Option<nat>, open: set<nat>, e: Edge)
    ensures e in MemoryEdges(k, loads, stores, last, open) <==>
            e == (e.0, k, MEM) && (((loads || stores) && last == Some(e.0))
                                   || (stores && (e.0 in open || (loads && e.0 == k))))
  {}

  lemma MemorySteps(w: Window, k: nat, e: Edge)
    requires k < |w|
    ensures e in MemoryEdges(k, Loads(w[k]), Stores(w[k]), LastWrite(w, k, Memory), OpenReads(w, k, Memory)) <==>
            e.1 == k && e.2 == MEM
            && ((e.0 < k && (Raw(w, e.0, k, Memory) || Waw(w, e.0, k, Memory) || War(w, e.0, k, Memory)))
                || (e.0 == k && Loads(w[k]) && Stores(w[k])))
  {
    hide Loads, Stores, MemoryEdges;
    MemoryEdge(k, Loads(w[k]), Stores(w[k]), LastWrite(w, k, Memory), OpenReads(w, k, Memory), e);
    if e.0 < k {
      LastIsRaw(w, e.0, k, Memory);
      assert War(w, e.0, k, Memory) <==> Stores(w[k]) && e.0 in OpenReads(w, k, Memory);
    }
    assert e == (e.0, e.1, e.2);
  }

  lemma StepIsEdge(w: Window, k: nat, lastWrite: map<Reg, nat>, lastReads: map<Reg, set<nat>>,
                   lastReads1: map<Reg, set<nat>>, lastStore: Option<nat>, lastLoads: set<nat>,
                   before: set<Edge>, after: set<Edge>)
    requires k < |w| && Remembers(w, k, lastWrite, lastReads) && EdgesUpTo(w, k, before)
    requires lastStore == LastWrite(w, k, Memory) && lastLoads == OpenReads(w, k, Memory)
    requires forall r :: Readers(lastReads1, r)
               == Readers(lastReads, r) + (if r in EffectiveReads(w[k]) then {k} else {})
    requires forall e :: e in after <==> e in before || IsStep(w, k, lastWrite, lastReads1, lastStore, lastLoads, e)
    ensures EdgesUpTo(w, k + 1, after)
  {
    hide EffectiveReads, Loads, Stores, Transfers, Raw, Waw, War, IsRawStep, IsWriteStep, MemoryEdges, Remembers;
    forall e: Edge ensures IsStep(w, k, lastWrite, lastReads1, lastStore, lastLoads, e)
                           <==> e.1 == k && IsEdge(w, e.0, e.1, e.2)
    {
      RawSteps(w, k, lastWrite, lastReads, e);
      WriteSteps(w, k, lastWrite, lastReads, lastReads1, e);
      MemorySteps(w, k, e);
      assert e == (e.0, e.1, e.2);
    }
  }
}
