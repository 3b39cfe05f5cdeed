/** Where a function returns to: the instruction after each call that links, passed along tail calls
    until nothing changes. */
module ReturnTargets {
  import opened Listing

  type Name = string

  datatype Call = Call(source: nat, caller: Name, callee: Name, links: bool)

  /** The dictionary with default `{}`. */
  type Targets = map<Name, set<nat>>

  function Get(targets: Targets, f: Name): set<nat> {
    if f in targets then targets[f] else {}
  }

  // ------------------------------------------------------------ the least solution

  /** Functions that tail-call one another in turn. */
  ghost predicate TailChain(calls: seq<Call>, chain: seq<Name>) {
    chain != [] && forall i :: 0 <= i < |chain| - 1 ==> TailCalls(calls, chain[i], chain[i + 1])
  }

  predicate TailCalls(calls: seq<Call>, f: Name, g: Name) {
    exists c <- calls :: !c.links && c.caller == f && c.callee == g
  }

  predicate Linked(calls: seq<Call>, f: Name, pc: nat) {
    exists c <- calls :: c.links && c.callee == f && c.source + 4 == pc
  }

  /** Some call links to a function from which tail calls lead to `f`, and `pc` follows that call. */
  ghost predicate ReturnsTo(calls: seq<Call>, f: Name, pc: nat) {
    exists chain :: TailChain(calls, chain) && chain[|chain| - 1] == f && Linked(calls, chain[0], pc)
  }

  lemma ReturnsDirectly(calls: seq<Call>, f: Name, pc: nat)
    requires Linked(calls, f, pc)
    ensures ReturnsTo(calls, f, pc)
  {
    assert TailChain(calls, [f]);
  }

  lemma ReturnsThrough(calls: seq<Call>, f: Name, g: Name, pc: nat)
    requires ReturnsTo(calls, f, pc) && TailCalls(calls, f, g)
    ensures ReturnsTo(calls, g, pc)
  {
    var chain :| TailChain(calls, chain) && chain[|chain| - 1] == f && Linked(calls, chain[0], pc);
    hide TailCalls, Linked;
    var longer := chain + [g];
    assert TailChain(calls, longer);
  }

  ghost predicate Sound(calls: seq<Call>, targets: Targets) {
    forall f, pc :: pc in Get(targets, f) ==> ReturnsTo(calls, f, pc)
  }

  ghost predicate HasLinked(calls: seq<Call>, targets: Targets) {
    forall f, pc :: Linked(calls, f, pc) ==> pc in Get(targets, f)
  }

  ghost predicate PassedOn(calls: seq<Call>, targets: Targets) {
    forall f, g :: TailCalls(calls, f, g) ==> Get(targets, f) <= Get(targets, g)
  }

  /** Any assignment that has the links and passes them on holds every target. */
  lemma {:induction false} ChainPassesOn(calls: seq<Call>, targets: Targets, chain: seq<Name>, pc: nat)
    requires HasLinked(calls, targets) && PassedOn(calls, targets)
    requires TailChain(calls, chain) && Linked(calls, chain[0], pc)
    ensures pc in Get(targets, chain[|chain| - 1])
    decreases |chain|
  {
    hide Linked, TailCalls;
    if |chain| > 1 {
      var before := chain[..|chain| - 1];
      assert TailChain(calls, before);
      ChainPassesOn(calls, targets, before, pc);
      assert before[|before| - 1] == chain[|chain| - 2];
      assert TailCalls(calls, chain[|chain| - 2], chain[|chain| - 2 + 1]);
    }
  }

  lemma ExactTargets(calls: seq<Call>, targets: Targets)
    requires Sound(calls, targets) && HasLinked(calls, targets) && PassedOn(calls, targets)
    ensures forall f, pc :: pc in Get(targets, f) <==> ReturnsTo(calls, f, pc)
  {
    forall f, pc | ReturnsTo(calls, f, pc) ensures pc in Get(targets, f) {
      var chain :| TailChain(calls, chain) && chain[|chain| - 1] == f && Linked(calls, chain[0], pc);
      ChainPassesOn(calls, targets, chain, pc);
    }
  }

  // ------------------------------------------------------------ the loops

  /** A callee and the address after some call. */
  ghost function Pairs(calls: seq<Call>): set<(Name, nat)> {
    set c, d | c in calls && d in calls :: (c.callee, d.source + 4)
  }

  /** The pairs that are not targets yet. */
  ghost function Open(calls: seq<Call>, targets: Targets): set<(Name, nat)> {
    set x | x in Pairs(calls) && x.1 !in Get(targets, x.0)
  }

  ghost function Missing(calls: seq<Call>, targets: Targets): nat { |Open(calls, targets)| }

  lemma {:induction false} TargetIsAddress(calls: seq<Call>, f: Name, pc: nat) returns (d: Call)
    requires ReturnsTo(calls, f, pc)
    ensures d in calls && d.source + 4 == pc
  {
    var chain :| TailChain(calls, chain) && chain[|chain| - 1] == f && Linked(calls, chain[0], pc);
    d :| d in calls && d.links && d.callee == chain[0] && d.source + 4 == pc;
  }

  lemma InheritingProgresses(calls: seq<Call>, targets: Targets, c: Call, pc: nat, after: Targets)
    requires c in calls && Sound(calls, targets) && pc in Get(targets, c.caller) && pc !in Get(targets, c.callee)
    requires forall f :: Get(targets, f) <= Get(after, f)
    requires pc in Get(after, c.callee)
    ensures Missing(calls, after) < Missing(calls, targets)
  {
    var d := TargetIsAddress(calls, c.caller, pc);
    var x := (c.callee, d.source + 4);
    assert x in Pairs(calls);
    hide Sound, Get, Pairs;
    var small, big := Open(calls, after), Open(calls, targets);
    assert x in big && x !in small && small <= big;
    ProperSubsetSize(small, big);
  }

  /** The direct targets, and the tail calls in order. */
  method Collect(calls: seq<Call>) returns (targets: Targets, tails: seq<Call>)
    ensures Sound(calls, targets) && HasLinked(calls, targets)
    ensures forall c :: c in tails <==> c in calls && !c.links
  {
    targets, tails := map[], [];
    for i := 0 to |calls|
      invariant forall f, pc: nat :: pc in Get(targets, f) <==> Linked(calls[..i], f, pc)
      invariant forall c :: c in tails <==> c in calls[..i] && !c.links
    {
      var call := calls[i];
      assert calls[..i + 1] == calls[..i] + [call];
      ghost var before := targets;
      forall f, pc: nat ensures Linked(calls[..i + 1], f, pc) <==>
        Linked(calls[..i], f, pc) || (call.links && call.callee == f && call.source + 4 == pc) {
        LinkedNext(calls[..i], call, f, pc);
      }
      hide Linked;
      if call.links {
        targets := targets[call.callee := Get(targets, call.callee) + {call.source + 4}];
        assert forall f, pc: nat :: pc in Get(targets, f) <==> pc in Get(before, f) || (f == call.callee && pc == call.source + 4);
      } else {
        tails := tails + [call];
      }
    }
    assert calls[..|calls|] == calls;
    forall f, pc | pc in Get(targets, f) ensures ReturnsTo(calls, f, pc) {
      ReturnsDirectly(calls, f, pc);
    }
  }

  lemma LinkedNext(calls: seq<Call>, call: Call, f: Name, pc: nat)
    ensures Linked(calls + [call], f, pc) <==>
            Linked(calls, f, pc) || (call.links && call.callee == f && call.source + 4 == pc)
  {
    var longer := calls + [call];
    assert forall c :: c in longer <==> c in calls || c == call;
  }

  lemma Grows(targets: Targets, g: Name, more: set<nat>)
    ensures var after := targets[g := Get(targets, g) + more];
            && Get(after, g) == Get(targets, g) + more
            && forall f :: f != g ==> Get(after, f) == Get(targets, f)
  {}

  lemma InheritKeeps(calls: seq<Call>, targets: Targets, c: Call)
    requires Sound(calls, targets) && HasLinked(calls, targets) && c in calls && !c.links
    ensures var after := targets[c.callee := Get(targets, c.callee) + Get(targets, c.caller)];
            && Sound(calls, after) && HasLinked(calls, after)
            && (forall f :: Get(targets, f) <= Get(after, f))
            && Get(targets, c.caller) <= Get(after, c.callee)
  {
    var after := targets[c.callee := Get(targets, c.callee) + Get(targets, c.caller)];
    assert TailCalls(calls, c.caller, c.callee);
    Grows(targets, c.callee, Get(targets, c.caller));
    hide ReturnsTo, Linked, TailCalls, Get;
    forall f, pc | pc in Get(after, f) ensures ReturnsTo(calls, f, pc) {
      if f == c.callee && pc in Get(targets, c.caller) {
        ReturnsThrough(calls, c.caller, c.callee, pc);
      }
    }
  }

  /** One sweep over the tail calls; `changed` says whether any of them passed something on. */
  method Sweep(calls: seq<Call>, tails: seq<Call>, targets: Targets) returns (after: Targets, changed: bool)
    requires Sound(calls, targets) && HasLinked(calls, targets) && forall c :: c in tails <==> c in calls && !c.links
    ensures Sound(calls, after) && HasLinked(calls, after)
    ensures changed ==> Missing(calls, after) < Missing(calls, targets)
    ensures !changed ==> after == targets && forall c <- tails :: Get(after, c.caller) <= Get(after, c.callee)
  {
    after, changed := targets, false;
    hide Sound, HasLinked, Missing;
    for i := 0 to |tails|
      invariant Sound(calls, after) && HasLinked(calls, after)
      invariant changed ==> Missing(calls, after) < Missing(calls, targets)
      invariant !changed ==> after == targets && forall j :: 0 <= j < i ==> Get(after, tails[j].caller) <= Get(after, tails[j].callee)
    {
      var call := tails[i];
      assert call in tails;
      var inherited := Get(after, call.caller) - Get(after, call.callee);
      if inherited != {} {
        var next := after[call.callee := Get(after, call.callee) + Get(after, call.caller)];
        assert next[call.callee] == Get(after, call.callee) + inherited;
        InheritKeeps(calls, after, call);
        ghost var pc :| pc in inherited;
        InheritingProgresses(calls, after, call, pc, next);
        after, changed := next, true;
      } else {
        assert forall pc <- Get(after, call.caller) :: pc in Get(after, call.callee) || pc in inherited;
      }
    }
  }

  /** The return targets of every function. */
  method Propagate(calls: seq<Call>) returns (targets: Targets)
    ensures forall f, pc :: pc in Get(targets, f) <==> ReturnsTo(calls, f, pc)
  {
    var tails;
    targets, tails := Collect(calls);
    hide Sound, HasLinked, Missing, ReturnsTo;
    var changed := true;
    while changed
      invariant Sound(calls, targets) && HasLinked(calls, targets)
      invariant !changed ==> forall c <- tails :: Get(targets, c.caller) <= Get(targets, c.callee)
      decreases Missing(calls, targets), changed
    {
      targets, changed := Sweep(calls, tails, targets);
    }
    assert PassedOn(calls, targets);
    ExactTargets(calls, targets);
  }
}
