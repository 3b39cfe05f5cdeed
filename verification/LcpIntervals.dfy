/** The LCP intervals of an array, found by one scan with a stack of open intervals. */
module LcpIntervals {
  import opened Listing

  /** The entry at `index`, and 0 behind the last. */
  function Value(lcp: seq<nat>, index: nat): nat {
    if index < |lcp| then lcp[index] else 0
  }

  /** A maximal range of positions whose suffixes share `v` tokens, and no more than `v` throughout. */
  ghost predicate Interval(lcp: seq<nat>, v: nat, lo: nat, hi: nat) {
    && v >= 1 && lo < hi < |lcp|
    && (forall k :: lo < k <= hi ==> lcp[k] >= v)
    && (exists k :: lo < k <= hi && lcp[k] == v)
    && lcp[lo] < v && Value(lcp, hi + 1) < v
  }

  /** An interval that may still grow: what the stack holds before position `index` is looked at. */
  ghost predicate Open(lcp: seq<nat>, v: nat, lo: nat, index: nat) {
    && v >= 1 && lo + 1 < index <= |lcp|
    && (forall k :: lo < k < index ==> lcp[k] >= v)
    && (exists k :: lo < k < index && lcp[k] == v)
    && lcp[lo] < v
  }

  lemma ClosingOpens(lcp: seq<nat>, v: nat, lo: nat, hi: nat)
    requires hi < |lcp|
    ensures Interval(lcp, v, lo, hi) <==> Open(lcp, v, lo, hi + 1) && Value(lcp, hi + 1) < v
  {}

  /** An open interval is known by its value. */
  lemma OpenUnique(lcp: seq<nat>, v: nat, lo: nat, lo': nat, index: nat)
    requires Open(lcp, v, lo, index) && Open(lcp, v, lo', index)
    ensures lo == lo'
  {}

  lemma IntervalUnique(lcp: seq<nat>, v: nat, lo: nat, hi: nat, hi': nat)
    requires Interval(lcp, v, lo, hi) && Interval(lcp, v, lo, hi')
    ensures hi == hi'
  {
    assert hi < hi' ==> lcp[hi + 1] == Value(lcp, hi + 1);
    assert hi' < hi ==> lcp[hi' + 1] == Value(lcp, hi' + 1);
  }

  /** The open interval around a position that nothing later undercuts. */
  lemma {:induction false} OpenAround(lcp: seq<nat>, v: nat, from: nat, k: nat, index: nat) returns (lo: nat)
    requires |lcp| > 0 && lcp[0] == 0 && v >= 1 && from <= k < index <= |lcp| && lcp[k] == v
    requires forall i :: from < i < index ==> lcp[i] >= v
    ensures Open(lcp, v, lo, index)
    decreases from
  {
    assert from == 0 ==> lcp[from] < v;
    if lcp[from] < v {
      lo := from;
    } else {
      lo := OpenAround(lcp, v, from - 1, k, index);
    }
  }

  // ------------------------------------------------------------ the stack

  type Entry = (nat, nat)        // (lcp value, interval start)

  ghost predicate Ascending(stack: seq<Entry>) {
    forall i, j :: 0 <= i < j < |stack| ==> stack[i].0 < stack[j].0
  }

  /** Values increase up the stack, and apart from a bottom entry of value 0 it holds exactly the
      open intervals. */
  ghost predicate Stacked(lcp: seq<nat>, stack: seq<Entry>, index: nat) {
    && Ascending(stack)
    && (forall i :: 0 <= i < |stack| && stack[i].0 >= 1 ==> stack[i].1 >= 1 && Open(lcp, stack[i].0, stack[i].1 - 1, index))
    && (forall v: nat, lo: nat :: Open(lcp, v, lo, index) ==> (v, lo + 1) in stack)
  }

  /** Where the entry pushed for `value` starts, after popping the entries above position `kept`. */
  function StartFrom(stack: seq<Entry>, kept: nat, index: nat): nat
    requires kept <= |stack|
  {
    if kept == |stack| then index else stack[kept].1
  }

  /** `kept` is where popping stops: what is above it exceeds `value`, what is below does not. */
  ghost predicate PopsTo(stack: seq<Entry>, kept: nat, value: nat) {
    && kept <= |stack|
    && (forall i :: kept <= i < |stack| ==> stack[i].0 > value)
    && (kept > 0 ==> stack[kept - 1].0 <= value)
  }

  function PushedStack(stack: seq<Entry>, kept: nat, value: nat, start: nat): seq<Entry>
    requires kept <= |stack|
  {
    if kept == 0 || stack[kept - 1].0 < value then stack[..kept] + [(value, start)] else stack[..kept]
  }

  lemma EntryOf(lcp: seq<nat>, stack: seq<Entry>, index: nat, v: nat, lo: nat) returns (i: nat)
    requires Stacked(lcp, stack, index) && Open(lcp, v, lo, index)
    ensures i < |stack| && stack[i] == (v, lo + 1)
  {
    assert (v, lo + 1) in stack;
    i :| 0 <= i < |stack| && stack[i] == (v, lo + 1);
  }

  /** When `value` has no open interval yet, the popped entries say where the new one starts. */
  lemma StartIsOpen(lcp: seq<nat>, stack: seq<Entry>, index: nat, kept: nat)
    requires 1 <= index < |lcp| && lcp[0] == 0 && lcp[index] >= 1
    requires Stacked(lcp, stack, index) && PopsTo(stack, kept, lcp[index])
    requires kept == 0 || stack[kept - 1].0 < lcp[index]
    ensures StartFrom(stack, kept, index) >= 1
    ensures Open(lcp, lcp[index], StartFrom(stack, kept, index) - 1, index + 1)
  {
    var value := lcp[index];
    var start := StartFrom(stack, kept, index);
    var lo := start - 1;
    assert forall k :: lo < k < index ==> lcp[k] >= value;
    if lo > 0 && lcp[lo] >= value {
      var u := lcp[lo];
      var lo' := OpenAround(lcp, u, lo, lo, index);
      var i := EntryOf(lcp, stack, index, u, lo');
    }
  }

  lemma OpenExtends(lcp: seq<nat>, v: nat, lo: nat, index: nat)
    requires Open(lcp, v, lo, index) && index < |lcp| && lcp[index] >= v
    ensures Open(lcp, v, lo, index + 1)
  {
    var k :| lo < k < index && lcp[k] == v;
    assert lo < k < index + 1;
  }

  lemma EntryOpen(lcp: seq<nat>, stack: seq<Entry>, index: nat, i: nat)
    requires Stacked(lcp, stack, index) && i < |stack| && stack[i].0 >= 1
    ensures stack[i].1 >= 1 && Open(lcp, stack[i].0, stack[i].1 - 1, index)
  {}

  lemma KeptBelow(lcp: seq<nat>, stack: seq<Entry>, index: nat, kept: nat)
    requires index < |lcp| && Stacked(lcp, stack, index) && PopsTo(stack, kept, lcp[index])
    ensures Ascending(stack) && kept <= |stack|
    ensures forall i :: 0 <= i < kept ==> stack[i].0 <= lcp[index]
    ensures Ascending(PushedStack(stack, kept, lcp[index], StartFrom(stack, kept, index)))
  {
    hide Open;
  }

  lemma KeptEntryOpen(lcp: seq<nat>, stack: seq<Entry>, index: nat, kept: nat, i: nat)
    requires 1 <= index < |lcp| && Stacked(lcp, stack, index) && PopsTo(stack, kept, lcp[index])
    requires i < kept && stack[i].0 >= 1
    ensures stack[i].1 >= 1 && Open(lcp, stack[i].0, stack[i].1 - 1, index + 1)
  {
    KeptBelow(lcp, stack, index, kept);
    hide Open, Stacked, PopsTo, PushedStack, StartFrom, Ascending;
    EntryOpen(lcp, stack, index, i);
    OpenExtends(lcp, stack[i].0, stack[i].1 - 1, index);
  }

  /** The entries after one turn of the scan are open. */
  lemma EntriesOpen(lcp: seq<nat>, stack: seq<Entry>, index: nat, kept: nat, next: seq<Entry>, i: nat)
    requires 1 <= index < |lcp| && lcp[0] == 0
    requires Stacked(lcp, stack, index) && PopsTo(stack, kept, lcp[index]) && kept <= |stack|
    requires next == PushedStack(stack, kept, lcp[index], StartFrom(stack, kept, index))
    requires i < |next| && next[i].0 >= 1
    ensures next[i].1 >= 1 && Open(lcp, next[i].0, next[i].1 - 1, index + 1)
  {
    hide Open, Stacked, PopsTo, PushedStack, StartFrom, Ascending;
    PushedAt(stack, kept, lcp[index], StartFrom(stack, kept, index), i);
    if i < kept {
      KeptEntryOpen(lcp, stack, index, kept, i);
    } else {
      StartIsOpen(lcp, stack, index, kept);
    }
  }

  lemma PushedAt(stack: seq<Entry>, kept: nat, value: nat, start: nat, i: nat)
    requires kept <= |stack| && i < |PushedStack(stack, kept, value, start)|
    ensures i < kept ==> PushedStack(stack, kept, value, start)[i] == stack[i]
    ensures i >= kept ==> i == kept && PushedStack(stack, kept, value, start)[i] == (value, start)
                          && (kept == 0 || stack[kept - 1].0 < value)
  {}

  /** One turn of the scan keeps the stack exact. */
  lemma StackNext(lcp: seq<nat>, stack: seq<Entry>, index: nat, kept: nat)
    requires 1 <= index < |lcp| && lcp[0] == 0
    requires Stacked(lcp, stack, index) && PopsTo(stack, kept, lcp[index])
    ensures Stacked(lcp, PushedStack(stack, kept, lcp[index], StartFrom(stack, kept, index)), index + 1)
  {
    var next, after := PushedStack(stack, kept, lcp[index], StartFrom(stack, kept, index)), index + 1;
    KeptBelow(lcp, stack, index, kept);
    hide Open, Stacked, PopsTo, PushedStack, StartFrom, Ascending;
    forall i | 0 <= i < |next| && next[i].0 >= 1
      ensures next[i].1 >= 1 && Open(lcp, next[i].0, next[i].1 - 1, after)
    {
      EntriesOpen(lcp, stack, index, kept, next, i);
    }
    forall v: nat, lo: nat | Open(lcp, v, lo, after) ensures (v, lo + 1) in next {
      StillListed(lcp, stack, index, kept, v, lo);
    }
    ExactStack(lcp, next, after);
  }

  lemma ExactStack(lcp: seq<nat>, stack: seq<Entry>, index: nat)
    requires Ascending(stack)
    requires forall i :: 0 <= i < |stack| && stack[i].0 >= 1 ==> stack[i].1 >= 1 && Open(lcp, stack[i].0, stack[i].1 - 1, index)
    requires forall v: nat, lo: nat :: Open(lcp, v, lo, index) ==> (v, lo + 1) in stack
    ensures Stacked(lcp, stack, index)
  {}

  lemma StillListed(lcp: seq<nat>, stack: seq<Entry>, index: nat, kept: nat, v: nat, lo: nat)
    requires 1 <= index < |lcp| && lcp[0] == 0
    requires Stacked(lcp, stack, index) && PopsTo(stack, kept, lcp[index])
    requires Open(lcp, v, lo, index + 1)
    ensures (v, lo + 1) in PushedStack(stack, kept, lcp[index], StartFrom(stack, kept, index))
  {
    var value, start := lcp[index], StartFrom(stack, kept, index);
    var next := PushedStack(stack, kept, value, start);
    if kept > 0 && stack[kept - 1].0 == v {
      var e := stack[kept - 1];
      OpenExtends(lcp, v, e.1 - 1, index);
      OpenUnique(lcp, v, lo, e.1 - 1, index + 1);
      assert next[kept - 1] == e;
    } else if Open(lcp, v, lo, index) {
      var i := EntryOf(lcp, stack, index, v, lo);
      assert i < kept;
      assert next[i] == stack[i];
    } else {
      NewlyOpen(lcp, v, lo, index);
      StartIsOpen(lcp, stack, index, kept);
      OpenUnique(lcp, v, lo, start - 1, index + 1);
      assert next[kept] == (v, lo + 1);
    }
  }

  /** An interval that opens at `index` has the value found there. */
  lemma NewlyOpen(lcp: seq<nat>, v: nat, lo: nat, index: nat)
    requires 1 <= index < |lcp| && Open(lcp, v, lo, index + 1) && !Open(lcp, v, lo, index)
    ensures v == lcp[index]
  {
    var k :| lo < k < index + 1 && lcp[k] == v;
    assert k < index ==> lo + 1 < index && lo < k < index;
  }

  // ------------------------------------------------------------ what has been reported

  type Found = seq<(nat, nat, nat)>      // (length, low, high)

  /** Everything that closed before `index` has been found, once. */
  ghost predicate Reported(lcp: seq<nat>, found: Found, index: nat) {
    NoDup(found) && forall v: nat, lo: nat, hi: nat :: (v, lo, hi) in found <==> Interval(lcp, v, lo, hi) && hi + 1 < index
  }

  /** While popping at `index`: also the closed intervals above `kept`. */
  ghost predicate Popping(lcp: seq<nat>, stack: seq<Entry>, found: Found, index: nat, kept: nat) {
    && kept <= |stack| && NoDup(found)
    && forall v: nat, lo: nat, hi: nat :: (v, lo, hi) in found <==>
         || (Interval(lcp, v, lo, hi) && hi + 1 < index)
         || (hi + 1 == index && exists i :: kept <= i < |stack| && stack[i] == (v, lo + 1))
  }

  lemma PoppingStarts(lcp: seq<nat>, stack: seq<Entry>, found: Found, index: nat)
    requires Reported(lcp, found, index)
    ensures Popping(lcp, stack, found, index, |stack|)
  {}

  lemma PopNext(lcp: seq<nat>, stack: seq<Entry>, found: Found, index: nat, kept: nat)
    requires Popping(lcp, stack, found, index, kept) && 0 < kept && 1 <= index
    requires Ascending(stack)
    requires stack[kept - 1].1 >= 1
    ensures Popping(lcp, stack, found + [(stack[kept - 1].0, stack[kept - 1].1 - 1, index - 1)], index, kept - 1)
  {
    hide Interval;
    var e := stack[kept - 1];
    var x := (e.0, e.1 - 1, index - 1);
    forall i | kept <= i < |stack| ensures stack[i].0 != e.0 {}
    assert x !in found;
    forall v: nat, lo: nat, hi: nat
      ensures (v, lo, hi) == x <==> hi + 1 == index && stack[kept - 1] == (v, lo + 1)
    {}
  }

  /** All closed intervals have been popped: the report is up to date. */
  lemma PoppingEnds(lcp: seq<nat>, stack: seq<Entry>, found: Found, index: nat, kept: nat)
    requires 1 <= index <= |lcp| && Stacked(lcp, stack, index)
    requires Popping(lcp, stack, found, index, kept) && PopsTo(stack, kept, Value(lcp, index))
    ensures Reported(lcp, found, index + 1)
  {
    var hi := index - 1;
    forall v: nat, lo: nat
      ensures Interval(lcp, v, lo, hi) <==> exists i :: kept <= i < |stack| && stack[i] == (v, lo + 1)
    {
      ClosingOpens(lcp, v, lo, hi);
      if Interval(lcp, v, lo, hi) {
        var i := EntryOf(lcp, stack, index, v, lo);
        assert i >= kept;
      }
    }
    hide Interval;
  }
}
