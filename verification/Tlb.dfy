/** The TLB and its round-robin replacement. */
module Tlb {
  import opened Common

  const NUM_TLB: nat := 64

  /** A valid entry maps the page at virtual address `page` to frame `frame`; `dirty` means
      stores are allowed. */
  datatype TlbEntry = Invalid | Maps(page: nat, frame: nat, dirty: bool)

  datatype Tlb = Tlb(slots: seq<TlbEntry>, victim: nat)

  ghost predicate TlbWf(t: Tlb) {
    |t.slots| == NUM_TLB && t.victim < NUM_TLB
  }

  /** `vm_tlb_invalidate_entries`: the round-robin position stays where it is. */
  function Invalidate(t: Tlb): Tlb {
    t.(slots := seq(|t.slots|, _ => Invalid))
  }

  /** `vm_tlb_write`. */
  function Write(t: Tlb, e: TlbEntry): Tlb
    requires t.victim < |t.slots|
  {
    Tlb(t.slots[t.victim := e], (t.victim + 1) % NUM_TLB)
  }

  /** The slot of the valid entry for a page, if the TLB holds one. */
  function Find(slots: seq<TlbEntry>, page: nat): (r: Option<nat>)
    ensures r.Some? ==> r.value < |slots| && slots[r.value].Maps? && slots[r.value].page == page
    ensures r.None? ==> forall i :: 0 <= i < |slots| && slots[i].Maps? ==> slots[i].page != page
  {
    FindFrom(slots, page, 0)
  }

  function FindFrom(slots: seq<TlbEntry>, page: nat, i: nat): (r: Option<nat>)
    requires i <= |slots|
    ensures r.Some? ==> r.value < |slots| && slots[r.value].Maps? && slots[r.value].page == page
    ensures r.None? ==> forall j :: i <= j < |slots| && slots[j].Maps? ==> slots[j].page != page
    decreases |slots| - i
  {
    if i == |slots| then None
    else if slots[i].Maps? && slots[i].page == page then Some(i)
    else FindFrom(slots, page, i + 1)
  }

  // ------------------------------------------------------------------ recency

  /** The slot written `back` writes ago, counting from 0. */
  function SlotBack(t: Tlb, back: nat): nat {
    (t.victim - 1 - back) % NUM_TLB
  }

  /** `hist` lists the mappings installed since the last invalidation: the valid entries are
      exactly the last `NUM_TLB` of them, one per slot. */
  ghost predicate Recent(t: Tlb, hist: seq<TlbEntry>) {
    && TlbWf(t)
    && (forall e :: e in hist ==> e.Maps?)
    && forall back :: 0 <= back < NUM_TLB ==>
      t.slots[SlotBack(t, back)] == if back < |hist| then hist[|hist| - 1 - back] else Invalid
  }

  lemma RecentInvalidate(t: Tlb)
    requires TlbWf(t)
    ensures Recent(Invalidate(t), [])
  {
  }

  /** A write keeps recency, and replaces a valid entry exactly when `NUM_TLB` mappings were
      already installed. */
  lemma RecentWrite(t: Tlb, hist: seq<TlbEntry>, e: TlbEntry)
    requires Recent(t, hist) && e.Maps?
    ensures Recent(Write(t, e), hist + [e])
    ensures t.slots[t.victim].Maps? <==> |hist| >= NUM_TLB
  {
    var t', hist' := Write(t, e), hist + [e];
    assert t.victim == SlotBack(t, NUM_TLB - 1);
    forall back | 0 <= back < NUM_TLB
      ensures t'.slots[SlotBack(t', back)] == if back < |hist'| then hist'[|hist'| - 1 - back] else Invalid
    {
      if back == 0 {
        assert SlotBack(t', 0) == t.victim;
      } else {
        assert SlotBack(t', back) == SlotBack(t, back - 1) != t.victim;
      }
    }
  }

  /** How many writes ago a slot was written. */
  lemma BackOf(t: Tlb, i: nat) returns (back: nat)
    requires t.victim < NUM_TLB && i < NUM_TLB
    ensures back < NUM_TLB && SlotBack(t, back) == i
  {
    back := (t.victim - 1 - i) % NUM_TLB;
  }

  datatype TlbOp = Clear | Put(e: TlbEntry)

  function ApplyOps(t: Tlb, ops: seq<TlbOp>): (r: Tlb)
    requires t.victim < NUM_TLB == |t.slots|
    ensures r.victim < NUM_TLB == |r.slots|
  {
    if ops == [] then t
    else
      var before := ApplyOps(t, ops[..|ops| - 1]);
      match ops[|ops| - 1]
      case Clear => Invalidate(before)
      case Put(e) => Write(before, e)
  }

  /** The mappings installed since the last invalidation. */
  function Since(ops: seq<TlbOp>): seq<TlbEntry> {
    if ops == [] then []
    else match ops[|ops| - 1]
      case Clear => []
      case Put(e) => Since(ops[..|ops| - 1]) + [e]
  }

  /** Over every sequence of installs and invalidations from an empty TLB, the entries are the most
      recent installs. */
  lemma {:induction false} RecentRun(t: Tlb, ops: seq<TlbOp>)
    requires Recent(t, []) && forall i :: 0 <= i < |ops| && ops[i].Put? ==> ops[i].e.Maps?
    ensures Recent(ApplyOps(t, ops), Since(ops))
  {
    if ops != [] {
      RecentRun(t, ops[..|ops| - 1]);
      var before := ApplyOps(t, ops[..|ops| - 1]);
      match ops[|ops| - 1]
      case Clear => RecentInvalidate(before);
      case Put(e) => RecentWrite(before, Since(ops[..|ops| - 1]), e);
    }
  }

  /** The round-robin position advances with every install and with nothing else. */
  lemma {:induction false} VictimRun(t: Tlb, ops: seq<TlbOp>)
    requires t.victim < NUM_TLB == |t.slots|
    ensures ApplyOps(t, ops).victim == (t.victim + Puts(ops)) % NUM_TLB
  {
    if ops != [] { VictimRun(t, ops[..|ops| - 1]); }
  }

  function Puts(ops: seq<TlbOp>): nat {
    if ops == [] then 0 else Puts(ops[..|ops| - 1]) + if ops[|ops| - 1].Put? then 1 else 0
  }

  /** A mapping is in the TLB exactly when it is among the last `NUM_TLB` installed since the last
      invalidation. */
  lemma ValidAreRecent(t: Tlb, ops: seq<TlbOp>, e: TlbEntry)
    requires Recent(t, []) && forall i :: 0 <= i < |ops| && ops[i].Put? ==> ops[i].e.Maps?
    requires e.Maps?
    ensures
      var k := |Since(ops)|;
      e in ApplyOps(t, ops).slots <==> e in Since(ops)[k - Min(k, NUM_TLB)..]
  {
    RecentRun(t, ops);
    var t', hist := ApplyOps(t, ops), Since(ops);
    var k := |hist|;
    var last := hist[k - Min(k, NUM_TLB)..];
    if e in last {
      var j: nat :| j < |last| && last[j] == e;
      assert t'.slots[SlotBack(t', |last| - 1 - j)] == e;
    }
    if e in t'.slots {
      var i :| 0 <= i < NUM_TLB && t'.slots[i] == e;
      var back := BackOf(t', i);
      assert back < k && last[|last| - 1 - back] == e;
    }
  }

  /** The TLB hardware, driven as the kernel drives it. */
  class Device {
    const slots: array<TlbEntry>
    var victim: nat

    ghost function Value(): Tlb
      reads this, slots
    {
      Tlb(slots[..], victim)
    }

    constructor ()
      ensures TlbWf(Value()) && fresh(slots) && Value() == Invalidate(Value()) && victim == 0
    {
      slots := new TlbEntry[NUM_TLB](_ => Invalid);
      victim := 0;
    }

    method InvalidateEntries()
      modifies slots
      ensures Value() == Invalidate(old(Value()))
    {
      var i := 0;
      while i < slots.Length
        invariant 0 <= i <= slots.Length
        invariant forall j :: 0 <= j < i ==> slots[j] == Invalid
      {
        slots[i] := Invalid;
        i := i + 1;
      }
    }

    method PeekVictim() returns (e: TlbEntry)
      requires TlbWf(Value())
      ensures e == Value().slots[victim]
    {
      e := slots[victim];
    }

    method WriteEntry(e: TlbEntry)
      requires TlbWf(Value())
      modifies this, slots
      ensures Value() == Write(old(Value()), e) && TlbWf(Value())
    {
      var index := victim;
      victim := (victim + 1) % NUM_TLB;
      slots[index] := e;
    }
  }
}
