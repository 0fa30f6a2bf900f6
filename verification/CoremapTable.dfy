/** The coremap operations as the kernel runs them: in place, on the record array. Every
    method is proved to have the effect its function in `Coremap` describes. A method that
    reports `Panic` or `false` has hit a failed assertion, and the run is over. */
module CoremapTable {
  import opened Common
  import opened Coremap
  import opened CoremapBlocks

  class Table {
    const entries: array<Entry>
    var last: nat
    var victim: nat
    var ramFirst: nat

    ghost function Value(): Cm
      reads this, entries
    {
      Cm(entries[..], last, victim, ramFirst)
    }

    /** `coremap_init` over the frames not yet handed out at boot. */
    constructor (total: nat, first: nat)
      requires 1 <= first <= total
      ensures fresh(entries) && entries.Length == total
      ensures last == total && victim == total && ramFirst == first
      ensures forall i :: 0 <= i < total ==> entries[i] == Entry(Untracked, 0, 0, 0, 0, None)
    {
      entries := new Entry[total](i => Entry(Untracked, 0, 0, 0, 0, None));
      last, victim, ramFirst := total, total, first;
    }

    method AllocateFreePages(n: nat, use: Use) returns (f: nat)
      modifies entries
      ensures (Value(), f) == AllocateFree(old(Value()), n, use)
    {
      var start := ScanFree(n);
      if start < 0 {
        return 0;
      }
      ghost var es := entries[..];
      assert start + n <= |es|;
      var i := start;
      while i < start + n
        invariant start <= i <= start + n
        invariant forall k :: 0 <= k < |es| ==>
          entries[k] == if start <= k < i then Marked(es[k], use) else es[k]
      {
        entries[i] := Marked(entries[i], use);
        i := i + 1;
      }
      assert entries[..] == MarkBlock(es, start, n, use);
      entries[start] := entries[start].(allocSize := n);
      assert entries[..] == SetSize(MarkBlock(es, start, n, use), start, n);
      return start;
    }

    /** The search loop of `allocate_free_pages`: -1 when no block is found. */
    method ScanFree(n: nat) returns (start: int)
      ensures start >= 0 <==> FirstFit(entries[..], n).Some?
      ensures start >= 0 ==> FirstFit(entries[..], n) == Some(start) && start < entries.Length
    {
      var first := -1;
      var i := 0;
      ghost var es := entries[..];
      ghost var need := Max(n, 1);
      while i < entries.Length
        invariant 0 <= i <= entries.Length
        invariant i > 0 && es[i - 1].kind.Freed? ==>
          && 0 <= first < i && i - first < need
          && (forall j :: first <= j < i ==> es[j].kind.Freed?)
          && (first > 0 ==> !es[first - 1].kind.Freed?)
        invariant forall k: nat :: k + need <= i ==> !FreeRun(es, k, need)
      {
        if entries[i].kind.Freed? {
          if i == 0 || !entries[i - 1].kind.Freed? {
            first := i;
          }
          if i - first + 1 >= n {
            assert FreeRun(es, first, need);
            return first;
          }
        }
        assert forall k: nat :: k + need == i + 1 && FreeRun(es, k, need) ==>
          es[i].kind.Freed? && (i > 0 && k < i ==> es[i - 1].kind.Freed?);
        forall k: nat | k + need == i + 1
          ensures !FreeRun(es, k, need)
        {
          if es[i].kind.Freed? && k < first {
            assert !es[first - 1].kind.Freed?;
          }
        }
        i := i + 1;
      }
      return -1;
    }

    /** `ram_stealmem`. */
    method StealMem(n: nat) returns (f: nat)
      modifies this`ramFirst
      ensures (Value(), f) == Steal(old(Value()), n)
      ensures CmInv(old(Value())) ==> Obtained(old(Value()), Value(), f, n)
    {
      if CmInv(Value()) { StealIsNew(Value(), n); }
      if ramFirst + n > entries.Length {
        return 0;
      }
      f := ramFirst;
      ramFirst := ramFirst + n;
    }

    method AllocateKernelPages(n: nat) returns (r: Result<nat>)
      modifies this`ramFirst, entries
      ensures r.Ok? <==> AllocateKernel(old(Value()), n).Ok?
      ensures r.Ok? ==> AllocateKernel(old(Value()), n).value == (Value(), r.value)
    {
      var f := AllocateFreePages(n, ForKernel);
      if f == 0 {
        f := StealMem(n);
      }
      if f != 0 {
        if f >= entries.Length || f + n > entries.Length {
          return Panic;
        }
        ghost var es := entries[..];
        var i := 0;
        while i < n
          modifies entries
          invariant 0 <= i <= n
          invariant forall k :: 0 <= k < |es| ==>
            entries[k] == if f <= k < f + i then es[k].(kind := BusyKernel) else es[k]
        {
          entries[f + i] := entries[f + i].(kind := BusyKernel);
          i := i + 1;
        }
        assert entries[..] == SetKind(es, f, n, BusyKernel);
        entries[f] := entries[f].(allocSize := n);
        assert entries[..] == SetSize(SetKind(es, f, n, BusyKernel), f, n);
      }
      return Ok(f);
    }

    method FreePages(f: nat, n: nat) returns (ok: bool)
      modifies entries
      ensures ok <==> Coremap.FreePages(old(Value()), f, n).Ok?
      ensures ok ==> Value() == Coremap.FreePages(old(Value()), f, n).value
    {
      if f >= entries.Length || f + n > entries.Length {
        return false;
      }
      ghost var es := entries[..];
      var i := f;
      while i < f + n
        invariant f <= i <= f + n
        invariant forall k :: 0 <= k < |es| ==>
          entries[k] == if f <= k < i then Released(es[k]) else es[k]
      {
        entries[i] := Released(entries[i]);
        i := i + 1;
      }
      assert entries[..] == ReleaseBlock(es, f, n);
      entries[f] := entries[f].(allocSize := 0);
      assert entries[..] == SetSize(ReleaseBlock(es, f, n), f, 0);
      return true;
    }

    method FreeKernelPages(f: nat) returns (ok: bool)
      modifies entries
      ensures ok <==> FreeKernel(old(Value()), f).Ok?
      ensures ok ==> Value() == FreeKernel(old(Value()), f).value
    {
      if f >= entries.Length {
        return false;
      }
      ok := FreePages(f, entries[f].allocSize);
    }

    /** A frame for a user page without replacement, 0 if there is none. */
    method TakeFrame(a: SpaceId, va: nat) returns (f: nat)
      modifies this`ramFirst, entries
      ensures (Value(), f) == TakeUserFrame(old(Value()), a, va)
    {
      f := AllocateFreePages(1, ForUser(a, va));
      if f == 0 {
        f := StealMem(1);
      }
    }

    /** The part of `allocate_user_page` that follows a frame found free. */
    method Append(f: nat, a: SpaceId, va: nat) returns (ok: bool)
      modifies this`last, this`victim, entries
      ensures ok <==> Enqueue(old(Value()), f, a, va).Ok?
      ensures ok ==> Value() == Enqueue(old(Value()), f, a, va).value
    {
      var invalid := entries.Length;
      if f >= entries.Length || last > invalid {
        return false;
      }
      entries[f] := entries[f].(kind := BusyUser, allocSize := 1, vaddr := va, space := Some(a));
      if last != invalid {
        entries[last] := entries[last].(next := f);
        entries[f] := entries[f].(prev := last);
        entries[f] := entries[f].(next := invalid);
      } else {
        entries[f] := entries[f].(prev := invalid);
        entries[f] := entries[f].(next := invalid);
      }
      if victim == invalid {
        victim := f;
      }
      last := f;
      return true;
    }

    /** The part of `allocate_user_page` that follows the swap-out of the victim. */
    method Replace(a: SpaceId, va: nat) returns (ok: bool)
      modifies this`last, this`victim, entries
      ensures ok <==> Retarget(old(Value()), a, va).Ok?
      ensures ok ==> Value() == Retarget(old(Value()), a, va).value
    {
      var v, invalid := victim, entries.Length;
      if v >= entries.Length || !entries[v].kind.BusyUser? || entries[v].allocSize != 1 || last >= entries.Length {
        return false;
      }
      entries[v] := entries[v].(vaddr := va);
      entries[v] := entries[v].(space := Some(a));
      var newVictim := entries[v].next;
      entries[last] := entries[last].(next := v);
      entries[v] := entries[v].(next := invalid);
      entries[v] := entries[v].(prev := last);
      if newVictim == invalid {
        return false;
      }
      last := v;
      victim := newVictim;
      return true;
    }

    /** `free_page_user`. */
    method FreePageUser(f: nat) returns (ok: bool)
      modifies this`last, this`victim, entries
      ensures ok <==> FreeUser(old(Value()), f).Ok?
      ensures ok ==> Value() == FreeUser(old(Value()), f).value
    {
      var invalid := entries.Length;
      if f >= entries.Length || entries[f].allocSize != 1 {
        return false;
      }
      var p, n := entries[f].prev, entries[f].next;
      var newLast, newVictim := last, victim;
      if p == invalid {
        if n == invalid {
          newVictim, newLast := invalid, invalid;
        } else {
          if f != newVictim || n >= entries.Length {
            return false;
          }
          entries[n] := entries[n].(prev := invalid);
          newVictim := n;
        }
      } else if n == invalid {
        if f != newLast || p >= entries.Length {
          return false;
        }
        entries[p] := entries[p].(next := invalid);
        newLast := p;
      } else {
        if n >= entries.Length || p >= entries.Length {
          return false;
        }
        entries[n] := entries[n].(prev := p);
        entries[p] := entries[p].(next := n);
      }
      assert Unlink(old(Value()), f).Ok?;
      assert entries[..] == Unlink(old(Value()), f).value.entries;
      entries[f] := entries[f].(next := invalid);
      entries[f] := entries[f].(prev := invalid);
      ok := FreePages(f, 1);
      victim := newVictim;
      last := newLast;
    }
  }
}
