/** The pool of page references: sixteen pages of 256, each entry in use or not. The in-use words of
    the kernel are kept here as flags. */
module KheapRefs {
  import opened Common

  const REFS_PER_PAGE: nat := 256
  const NUM_REF_PAGES: nat := 16
  const TOTAL_REFS: nat := NUM_REF_PAGES * REFS_PER_PAGE

  /** How many of the `n` flags from `lo` on are set. */
  function Count(flags: seq<bool>, lo: nat, n: nat): (c: nat)
    requires lo + n <= |flags|
    ensures c <= n
    ensures c == n <==> forall i :: lo <= i < lo + n ==> flags[i]
    ensures c == 0 <==> forall i :: lo <= i < lo + n ==> !flags[i]
  {
    if n == 0 then 0 else Count(flags, lo, n - 1) + if flags[lo + n - 1] then 1 else 0
  }

  lemma {:induction false} CountUpdate(flags: seq<bool>, lo: nat, n: nat, i: nat, v: bool)
    requires lo + n <= |flags| && i < |flags| && flags[i] != v
    ensures Count(flags[i := v], lo, n) ==
      Count(flags, lo, n) + (if lo <= i < lo + n then (if v then 1 else -1) else 0)
  {
    if n > 0 { CountUpdate(flags, lo, n - 1, i, v); }
  }

  class Pool {
    const inuse: array<bool>
    const numinuse: array<nat>
    const hasPage: array<bool>

    ghost predicate Valid()
      reads inuse, numinuse, hasPage
    {
      && inuse.Length == TOTAL_REFS && numinuse.Length == NUM_REF_PAGES && hasPage.Length == NUM_REF_PAGES
      && inuse != hasPage
      && forall w :: 0 <= w < NUM_REF_PAGES ==> numinuse[w] == Count(inuse[..], w * REFS_PER_PAGE, REFS_PER_PAGE)
    }

    /** The entries marked in use. */
    ghost function Contents(): set<nat>
      requires Valid()
      reads inuse, numinuse, hasPage
    {
      set r | 0 <= r < TOTAL_REFS && inuse[r]
    }

    /** No entry is marked on a page that was never obtained. */
    ghost predicate NoLeak()
      requires Valid()
      reads inuse, numinuse, hasPage
    {
      forall w :: 0 <= w < NUM_REF_PAGES && !hasPage[w] ==> numinuse[w] == 0
    }

    ghost predicate Full()
      requires Valid()
      reads inuse, numinuse, hasPage
    {
      forall i :: 0 <= i < TOTAL_REFS ==> i in Contents()
    }

    ghost predicate LeastFree(r: nat)
      requires Valid()
      reads inuse, numinuse, hasPage
    {
      r < TOTAL_REFS && r !in Contents() && forall i :: 0 <= i < r ==> i in Contents()
    }

    /** An entry in use on an obtained page. */
    ghost predicate Usable(r: nat)
      requires Valid()
      reads inuse, numinuse, hasPage
    {
      r < TOTAL_REFS && r in Contents() && hasPage[r / REFS_PER_PAGE]
    }

    constructor ()
      ensures Valid() && NoLeak() && Contents() == {} && (forall w :: 0 <= w < NUM_REF_PAGES ==> !hasPage[w])
      ensures fresh(inuse) && fresh(numinuse) && fresh(hasPage)
    {
      inuse := new bool[TOTAL_REFS](_ => false);
      numinuse := new nat[NUM_REF_PAGES](_ => 0);
      hasPage := new bool[NUM_REF_PAGES](_ => false);
    }

    /** Marks or clears one entry and keeps the count of its page. */
    method Flip(r: nat)
      requires Valid() && r < TOTAL_REFS
      modifies inuse, numinuse
      ensures Valid()
      ensures Contents() == if old(inuse[r]) then old(Contents()) - {r} else old(Contents()) + {r}
      ensures numinuse[..] == old(numinuse[..])[r / REFS_PER_PAGE := numinuse[r / REFS_PER_PAGE]]
    {
      var w := r / REFS_PER_PAGE;
      ghost var was := inuse[..];
      forall x | 0 <= x < NUM_REF_PAGES
        ensures Count(was[r := !was[r]], x * REFS_PER_PAGE, REFS_PER_PAGE) ==
          numinuse[x] + (if x == w then (if was[r] then -1 else 1) else 0)
      {
        CountUpdate(was, x * REFS_PER_PAGE, REFS_PER_PAGE, r, !was[r]);
      }
      if inuse[r] {
        inuse[r] := false;
        numinuse[w] := numinuse[w] - 1;
      } else {
        inuse[r] := true;
        numinuse[w] := numinuse[w] + 1;
      }
      assert inuse[..] == was[r := !was[r]];
    }

    /** `allocpageref`: takes the least entry not in use. `canGet` says whether a page for the entries
        can be obtained when it is missing; if it cannot, the entry stays marked although the call
        fails. */
    method Alloc(canGet: bool) returns (r: Option<nat>)
      requires Valid()
      modifies inuse, numinuse, hasPage
      ensures Valid()
      ensures r.Some? ==>
        && Usable(r.value) && old(LeastFree(r.value)) && Contents() == old(Contents()) + {r.value}
        && (canGet || old(hasPage[r.value / REFS_PER_PAGE]))
      ensures old(Full()) ==> r.None? && Contents() == old(Contents())
      ensures !old(Full()) && r.None? ==>
        && !canGet
        && exists i :: 0 <= i < TOTAL_REFS && old(LeastFree(i)) && !old(hasPage[i / REFS_PER_PAGE])
                       && Contents() == old(Contents()) + {i}
      ensures old(NoLeak()) && canGet ==> NoLeak()
      ensures hasPage[..] == if r.Some? then old(hasPage[..])[r.value / REFS_PER_PAGE := true] else old(hasPage[..])
      ensures forall x :: 0 <= x < TOTAL_REFS && old(Usable(x)) ==> Usable(x)
    {
      var w := 0;
      while w < NUM_REF_PAGES
        invariant 0 <= w <= NUM_REF_PAGES
        invariant forall i :: 0 <= i < w * REFS_PER_PAGE ==> inuse[i]
        invariant inuse[..] == old(inuse[..]) && numinuse[..] == old(numinuse[..]) && hasPage[..] == old(hasPage[..])
      {
        if numinuse[w] < REFS_PER_PAGE {
          var j := 0;
          while j < REFS_PER_PAGE && inuse[w * REFS_PER_PAGE + j]
            invariant 0 <= j <= REFS_PER_PAGE
            invariant forall i :: 0 <= i < w * REFS_PER_PAGE + j ==> inuse[i]
          {
            j := j + 1;
          }
          assert j < REFS_PER_PAGE;
          var index := w * REFS_PER_PAGE + j;
          assert LeastFree(index) && index / REFS_PER_PAGE == w;
          Flip(index);
          if !hasPage[w] {
            hasPage[w] := canGet;
          }
          if !hasPage[w] {
            return None;
          }
          return Some(index);
        }
        w := w + 1;
      }
      return None;
    }

    /** Whether `freepageref` gets through its assertions: the entry is in use on an obtained page,
        and no earlier page that was never obtained has entries marked. */
    ghost predicate CanRelease(r: nat)
      requires Valid()
      reads inuse, numinuse, hasPage
    {
      && Usable(r)
      && forall w :: 0 <= w < r / REFS_PER_PAGE && !hasPage[w] ==> numinuse[w] == 0
    }

    /** `freepageref`. */
    method Release(r: nat) returns (ok: bool)
      requires Valid() && r < TOTAL_REFS
      modifies inuse, numinuse
      ensures Valid()
      ensures ok <==> old(CanRelease(r))
      ensures Contents() == if ok then old(Contents()) - {r} else old(Contents())
      ensures forall x :: 0 <= x < TOTAL_REFS && x != r && old(Usable(x)) ==> Usable(x)
      ensures old(NoLeak()) ==> NoLeak()
    {
      var w := 0;
      while w < NUM_REF_PAGES
        invariant 0 <= w <= NUM_REF_PAGES
        invariant w <= r / REFS_PER_PAGE
        invariant forall x :: 0 <= x < w && !hasPage[x] ==> numinuse[x] == 0
        invariant inuse[..] == old(inuse[..]) && numinuse[..] == old(numinuse[..])
      {
        if !hasPage[w] {
          if numinuse[w] != 0 {
            return false;
          }
          assert w == r / REFS_PER_PAGE ==> !inuse[r];
        } else if w == r / REFS_PER_PAGE {
          if !inuse[r] || numinuse[w] == 0 {
            return false;
          }
          Flip(r);
          return true;
        }
        if w == r / REFS_PER_PAGE {
          return false;
        }
        w := w + 1;
      }
      return false;
    }
  }

  /** No page of references can be had for 256 allocations, which leaves all of the first page's entries
      marked; then one can, and the entry taken from it cannot be released. */
  method LeakThenFail() returns (r: Option<nat>, ok: bool)
    ensures r == Some(REFS_PER_PAGE) && !ok
  {
    var pool := new Pool();
    var k := 0;
    while k < REFS_PER_PAGE
      invariant 0 <= k <= REFS_PER_PAGE && pool.Valid()
      invariant fresh(pool.inuse) && fresh(pool.numinuse) && fresh(pool.hasPage)
      invariant forall i: nat :: i in pool.Contents() <==> i < k
      invariant !pool.hasPage[0] && !pool.hasPage[1]
    {
      assert pool.LeastFree(k) && !pool.Full();
      var none := pool.Alloc(false);
      k := k + 1;
    }
    assert pool.LeastFree(REFS_PER_PAGE) && !pool.Full();
    r := pool.Alloc(true);
    assert r == Some(REFS_PER_PAGE) && !pool.hasPage[0];
    forall i: nat | i < REFS_PER_PAGE
      ensures pool.inuse[..][i]
    {
      assert i in pool.Contents();
    }
    assert pool.numinuse[0] == Count(pool.inuse[..], 0 * REFS_PER_PAGE, REFS_PER_PAGE) == REFS_PER_PAGE;
    ok := pool.Release(REFS_PER_PAGE);
  }
}
