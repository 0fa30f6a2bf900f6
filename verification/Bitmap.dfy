/** The byte-array bitmap refines a finite set of bit numbers. */
module Bitmap {
  import opened Common

  const BITS_PER_WORD: nat := 8
  const WORD_ALLBITS: bv8 := 0xff

  function DivRoundUp(a: nat, b: nat): nat
    requires b > 0
  {
    (a + b - 1) / b
  }

  function Mask(offset: nat): bv8
    requires offset < 8
  {
    1 << offset
  }

  predicate Bit(w: bv8, offset: nat)
    requires offset < 8
  {
    w & Mask(offset) != 0
  }

  lemma MaskValues()
    ensures Mask(0) == 1 && Mask(1) == 2 && Mask(2) == 4 && Mask(3) == 8
    ensures Mask(4) == 16 && Mask(5) == 32 && Mask(6) == 64 && Mask(7) == 128
  {
  }

  /** The mask at an offset, as one of eight constants. */
  lemma MaskCases(k: nat)
    requires k < 8
    ensures Mask(k) == if k == 0 then 1 else if k == 1 then 2 else if k == 2 then 4 else if k == 3 then 8
                       else if k == 4 then 16 else if k == 5 then 32 else if k == 6 then 64 else 128
  {
    MaskValues();
  }

  lemma SetBit(w: bv8, k: nat, j: nat)
    requires k < 8 && j < 8
    ensures Bit(w | Mask(k), j) <==> j == k || Bit(w, j)
  {
    MaskCases(k);
    MaskCases(j);
  }

  lemma ClearBit(w: bv8, k: nat, j: nat)
    requires k < 8 && j < 8
    ensures Bit(w & !Mask(k), j) <==> j != k && Bit(w, j)
  {
    MaskCases(k);
    MaskCases(j);
  }

  lemma NoBitInZero(k: nat)
    requires k < 8
    ensures !Bit(0, k)
  {
  }

  lemma FullWord(w: bv8)
    ensures w == WORD_ALLBITS <==> forall k :: 0 <= k < 8 ==> Bit(w, k)
  {
    MaskValues();
    if forall k :: 0 <= k < 8 ==> Bit(w, k) {
      assert Bit(w, 0) && Bit(w, 1) && Bit(w, 2) && Bit(w, 3) && Bit(w, 4) && Bit(w, 5) && Bit(w, 6) && Bit(w, 7);
    } else {
      var k :| 0 <= k < 8 && !Bit(w, k);
      MaskCases(k);
    }
  }

  /** Bit `i` of the word array. */
  predicate BitAt(v: seq<bv8>, i: nat)
    requires i < 8 * |v|
  {
    Bit(v[i / 8], i % 8)
  }

  class Map {
    const nbits: nat
    const v: array<bv8>

    /** The array has one bit per number and the padding bits of the last word are set. */
    ghost predicate Valid()
      reads v
    {
      && v.Length == DivRoundUp(nbits, BITS_PER_WORD)
      && forall i :: nbits <= i < 8 * v.Length ==> BitAt(v[..], i)
    }

    /** The numbers in use. */
    ghost function Contents(): set<nat>
      requires Valid()
      reads v
    {
      set i | 0 <= i < nbits && BitAt(v[..], i)
    }

    /** `bitmap_create`. */
    constructor (n: nat)
      ensures Valid() && fresh(v) && nbits == n
      ensures Contents() == {}
    {
      var words := DivRoundUp(n, BITS_PER_WORD);
      nbits := n;
      v := new bv8[words](_ => 0);
      new;
      if words > n / BITS_PER_WORD {
        var ix := words - 1;
        var overbits := n - ix * BITS_PER_WORD;
        assert n / BITS_PER_WORD == words - 1;
        assert 0 < overbits < BITS_PER_WORD;
        var j := overbits;
        while j < BITS_PER_WORD
          invariant overbits <= j <= 8
          invariant forall w :: 0 <= w < ix ==> v[w] == 0
          invariant forall k :: 0 <= k < 8 ==> (Bit(v[ix], k) <==> overbits <= k < j)
        {
          var w := v[ix] | Mask(j);
          forall k | 0 <= k < 8
            ensures Bit(w, k) <==> overbits <= k < j + 1
          {
            SetBit(v[ix], j, k);
          }
          v[ix] := w;
          j := j + 1;
        }
      }
      forall i | 0 <= i < nbits
        ensures !BitAt(v[..], i)
      {
        NoBitInZero(i % 8);
      }
    }

    /** `bitmap_alloc`: takes the least number not in use; fails exactly when all are. */
    method Alloc() returns (r: Option<nat>)
      requires Valid()
      modifies v
      ensures Valid()
      ensures r.None? <==> forall i :: 0 <= i < nbits ==> i in old(Contents())
      ensures r.None? ==> Contents() == old(Contents())
      ensures r.Some? ==>
        && r.value < nbits && r.value !in old(Contents())
        && (forall i :: 0 <= i < r.value ==> i in old(Contents()))
        && Contents() == old(Contents()) + {r.value}
    {
      var ix := 0;
      while ix < v.Length
        invariant 0 <= ix <= v.Length
        invariant forall i :: 0 <= i < 8 * ix ==> BitAt(v[..], i)
        invariant v[..] == old(v[..])
      {
        FullWord(v[ix]);
        if v[ix] != WORD_ALLBITS {
          var offset := 0;
          while offset < BITS_PER_WORD
            invariant 0 <= offset <= 8
            invariant forall k :: 0 <= k < offset ==> Bit(v[ix], k)
            invariant v[..] == old(v[..])
          {
            if v[ix] & Mask(offset) == 0 {
              var index := ix * BITS_PER_WORD + offset;
              assert !BitAt(v[..], index);
              assert index < nbits;
              assert index !in old(Contents());
              SetAt(index);
              return Some(index);
            }
            offset := offset + 1;
          }
          assert false;
        }
        ix := ix + 1;
      }
      return None;
    }

    /** Sets one bit below `nbits`. */
    method SetAt(index: nat)
      requires Valid() && index < nbits
      modifies v
      ensures Valid()
      ensures Contents() == old(Contents()) + {index}
    {
      ghost var was := v[..];
      v[index / 8] := v[index / 8] | Mask(index % 8);
      forall i: nat | i < 8 * v.Length
        ensures BitAt(v[..], i) <==> i == index || BitAt(was, i)
      {
        SetBit(was[index / 8], index % 8, i % 8);
      }
    }

    /** `bitmap_mark`: an assertion fails unless the number is free. */
    method Mark(index: nat) returns (ok: bool)
      requires Valid()
      modifies v
      ensures Valid()
      ensures ok <==> index < nbits && index !in old(Contents())
      ensures Contents() == if ok then old(Contents()) + {index} else old(Contents())
    {
      if index >= nbits || v[index / 8] & Mask(index % 8) != 0 {
        return false;
      }
      SetAt(index);
      return true;
    }

    /** `bitmap_unmark`: an assertion fails unless the number is in use. */
    method Unmark(index: nat) returns (ok: bool)
      requires Valid()
      modifies v
      ensures Valid()
      ensures ok <==> index in old(Contents())
      ensures Contents() == if ok then old(Contents()) - {index} else old(Contents())
    {
      if index >= nbits || v[index / 8] & Mask(index % 8) == 0 {
        return false;
      }
      ghost var was := v[..];
      v[index / 8] := v[index / 8] & !Mask(index % 8);
      forall i: nat | i < 8 * v.Length
        ensures BitAt(v[..], i) <==> i != index && BitAt(was, i)
      {
        ClearBit(was[index / 8], index % 8, i % 8);
      }
      return true;
    }

    /** `bitmap_isset`: there is no bounds check, and padding reads as set. */
    method IsSet(index: nat) returns (b: bool)
      requires Valid() && index < 8 * v.Length
      ensures b <==> index in Contents() || index >= nbits
    {
      b := v[index / 8] & Mask(index % 8) != 0;
      assert b == BitAt(v[..], index);
    }
  }
}
