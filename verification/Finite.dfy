/** Counting in finite sets of numbers. */
module Finite {
  import opened Common

  /** The numbers below `n`. */
  ghost function Below(n: nat): (r: set<nat>)
    ensures |r| == n
    ensures forall x: nat :: x in r <==> x < n
  {
    if n == 0 then {} else Below(n - 1) + {n - 1}
  }

  ghost function Elements(s: seq<nat>): (r: set<nat>)
    ensures forall x :: x in r <==> x in s
    ensures Distinct(s) ==> |r| == |s|
  {
    if s == [] then {}
    else
      assert s == [s[0]] + s[1..];
      assert Distinct(s) ==> s[0] !in s[1..];
      {s[0]} + Elements(s[1..])
  }

  lemma {:induction false} SubsetSize(a: set<nat>, b: set<nat>)
    requires a <= b
    ensures |a| <= |b|
    ensures |a| == |b| ==> a == b
    decreases a
  {
    if a != {} {
      var x :| x in a;
      SubsetSize(a - {x}, b - {x});
      assert a == a - {x} + {x} && b == b - {x} + {x};
    } else if |b| == 0 {
      assert b == {};
    }
  }

  /** Distinct numbers below `n`: fewer than `n` of them miss one, `n` of them miss none, and there
      are never more. */
  lemma Pigeonhole(s: seq<nat>, n: nat)
    requires Distinct(s) && forall k :: 0 <= k < |s| ==> s[k] < n
    ensures |s| <= n
    ensures |s| < n <==> exists i: nat :: i < n && i !in s
  {
    var mine := Elements(s);
    assert mine <= Below(n) by {
      forall x | x in mine
        ensures x in Below(n)
      {
        assert x in s;
      }
    }
    SubsetSize(mine, Below(n));
    if |s| < n {
      assert mine != Below(n);
      var i :| i in Below(n) && i !in mine;
      assert i < n && i !in s;
    }
  }
}
