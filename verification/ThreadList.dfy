/** The list of threads: nodes linked both ways between two bookends. A thread is modelled by the node
    embedded in it. */
module ThreadList {
  import opened Common

  /** `self` names the node's thread; a bookend has none. */
  class Node {
    const self: Option<nat>
    var next: Node?
    var prev: Node?

    /** `threadlistnode_init`. */
    constructor (t: Option<nat>)
      ensures self == t && next == null && prev == null
    {
      self := t;
      next, prev := null, null;
    }
  }

  /** A sequence with one element put in before position `k`. */
  function Insert<T>(s: seq<T>, k: nat, x: T): (r: seq<T>)
    requires k <= |s|
  {
    seq(|s| + 1, i requires 0 <= i < |s| + 1 => if i < k then s[i] else if i == k then x else s[i - 1])
  }

  function Reverse<T>(s: seq<T>): (r: seq<T>)
    ensures |r| == |s|
    ensures forall i :: 0 <= i < |s| ==> r[i] == s[|s| - 1 - i]
  {
    if s == [] then [] else [s[|s| - 1]] + Reverse(s[..|s| - 1])
  }

  /** Removal between the two ends of a chain. */
  lemma WithoutInside<T>(c: seq<T>, k: nat)
    requires k + 2 < |c|
    ensures Without(c, k + 1)[1..|c| - 2] == Without(c[1..|c| - 1], k)
  {
  }

  class List {
    const head: Node
    const tail: Node
    var count: nat

    /** The nodes from bookend to bookend. */
    ghost var chain: seq<Node>

    /** The links follow the chain in both directions. */
    ghost predicate Linked()
      reads this, chain
    {
      && |chain| >= 2 && chain[0] == head && chain[|chain| - 1] == tail
      && Distinct(chain)
      && head.prev == null && tail.next == null
      && (forall i {:trigger chain[i].next} :: 0 <= i < |chain| - 1 ==> chain[i].next == chain[i + 1])
      && (forall i {:trigger chain[i].prev} :: 0 < i < |chain| ==> chain[i].prev == chain[i - 1])
      && (forall i {:trigger chain[i].self} :: 0 <= i < |chain| ==> (chain[i].self.Some? <==> 0 < i < |chain| - 1))
    }

    ghost predicate Valid()
      reads this, chain
    {
      Linked() && count == |chain| - 2
    }

    /** The nodes on the list, in order. */
    ghost function Contents(): seq<Node>
      requires |chain| >= 2
      reads this
    {
      chain[1..|chain| - 1]
    }

    /** `threadlist_init`. */
    constructor ()
      ensures Valid() && Contents() == [] && fresh(chain)
    {
      var h := new Node(None);
      var t := new Node(None);
      head, tail, count := h, t, 0;
      chain := [h, t];
      new;
      h.next := t;
      t.prev := h;
    }

    /** `threadlist_isempty`. */
    method IsEmpty() returns (b: bool)
      requires Valid()
      ensures b <==> Contents() == []
    {
      b := count == 0;
    }

    /** `threadlist_insertafternode`, for the node at position `k` of the chain. */
    method InsertAfterNode(onlist: Node, addee: Node, ghost k: nat)
      requires Linked() && k < |chain| - 1 && chain[k] == onlist && addee !in chain
      requires addee.next == null && addee.prev == null && addee.self.Some?
      modifies `chain, chain, addee
      ensures Linked() && chain == Insert(old(chain), k + 1, addee)
    {
      assert chain[k + 1] == onlist.next;
      addee.prev := onlist;
      addee.next := onlist.next;
      addee.prev.next := addee;
      addee.next.prev := addee;
      chain := Insert(chain, k + 1, addee);
    }

    /** `threadlist_insertbeforenode`, for the node at position `k` of the chain. */
    method InsertBeforeNode(addee: Node, onlist: Node, ghost k: nat)
      requires Linked() && 0 < k < |chain| && chain[k] == onlist && addee !in chain
      requires addee.next == null && addee.prev == null && addee.self.Some?
      modifies `chain, chain, addee
      ensures Linked() && chain == Insert(old(chain), k, addee)
    {
      assert chain[k - 1] == onlist.prev;
      addee.prev := onlist.prev;
      addee.next := onlist;
      addee.prev.next := addee;
      addee.next.prev := addee;
      chain := Insert(chain, k, addee);
    }

    /** `threadlist_removenode`, for the node at position `k` of the chain. */
    method RemoveNode(tln: Node, ghost k: nat)
      requires Linked() && 0 < k < |chain| - 1 && chain[k] == tln
      modifies `chain, chain
      ensures Linked() && chain == Without(old(chain), k)
      ensures tln.next == null && tln.prev == null && tln !in chain
    {
      ghost var was := chain;
      Detach(tln, k);
      chain := Without(was, k);
      WithoutMembers(was, k);
      forall i | 0 <= i < |chain| - 1
        ensures chain[i].next == chain[i + 1]
      {
        assert chain[i] == was[if i < k then i else i + 1];
      }
      forall i | 0 < i < |chain|
        ensures chain[i].prev == chain[i - 1]
      {
        assert chain[i] == was[if i < k then i else i + 1];
      }
    }

    /** The four assignments of `threadlist_removenode`: the neighbours point past the node. */
    method Detach(tln: Node, ghost k: nat)
      requires Linked() && 0 < k < |chain| - 1 && chain[k] == tln
      modifies chain
      ensures tln.next == null && tln.prev == null && head.prev == null && tail.next == null
      ensures forall i {:trigger chain[i].next} :: 0 <= i < |chain| - 1 && i != k ==>
        chain[i].next == chain[if i == k - 1 then k + 1 else i + 1]
      ensures forall i {:trigger chain[i].prev} :: 0 < i < |chain| && i != k ==>
        chain[i].prev == chain[if i == k + 1 then k - 1 else i - 1]
    {
      assert tln.next == chain[k + 1] && tln.prev == chain[k - 1];
      tln.prev.next := tln.next;
      tln.next.prev := tln.prev;
      tln.prev := null;
      tln.next := null;
    }

    /** `threadlist_addhead`. */
    method AddHead(t: Node)
      requires Valid() && t !in chain && t.next == null && t.prev == null && t.self.Some?
      modifies this, chain, t
      ensures Valid() && Contents() == [t] + old(Contents())
      ensures chain == Insert(old(chain), 1, t)
    {
      InsertAfterNode(head, t, 0);
      count := count + 1;
      assert Contents() == [t] + old(Contents());
    }

    /** `threadlist_addtail`. */
    method AddTail(t: Node)
      requires Valid() && t !in chain && t.next == null && t.prev == null && t.self.Some?
      modifies this, chain, t
      ensures Valid() && Contents() == old(Contents()) + [t]
      ensures chain == Insert(old(chain), |old(chain)| - 1, t)
    {
      InsertBeforeNode(t, tail, |chain| - 1);
      count := count + 1;
    }

    /** `threadlist_remhead`. */
    method RemHead() returns (t: Node?)
      requires Valid()
      modifies this, chain
      ensures Valid()
      ensures t == null <==> old(Contents()) == []
      ensures t == null ==> chain == old(chain)
      ensures t != null ==>
        && old(Contents()) == [t] + Contents() && chain == Without(old(chain), 1)
        && t.next == null && t.prev == null && t !in chain
    {
      var tln := head.next;
      assert tln == chain[1];
      if tln.next == null {
        return null;
      }
      assert |chain| > 2;
      RemoveNode(tln, 1);
      count := count - 1;
      return tln;
    }

    /** `threadlist_remtail`. */
    method RemTail() returns (t: Node?)
      requires Valid()
      modifies this, chain
      ensures Valid()
      ensures t == null <==> old(Contents()) == []
      ensures t == null ==> chain == old(chain)
      ensures t != null ==>
        && old(Contents()) == Contents() + [t] && chain == Without(old(chain), |old(chain)| - 2)
        && t.next == null && t.prev == null && t !in chain
    {
      var tln := tail.prev;
      assert tln == chain[|chain| - 2];
      if tln.prev == null {
        return null;
      }
      assert |chain| > 2;
      RemoveNode(tln, |chain| - 2);
      count := count - 1;
      return tln;
    }

    /** `threadlist_insertafter`: puts `addee` right after the thread at position `k`. */
    method InsertAfter(onlist: Node, addee: Node, ghost k: nat)
      requires Valid() && k < |Contents()| && Contents()[k] == onlist
      requires addee !in chain && addee.next == null && addee.prev == null && addee.self.Some?
      modifies this, chain, addee
      ensures Valid() && Contents() == Insert(old(Contents()), k + 1, addee)
    {
      InsertAfterNode(onlist, addee, k + 1);
      count := count + 1;
    }

    /** `threadlist_insertbefore`: puts `addee` right before the thread at position `k`. */
    method InsertBefore(addee: Node, onlist: Node, ghost k: nat)
      requires Valid() && k < |Contents()| && Contents()[k] == onlist
      requires addee !in chain && addee.next == null && addee.prev == null && addee.self.Some?
      modifies this, chain, addee
      ensures Valid() && Contents() == Insert(old(Contents()), k, addee)
    {
      InsertBeforeNode(addee, onlist, k + 1);
      count := count + 1;
    }

    /** `threadlist_remove`. */
    method Remove(t: Node, ghost k: nat)
      requires Valid() && k < |Contents()| && Contents()[k] == t
      modifies this, chain
      ensures Valid() && Contents() == Without(old(Contents()), k)
      ensures t.next == null && t.prev == null && t !in chain
    {
      WithoutInside(chain, k);
      RemoveNode(t, k + 1);
      count := count - 1;
    }

    /** `THREADLIST_FORALL`: the threads in the order visited. */
    method Forward() returns (s: seq<Node>)
      requires Valid()
      ensures s == Contents() && |s| == count
    {
      s := [];
      var cur := head.next;
      assert cur == chain[1];
      while cur.self.Some?
        invariant |s| < |chain| - 1 && cur == chain[|s| + 1] && s == chain[1..|s| + 1]
        decreases |chain| - |s|
      {
        assert |s| + 1 < |chain| - 1;
        s := s + [cur];
        cur := cur.next;
      }
    }

    /** `THREADLIST_FORALL_REV`: the forward order reversed. */
    method Backward() returns (s: seq<Node>)
      requires Valid()
      ensures s == Reverse(Contents()) && |s| == count
    {
      s := [];
      var cur := tail.prev;
      assert cur == chain[|chain| - 2];
      while cur.self.Some?
        invariant |s| < |chain| - 1 && cur == chain[|chain| - 2 - |s|]
        invariant forall i :: 0 <= i < |s| ==> s[i] == chain[|chain| - 2 - i]
        decreases |chain| - |s|
      {
        assert |chain| - 2 - |s| > 0;
        s := s + [cur];
        cur := cur.prev;
      }
    }
  }
}
