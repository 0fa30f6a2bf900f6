/** An exit that frees a victim with a stale back link, on the machine with two usable frames: the FIFO list
    is lost, and a later replacement fails although memory is full of user pages and the swap file is not. */
module VmBroken {
  import opened Common
  import opened Coremap
  import opened CoremapBlocks
  import opened CoremapQueue
  import opened PageTable
  import opened Segment
  import opened AddrSpace
  import opened T = Tlb
  import opened Vm
  import opened VmOwn
  import opened VmView
  import opened VmFault
  import opened VmCoherence
  import opened VmDestroy
  import opened VmSteps
  import opened VmAccess
  import opened VmRun
  import opened VmAccounts
  import opened VmTotal
  import opened VmQueue
  import opened VmBytes
  import opened VmStored
  import opened VmExamples

  function FreedEntry(): Entry {
    Entry(Freed, 0, 3, 3, 0, None)
  }

  /** Both frames freed, the links of a list left behind. */
  function Gone(): Cm {
    Cm([IdleEntry(), FreedEntry(), FreedEntry()], 1, 2, 3)
  }

  /** One frame taken again, then the other. */
  function OneBack(): Cm {
    Cm([IdleEntry(), Entry(BusyUser, 1, 1, 3, 0, Some(7)), FreedEntry()], 1, 2, 3)
  }

  function BothBack(): Cm {
    Cm([IdleEntry(), Entry(BusyUser, 1, 1, 2, 0, Some(7)), Entry(BusyUser, 1, 1, 3, 4096, Some(7))], 2, 2, 3)
  }

  lemma LastFreed()
    ensures FreeUser(TinyFreed(), 1) == Ok(Gone())
  {
    assert FreeUser(TinyFreed(), 1).value.entries == Gone().entries;
  }

  lemma NoListLeft()
    ensures !HasQueue(Gone())
  {
    forall q
      ensures !Queue(Gone(), q)
    {
      assert q != [] && q[0] == 2 ==> 2 in q;
    }
  }

  // ------------------------------------------------------------------------- the exit

  /** Clearing words that are not resident leaves the coremap as it is. */
  lemma {:induction false} ClearNone(s: State, spaces: Spaces, a: SpaceId, sel: Sel, words: seq<Word>, i: nat)
    requires a in spaces && i <= |words| && ClearInv(s, ClearedTo(spaces, a, sel, words, i))
    requires forall j :: i <= j < |words| ==> !IsResident(words[j])
    ensures ClearFrom(s, words, i).Ok? && ClearFrom(s, words, i).value.cm == s.cm
    decreases |words| - i
  {
    if i < |words| {
      ClearOneMore(spaces, a, sel, words, i);
      var cleared := ClearedTo(spaces, a, sel, words, i);
      ClearOne(s, cleared, Pg(a, sel, i));
      ClearWordKeeps(s, cleared, Pg(a, sel, i));
      ClearNone(ClearWord(s, words[i]).value, spaces, a, sel, words, i + 1);
    }
  }

  /** With no user frame left no word is resident. */
  lemma NoneResident(s: State, spaces: Spaces, p: Pg)
    requires ClearInv(s, spaces) && s.cm == Gone() && IsPage(spaces, p)
    ensures !IsResident(WordOf(spaces, p))
  {
    assert Backed(spaces, s.cm.entries, s.slots, p);
  }

  lemma ClearRest(s: State, spaces: Spaces, a: SpaceId, sel: Sel)
    requires a in spaces && ClearInv(s, spaces) && s.cm == Gone()
    ensures
      var words := spaces[a].At(sel).table;
      && ClearFrom(s, words, 0).Ok? && ClearFrom(s, words, 0).value.cm == Gone()
      && ClearInv(ClearFrom(s, words, 0).value, ClearedTo(spaces, a, sel, words, |words|))
  {
    var words := spaces[a].At(sel).table;
    forall j | 0 <= j < |words|
      ensures !IsResident(words[j])
    {
      NoneResident(s, spaces, Pg(a, sel, j));
    }
    NothingCleared(spaces, a, sel);
    ClearNone(s, spaces, a, sel, words, 0);
    ClearTableKeeps(s, spaces, a, sel);
  }

  lemma ClearFrame(s: State, w: Word, f: nat, cm: Cm)
    requires IsResident(w) && w / PAGE_SIZE == f && FreeUser(s.cm, f) == Ok(cm)
    ensures ClearWord(s, w) == Ok(s.(cm := cm))
  {
  }

  lemma ClearNext(s: State, words: seq<Word>, i: nat, s1: State)
    requires i < |words| && ClearWord(s, words[i]) == Ok(s1)
    ensures ClearFrom(s, words, i) == ClearFrom(s1, words, i + 1)
    ensures i + 1 == |words| ==> ClearFrom(s, words, i) == Ok(s1)
  {
  }

  lemma ClearThree(s: State, words: seq<Word>, s1: State)
    requires |words| == 3 && ClearWord(s, words[0]) == Ok(s1) && s1.cm == TinyReplaced()
    requires words[1] == FrameWord(2) && words[2] == FrameWord(1)
    ensures ClearFrom(s, words, 0) == Ok(s1.(cm := Gone()))
  {
    TinyFrees();
    LastFreed();
    var s2 := s1.(cm := TinyFreed());
    TagsAreExact(1, 0);
    TagsAreExact(2, 0);
    ClearFrame(s1, words[1], 2, TinyFreed());
    ClearFrame(s2, words[2], 1, Gone());
    ClearNext(s, words, 0, s1);
    ClearNext(s1, words, 1, s2);
    ClearNext(s2, words, 2, s2.(cm := Gone()));
  }

  /** The code pages are cleared: the victim's frame, then the other. */
  lemma ClearCode(s: State)
    requires Replaced(s)
    ensures
      var words := s.spaces[7].code.table;
      ClearFrom(s, words, 0).Ok? && ClearFrom(s, words, 0).value.cm == Gone()
  {
    FaultsOn(s, [], 0);
    var words := s.spaces[7].code.table;
    var p := CodePage(0);
    assert WordOf(s.spaces, CodePage(1)) == words[1] && WordOf(s.spaces, CodePage(2)) == words[2];
    ClearOne(s, s.spaces, p);
    ClearThree(s, words, ClearWord(s, words[0]).value);
  }

  lemma DestroyGone(s: State)
    requires Replaced(s)
    ensures Destroy(s, 7).Ok? && Destroy(s, 7).value.cm == Gone()
  {
    var sp := s.spaces[7];
    var spaces1 := ClearedTo(s.spaces, 7, Code, sp.code.table, |sp.code.table|);
    var spaces2 := ClearedTo(spaces1, 7, Data, sp.data.table, |sp.data.table|);
    assert spaces1[7].At(Data) == sp.data && spaces2[7].At(Stack) == sp.stack;
    ClearCode(s);
    ClearTableKeeps(s, s.spaces, 7, Code);
    var s1 := ClearFrom(s, sp.code.table, 0).value;
    ClearRest(s1, spaces1, 7, Data);
    var s2 := ClearFrom(s1, sp.data.table, 0).value;
    ClearRest(s2, spaces2, 7, Stack);
    DestroyFrom(s, s1, s2, ClearFrom(s2, sp.stack.table, 0).value, 7);
  }

  lemma ExitGone(s: State) returns (s': State)
    requires Replaced(s)
    ensures Vm.Step(s, Exit(7)) == Ok((s', Success)) && s'.cm == Gone() && s'.spaces == map[] && Sound(s')
  {
    DestroyGone(s);
    s' := Destroy(s, 7).value;
    DestroyKeeps(s, 7);
    assert s'.spaces == map[];
  }

  // ------------------------------------------------------------------- the next program

  lemma FreedFirst(cm: Cm, f: nat)
    requires f < |cm.entries| && cm.entries[f].kind.Freed?
    requires forall i :: 0 <= i < f ==> !cm.entries[i].kind.Freed?
    ensures FirstFit(cm.entries, 1) == Some(f)
  {
    assert FreeRun(cm.entries, f, 1);
    assert forall k :: 0 <= k < f ==> !FreeRun(cm.entries, k, 1) by {
      forall k | 0 <= k < f
        ensures !FreeRun(cm.entries, k, 1)
      {
        assert !cm.entries[k].kind.Freed?;
      }
    }
  }

  lemma FirstAgain(s: State, slept: bool)
    requires s.cm == Gone()
    ensures !NeedsVictim(s.cm, 7, 0) && AllocUserPage(s, 7, 0, slept) == Ok((s.(cm := OneBack()), 1))
  {
    FreedFirst(Gone(), 1);
    var (cm1, f) := TakeUserFrame(Gone(), 7, 0);
    assert Enqueue(cm1, 1, 7, 0).value.entries == OneBack().entries;
  }

  lemma SecondAgain(s: State, slept: bool)
    requires s.cm == OneBack()
    ensures !NeedsVictim(s.cm, 7, 4096) && AllocUserPage(s, 7, 4096, slept) == Ok((s.(cm := BothBack()), 2))
  {
    FreedFirst(OneBack(), 2);
    var (cm1, f) := TakeUserFrame(OneBack(), 7, 4096);
    assert Enqueue(cm1, 2, 7, 4096).value.entries == BothBack().entries;
  }

  lemma NoVictim()
    ensures NeedsVictim(BothBack(), 7, 8192) && !CanRotate(BothBack())
  {
    NothingFreed(BothBack());
  }

  /** The program is current again, none of its pages touched. */
  lemma CurrentAgain(s: State)
    requires Sound(s) && s.spaces == map[] && s.cm == Gone()
    ensures Current(Started(s, []), []) && Started(s, []).cm == Gone() && !SwapFull(Started(s, []).slots)
    ensures forall i: nat :: i < 3 ==> Holds(Started(s, []).spaces, CodePage(i), PT_EMPTY)
  {
    Begins(s, []);
    Switches(s, []);
    SoundStep(s, Create(7, CodeRegion([]), NoData()));
    SoundStep(Loaded(s, []), Activate(7));
    SlotOwnership(s.spaces, s.cm.entries, s.slots, 0);
    assert 0 !in s.slots;
  }

  /** A touch that keeps the program current. */
  lemma TouchAgain(s: State, i: nat, env: Env, g: nat, cm': Cm) returns (s': State)
    requires Current(s, []) && i < 3 && env == Env(false, false, Complete) && Holds(s.spaces, CodePage(i), PT_EMPTY)
    requires AllocUserPage(s, 7, i * PAGE_SIZE, false) == Ok((s.(cm := cm'), g)) && g != 0
    requires !NeedsVictim(s.cm, 7, i * PAGE_SIZE) && LastOk(cm')
    ensures Fault(s, ReadFault, i * PAGE_SIZE, env) == Ok((s', Success))
    ensures Current(s', []) && s'.cm == cm' && s'.slots == s.slots
    ensures forall j: nat :: j < 3 && j != i && Holds(s.spaces, CodePage(j), PT_EMPTY) ==>
      Holds(s'.spaces, CodePage(j), PT_EMPTY)
  {
    EmptyLoads(i);
    Touch(s, [], i, env, g, cm');
    s' := Fault(s, ReadFault, i * PAGE_SIZE, env).value.0;
    FaultStep(s, ReadFault, i * PAGE_SIZE, env);
    SetWordLayout(s.spaces, CodePage(i), FrameWord(g));
    LayoutTrans(map[7 := Program([])], s.spaces, s'.spaces);
    forall j: nat | j < 3 && j != i && Holds(s.spaces, CodePage(j), PT_EMPTY)
      ensures Holds(s'.spaces, CodePage(j), PT_EMPTY)
    {
      SetWordAt(s.spaces, CodePage(i), FrameWord(g), CodePage(j));
    }
  }

  /** Two pages touched. */
  lemma TwoAgain(s8: State, env: Env) returns (s9: State, s10: State)
    requires Current(s8, []) && s8.cm == Gone() && env == Env(false, false, Complete)
    requires forall i: nat :: i < 3 ==> Holds(s8.spaces, CodePage(i), PT_EMPTY)
    ensures Fault(s8, ReadFault, 0, env) == Ok((s9, Success)) && Fault(s9, ReadFault, 4096, env) == Ok((s10, Success))
    ensures Current(s10, []) && s10.cm == BothBack() && s10.slots == s8.slots
    ensures Holds(s10.spaces, CodePage(2), PT_EMPTY)
  {
    FirstAgain(s8, false);
    s9 := TouchAgain(s8, 0, env, 1, OneBack());
    SecondAgain(s9, false);
    s10 := TouchAgain(s9, 1, env, 2, BothBack());
  }

  /** A third page cannot be brought in. */
  lemma ThirdPanics(s: State)
    requires Current(s, []) && s.cm == BothBack() && Holds(s.spaces, CodePage(2), PT_EMPTY)
    ensures UserFrame(s.cm.entries, 1) && UserFrame(s.cm.entries, 2)
    ensures forall env :: Fault(s, ReadFault, 8192, env).Panic?
  {
    FaultsOn(s, [], 2);
    NoVictim();
    forall env
      ensures Fault(s, ReadFault, 8192, env).Panic?
    {
      FaultPanicsIff(s, ReadFault, 8192, env);
    }
  }

  // -------------------------------------------------------------------------- the run

  /** A page has been replaced and its program exits: no list is left. */
  lemma ListLost(m: State) returns (states: seq<State>, events: seq<Event>, codes: seq<Code>)
    requires Tiny(m)
    ensures IsKernelRun(states, events, codes) && |events| == 6 && events[5] == Exit(7)
    ensures HasQueue(states[5].cm) && ExitBreaks(states[5].cm, 7) && !HasQueue(states[6].cm)
    ensures Sound(states[6]) && states[6].spaces == map[] && states[6].cm == Gone()
  {
    states, events, codes := StaleEntryRun(m);
    var s6 := ExitGone(states[5]);
    states, events, codes := GoOn(states, events, codes, Exit(7), s6, Success);
    FreeingVictimAfterEviction();
    NoListLeft();
  }

  /** The program is started again. */
  lemma StartedAgain(m: State) returns (states: seq<State>, events: seq<Event>, codes: seq<Code>)
    requires Tiny(m)
    ensures IsKernelRun(states, events, codes) && |events| == 8 && events[5] == Exit(7)
    ensures HasQueue(states[5].cm) && !HasQueue(states[6].cm)
    ensures Current(states[8], []) && states[8].cm == Gone() && !SwapFull(states[8].slots)
    ensures forall i: nat :: i < 3 ==> Holds(states[8].spaces, CodePage(i), PT_EMPTY)
  {
    states, events, codes := ListLost(m);
    var s6 := states[6];
    CurrentAgain(s6);
    Begins(s6, []);
    Switches(s6, []);
    states, events, codes := GoOn(states, events, codes, Create(7, CodeRegion([]), NoData()), Loaded(s6, []), Success);
    states, events, codes := GoOn(states, events, codes, Activate(7), Started(s6, []), Success);
  }

  lemma TwoMore(states8: seq<State>, events8: seq<Event>, codes8: seq<Code>, e: Event, s9: State, e': Event, s10: State)
    returns (states: seq<State>, events: seq<Event>, codes: seq<Code>)
    requires IsKernelRun(states8, events8, codes8) && e.TakeFault? && e'.TakeFault?
    requires Vm.Step(states8[|events8|], e) == Ok((s9, Success)) && Vm.Step(s9, e') == Ok((s10, Success))
    ensures IsKernelRun(states, events, codes)
    ensures |events| == |events8| + 2 && states[|events|] == s10
    ensures forall i :: 0 <= i <= |events8| ==> states[i] == states8[i]
    ensures forall i :: 0 <= i < |events8| ==> events[i] == events8[i]
  {
    states, events, codes := GoOn(states8, events8, codes8, e, s9, Success);
    states, events, codes := GoOn(states, events, codes, e', s10, Success);
  }

  /** Two pages are touched and fill memory. The next page to be brought in ends in a panic, although two
      frames are in use and the swap file has room. */
  lemma ExitBreaksReplacement(m: State) returns (states: seq<State>, events: seq<Event>, codes: seq<Code>)
    requires Tiny(m)
    ensures IsKernelRun(states, events, codes) && |events| == 10 && events[5] == Exit(7)
    ensures HasQueue(states[5].cm) && !HasQueue(states[6].cm)
    ensures
      var s := states[10];
      && UserFrame(s.cm.entries, 1) && UserFrame(s.cm.entries, 2) && !SwapFull(s.slots)
      && forall env :: Fault(s, ReadFault, 8192, env).Panic?
  {
    var env := Env(false, false, Complete);
    states, events, codes := StartedAgain(m);
    var s9, s10 := TwoAgain(states[8], env);
    states, events, codes := TwoMore(states, events, codes, TakeFault(ReadFault, 0, env), s9,
                                     TakeFault(ReadFault, 4096, env), s10);
    ThirdPanics(s10);
  }
}
