/** How many processes there are, and what num_process_executing makes of it. */
module ProcessCounts {
  import opened Machine
  import opened Processes

  // ----- used slots -----

  ghost function SlotsOf(c: seq<Frame>): set<nat> {
    set i | 0 <= i < |c| :: c[i].slot
  }

  lemma {:induction false} SlotsOfSize(c: seq<Frame>)
    requires forall i, j :: 0 <= i < j < |c| ==> c[i].slot != c[j].slot
    ensures |SlotsOf(c)| == |c|
  {
    if c != [] {
      var n := |c| - 1;
      SlotsOfSize(c[..n]);
      assert c[n].slot !in SlotsOf(c[..n]);
      assert SlotsOf(c) == SlotsOf(c[..n]) + {c[n].slot} by {
        assert forall i :: 0 <= i < n ==> c[..n][i] == c[i];
      }
    }
  }

  lemma TotalNext(stacks: seq<seq<Frame>>)
    requires stacks != []
    ensures Total(stacks) == Total(stacks[..|stacks| - 1]) + |stacks[|stacks| - 1]| && Total([]) == 0
  {
  }

  lemma TotalOfThree(stacks: seq<seq<Frame>>)
    requires |stacks| == TERMINALS
    ensures Total(stacks) == |stacks[0]| + |stacks[1]| + |stacks[2]|
  {
    var two, one := stacks[..2], stacks[..1];
    TotalNext(stacks);
    TotalNext(two);
    TotalNext(one);
    assert two[..1] == one && one[..0] == [];
  }

  /** The used slots are as many as the three per-terminal counters say. */
  lemma UsedIsTotal(s: State) returns (used: set<nat>)
    requires Inv(s)
    ensures |used| == Total(s.stacks) <= SLOTS
    ensures forall p: nat :: p in used <==> InUse(s.stacks, p)
  {
    StackSlots(s, 0);
    StackSlots(s, 1);
    StackSlots(s, 2);
    StacksApartInUse(s, 0, 1);
    StacksApartInUse(s, 0, 2);
    StacksApartInUse(s, 1, 2);
    TotalOfThree(s.stacks);
    var a, b, c := SlotsOf(s.stacks[0]), SlotsOf(s.stacks[1]), SlotsOf(s.stacks[2]);
    used := a + b + c;
    assert |a + b| == |a| + |b| && |used| == |a + b| + |c|;
    forall p: nat
      ensures p in used <==> InUse(s.stacks, p)
    {
      InUseOnSome(s, p);
    }
    SubsetSize(used, AllSlots());
  }

  lemma StackSlots(s: State, t: nat)
    requires Inv(s) && t < TERMINALS
    ensures |SlotsOf(s.stacks[t])| == |s.stacks[t]| && SlotsOf(s.stacks[t]) <= AllSlots()
  {
    SlotsOfSize(s.stacks[t]);
  }

  lemma StacksApartInUse(s: State, t: nat, u: nat)
    requires Inv(s) && t < u < TERMINALS
    ensures SlotsOf(s.stacks[t]) !! SlotsOf(s.stacks[u])
  {
  }

  lemma InUseOnSome(s: State, p: nat)
    requires |s.stacks| == TERMINALS
    ensures InUse(s.stacks, p) <==> p in SlotsOf(s.stacks[0]) || p in SlotsOf(s.stacks[1]) || p in SlotsOf(s.stacks[2])
  {
    if InUse(s.stacks, p) {
      var t, i :| 0 <= t < |s.stacks| && 0 <= i < |s.stacks[t]| && s.stacks[t][i].slot == p;
      assert p in SlotsOf(s.stacks[t]);
    }
  }

  ghost function AllSlots(): (r: set<nat>)
    ensures |r| == SLOTS && forall p: nat :: p in r <==> p < SLOTS
  {
    {0, 1, 2, 3, 4, 5}
  }

  lemma {:induction false} SubsetSize(a: set<nat>, b: set<nat>)
    requires a <= b
    ensures |a| <= |b| && (|a| == |b| ==> a == b)
    decreases |b|
  {
    if a != {} {
      var x :| x in a;
      SubsetSize(a - {x}, b - {x});
      assert a == (a - {x}) + {x} && b == (b - {x}) + {x};
    }
  }

  /** The slot search fails exactly when six processes are alive. */
  lemma FreeSlotExists(s: State)
    requires Inv(s)
    ensures LowestFree(s.stacks, 0) == SLOTS <==> Total(s.stacks) == SLOTS
    ensures Total(s.stacks) <= SLOTS
  {
    var used := UsedIsTotal(s);
    var q := LowestFree(s.stacks, 0);
    if q == SLOTS {
      assert AllSlots() <= used;
      SubsetSize(AllSlots(), used);
    } else {
      assert q in AllSlots() && q !in used;
      SubsetSize(used, AllSlots());
    }
  }

  // ----- the limit test -----

  /** The limit test stands for the slot search, so that no execute reaches the search without a free
      slot, exactly when the failed checks are none, modulo 2^32. */
  lemma LimitTestExact(s: State, program: Program)
    requires Inv(s) && Counted(s)
    ensures Execute(s, program).0 == NoSlot <==>
            Total(s.stacks) == SLOTS && program == Executable && s.failed % WORD != 0
    ensures s.failed == 0 ==> (Execute(s, program).0 == LimitReached <==> Total(s.stacks) == SLOTS)
  {
    FreeSlotExists(s);
    if Total(s.stacks) == SLOTS {
      CounterOfFull(s.failed);
    }
  }

  lemma CounterOfFull(failed: nat)
    ensures (SLOTS - failed) % WORD == SLOTS <==> failed % WORD == 0
  {
  }

  /** A halting root is replaced by a new shell exactly when shell is an executable and the counter,
      one lower, does not stand at the limit; with no failed checks an executable shell is enough. */
  lemma RootRelaunch(s: State, shell: Program)
    requires Inv(s) && Counted(s) && Running(s) && |s.stacks[s.executing]| == 1
    ensures Halt(s, shell).0 == Relaunched <==> shell == Executable && s.counter != SLOTS + 1
    ensures s.failed == 0 ==> s.counter <= SLOTS
  {
    PopKeeps(s);
    PopTotal(s);
    FreeSlotExists(Popped(s));
    FreeSlotExists(s);
  }

  lemma PopTotal(s: State)
    requires |s.stacks| == TERMINALS && s.executing < TERMINALS && s.stacks[s.executing] != []
    ensures Total(Popped(s).stacks) == Total(s.stacks) - 1
  {
    TotalOfThree(s.stacks);
    TotalOfThree(Popped(s).stacks);
  }

  lemma LaunchTotal(s: State)
    requires |s.stacks| == TERMINALS && s.executing < TERMINALS
    ensures Total(Launch(s).stacks) == Total(s.stacks) + 1
  {
    TotalOfThree(s.stacks);
    TotalOfThree(Launch(s).stacks);
  }

  lemma UpWraps(c: int)
    ensures Up(c % WORD) == (c + 1) % WORD && Down(c % WORD) == (c - 1) % WORD
  {
  }

  lemma ExecuteCounts(s: State, program: Program)
    requires |s.stacks| == TERMINALS && s.executing < TERMINALS && Counted(s)
    ensures Counted(Execute(s, program).1)
  {
    LaunchTotal(s);
    UpWraps(Total(s.stacks) - s.failed);
  }

  lemma PopCounts(s: State)
    requires |s.stacks| == TERMINALS && s.executing < TERMINALS && s.stacks[s.executing] != [] && Counted(s)
    ensures Counted(Popped(s))
  {
    PopTotal(s);
    UpWraps(Total(s.stacks) - s.failed);
  }

  // ----- shells that a terminal gets -----

  /** The first switch to a terminal fails for good when the limit is reached or shell is no executable. */
  ghost predicate ShellRefused(s: State, n: nat, shell: Program)
    requires |s.stacks| == TERMINALS && n < TERMINALS
  {
    s.stacks[0] != [] && n != s.executing && s.stacks[n] == [] && (s.counter == SLOTS || shell != Executable)
  }

  /** It gets past the limit test without a free slot when six processes are alive and the counter hides it. */
  ghost predicate ShellUnslotted(s: State, n: nat, shell: Program)
    requires |s.stacks| == TERMINALS && n < TERMINALS
  {
    && s.stacks[0] != [] && n != s.executing && s.stacks[n] == []
    && Total(s.stacks) == SLOTS && s.counter != SLOTS && shell == Executable
  }

  lemma SwitchOutcomes(s: State, n: nat, shell: Program)
    requires Inv(s) && n < TERMINALS
    ensures Switch(s, n, shell).0 == ShellFailed <==> ShellRefused(s, n, shell)
    ensures Switch(s, n, shell).0 == Unslotted <==> ShellUnslotted(s, n, shell)
  {
    FreeSlotExists(s);
  }
}
