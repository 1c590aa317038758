/** Three call stacks of processes in six shared slots: the abstract state of the kernel. */
module Processes {
  import opened Machine

  const SLOTS := 6
  const EIGHT_MB := 0x80_0000
  const FOUR_MB := 0x40_0000
  const EIGHT_KB := 0x2000

  // ----- addresses -----

  /** The PCB of slot p lies at the bottom of the slot's 8KB kernel stack. */
  function PcbAddress(p: nat): int {
    EIGHT_MB - (p + 1) * EIGHT_KB
  }

  /** The top of the kernel stack of slot p. */
  function StackTop(p: nat): int {
    EIGHT_MB - EIGHT_KB * p
  }

  /** What tss.esp0 may hold for slot p: the top of its stack, or 4 below after a context switch. */
  predicate InStack(esp0: int, p: nat) {
    esp0 == StackTop(p) || esp0 == StackTop(p) - 4
  }

  function ProgramFrame(p: nat): int {
    EIGHT_MB + FOUR_MB * p
  }

  /** The 8KB regions of two slots do not overlap, so esp0 tells whose stack it is; together they are the top
      48KB of the kernel's 4MB page. */
  lemma StacksApart(p: nat, q: nat, esp0: int)
    requires p < SLOTS && q < SLOTS && InStack(esp0, p)
    ensures PcbAddress(p) < esp0 <= StackTop(p) && 0x7F_4000 <= PcbAddress(p) && StackTop(p) <= 0x80_0000
    ensures p != q ==> StackTop(p) <= PcbAddress(q) || StackTop(q) <= PcbAddress(p)
    ensures InStack(esp0, q) <==> p == q
    ensures PcbAddress(p) == PcbAddress(q) <==> p == q
  {
  }

  /** The 4MB program frames of two slots do not overlap, so page-directory entry 32 tells whose program is mapped;
      the six of them lie behind the kernel's page and below 32MB. */
  lemma FramesApart(p: nat, q: nat)
    ensures EIGHT_MB <= ProgramFrame(p) && (ProgramFrame(p) == ProgramFrame(q) <==> p == q)
    ensures p < q ==> ProgramFrame(p) + FOUR_MB <= ProgramFrame(q)
    ensures p < 6 ==> 0x80_0000 <= ProgramFrame(p) && ProgramFrame(p) + 0x40_0000 <= 0x200_0000
  {
  }

  // ----- the state -----

  /** A process on a terminal's stack: its slot, and tss.esp0 when it was executed. */
  datatype Frame = Frame(slot: nat, savedEsp0: int)

  /** counter is num_process_executing; failed counts the executable checks that failed. */
  datatype State = State(stacks: seq<seq<Frame>>, executing: nat, esp0: int, counter: nat, failed: nat)

  /** What executing a command finds: no such file, a file that is no executable, or a program. */
  datatype Program = Missing | NotExecutable | Executable

  datatype Outcome = LimitReached | NullCommand | NotFound | BadMagic | NoSlot | Launched

  ghost predicate InUse(stacks: seq<seq<Frame>>, p: nat) {
    exists t, i :: 0 <= t < |stacks| && 0 <= i < |stacks[t]| && stacks[t][i].slot == p
  }

  ghost predicate Disjoint(stacks: seq<seq<Frame>>) {
    forall t, i, u, j ::
      (0 <= t < |stacks| && 0 <= i < |stacks[t]| && 0 <= u < |stacks| && 0 <= j < |stacks[u]|) ==>
        (stacks[t][i].slot == stacks[u][j].slot ==> t == u && i == j)
  }

  function Total(stacks: seq<seq<Frame>>): nat {
    if stacks == [] then 0 else Total(stacks[..|stacks| - 1]) + |stacks[|stacks| - 1]|
  }

  /** Chains are disjoint and repeat no slot; every child saved an esp0 in its parent's stack. */
  ghost predicate Chains(stacks: seq<seq<Frame>>) {
    && |stacks| == TERMINALS
    && (forall t, i :: 0 <= t < TERMINALS && 0 <= i < |stacks[t]| ==> stacks[t][i].slot < SLOTS)
    && Disjoint(stacks)
    && (forall t, i :: 0 <= t < TERMINALS && 0 < i < |stacks[t]| ==> InStack(stacks[t][i].savedEsp0,
        stacks[t][i - 1].slot))
  }

  ghost predicate Inv(s: State) {
    Chains(s.stacks) && s.executing < TERMINALS
  }

  /** num_process_executing falls behind the used slots by the failed checks (syscall.c:177), in 32 bits. */
  ghost predicate Counted(s: State) {
    s.counter == (Total(s.stacks) - s.failed) % WORD
  }

  ghost predicate Running(s: State) {
    && |s.stacks| == TERMINALS && s.executing < TERMINALS && s.stacks[s.executing] != []
    && InStack(s.esp0, Active(s))
  }

  /** The slot of the running process. */
  function Active(s: State): nat
    requires s.executing < |s.stacks| && s.stacks[s.executing] != []
  {
    var c := s.stacks[s.executing];
    c[|c| - 1].slot
  }

  /** The first slot from p on that no process has, or SLOTS. */
  ghost function LowestFree(stacks: seq<seq<Frame>>, p: nat): (q: nat)
    requires p <= SLOTS
    ensures p <= q <= SLOTS && (q < SLOTS ==> !InUse(stacks, q)) && forall k :: p <= k < q ==> InUse(stacks, k)
    decreases SLOTS - p
  {
    if p == SLOTS || !InUse(stacks, p) then p else LowestFree(stacks, p + 1)
  }

  // ----- the operations -----

  /** The 32-bit counter, one up and one down. */
  function Up(c: nat): nat {
    if c + 1 == WORD then 0 else c + 1
  }

  function Down(c: nat): nat {
    if c == 0 then WORD - 1 else c - 1
  }

  ghost function Launch(s: State): State
    requires s.executing < |s.stacks|
  {
    var p := LowestFree(s.stacks, 0);
    State(s.stacks[s.executing := s.stacks[s.executing] + [Frame(p, s.esp0)]],
          s.executing, StackTop(p), Up(s.counter), s.failed)
  }

  /** The state executable_check leaves. */
  function Checked(s: State, program: Program): State {
    if program == NotExecutable then s.(counter := Down(s.counter), failed := s.failed + 1) else s
  }

  /** sys_execute of a non-null command. NoSlot is the point past which the C code is undefined. */
  ghost function Execute(s: State, program: Program): (r: (Outcome, State))
    requires s.executing < |s.stacks|
  {
    if s.counter == SLOTS then (LimitReached, s)
    else if program == Missing then (NotFound, s)
    else if program == NotExecutable then (BadMagic, Checked(s, program))
    else if LowestFree(s.stacks, 0) == SLOTS then (NoSlot, s)
    else (Launched, Launch(s))
  }

  ghost function Popped(s: State): State
    requires s.executing < |s.stacks| && s.stacks[s.executing] != []
  {
    var c := s.stacks[s.executing];
    s.(stacks := s.stacks[s.executing := c[..|c| - 1]], counter := Down(s.counter))
  }

  datatype HaltOutcome = Returned | Relaunched | NullParent

  /** sys_halt of the running process; a root process is replaced by a new shell. */
  ghost function Halt(s: State, shell: Program): (HaltOutcome, State)
    requires s.executing < |s.stacks| && s.stacks[s.executing] != []
  {
    var c := s.stacks[s.executing];
    if |c| > 1 then (Returned, Popped(s).(esp0 := c[|c| - 1].savedEsp0))
    else
      var r := Execute(Popped(s), shell);
      (if r.0 == Launched then Relaunched else NullParent, r.1)
  }

  datatype SwitchOutcome = Idle | Switched | ShellStarted | ShellFailed | Unslotted

  /** The first switch to terminal n executes shell there. Unslotted is that execute past its defined behaviour. */
  ghost function Started(s: State, n: nat, shell: Program): (SwitchOutcome, State)
    requires n < |s.stacks|
  {
    var r := Execute(s.(executing := n), shell);
    if r.0 == Launched then (ShellStarted, r.1)
    else if r.0 == NoSlot then (Unslotted, s)
    else (ShellFailed, r.1.(executing := s.executing))
  }

  /** context_switch to terminal n. */
  ghost function Switch(s: State, n: nat, shell: Program): (SwitchOutcome, State)
    requires |s.stacks| == TERMINALS && s.executing < TERMINALS && n < TERMINALS
  {
    if s.stacks[0] == [] || n == s.executing then (Idle, s)
    else if s.stacks[n] == [] then Started(s, n, shell)
    else
      var c := s.stacks[n];
      (Switched, s.(executing := n, esp0 := StackTop(c[|c| - 1].slot) - 4))
  }

  // ----- every step keeps the chains and the running process -----

  lemma LaunchKeeps(s: State)
    requires Inv(s) && (s.stacks[s.executing] == [] || Running(s)) && LowestFree(s.stacks, 0) < SLOTS
    ensures Inv(Launch(s)) && Running(Launch(s)) && Active(Launch(s)) == LowestFree(s.stacks, 0)
  {
    var s', p, e := Launch(s), LowestFree(s.stacks, 0), s.executing;
    forall t, i | 0 <= t < TERMINALS && 0 <= i < |s'.stacks[t]|
      ensures s'.stacks[t][i].slot < SLOTS && (s'.stacks[t][i].slot == p ==> t == e && i == |s.stacks[e]|)
    {
      assert t != e || i < |s.stacks[e]| ==> s'.stacks[t][i] == s.stacks[t][i];
    }
  }

  lemma PopKeeps(s: State)
    requires Inv(s) && s.stacks[s.executing] != []
    ensures Inv(Popped(s))
  {
    var s' := Popped(s);
    assert forall t, i :: 0 <= t < TERMINALS && 0 <= i < |s'.stacks[t]| ==> s'.stacks[t][i] == s.stacks[t][i];
  }

  lemma SameChains(s: State, s': State)
    requires s'.stacks == s.stacks && s'.esp0 == s.esp0 && s'.executing == s.executing
    ensures (Inv(s) ==> Inv(s')) && (Running(s) ==> Running(s'))
  {
  }

  lemma ExecuteKeeps(s: State, program: Program)
    requires Inv(s) && (s.stacks[s.executing] == [] || Running(s))
    ensures var s' := Execute(s, program).1;
            && Inv(s') && (Execute(s, program).0 == Launched || Running(s) ==> Running(s'))
            && s'.executing == s.executing
            && (Execute(s, program).0 != Launched ==> s'.stacks == s.stacks && s'.esp0 == s.esp0)
  {
    var s' := Execute(s, program).1;
    if Execute(s, program).0 == Launched {
      LaunchKeeps(s);
      assert s' == Launch(s);
    } else {
      SameChains(s, s');
    }
  }

  lemma HaltKeeps(s: State, shell: Program)
    requires Inv(s) && Running(s)
    ensures Inv(Halt(s, shell).1) && (Halt(s, shell).0 != NullParent ==> Running(Halt(s, shell).1))
  {
    PopKeeps(s);
    if |s.stacks[s.executing]| == 1 {
      ExecuteKeeps(Popped(s), shell);
    }
  }

  lemma StartKeeps(s: State, n: nat, shell: Program)
    requires Inv(s) && Running(s) && n < TERMINALS && s.stacks[n] == []
    ensures Inv(Started(s, n, shell).1) && Running(Started(s, n, shell).1)
  {
    var s', r := s.(executing := n), Started(s, n, shell);
    ExecuteKeeps(s', shell);
    if r.0 != ShellStarted {
      SameChains(s, r.1);
    }
  }

  lemma SwitchKeeps(s: State, n: nat, shell: Program)
    requires Inv(s) && Running(s) && n < TERMINALS
    ensures Inv(Switch(s, n, shell).1) && Running(Switch(s, n, shell).1)
  {
    if s.stacks[0] != [] && n != s.executing {
      if s.stacks[n] == [] {
        StartKeeps(s, n, shell);
        assert Switch(s, n, shell) == Started(s, n, shell);
      } else {
        var c := s.stacks[n];
        assert Switch(s, n, shell).1 == s.(executing := n, esp0 := StackTop(c[|c| - 1].slot) - 4);
      }
    }
  }

  lemma LaunchActive(s: State)
    requires s.executing < |s.stacks|
    ensures var s' := Launch(s); s'.stacks[s.executing] != [] && Active(s') == LowestFree(s.stacks, 0)
  {
  }
}
