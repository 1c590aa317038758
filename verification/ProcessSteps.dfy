/** What the steps of the process machine do to chains, running terminal and counter, in full and in numbers:
    every execute, halt and switch, and over runs the rotation of the terminals and the failed checks. */
module ProcessSteps {
  import opened Machine
  import opened Processes
  import opened ProcessCounts
  import opened ProcessRuns

  // ----- single steps -----

  /** f is a new process in the first slot that no process has, over the given esp0. */
  ghost predicate NewFrame(stacks: seq<seq<Frame>>, f: Frame, esp0: int) {
    f.savedEsp0 == esp0 && f.slot < 6 && !InUse(stacks, f.slot) && forall p: nat :: p < f.slot ==> InUse(stacks, p)
  }

  /** Terminal t has one process more, which runs from the top of its kernel stack; the other terminals are the same. */
  ghost predicate OneMore(s: State, s': State, t: nat)
    requires t < |s.stacks|
  {
    && |s'.stacks| == |s.stacks| && |s'.stacks[t]| == |s.stacks[t]| + 1
    && s'.stacks[t][..|s.stacks[t]|] == s.stacks[t]
    && (forall u :: 0 <= u < |s.stacks| && u != t ==> s'.stacks[u] == s.stacks[u])
    && var f := s'.stacks[t][|s.stacks[t]|];
       NewFrame(s.stacks, f, s.esp0) && s'.executing == t && s'.esp0 == 0x80_0000 - 0x2000 * f.slot
  }

  /** Nothing but the two counters differs. */
  ghost predicate SameProcesses(s: State, s': State) {
    s'.stacks == s.stacks && s'.executing == s.executing && s'.esp0 == s.esp0
  }

  function OneUp(c: nat): nat {
    if c == 0xFFFF_FFFF then 0 else c + 1
  }

  function OneDown(c: nat): nat {
    if c == 0 then 0xFFFF_FFFF else c - 1
  }

  /** An execute: which answer it gives, and what it leaves. Only a launch counts up, only a file that is
      found and is no executable counts down, and a file that is not found changes nothing. */
  lemma ExecuteExact(s: State, program: Program)
    requires Inv(s)
    ensures var (o, s') := Execute(s, program);
            && (o == LimitReached <==> s.counter == 6)
            && (o == NotFound <==> s.counter != 6 && program == Missing)
            && (o == BadMagic <==> s.counter != 6 && program == NotExecutable)
            && (o == Launched <==> s.counter != 6 && program == Executable && Total(s.stacks) < 6)
            && (o == NoSlot <==> s.counter != 6 && program == Executable && Total(s.stacks) == 6)
            && (if o == Launched then OneMore(s, s', s.executing) else SameProcesses(s, s'))
            && (o == LimitReached || o == NotFound ==> s' == s)
            && s'.counter == (if o == Launched then OneUp(s.counter) else if o == BadMagic then OneDown(s.counter)
                              else s.counter)
            && s'.failed == s.failed + if o == BadMagic then 1 else 0
  {
    FreeSlotExists(s);
  }

  /** A halt: a program gives terminal and esp0 back to its parent. The last process of a terminal is replaced
      by a new shell, unless shell is no executable or the counter stands at 7. */
  lemma HaltExact(s: State, shell: Program)
    requires Inv(s) && Running(s) && s.counter < WORD
    ensures var (o, s') := Halt(s, shell);
            var t, c := s.executing, s.stacks[s.executing];
            && (o == Returned <==> |c| > 1)
            && (o == Relaunched <==> |c| == 1 && shell == Executable && s.counter != 7)
            && (o == Returned ==>
                  && s'.stacks == s.stacks[t := c[..|c| - 1]] && s'.executing == t && s'.failed == s.failed
                  && s'.esp0 == c[|c| - 1].savedEsp0 && s'.counter == OneDown(s.counter))
            && (o == Relaunched ==>
                  && |s'.stacks[t]| == 1 && s'.stacks == s.stacks[t := s'.stacks[t]] && s'.executing == t
                  && NewFrame(s.stacks[t := []], s'.stacks[t][0], s.esp0)
                  && s'.esp0 == 0x80_0000 - 0x2000 * s'.stacks[t][0].slot
                  && s'.counter == s.counter && s'.failed == s.failed)
  {
    if |s.stacks[s.executing]| == 1 {
      RootHaltExact(s, shell);
    }
  }

  lemma RootHaltExact(s: State, shell: Program)
    requires Inv(s) && Running(s) && s.counter < WORD && |s.stacks[s.executing]| == 1
    ensures var (o, s') := Halt(s, shell);
            var t := s.executing;
            && o != Returned && (o == Relaunched <==> shell == Executable && s.counter != 7)
            && (o == Relaunched ==>
                  && |s'.stacks[t]| == 1 && s'.stacks == s.stacks[t := s'.stacks[t]] && s'.executing == t
                  && NewFrame(s.stacks[t := []], s'.stacks[t][0], s.esp0)
                  && s'.esp0 == 0x80_0000 - 0x2000 * s'.stacks[t][0].slot
                  && s'.counter == s.counter && s'.failed == s.failed)
  {
    var s1 := Popped(s);
    assert s1 == State(s.stacks[s.executing := []], s.executing, s.esp0, OneDown(s.counter), s.failed);
    PopKeeps(s);
    PopTotal(s);
    FreeSlotExists(s);
    ExecuteExact(s1, shell);
  }

  /** What a switch to terminal n leaves: with a process there it runs, from 4 below the top of its kernel stack;
      without one a new shell runs there, and when that is refused the same process as before. */
  ghost predicate SwitchedTo(s: State, s': State, n: nat, shell: Program)
    requires n < |s.stacks|
  {
    if s.stacks[n] != [] then
      s' == s.(executing := n, esp0 := 0x80_0000 - 0x2000 * s.stacks[n][|s.stacks[n]| - 1].slot - 4)
    else if shell == Executable && s.counter != 6 then
      OneMore(s, s', n) && |s'.stacks[n]| == 1 && s'.failed == s.failed
    else
      SameProcesses(s, s') && s'.failed == s.failed + if shell == NotExecutable && s.counter != 6 then 1 else 0
  }

  lemma SwitchExact(s: State, n: nat, shell: Program)
    requires Inv(s) && s.stacks[0] != [] && n < TERMINALS && n != s.executing
    ensures var (o, s') := Switch(s, n, shell);
            && (o == Unslotted <==> s.stacks[n] == [] && shell == Executable && s.counter != 6 && Total(s.stacks) == 6)
            && (o != Unslotted ==> SwitchedTo(s, s', n, shell))
  {
    if s.stacks[n] == [] {
      ExecuteExact(s.(executing := n), shell);
      assert Switch(s, n, shell) == Started(s, n, shell);
    }
  }

  /** A timer interrupt once terminal 0 has a process: a switch to the next of the three terminals. */
  lemma TimerExact(s: State, shell: Program)
    requires Inv(s) && Running(s) && s.stacks[0] != []
    ensures var n := (s.executing + 1) % 3;
            var step := Step(s, Timer(shell));
            && (step == None <==> s.stacks[n] == [] && shell == Executable && s.counter != 6 && Total(s.stacks) == 6)
            && (step.Some? ==> SwitchedTo(s, step.value, n, shell))
  {
    NextIs(s.executing);
    SwitchExact(s, Next(s.executing), shell);
  }

  lemma NextIs(t: nat)
    requires t < TERMINALS
    ensures Next(t) == (t + 1) % 3 && Next(t) < TERMINALS && Next(t) != t
  {
  }

  /** Without one, nothing changes. */
  lemma TimerIdle(s: State, shell: Program)
    requires Inv(s) && Running(s) && s.stacks[0] == []
    ensures Step(s, Timer(shell)) == Some(s)
  {
  }

  // ----- the terminals take turns -----

  function Timers(events: seq<Event>): nat {
    if events == [] then 0 else Timers(events[..|events| - 1]) + if events[|events| - 1].Timer? then 1 else 0
  }

  /** A terminal that has a process has one after every defined step. */
  lemma StepKeepsAlive(s: State, ev: Event, s': State, t: nat)
    requires Inv(s) && Running(s) && s.counter < WORD && Step(s, ev) == Some(s') && t < TERMINALS && s.stacks[t] != []
    ensures |s'.stacks| == TERMINALS && s'.stacks[t] != []
  {
    match ev
    case Exec(program) => ExecuteExact(s, program);
    case ExecNull =>
    case HaltNow(shell) => HaltExact(s, shell);
    case Timer(shell) =>
      if s.stacks[0] == [] {
        TimerIdle(s, shell);
      } else {
        TimerExact(s, shell);
      }
  }

  ghost predicate AllAlive(s: State) {
    |s.stacks| == TERMINALS && forall t :: 0 <= t < TERMINALS ==> s.stacks[t] != []
  }

  /** Only timer interrupts move executing_terminal, and with a process on every terminal each of them does. */
  lemma StepRotates(s: State, ev: Event, s': State)
    requires Inv(s) && Running(s) && Counted(s) && AllAlive(s) && Step(s, ev) == Some(s')
    ensures AllAlive(s') && s'.executing == if ev.Timer? then Next(s.executing) else s.executing
  {
    forall t | 0 <= t < TERMINALS
      ensures s'.stacks[t] != []
    {
      StepKeepsAlive(s, ev, s', t);
    }
    match ev
    case Exec(program) => ExecuteExact(s, program);
    case ExecNull =>
    case HaltNow(shell) => HaltExact(s, shell);
    case Timer(shell) =>
      NextIs(s.executing);
      TimerExact(s, shell);
  }

  /** The terminal after n turns. */
  function Turn(t: nat, n: nat): nat {
    if n == 0 then t else Next(Turn(t, n - 1))
  }

  lemma {:induction false} TurnIs(t: nat, n: nat)
    requires t < TERMINALS
    ensures Turn(t, n) == (t + n) % 3
  {
    if n > 0 {
      TurnIs(t, n - 1);
      NextIs(Turn(t, n - 1));
    }
  }

  lemma {:induction false} RunTurns(trace: seq<State>, events: seq<Event>, k: nat)
    requires IsRun(trace, events) && k < |trace| && Counted(trace[0]) && AllAlive(trace[0])
    ensures AllAlive(trace[k]) && trace[k].executing == Turn(trace[0].executing, Timers(events[..k]))
  {
    if k > 0 {
      RunTurns(trace, events, k - 1);
      StepTurns(trace, events, k - 1);
      TimersNext(events, k - 1);
    } else {
      assert events[..0] == [];
    }
  }

  predicate IsTimer(events: seq<Event>, k: nat)
    requires k < |events|
  {
    events[k].Timer?
  }

  lemma StepTurns(trace: seq<State>, events: seq<Event>, k: nat)
    requires IsRun(trace, events) && k < |events| && Counted(trace[0]) && AllAlive(trace[k])
    ensures AllAlive(trace[k + 1])
    ensures trace[k + 1].executing == if IsTimer(events, k) then Next(trace[k].executing) else trace[k].executing
  {
    RunKeeps(trace, events, k);
    RunCounts(trace, events, k);
    assert StepsTo(trace[k], events[k], trace[k + 1]);
    StepRotates(trace[k], events[k], trace[k + 1]);
  }

  lemma TimersNext(events: seq<Event>, k: nat)
    requires k < |events|
    ensures Timers(events[..k + 1]) == Timers(events[..k]) + if IsTimer(events, k) then 1 else 0
  {
    assert events[..k + 1][..k] == events[..k];
  }

  /** In every run that starts with a process on every terminal, whatever is executed and halted in between,
      the terminals take turns: who runs is told by the number of timer interrupts. */
  lemma RunRotates(trace: seq<State>, events: seq<Event>, k: nat)
    requires IsRun(trace, events) && k < |trace| && Counted(trace[0]) && AllAlive(trace[0])
    ensures AllAlive(trace[k]) && trace[k].executing == (trace[0].executing + Timers(events[..k])) % 3
  {
    RunTurns(trace, events, k);
    TurnIs(trace[0].executing, Timers(events[..k]));
  }

  lemma {:induction false} TimersReach(events: seq<Event>, n: nat) returns (k: nat)
    requires n <= Timers(events)
    ensures k <= |events| && Timers(events[..k]) == n
  {
    if n == Timers(events) {
      assert events[..|events|] == events;
      return |events|;
    }
    var before := events[..|events| - 1];
    k := TimersReach(before, n);
    assert before[..k] == events[..k];
  }

  lemma TurnTo(t: nat, u: nat) returns (n: nat)
    requires t < TERMINALS && u < TERMINALS
    ensures n <= 2 && Turn(t, n) == u
  {
    n := if t == u then 0 else if Next(t) == u then 1 else 2;
    assert Turn(t, 0) == t && Turn(t, 1) == Next(Turn(t, 0)) && Turn(t, 2) == Next(Turn(t, 1));
  }

  /** Nobody starves: by its second timer interrupt such a run has run every terminal. */
  lemma EveryTerminalRuns(trace: seq<State>, events: seq<Event>, t: nat) returns (k: nat)
    requires IsRun(trace, events) && Counted(trace[0]) && AllAlive(trace[0]) && Timers(events) >= 2 && t < TERMINALS
    ensures k < |trace| && trace[k].executing == t && Timers(events[..k]) <= 2
  {
    var n := TurnTo(trace[0].executing, t);
    k := TimersReach(events, n);
    RunTurns(trace, events, k);
  }

  /** n processes, the last of them running on terminal n - 1, and no check has failed. */
  ghost predicate Fresh(s: State, n: nat) {
    && Inv(s) && Running(s) && s.executing + 1 == n && Total(s.stacks) == s.counter == n && s.stacks[0] != []
    && forall t :: n <= t < TERMINALS ==> s.stacks[t] == []
  }

  /** From boot with an executable shell: two timer interrupts start the shells of terminals 1 and 2, and the
      third comes back to terminal 0. */
  lemma ThreeShells(n: nat) returns (s1: State, s2: State, s3: State)
    requires n == 1
    ensures var s := Launches(n);
            && StepsTo(s, Timer(Executable), s1) && StepsTo(s1, Timer(Executable), s2)
            && StepsTo(s2, Timer(Executable), s3)
    ensures s1.executing == 1 && s2.executing == 2 && s3.executing == 0
    ensures OneMore(Launches(n), s1, 1) && OneMore(s1, s2, 2) && s3.stacks == s2.stacks
  {
    LaunchesFill(n);
    s1 := NextShell(Launches(n), 1);
    s2 := NextShell(s1, 2);
    s3 := BackToFirst(s2);
  }

  lemma NextShell(s: State, n: nat) returns (s': State)
    requires Fresh(s, n) && n < TERMINALS
    ensures StepsTo(s, Timer(Executable), s') && OneMore(s, s', n) && Fresh(s', n + 1)
  {
    SwitchExact(s, n, Executable);
    s' := Switch(s, n, Executable).1;
    assert StepsTo(s, Timer(Executable), s');
    SwitchKeeps(s, n, Executable);
    ExecuteExact(s.(executing := n), Executable);
    TotalOfThree(s.stacks);
    TotalOfThree(s'.stacks);
  }

  lemma BackToFirst(s: State) returns (s': State)
    requires Fresh(s, TERMINALS)
    ensures StepsTo(s, Timer(Executable), s') && s'.executing == 0 && s'.stacks == s.stacks
  {
    SwitchExact(s, 0, Executable);
    s' := Switch(s, 0, Executable).1;
  }

  // ----- what makes the counter fall behind -----

  /** The step executes a file that is found and is no executable. */
  ghost predicate ChecksBadFile(s: State, ev: Event)
    requires |s.stacks| == TERMINALS && s.executing < TERMINALS
  {
    match ev
    case Exec(program) => s.counter != 6 && program == NotExecutable
    case ExecNull => false
    case HaltNow(_) => false
    case Timer(shell) =>
      s.counter != 6 && shell == NotExecutable && s.stacks[0] != [] && s.stacks[(s.executing + 1) % 3] == []
  }

  lemma StepFails(s: State, ev: Event, s': State)
    requires Inv(s) && Running(s) && Counted(s) && Step(s, ev) == Some(s')
    ensures s'.failed == s.failed + if ChecksBadFile(s, ev) then 1 else 0
  {
    match ev
    case Exec(program) => ExecuteExact(s, program);
    case ExecNull =>
    case HaltNow(shell) => HaltExact(s, shell);
    case Timer(shell) =>
      if s.stacks[0] == [] {
        TimerIdle(s, shell);
      } else {
        TimerExact(s, shell);
      }
  }

  /** How many of the first k steps do that. */
  ghost function BadFiles(trace: seq<State>, events: seq<Event>, k: nat): nat
    requires k < |trace| && k <= |events|
  {
    if k == 0 then 0
    else
      var s := trace[k - 1];
      var bad := |s.stacks| == TERMINALS && s.executing < TERMINALS && ChecksBadFile(s, events[k - 1]);
      BadFiles(trace, events, k - 1) + if bad then 1 else 0
  }

  lemma {:induction false} RunFails(trace: seq<State>, events: seq<Event>, k: nat)
    requires IsRun(trace, events) && k < |trace| && Counted(trace[0]) && trace[0].failed == 0
    ensures trace[k].failed == BadFiles(trace, events, k)
  {
    if k > 0 {
      RunFails(trace, events, k - 1);
      RunKeeps(trace, events, k - 1);
      RunCounts(trace, events, k - 1);
      assert StepsTo(trace[k - 1], events[k - 1], trace[k]);
      StepFails(trace[k - 1], events[k - 1], trace[k]);
    }
  }

  /** In every run the counter is the number of processes less the steps that executed a file which was found
      and was no executable, in 32 bits, if it started so: names that are not found cost nothing. */
  lemma RunCounterExact(trace: seq<State>, events: seq<Event>, k: nat) returns (bad: nat)
    requires IsRun(trace, events) && k < |trace| && trace[0].counter == Total(trace[0].stacks) && trace[0].failed == 0
    ensures bad == BadFiles(trace, events, k) && trace[k].counter == (Total(trace[k].stacks) - bad) % WORD
  {
    RunFailsFromZero(trace, events, k);
    bad := trace[k].failed;
    RunCountedBy(trace, events, k, bad);
  }

  function Less(total: nat, bad: nat): nat {
    (total - bad) % WORD
  }

  lemma RunFailsFromZero(trace: seq<State>, events: seq<Event>, k: nat)
    requires IsRun(trace, events) && k < |trace| && trace[0].counter == Total(trace[0].stacks) && trace[0].failed == 0
    ensures trace[k].failed == BadFiles(trace, events, k)
  {
    StartsCounted(trace[0]);
    RunFails(trace, events, k);
  }

  lemma RunCountedBy(trace: seq<State>, events: seq<Event>, k: nat, n: nat)
    requires IsRun(trace, events) && k < |trace| && trace[0].counter == Total(trace[0].stacks) && trace[0].failed == 0
    requires trace[k].failed == n
    ensures trace[k].counter == (Total(trace[k].stacks) - n) % WORD
  {
    RunCountsFromZero(trace, events, k);
    CountedBy(trace[k], n);
  }

  lemma StartsCounted(s: State)
    requires Inv(s) && s.counter == Total(s.stacks) && s.failed == 0
    ensures Counted(s)
  {
    FreeSlotExists(s);
  }

  lemma CountedBy(s: State, n: nat)
    requires Counted(s) && s.failed == n
    ensures s.counter == (Total(s.stacks) - n) % WORD
  {
  }

  lemma RunCountsFromZero(trace: seq<State>, events: seq<Event>, k: nat)
    requires IsRun(trace, events) && k < |trace| && trace[0].counter == Total(trace[0].stacks) && trace[0].failed == 0
    ensures Counted(trace[0]) && Counted(trace[k]) && Total(trace[k].stacks) <= SLOTS
  {
    StartsCounted(trace[0]);
    RunCounts(trace, events, k);
  }

  /** So in a run without such a step the counter is exact, and the limit test refuses exactly at six processes. */
  lemma RunWithoutBadFiles(trace: seq<State>, events: seq<Event>, k: nat, program: Program)
    requires IsRun(trace, events) && k < |trace| && trace[0].counter == Total(trace[0].stacks) && trace[0].failed == 0
    requires BadFiles(trace, events, k) == 0
    ensures trace[k].counter == Total(trace[k].stacks) && trace[k].executing < |trace[k].stacks|
    ensures Execute(trace[k], program).0 == LimitReached <==> Total(trace[k].stacks) == 6
    ensures Execute(trace[k], program).0 != NoSlot
  {
    RunFailsFromZero(trace, events, k);
    RunCountsFromZero(trace, events, k);
    RunKeeps(trace, events, k);
    NoneFailed(trace[k], program);
  }

  lemma NoneFailed(s: State, program: Program)
    requires Inv(s) && Counted(s) && s.failed == 0
    ensures s.counter == Total(s.stacks)
    ensures (Execute(s, program).0 == LimitReached <==> Total(s.stacks) == 6) && Execute(s, program).0 != NoSlot
  {
    FreeSlotExists(s);
  }
}
