/** Runs of the kernel's process operations: what every step keeps, what a halt undoes, and where runs go wrong. */
module ProcessRuns {
  import opened Machine
  import opened Processes
  import opened ProcessCounts

  // ----- halt undoes execute -----

  /** A program that halts at once leaves the state its execute found: chains, esp0 and counter. */
  lemma HaltUndoesExecute(s: State, shell: Program)
    requires Inv(s) && Running(s) && s.counter < WORD && Execute(s, Executable).0 == Launched
    ensures Halt(Execute(s, Executable).1, shell) == (Returned, s)
  {
    var s', e := Launch(s), s.executing;
    var c := s'.stacks[e];
    assert c[..|c| - 1] == s.stacks[e];
    assert s'.stacks[e := s.stacks[e]] == s.stacks;
  }

  // ----- events and runs -----

  /** A step of the system. Halts and timer interrupts execute shell too; what they find there is part of them. */
  datatype Event = Exec(program: Program) | ExecNull | HaltNow(shell: Program) | Timer(shell: Program)

  /** Round robin over the terminals. */
  function Next(t: nat): nat {
    if t + 1 == TERMINALS then 0 else t + 1
  }

  /** One event; None where the C code is past its defined behaviour: no slot found, or a null parent. */
  ghost function Step(s: State, ev: Event): (r: Option<State>)
    requires |s.stacks| == TERMINALS && s.executing < TERMINALS && s.stacks[s.executing] != []
  {
    match ev
    case Exec(program) => var r := Execute(s, program); if r.0 == NoSlot then None else Some(r.1)
    case ExecNull => Some(s)
    case HaltNow(shell) => var r := Halt(s, shell); if r.0 == NullParent then None else Some(r.1)
    case Timer(shell) =>
      var r := Switch(s, Next(s.executing), shell);
      if r.0 == Unslotted then None else Some(r.1)
  }

  datatype Option<T> = None | Some(value: T)

  lemma StepKeeps(s: State, ev: Event, s': State)
    requires Inv(s) && Running(s) && Step(s, ev) == Some(s')
    ensures Inv(s') && Running(s')
  {
    match ev
    case Exec(program) => ExecuteKeeps(s, program);
    case ExecNull =>
    case HaltNow(shell) => HaltKeeps(s, shell);
    case Timer(shell) => SwitchKeeps(s, Next(s.executing), shell);
  }

  /** When a step leaves defined behaviour, as its caller could tell beforehand. */
  ghost predicate Undefined(s: State, ev: Event)
    requires |s.stacks| == TERMINALS && s.executing < TERMINALS
  {
    match ev
    case Exec(program) => Total(s.stacks) == SLOTS && s.counter != SLOTS && program == Executable
    case ExecNull => false
    case HaltNow(shell) => |s.stacks[s.executing]| == 1 && (shell != Executable || s.counter == SLOTS + 1)
    case Timer(shell) => ShellUnslotted(s, Next(s.executing), shell)
  }

  lemma StepUndefinedExact(s: State, ev: Event)
    requires Inv(s) && Running(s) && Counted(s)
    ensures Step(s, ev) == None <==> Undefined(s, ev)
  {
    match ev
    case Exec(program) => FreeSlotExists(s);
    case ExecNull =>
    case HaltNow(shell) =>
      if |s.stacks[s.executing]| == 1 {
        RootRelaunch(s, shell);
      }
    case Timer(shell) => SwitchOutcomes(s, Next(s.executing), shell);
  }

  /** trace is a run of the given events: each state is the step of the one before. */
  ghost predicate IsRun(trace: seq<State>, events: seq<Event>) {
    && |trace| == |events| + 1
    && Inv(trace[0]) && Running(trace[0])
    && forall k {:trigger events[k]} :: 0 <= k < |events| ==> StepsTo(trace[k], events[k], trace[k + 1])
  }

  ghost predicate StepsTo(s: State, ev: Event, s': State) {
    && |s.stacks| == TERMINALS && s.executing < TERMINALS && s.stacks[s.executing] != []
    && Step(s, ev) == Some(s')
  }

  lemma RunGrows(trace: seq<State>, events: seq<Event>, ev: Event, s: State)
    requires IsRun(trace, events) && StepsTo(trace[|events|], ev, s)
    ensures IsRun(trace + [s], events + [ev])
  {
    var trace', events' := trace + [s], events + [ev];
    forall k | 0 <= k < |events'|
      ensures StepsTo(trace'[k], events'[k], trace'[k + 1])
    {
      assert k < |events| ==> StepsTo(trace[k], events[k], trace[k + 1]);
    }
  }

  /** In every run from a running state, every state keeps the invariant. */
  lemma {:induction false} RunKeeps(trace: seq<State>, events: seq<Event>, k: nat)
    requires IsRun(trace, events) && k < |trace|
    ensures Inv(trace[k]) && Running(trace[k])
  {
    if k > 0 {
      RunKeeps(trace, events, k - 1);
      assert StepsTo(trace[k - 1], events[k - 1], trace[k]);
      StepKeeps(trace[k - 1], events[k - 1], trace[k]);
    }
  }

  /** s' has terminal t no lower than n frames, and the bottom n of them as s has. */
  ghost predicate SameBottom(s: State, s': State, t: nat, n: nat) {
    |s.stacks| == |s'.stacks| == TERMINALS && t < TERMINALS && n <= |s.stacks[t]| && n <= |s'.stacks[t]|
    && s'.stacks[t][..n] == s.stacks[t][..n]
  }

  lemma ExecuteKeepsBottom(s: State, program: Program, t: nat, n: nat)
    requires Inv(s) && t < TERMINALS && n <= |s.stacks[t]|
    ensures SameBottom(s, Execute(s, program).1, t, n)
  {
  }

  lemma PopKeepsBottom(s: State, t: nat, n: nat)
    requires Inv(s) && s.stacks[s.executing] != [] && t < TERMINALS
    requires n <= |s.stacks[t]| && n <= |Popped(s).stacks[t]|
    ensures SameBottom(s, Popped(s), t, n)
  {
  }

  /** A step that leaves terminal t at least n frames leaves the bottom n of them alone. */
  lemma StepKeepsBottom(s: State, ev: Event, s': State, t: nat, n: nat)
    requires Inv(s) && Running(s) && t < TERMINALS && 2 <= n <= |s.stacks[t]|
    requires Step(s, ev) == Some(s') && n <= Height(s', t)
    ensures SameBottom(s, s', t, n)
  {
    match ev
    case Exec(program) => ExecuteKeepsBottom(s, program, t, n);
    case ExecNull =>
    case HaltNow(shell) =>
      if |s.stacks[s.executing]| > 1 {
        assert s'.stacks == Popped(s).stacks;
        PopKeepsBottom(s, t, n);
      } else {
        PopKeepsBottom(s, t, n);
        PopKeeps(s);
        ExecuteKeepsBottom(Popped(s), shell, t, n);
      }
    case Timer(shell) => ExecuteKeepsBottom(s.(executing := Next(s.executing)), shell, t, n);
  }

  lemma {:induction false} BottomKept(trace: seq<State>, events: seq<Event>, t: nat, n: nat, k: nat)
    requires IsRun(trace, events) && t < TERMINALS && 0 < k < |trace| && 2 <= n
    requires Height(trace[1], t) >= n && forall i :: 0 < i <= k ==> Height(trace[i], t) >= n
    ensures Height(trace[k], t) >= n && trace[k].stacks[t][..n] == trace[1].stacks[t][..n]
  {
    assert Height(trace[k], t) >= n;
    if k > 1 {
      BottomKept(trace, events, t, n, k - 1);
      RunKeeps(trace, events, k - 1);
      assert StepsTo(trace[k - 1], events[k - 1], trace[k]);
      StepKeepsBottom(trace[k - 1], events[k - 1], trace[k], t, n);
    }
  }

  function Height(s: State, t: nat): nat {
    if t < |s.stacks| then |s.stacks[t]| else 0
  }

  /** The step that takes terminal t from above n frames down to n is a halt on t, back to the parent. */
  lemma DownIsHalt(s: State, ev: Event, t: nat, n: nat)
    requires Inv(s) && Running(s) && t < TERMINALS && 0 < n < |s.stacks[t]|
    requires Step(s, ev).Some? && |Step(s, ev).value.stacks[t]| == n
    ensures var s' := Step(s, ev).value;
            && ev.HaltNow? && s.executing == t == s'.executing && |s.stacks[t]| == n + 1
            && s'.stacks[t] == s.stacks[t][..n] && s'.esp0 == s.stacks[t][n].savedEsp0
  {
  }

  /** A program launched on terminal t runs while t is above its n frames; whatever else runs in between,
      there and on the other terminals, the event that brings t back to n frames is a halt on t, and it
      restores the chain and the esp0 that the launch found. */
  lemma MatchingHaltRestores(trace: seq<State>, events: seq<Event>, k: nat)
    requires IsRun(trace, events) && 1 < k < |trace|
    requires var t := trace[0].executing;
             var n := Height(trace[0], t);
             && Height(trace[1], t) == n + 1
             && (forall i :: 0 < i < k ==> Height(trace[i], t) > n)
             && Height(trace[k], t) == n
    ensures var t := trace[0].executing;
            && events[k - 1].HaltNow? && trace[k].executing == t
            && trace[k].stacks[t] == trace[0].stacks[t] && trace[k].esp0 == trace[0].esp0
  {
    var t := trace[0].executing;
    var n := Height(trace[0], t);
    assert StepsTo(trace[0], events[0], trace[1]);
    LaunchOnTop(trace[0], events[0]);
    BottomKept(trace, events, t, n + 1, k - 1);
    RunKeeps(trace, events, k - 1);
    assert StepsTo(trace[k - 1], events[k - 1], trace[k]);
    DownIsHalt(trace[k - 1], events[k - 1], t, n);
    assert trace[k - 1].stacks[t][..n + 1][..n] == trace[1].stacks[t][..n + 1][..n];
    assert trace[k - 1].stacks[t][n] == trace[k - 1].stacks[t][..n + 1][n];
  }

  lemma LaunchOnTop(s: State, ev: Event)
    requires Inv(s) && Running(s) && Step(s, ev).Some?
    requires Height(Step(s, ev).value, s.executing) == Height(s, s.executing) + 1
    ensures var s', t, n := Step(s, ev).value, s.executing, Height(s, s.executing);
            && |s'.stacks| == TERMINALS && s'.stacks[t][..n] == s.stacks[t] && s'.stacks[t][n].savedEsp0 == s.esp0
  {
  }

  // ----- the counter over runs -----

  /** Every step keeps the counter at the used slots less the failed checks. */
  lemma StepCounts(s: State, ev: Event, s': State)
    requires StepsTo(s, ev, s') && Counted(s)
    ensures Counted(s')
  {
    match ev
    case Exec(program) => ExecuteCounts(s, program);
    case ExecNull =>
    case HaltNow(shell) =>
      PopCounts(s);
      if |s.stacks[s.executing]| == 1 {
        ExecuteCounts(Popped(s), shell);
      }
    case Timer(shell) => ExecuteCounts(s.(executing := Next(s.executing)), shell);
  }

  lemma {:induction false} RunCounts(trace: seq<State>, events: seq<Event>, k: nat)
    requires IsRun(trace, events) && Counted(trace[0]) && k < |trace|
    ensures Counted(trace[k]) && Total(trace[k].stacks) <= SLOTS
  {
    RunKeeps(trace, events, k);
    FreeSlotExists(trace[k]);
    if k > 0 {
      RunCounts(trace, events, k - 1);
      assert StepsTo(trace[k - 1], events[k - 1], trace[k]);
      StepCounts(trace[k - 1], events[k - 1], trace[k]);
    }
  }

  // ----- runs from boot, and runs that go wrong -----

  /** What terminal_init leaves. */
  const INITIAL := State([[], [], []], 0, EIGHT_MB, 0, 0)

  /** n launches in a row. */
  ghost function Launches(n: nat): (s: State)
    ensures |s.stacks| == TERMINALS && s.executing == 0 && s.stacks[1] == s.stacks[2] == []
  {
    if n == 0 then INITIAL else Launch(Launches(n - 1))
  }

  /** s is the state after n of them. The trigger keeps the definition out of proofs that only hand it on. */
  ghost predicate AfterLaunches(s: State, n: nat) {
    forall m {:trigger Launches(m)} :: m == n ==> s == Launches(m)
  }

  /** No check has failed and n processes are alive, all of them on the executing terminal. */
  ghost predicate Sound(s: State, n: nat) {
    Inv(s) && s.counter == Total(s.stacks) == |s.stacks[s.executing]| == n && s.failed == 0 && (n > 0 ==> Running(s))
  }

  lemma LaunchSound(s: State, n: nat)
    requires Sound(s, n) && n < SLOTS
    ensures Execute(s, Executable) == (Launched, Launch(s)) && Sound(Launch(s), n + 1)
  {
    FreeSlotExists(s);
    LaunchKeeps(s);
    LaunchTotal(s);
  }

  /** From boot, six executes fill the slots, the first of them with the root shell of terminal 0. */
  lemma {:induction false} LaunchesFill(n: nat)
    requires n <= SLOTS
    ensures Sound(Launches(n), n)
    ensures n < SLOTS ==> Execute(Launches(n), Executable) == (Launched, Launches(n + 1))
  {
    if n > 0 {
      LaunchesFill(n - 1);
      LaunchSound(Launches(n - 1), n - 1);
    } else {
      InitialSound();
    }
    if n < SLOTS {
      LaunchSound(Launches(n), n);
      assert Launches(n + 1) == Launch(Launches(n));
    }
  }

  lemma FirstLaunch(found: Program)
    ensures INITIAL.executing < |INITIAL.stacks|
    ensures var (o, s) := Execute(INITIAL, found);
            && (o == Launched <==> found == Executable) && o != LimitReached
            && (o == Launched ==> AfterLaunches(s, 1) && Inv(s) && Running(s))
  {
    var n := 0;
    LaunchesFill(n);
    assert Launches(n + 1) == Launch(INITIAL);
    var one := n + 1;
    LaunchesFill(one);
  }

  lemma InitialSound()
    ensures Sound(INITIAL, 0)
  {
    EmptyChains(INITIAL.stacks);
  }

  lemma EmptyChains(stacks: seq<seq<Frame>>)
    requires |stacks| == TERMINALS && forall t :: 0 <= t < TERMINALS ==> stacks[t] == []
    ensures Chains(stacks) && Total(stacks) == 0
  {
    TotalOfThree(stacks);
  }

  /** A run that gets past the limit test without a free slot: five executes, one of a file that is no
      executable, then two more. */
  lemma LimitTestMissed(n: nat)
    requires n == SLOTS - 1
    ensures var s := Execute(Launches(n), NotExecutable).1;
            && Execute(s, Executable) == (Launched, Launch(s))
            && Inv(Launch(s)) && Execute(Launch(s), Executable).0 == NoSlot
  {
    LaunchesFill(n);
    NoSlotAfterFailure(Launches(n));
  }

  lemma NoSlotAfterFailure(s: State)
    requires Sound(s, SLOTS - 1)
    ensures var s' := Execute(s, NotExecutable).1;
            && Execute(s', Executable) == (Launched, Launch(s'))
            && Inv(Launch(s')) && Execute(Launch(s'), Executable).0 == NoSlot
  {
    var s' := Execute(s, NotExecutable).1;
    assert s' == State(s.stacks, s.executing, s.esp0, SLOTS - 2, 1);
    FreeSlotExists(s');
    LaunchKeeps(s');
    LaunchTotal(s');
    FreeSlotExists(Launch(s'));
  }

  /** The same run with a timer interrupt in place of the last execute: shell starts on terminal 1 without a slot. */
  lemma TimerWithoutSlot(n: nat)
    requires n == SLOTS - 1
    ensures var s := Launch(Execute(Launches(n), NotExecutable).1); Running(s) && Step(s, Timer(Executable)) == None
  {
    LaunchesFill(n);
    UnslottedAfterFailure(Launches(n));
  }

  lemma UnslottedAfterFailure(s: State)
    requires Sound(s, SLOTS - 1) && s.executing == 0 && s.stacks[1] == []
    ensures var s' := Launch(Execute(s, NotExecutable).1); Running(s') && Step(s', Timer(Executable)) == None
  {
    var failed := Execute(s, NotExecutable).1;
    NoSlotAfterFailure(s);
    FreeSlotExists(failed);
    LaunchKeeps(failed);
    LaunchTotal(failed);
    SwitchOutcomes(Launch(failed), 1, Executable);
  }

  /** Six processes on terminal 0, and the timer moves on to terminal 1: its shell is refused. */
  lemma ShellRefusedWhenFull(n: nat, shell: Program)
    requires n == SLOTS
    ensures ShellRefused(Launches(n), 1, shell) && Switch(Launches(n), 1, shell).0 == ShellFailed
  {
    LaunchesFill(n);
    SwitchOutcomes(Launches(n), 1, shell);
  }

  /** k failed checks in a row. */
  function Failures(s: State, k: nat): State {
    if k == 0 then s else Checked(Failures(s, k - 1), NotExecutable)
  }

  /** From counter 1 on, failed checks take it through 0 and down from the top of its range, never to the limit. */
  lemma {:induction false} FailuresCount(s: State, k: nat)
    requires s.counter == 1 && k + SLOTS <= WORD && s.executing < |s.stacks|
    ensures Failures(s, k) == s.(counter := if k <= 1 then 1 - k else WORD + 1 - k, failed := s.failed + k)
    ensures Execute(Failures(s, k), NotExecutable) == (BadMagic, Failures(s, k + 1))
  {
    if k > 0 {
      FailuresCount(s, k - 1);
    }
  }

  /** A root shell that cannot be replaced although shell is an executable: after 2^32 - 6 executes of
      files that are none, its halt finds the counter, one lower, at the limit. */
  lemma RelaunchMissed(n: nat, k: nat)
    requires n == 1 && k + 6 == 0x1_0000_0000
    ensures var s := Failures(Launches(n), k);
            Inv(s) && Running(s) && s.counter == SLOTS + 1 && Step(s, HaltNow(Executable)) == None
  {
    LaunchesFill(n);
    FailuresCount(Launches(n), k);
    var s := Failures(Launches(n), k);
    SameChains(Launches(n), s);
    assert s.counter == SLOTS + 1;
  }
}
