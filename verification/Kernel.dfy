/** sys_execute, sys_halt and context_switch on the kernel's tables. */
module Kernels {
  import opened Machine
  import opened Sequences
  import opened Bytes
  import opened Files
  import opened Commands
  import opened Processes
  import opened ProcessCounts
  import opened ProcessRuns
  import opened ProcessSteps
  import opened Arguments

  const BUFFER_LENGTH := 30
  const MAGIC: seq<Byte> := [0x7F, 0x45, 0x4C, 0x46]

  /** active_pcb (an address, 0 for none) and num_process_executing_on_terminal. */
  datatype Terminal = Terminal(activePcb: int, processes: nat)

  /** process_num, parent_pcb (an address, 0 for none) and curr_esp0 of a PCB. */
  datatype Pcb = Pcb(processNum: nat, parentPcb: int, currEsp0: int)

  /** The slot whose PCB lies at an address. */
  function SlotAt(a: int): int {
    (EIGHT_MB - a) / EIGHT_KB - 1
  }

  lemma SlotOfAddress(p: nat)
    requires p < SLOTS
    ensures SlotAt(PcbAddress(p)) == p && PcbAddress(p) != 0
  {
  }

  // ----- what a command finds in the image -----

  /** The 30 bytes executable_check looks at: the start of the file over what the stack held. */
  ghost function Head(img: seq<Byte>, inode: nat, junk: seq<Byte>): (r: seq<Byte>)
    requires WellFormed(img) && inode < 64 && |junk| == BUFFER_LENGTH
    ensures |r| == BUFFER_LENGTH
  {
    var f := Contents(img, inode);
    var n := Min(BUFFER_LENGTH, |f|);
    f[..n] + junk[n..]
  }

  ghost function ProgramOf(img: seq<Byte>, command: seq<Byte>, junk: seq<Byte>): Program
    requires WellFormed(img) && |junk| == BUFFER_LENGTH
  {
    var d := Lookup(img, Padded(Name(command), NAME_LENGTH));
    if d < 0 then Missing
    else if Head(img, EntryInode(img, d), junk)[..4] == MAGIC then Executable
    else NotExecutable
  }

  /** A command finds nothing exactly when no entry has its name; a file of four bytes or more is a program
      exactly when it begins with 0x7F, E, L and F. */
  lemma ProgramExact(img: seq<Byte>, command: seq<Byte>, junk: seq<Byte>) returns (d: int)
    requires WellFormed(img) && |junk| == BUFFER_LENGTH && Free(command, NUL)
    ensures -1 <= d < DirCount(img) && (d == -1 <==> ProgramOf(img, command, junk) == Missing)
    ensures d == -1 ==> forall i :: 0 <= i < DirCount(img) ==> CString(EntryName(img, i)) != Name(command)
    ensures d >= 0 ==>
              var f := Contents(img, EntryInode(img, d));
              && CString(EntryName(img, d)) == Name(command)
              && (|f| >= 4 ==>
                    (ProgramOf(img, command, junk) == Executable <==>
                       f[0] == 0x7F && f[1] == 0x45 && f[2] == 0x4C && f[3] == 0x46))
  {
    d := Lookup(img, Padded(Name(command), NAME_LENGTH));
    LookupByName(img, Name(command));
    if d >= 0 {
      HeadStarts(img, EntryInode(img, d), junk);
    }
  }

  lemma HeadStarts(img: seq<Byte>, inode: nat, junk: seq<Byte>)
    requires WellFormed(img) && inode < 64 && |junk| == BUFFER_LENGTH
    ensures var f := Contents(img, inode);
            |f| >= 4 ==>
              (Head(img, inode, junk)[..4] == MAGIC <==>
                 f[0] == 0x7F && f[1] == 0x45 && f[2] == 0x4C && f[3] == 0x46)
  {
    var f, h := Contents(img, inode), Head(img, inode, junk);
    if |f| >= 4 {
      assert forall i :: 0 <= i < 4 ==> h[..4][i] == f[i];
    }
  }

  /** program is what a command finds. The trigger keeps directory and file contents out of proofs that
      only hand the program on. */
  ghost predicate Finds(img: seq<Byte>, command: seq<Byte>, junk: seq<Byte>, program: Program)
    requires WellFormed(img) && |junk| == BUFFER_LENGTH
  {
    forall c {:trigger ProgramOf(img, c, junk)} :: c == command ==> program == ProgramOf(img, c, junk)
  }

  // ----- the tables and the stacks they stand for -----

  function CountUsed(processes: seq<nat>): nat {
    if processes == [] then 0
    else CountUsed(processes[..|processes| - 1]) + if processes[|processes| - 1] == 0 then 0 else 1
  }

  lemma {:induction false} CountUpdate(processes: seq<nat>, p: nat, v: nat)
    requires p < |processes|
    ensures CountUsed(processes[p := v]) + (if processes[p] == 0 then 0 else 1) == CountUsed(processes)
            + (if v == 0 then 0 else 1)
  {
    var n := |processes| - 1;
    if p < n {
      CountUpdate(processes[..n], p, v);
      assert processes[p := v][..n] == processes[..n][p := v];
    } else {
      assert processes[p := v][..n] == processes[..n];
    }
  }

  /** The slots met on the way from the PCB at address a through the parent pointers, at most n of them. */
  function Chain(pcbs: seq<Pcb>, a: int, n: nat): seq<int>
    decreases n
  {
    if a == 0 || n == 0 || !(0 <= SlotAt(a) < |pcbs|) then []
    else [SlotAt(a)] + Chain(pcbs, pcbs[SlotAt(a)].parentPcb, n - 1)
  }

  /** The PCB contents of a stack of processes, and the address of its top. */
  ghost predicate Threaded(pcbs: seq<Pcb>, c: seq<Frame>) {
    forall i {:trigger ThreadedAt(pcbs, c, i)} :: 0 <= i < |c| ==> ThreadedAt(pcbs, c, i)
  }

  ghost predicate ThreadedAt(pcbs: seq<Pcb>, c: seq<Frame>, i: nat)
    requires i < |c|
  {
    c[i].slot < |pcbs| && pcbs[c[i].slot] == Pcb(c[i].slot, Top(c[..i]), c[i].savedEsp0)
  }

  function Top(c: seq<Frame>): int {
    if c == [] then 0 else PcbAddress(c[|c| - 1].slot)
  }

  lemma ThreadedPrefix(pcbs: seq<Pcb>, c: seq<Frame>, k: nat)
    requires Threaded(pcbs, c) && k <= |c|
    ensures Threaded(pcbs, c[..k])
  {
    forall i | 0 <= i < k
      ensures ThreadedAt(pcbs, c[..k], i)
    {
      assert ThreadedAt(pcbs, c, i);
      assert c[..k][i] == c[i] && c[..k][..i] == c[..i];
    }
  }

  /** The slots of a stack, top first. */
  function Unwound(c: seq<Frame>): seq<int> {
    if c == [] then [] else [c[|c| - 1].slot] + Unwound(c[..|c| - 1])
  }

  /** Following parent_pcb from the top of a stack visits the stack and ends in the null pointer. */
  lemma {:induction false} ChainIsStack(pcbs: seq<Pcb>, c: seq<Frame>, n: nat)
    requires |pcbs| == SLOTS && Threaded(pcbs, c) && n >= |c|
    ensures Chain(pcbs, Top(c), n) == Unwound(c)
  {
    if c != [] {
      var k := |c| - 1;
      var p := c[k].slot;
      assert ThreadedAt(pcbs, c, k);
      SlotOfAddress(p);
      ThreadedPrefix(pcbs, c, k);
      ChainIsStack(pcbs, c[..k], n - 1);
    }
  }

  /** processes[], terminals[] and the PCBs describe the given stacks. */
  ghost predicate Tables(processes: seq<nat>, terminals: seq<Terminal>, pcbs: seq<Pcb>, stacks: seq<seq<Frame>>) {
    && |processes| == |pcbs| == SLOTS && |terminals| == |stacks| == TERMINALS
    && (forall p {:trigger InUse(stacks, p)} :: 0 <= p < SLOTS ==> (processes[p] != 0 <==> InUse(stacks, p)))
    && CountUsed(processes) == Total(stacks)
    && (forall t {:trigger DescribedAt(terminals, pcbs, stacks, t)} :: 0 <= t < TERMINALS ==>
          DescribedAt(terminals, pcbs, stacks, t))
  }

  ghost predicate DescribedAt(terminals: seq<Terminal>, pcbs: seq<Pcb>, stacks: seq<seq<Frame>>, t: nat)
    requires t < |terminals| && t < |stacks|
  {
    Describes(terminals[t], pcbs, stacks[t])
  }

  ghost predicate Describes(t: Terminal, pcbs: seq<Pcb>, c: seq<Frame>) {
    t.processes == |c| && (c != [] ==> t.activePcb == Top(c)) && Threaded(pcbs, c)
  }

  /** The chain of terminal t: none without processes, when active_pcb may be stale. */
  function ChainOf(terminals: seq<Terminal>, pcbs: seq<Pcb>, t: nat): seq<int>
    requires t < |terminals|
  {
    if terminals[t].processes == 0 then [] else Chain(pcbs, terminals[t].activePcb, SLOTS)
  }

  lemma {:induction false} UnwoundAt(c: seq<Frame>, i: nat)
    requires i < |c|
    ensures |Unwound(c)| == |c| && Unwound(c)[i] == c[|c| - 1 - i].slot
  {
    var d := c[..|c| - 1];
    if i > 0 {
      UnwoundAt(d, i - 1);
    } else if d != [] {
      UnwoundAt(d, 0);
    }
  }

  lemma ChainOfStack(processes: seq<nat>, terminals: seq<Terminal>, pcbs: seq<Pcb>, s: State, t: nat)
    requires Inv(s) && Tables(processes, terminals, pcbs, s.stacks) && t < TERMINALS
    ensures ChainOf(terminals, pcbs, t) == Unwound(s.stacks[t])
            && |Unwound(s.stacks[t])| == |s.stacks[t]| == terminals[t].processes
  {
    var c := s.stacks[t];
    assert DescribedAt(terminals, pcbs, s.stacks, t);
    FreeSlotExists(s);
    TotalOfThree(s.stacks);
    if c != [] {
      ChainIsStack(pcbs, c, SLOTS);
      UnwoundAt(c, 0);
    }
  }

  /** What the kernel's tables hold in every state that keeps the invariant: each chain from active_pcb has
      the length the terminal counts. */
  lemma ChainsCounted(processes: seq<nat>, terminals: seq<Terminal>, pcbs: seq<Pcb>, s: State, t: nat)
    requires Inv(s) && Tables(processes, terminals, pcbs, s.stacks) && t < TERMINALS
    ensures |ChainOf(terminals, pcbs, t)| == terminals[t].processes
  {
    ChainOfStack(processes, terminals, pcbs, s, t);
  }

  /** No slot stands twice on the chains, within one or across two of them. */
  lemma ChainsApart(processes: seq<nat>, terminals: seq<Terminal>, pcbs: seq<Pcb>, s: State, t: nat, i: nat, u: nat,
      j: nat)
    requires Inv(s) && Tables(processes, terminals, pcbs, s.stacks) && t < TERMINALS && u < TERMINALS
    requires i < |ChainOf(terminals, pcbs, t)| && j < |ChainOf(terminals, pcbs, u)|
    ensures ChainOf(terminals, pcbs, t)[i] == ChainOf(terminals, pcbs, u)[j] <==> t == u && i == j
  {
    ChainOfStack(processes, terminals, pcbs, s, t);
    ChainOfStack(processes, terminals, pcbs, s, u);
    UnwoundAt(s.stacks[t], i);
    UnwoundAt(s.stacks[u], j);
  }

  /** The slots on the chains are exactly the used ones. */
  lemma ChainsCover(processes: seq<nat>, terminals: seq<Terminal>, pcbs: seq<Pcb>, s: State, p: nat)
    requires Inv(s) && Tables(processes, terminals, pcbs, s.stacks) && p < SLOTS
    ensures processes[p] != 0 <==> exists t :: 0 <= t < TERMINALS && p in ChainOf(terminals, pcbs, t)
  {
    assert processes[p] != 0 <==> InUse(s.stacks, p);
    forall t | 0 <= t < TERMINALS
      ensures p in ChainOf(terminals, pcbs, t) <==> SlotOn(s.stacks[t], p)
    {
      ChainOfStack(processes, terminals, pcbs, s, t);
      UnwoundHas(s.stacks[t], p);
    }
    InUseSomewhere(s.stacks, p);
  }

  ghost predicate SlotOn(c: seq<Frame>, p: nat) {
    exists i :: 0 <= i < |c| && c[i].slot == p
  }

  lemma UnwoundHas(c: seq<Frame>, p: nat)
    ensures p in Unwound(c) <==> SlotOn(c, p)
  {
    if p in Unwound(c) {
      UnwoundLength(c);
      var i :| 0 <= i < |Unwound(c)| && Unwound(c)[i] == p;
      UnwoundAt(c, i);
    }
    if SlotOn(c, p) {
      var i :| 0 <= i < |c| && c[i].slot == p;
      UnwoundAt(c, |c| - 1 - i);
    }
  }

  lemma UnwoundLength(c: seq<Frame>)
    ensures |Unwound(c)| == |c|
  {
    if c != [] {
      UnwoundAt(c, 0);
    }
  }

  lemma InUseSomewhere(stacks: seq<seq<Frame>>, p: nat)
    ensures InUse(stacks, p) <==> exists t :: 0 <= t < |stacks| && SlotOn(stacks[t], p)
  {
    if InUse(stacks, p) {
      var t, i :| 0 <= t < |stacks| && 0 <= i < |stacks[t]| && stacks[t][i].slot == p;
      assert SlotOn(stacks[t], p);
    }
  }

  lemma ThreadedElsewhere(pcbs: seq<Pcb>, pcbs': seq<Pcb>, c: seq<Frame>, p: nat)
    requires Threaded(pcbs, c) && |pcbs'| == |pcbs| && forall q :: 0 <= q < |pcbs| && q != p ==> pcbs'[q] == pcbs[q]
    requires forall i :: 0 <= i < |c| ==> c[i].slot != p
    ensures Threaded(pcbs', c)
  {
    assert forall i :: 0 <= i < |c| && ThreadedAt(pcbs, c, i) ==> ThreadedAt(pcbs', c, i);
  }

  lemma ThreadedPush(pcbs: seq<Pcb>, c: seq<Frame>, f: Frame)
    requires Threaded(pcbs, c) && f.slot < |pcbs| && pcbs[f.slot] == Pcb(f.slot, Top(c), f.savedEsp0)
    ensures Threaded(pcbs, c + [f])
  {
    var d := c + [f];
    forall i | 0 <= i < |d|
      ensures ThreadedAt(pcbs, d, i)
    {
      assert i < |c| ==> ThreadedAt(pcbs, c, i);
      assert d[..i] == c[..i] && (i < |c| ==> d[i] == c[i]);
      assert c[..|c|] == c;
    }
  }

  lemma ThreadedLaunched(pcbs: seq<Pcb>, stacks: seq<seq<Frame>>, t: nat, p: nat, b: Pcb)
    requires t < |stacks| && p < |pcbs| && Threaded(pcbs, stacks[t]) && !InUse(stacks, p)
    ensures Threaded(pcbs[p := b], stacks[t])
  {
    assert forall i :: 0 <= i < |stacks[t]| ==> InUse(stacks, stacks[t][i].slot);
    ThreadedElsewhere(pcbs, pcbs[p := b], stacks[t], p);
  }

  /** The tables after a launch in free slot p on terminal e. */
  lemma TablesLaunched(processes: seq<nat>, terminals: seq<Terminal>, pcbs: seq<Pcb>, s: State, p: nat)
    requires s.executing < TERMINALS && Tables(processes, terminals, pcbs, s.stacks)
             && p == LowestFree(s.stacks, 0) < SLOTS
    ensures var e, c := s.executing, s.stacks[s.executing];
            Tables(processes[p := 1], terminals[e := Terminal(PcbAddress(p), |c| + 1)],
                   pcbs[p := Pcb(p, Top(c), s.esp0)], Launch(s).stacks)
  {
    var e, c := s.executing, s.stacks[s.executing];
    var pcbs', terminals' := pcbs[p := Pcb(p, Top(c), s.esp0)], terminals[e := Terminal(PcbAddress(p), |c| + 1)];
    CountUpdate(processes, p, 1);
    LaunchTotal(s);
    forall t | 0 <= t < TERMINALS
      ensures DescribedAt(terminals', pcbs', Launch(s).stacks, t)
    {
      assert DescribedAt(terminals, pcbs, s.stacks, t) && DescribedAt(terminals, pcbs, s.stacks, e);
      ThreadedLaunched(pcbs, s.stacks, t, p, Pcb(p, Top(c), s.esp0));
      if t == e {
        ThreadedPush(pcbs', c, Frame(p, s.esp0));
      }
    }
    forall q | 0 <= q < SLOTS
      ensures processes[p := 1][q] != 0 <==> InUse(Launch(s).stacks, q)
    {
      UsedAfterLaunch(s, p, q);
    }
  }

  lemma UsedAfterLaunch(s: State, p: nat, q: nat)
    requires s.executing < |s.stacks| && p == LowestFree(s.stacks, 0)
    ensures InUse(Launch(s).stacks, q) <==> q == p || InUse(s.stacks, q)
  {
    var e, c := s.executing, s.stacks[s.executing];
    var stacks': seq<seq<Frame>> := Launch(s).stacks;
    assert stacks'[e][|c|].slot == p;
    if InUse(s.stacks, q) {
      var t, i :| 0 <= t < |s.stacks| && 0 <= i < |s.stacks[t]| && s.stacks[t][i].slot == q;
      assert stacks'[t][i].slot == q;
    }
    if InUse(stacks', q) && q != p {
      var t, i :| 0 <= t < |stacks'| && 0 <= i < |stacks'[t]| && stacks'[t][i].slot == q;
      assert s.stacks[t][i].slot == q;
    }
  }

  /** The tables after the top process of terminal e is gone. */
  lemma TablesPopped(processes: seq<nat>, terminals: seq<Terminal>, pcbs: seq<Pcb>, s: State, active: int)
    requires s.executing < TERMINALS && Tables(processes, terminals, pcbs, s.stacks)
    requires s.stacks[s.executing] != [] && Active(s) < SLOTS
    requires forall q :: 0 <= q < SLOTS ==> (InUse(Popped(s).stacks, q) <==> q != Active(s) && InUse(s.stacks, q))
    requires var c := s.stacks[s.executing]; |c| > 1 ==> active == Top(c[..|c| - 1])
    ensures var e, c, p := s.executing, s.stacks[s.executing], Active(s);
            Tables(processes[p := 0], terminals[e := Terminal(active, |c| - 1)], pcbs, Popped(s).stacks)
  {
    var e, c, p := s.executing, s.stacks[s.executing], Active(s);
    var terminals' := terminals[e := Terminal(active, |c| - 1)];
    ActiveInUse(s);
    CountUpdate(processes, p, 0);
    PopTotal(s);
    forall t | 0 <= t < TERMINALS
      ensures DescribedAt(terminals', pcbs, Popped(s).stacks, t)
    {
      assert DescribedAt(terminals, pcbs, s.stacks, t);
      if t == e {
        ThreadedPrefix(pcbs, c, |c| - 1);
      }
    }
  }

  /** What sys_halt reads of the running process. */
  lemma RunningPcb(terminals: seq<Terminal>, pcbs: seq<Pcb>, s: State)
    requires s.executing < |terminals| && s.executing < |s.stacks| && s.stacks[s.executing] != [] && |pcbs| == SLOTS
    requires Describes(terminals[s.executing], pcbs, s.stacks[s.executing])
    ensures var c, a := s.stacks[s.executing], terminals[s.executing].activePcb;
            && SlotAt(a) == Active(s) < SLOTS
            && pcbs[SlotAt(a)] == Pcb(Active(s), Top(c[..|c| - 1]), c[|c| - 1].savedEsp0)
            && (pcbs[SlotAt(a)].parentPcb == 0 <==> |c| == 1)
            && (|c| > 1 ==> var q := c[|c| - 2].slot; SlotAt(Top(c[..|c| - 1])) == q < SLOTS && pcbs[q].processNum == q)
  {
    var c := s.stacks[s.executing];
    assert ThreadedAt(pcbs, c, |c| - 1);
    if |c| > 1 {
      assert ThreadedAt(pcbs, c, |c| - 2);
      assert c[..|c| - 1][|c| - 2] == c[|c| - 2];
    }
  }

  lemma PoppedTables(processes: seq<nat>, terminals: seq<Terminal>, pcbs: seq<Pcb>, s: State, active: int,
                     processes': seq<nat>, terminals': seq<Terminal>, stacks': seq<seq<Frame>>)
    requires Inv(s) && Tables(processes, terminals, pcbs, s.stacks) && s.stacks[s.executing] != []
    requires var c := s.stacks[s.executing];
             && (|c| > 1 ==> active == Top(c[..|c| - 1])) && processes' == processes[Active(s) := 0]
             && terminals' == terminals[s.executing := Terminal(active, |c| - 1)] && stacks' == Popped(s).stacks
    ensures Tables(processes', terminals', pcbs, stacks')
  {
    forall q | 0 <= q < SLOTS
      ensures InUse(Popped(s).stacks, q) <==> q != Active(s) && InUse(s.stacks, q)
    {
      UsedAfterPop(s, q);
    }
    TablesPopped(processes, terminals, pcbs, s, active);
  }

  lemma ActiveInUse(s: State)
    requires s.executing < |s.stacks| && s.stacks[s.executing] != []
    ensures InUse(s.stacks, Active(s))
  {
  }

  lemma UsedAfterPop(s: State, q: nat)
    requires s.executing < |s.stacks| && s.stacks[s.executing] != [] && Disjoint(s.stacks)
    ensures InUse(Popped(s).stacks, q) <==> q != Active(s) && InUse(s.stacks, q)
  {
    var e, c := s.executing, s.stacks[s.executing];
    var stacks': seq<seq<Frame>> := Popped(s).stacks;
    if InUse(stacks', q) {
      var t, i :| 0 <= t < |stacks'| && 0 <= i < |stacks'[t]| && stacks'[t][i].slot == q;
      assert s.stacks[t][i].slot == q && s.stacks[e][|c| - 1].slot == Active(s);
    }
    if InUse(s.stacks, q) && q != Active(s) {
      var t, i :| 0 <= t < |s.stacks| && 0 <= i < |s.stacks[t]| && s.stacks[t][i].slot == q;
      assert stacks'[t][i].slot == q;
    }
  }

  lemma LaunchedTables(processes: seq<nat>, terminals: seq<Terminal>, pcbs: seq<Pcb>, s: State, p: nat,
                       processes': seq<nat>, terminals': seq<Terminal>, pcbs': seq<Pcb>, stacks': seq<seq<Frame>>)
    requires s.executing < TERMINALS && Tables(processes, terminals, pcbs, s.stacks)
             && p == LowestFree(s.stacks, 0) < SLOTS
    requires var old_ := terminals[s.executing];
             && processes' == processes[p := 1] && stacks' == Launch(s).stacks
             && terminals' == terminals[s.executing := Terminal(PcbAddress(p), old_.processes + 1)]
             && pcbs' == pcbs[p := Pcb(p, if old_.processes == 0 then 0 else old_.activePcb, s.esp0)]
    ensures Tables(processes', terminals', pcbs', stacks')
  {
    assert DescribedAt(terminals, pcbs, s.stacks, s.executing);
    TablesLaunched(processes, terminals, pcbs, s, p);
  }

  // ----- the kernel -----

  /** A system call or interrupt. */
  datatype Call = ExecuteCall(command: Option<seq<Byte>>) | HaltCall(status: Byte) | TimerCall

  /** The command a call parses if it parses one. */
  function CommandOf(shell: seq<Byte>, call: Call): seq<Byte> {
    if call.ExecuteCall? && call.command.Some? then call.command.value else shell
  }

  /** A switch to terminal n that calls parse_command, for shell. */
  ghost predicate Launching(s: State, n: nat)
    requires |s.stacks| == TERMINALS && n < TERMINALS
  {
    s.stacks[0] != [] && n != s.executing && s.stacks[n] == [] && s.counter != SLOTS
  }

  /** ev is the event a call is, given the image. */
  ghost predicate Means(img: seq<Byte>, shell: seq<Byte>, call: Call, junk: seq<Byte>, ev: Event)
    requires WellFormed(img) && |junk| == BUFFER_LENGTH
  {
    match call
    case ExecuteCall(command) =>
      if command.None? then ev == ExecNull else ev.Exec? && Finds(img, command.value, junk, ev.program)
    case HaltCall(_) => ev.HaltNow? && Finds(img, shell, junk, ev.shell)
    case TimerCall => ev.Timer? && Finds(img, shell, junk, ev.shell)
  }

  /** The memory behind the argument buffer, n bytes with it and one in front, holds a call's argument. */
  ghost predicate Fits(call: Call, n: nat) {
    call.ExecuteCall? && call.command.Some? ==> Free(call.command.value, NUL) && |Argument(call.command.value)| < n
  }

  /** A call that can be made, and what it is to the abstract machine. */
  ghost predicate Admits(img: seq<Byte>, shell: seq<Byte>, n: nat, call: Call, junk: seq<Byte>, ev: Event) {
    WellFormed(img) && |junk| == BUFFER_LENGTH && Fits(call, n) && Means(img, shell, call, junk, ev)
  }

  lemma ChildHalts(s: State, found: Program)
    requires |s.stacks| == TERMINALS && s.executing < TERMINALS && |s.stacks[s.executing]| > 1
    ensures var c := s.stacks[s.executing];
            Halt(s, found) == (Returned, Popped(s).(esp0 := c[|c| - 1].savedEsp0)) && !Parses(s, HaltNow(found))
  {
  }

  class Kernel {
    const img: seq<Byte>
    const parsed: Parsed
    const shell: seq<Byte>
    var processes: seq<nat>
    var numProcessExecuting: nat
    var terminals: seq<Terminal>
    var pcbs: seq<Pcb>
    var executing: nat
    var nextScheduled: nat
    var displayed: nat
    var esp0: int
    var pde32: int
    ghost var stacks: seq<seq<Frame>>
    ghost var failed: nat

    ghost function View(): State
      reads this
    {
      State(stacks, executing, esp0, numProcessExecuting, failed)
    }

    ghost predicate Valid()
      reads this, parsed, parsed.fname, parsed.arg
    {
      && parsed.Valid() && Free(shell, NUL) && |Argument(shell)| < parsed.arg.Length
      && executing < TERMINALS && Tables(processes, terminals, pcbs, stacks)
    }

    /** Page-directory entry 32 maps the program of the running process. */
    ghost predicate Mapped()
      reads this
    {
      executing < |stacks| && stacks[executing] != [] && pde32 == ProgramFrame(Active(View()))
    }

    /** terminal_init, with the tss the boot code sets up: no process anywhere. behind is what lies in
        memory behind the argument buffer. */
    constructor (img: seq<Byte>, behind: seq<Byte>)
      requires WellFormed(img) && |behind| + ARGLEN < WORD
      ensures Valid() && View() == INITIAL && displayed == 0 && this.img == img && shell == SHELL
      ensures fresh(parsed) && fresh(parsed.fname) && fresh(parsed.arg)
    {
      this.img := img;
      shell := SHELL;
      parsed := new Parsed(behind);
      processes := [0, 0, 0, 0, 0, 0];
      numProcessExecuting := 0;
      terminals := [Terminal(0, 0), Terminal(0, 0), Terminal(0, 0)];
      pcbs := seq(SLOTS, _ => Pcb(0, 0, 0));
      executing, nextScheduled, displayed := 0, 0, 0;
      esp0, pde32 := EIGHT_MB, 0;
      stacks, failed := [[], [], []], 0;
      new;
      ShellName();
      NoneUsed(processes);
      TotalOfThree(stacks);
    }

    /** The slot search of sys_execute: the first free slot is marked; SLOTS when there is none. */
    method TakeSlot() returns (p: nat)
      requires Valid()
      modifies this`processes
      ensures p == LowestFree(stacks, 0)
      ensures processes == if p < SLOTS then old(processes)[p := 1] else old(processes)
    {
      for i := 0 to SLOTS
        invariant LowestFree(stacks, 0) == LowestFree(stacks, i) && processes == old(processes)
      {
        assert processes[i] != 0 <==> InUse(stacks, i);
        if processes[i] == 0 {
          processes := processes[i := 1];
          return i;
        }
      }
      return SLOTS;
    }

    /** process_map. */
    method ProcessMap(p: nat)
      modifies this`pde32
      ensures pde32 == ProgramFrame(p)
    {
      pde32 := EIGHT_MB + FOUR_MB * p;
    }

    /** sys_execute after the slot search: counters, mapping, PCB and tss for the new process. */
    method EnterProcess(p: nat)
      requires executing < |terminals| && p < |pcbs|
      modifies this`numProcessExecuting, this`terminals, this`pcbs, this`esp0, this`pde32
      ensures numProcessExecuting == Up(old(numProcessExecuting)) && esp0 == StackTop(p) && pde32 == ProgramFrame(p)
      ensures terminals == old(terminals)[executing := Terminal(PcbAddress(p), old(terminals)[executing].processes + 1)]
      ensures var t := old(terminals)[executing];
              pcbs == old(pcbs)[p := Pcb(p, if t.processes == 0 then 0 else t.activePcb, old(esp0))]
    {
      var e := executing;
      numProcessExecuting := Up(numProcessExecuting);
      terminals := terminals[e := terminals[e].(processes := terminals[e].processes + 1)];
      ProcessMap(p);
      var parent := terminals[e].activePcb;
      terminals := terminals[e := terminals[e].(activePcb := EIGHT_MB - (p + 1) * EIGHT_KB)];
      pcbs := pcbs[p := Pcb(p, if terminals[e].processes <= 1 then 0 else parent, esp0)];
      esp0 := EIGHT_MB - EIGHT_KB * p;
    }

    /** The new process in slot p is on top of the executing terminal's stack. */
    method FillSlot(p: nat, ghost was: seq<nat>)
      requires parsed.Valid() && Free(shell, NUL) && |Argument(shell)| < parsed.arg.Length
      requires executing < TERMINALS && Tables(was, terminals, pcbs, stacks)
      requires p == LowestFree(stacks, 0) < SLOTS && processes == was[p := 1]
      modifies this`numProcessExecuting, this`terminals, this`pcbs, this`esp0, this`pde32, this`stacks
      ensures Valid() && Mapped() && View() == Launch(old(View()))
    {
      ghost var s := View();
      EnterProcess(p);
      stacks := Launch(s).stacks;
      LaunchedTables(was, old(terminals), old(pcbs), s, p, processes, terminals, pcbs, stacks);
      LaunchActive(s);
      assert View() == Launch(s);
    }

    /** sys_execute from the slot search on. */
    method LaunchProgram() returns (o: Outcome)
      requires Valid()
      modifies this`processes, this`numProcessExecuting, this`terminals, this`pcbs, this`esp0, this`pde32, this`stacks
      ensures o == if LowestFree(old(stacks), 0) == SLOTS then NoSlot else Launched
      ensures o == NoSlot ==> unchanged(this)
      ensures o == Launched ==> Mapped() && View() == Launch(old(View()))
      ensures Valid()
    {
      ghost var was := processes;
      var p := TakeSlot();
      if p == SLOTS {
        return NoSlot;
      }
      FillSlot(p, was);
      return Launched;
    }

    /** The bytes executable_check reads. */
    method ReadHead(d: nat, junk: seq<Byte>) returns (head: seq<Byte>)
      requires WellFormed(img) && d < DirCount(img) && |junk| == BUFFER_LENGTH
      ensures head == Head(img, EntryInode(img, d), junk)
    {
      var buf := new Byte[BUFFER_LENGTH](i requires 0 <= i < BUFFER_LENGTH => junk[i]);
      assert buf[..] == junk;
      var r := ReadData(img, EntryInode(img, d), 0, buf, 0, BUFFER_LENGTH);
      assert buf[..] == buf[..r] + buf[r..];
      return buf[..];
    }

    /** executable_check: the first four bytes of the file; a failure takes one from the process count. */
    method ExecutableCheck(d: nat, junk: seq<Byte>) returns (ok: bool)
      requires Valid() && WellFormed(img) && d < DirCount(img) && |junk| == BUFFER_LENGTH
      modifies this`numProcessExecuting, this`failed
      ensures Valid() && ok == (Head(img, EntryInode(img, d), junk)[..4] == MAGIC)
      ensures View() == Checked(old(View()), if ok then Executable else NotExecutable)
    {
      var buf := ReadHead(d, junk);
      ok := buf[0] == 0x7F && buf[1] == 0x45 && buf[2] == 0x4C && buf[3] == 0x46;
      assert buf[..4] == [buf[0], buf[1], buf[2], buf[3]];
      if !ok {
        numProcessExecuting := Down(numProcessExecuting);
        failed := failed + 1;
      }
    }

    /** The directory entry of a command, through the name buffer. */
    method FindProgram(command: seq<Byte>) returns (d: int)
      requires parsed.Valid() && WellFormed(img) && Free(command, NUL) && |Argument(command)| < parsed.arg.Length
      modifies parsed, parsed.fname, parsed.arg
      ensures parsed.Valid() && parsed.Holds(command) && d == Lookup(img, Padded(Name(command), NAME_LENGTH))
    {
      parsed.ParseCommand(command);
      d := FindEntry(img, parsed.fname[..]);
    }

    /** The first half of sys_halt: the process is taken out of the counters and its slot freed. */
    method Release(slot: nat)
      requires Valid() && stacks[executing] != [] && slot < SLOTS && pcbs[slot].processNum == slot
      modifies this`processes, this`numProcessExecuting, this`terminals
      ensures numProcessExecuting == Down(old(numProcessExecuting)) && processes == old(processes)[slot := 0]
      ensures var t := old(terminals)[executing];
              terminals == old(terminals)[executing := Terminal(t.activePcb, |stacks[executing]| - 1)]
    {
      assert DescribedAt(terminals, pcbs, stacks, executing);
      numProcessExecuting := Down(numProcessExecuting);
      terminals := terminals[executing := terminals[executing].(processes := terminals[executing].processes - 1)];
      processes := processes[pcbs[slot].processNum := 0];
    }

    /** sys_halt of a root process: the slot is free again and shell is executed. NullParent is the
        null-pointer access that follows when that fails. */
    method HaltRoot(slot: nat, junk: seq<Byte>, ghost found: Program) returns (o: HaltOutcome)
      requires Valid() && WellFormed(img) && Inv(View()) && Running(View()) && |junk| == BUFFER_LENGTH
      requires |stacks[executing]| == 1 && slot == Active(View()) && slot < SLOTS && pcbs[slot].processNum == slot
      requires Finds(img, shell, junk, found)
      modifies this`processes, this`numProcessExecuting, this`terminals, this`pcbs, this`esp0, this`pde32,
               this`stacks, this`failed
      modifies parsed, parsed.fname, parsed.arg
      ensures Valid() && (o, View()) == Halt(old(View()), found)
      ensures o == Relaunched ==> Mapped()
      ensures if Parses(old(View()), HaltNow(found)) then parsed.Has(shell)
              else unchanged(parsed, parsed.fname, parsed.arg)
    {
      ghost var s := View();
      Release(slot);
      stacks := Popped(s).stacks;
      PoppedTables(old(processes), old(terminals), pcbs, s, old(terminals)[executing].activePcb, processes,
          terminals, stacks);
      assert View() == Popped(s);
      var r := SysExecute(Some(shell), junk, found);
      return if r == Launched then Relaunched else NullParent;
    }

    /** sys_halt of a process with a parent, on the tables. */
    method BackToParent(slot: nat)
      requires Valid() && stacks[executing] != [] && slot < SLOTS && pcbs[slot].processNum == slot
      requires 0 <= SlotAt(pcbs[slot].parentPcb) < SLOTS
      modifies this`processes, this`numProcessExecuting, this`terminals, this`esp0, this`pde32
      ensures numProcessExecuting == Down(old(numProcessExecuting)) && processes == old(processes)[slot := 0]
      ensures terminals == old(terminals)[executing := Terminal(pcbs[slot].parentPcb, |stacks[executing]| - 1)]
      ensures esp0 == pcbs[slot].currEsp0 && pde32 == ProgramFrame(pcbs[SlotAt(pcbs[slot].parentPcb)].processNum)
    {
      var curr := pcbs[slot];
      Release(slot);
      terminals := terminals[executing := terminals[executing].(activePcb := curr.parentPcb)];
      ProcessMap(pcbs[SlotAt(curr.parentPcb)].processNum);
      esp0 := curr.currEsp0;
    }

    /** sys_halt of a process with a parent: chain, mapping and esp0 go back to the parent. */
    method HaltChild(slot: nat, ghost found: Program)
      requires Valid() && Inv(View()) && |stacks[executing]| > 1
      requires slot == Active(View()) && slot < SLOTS && pcbs[slot].processNum == slot
      requires var c := stacks[executing];
               var q := c[|c| - 2].slot;
               && pcbs[slot] == Pcb(slot, Top(c[..|c| - 1]), c[|c| - 1].savedEsp0)
               && SlotAt(Top(c[..|c| - 1])) == q < SLOTS && pcbs[q].processNum == q
      modifies this`processes, this`numProcessExecuting, this`terminals, this`esp0, this`pde32, this`stacks
      ensures Valid() && Mapped()
      ensures var c := old(stacks)[executing]; View() == Popped(old(View())).(esp0 := c[|c| - 1].savedEsp0)
      ensures (Returned, View()) == Halt(old(View()), found) && !Parses(old(View()), HaltNow(found))
    {
      ghost var s := View();
      ChildHalts(s, found);
      ghost var curr := pcbs[slot];
      BackToParent(slot);
      stacks := Popped(s).stacks;
      PoppedTables(old(processes), old(terminals), pcbs, s, curr.parentPcb, processes, terminals, stacks);
    }

    /** The slot of the running process, by its active_pcb, and what stands in its PCB. */
    method RunningSlot() returns (slot: nat)
      requires Valid() && Inv(View()) && stacks[executing] != []
      ensures var c := stacks[executing];
              && slot == Active(View()) && slot < SLOTS
              && pcbs[slot] == Pcb(slot, Top(c[..|c| - 1]), c[|c| - 1].savedEsp0)
              && (pcbs[slot].parentPcb == 0 <==> |c| == 1)
              && (|c| > 1 ==>
                    var q := c[|c| - 2].slot;
                    SlotAt(Top(c[..|c| - 1])) == q < SLOTS && pcbs[q].processNum == q)
    {
      assert DescribedAt(terminals, pcbs, stacks, executing);
      RunningPcb(terminals, pcbs, View());
      return SlotAt(terminals[executing].activePcb);
    }

    /** sys_halt: back to the parent, or a new shell for a root process. */
    method SysHalt(status: Byte, junk: seq<Byte>, ghost found: Program) returns (o: HaltOutcome, ret: nat)
      requires Valid() && WellFormed(img) && Inv(View()) && Running(View()) && |junk| == BUFFER_LENGTH
      requires Finds(img, shell, junk, found)
      modifies this`processes, this`numProcessExecuting, this`terminals, this`pcbs, this`esp0, this`pde32,
               this`stacks, this`failed
      modifies parsed, parsed.fname, parsed.arg
      ensures Valid() && (o, View()) == Halt(old(View()), found)
      ensures o != NullParent ==> Mapped()
      ensures if Parses(old(View()), HaltNow(found)) then parsed.Has(shell)
              else unchanged(parsed, parsed.fname, parsed.arg)
      ensures o == Returned ==> ret == if status == 0xFF then 256 else status
    {
      var slot := RunningSlot();
      if pcbs[slot].parentPcb == 0 {
        o := HaltRoot(slot, junk, found);
        ret := 0;
      } else {
        HaltChild(slot, found);
        o, ret := Returned, if status == 0xFF then 256 else status;
      }
    }

    /** context_switch to nextScheduled. A terminal without processes gets a shell; when that is refused,
        executing_terminal goes back and displayed_terminal follows it. Unslotted is the point past which
        the launch is undefined. */
    method ContextSwitch(junk: seq<Byte>, ghost found: Program) returns (o: SwitchOutcome)
      requires Valid() && WellFormed(img) && Inv(View()) && Running(View()) && Mapped() && nextScheduled < TERMINALS
      requires |junk| == BUFFER_LENGTH
      requires Finds(img, shell, junk, found)
      modifies this, parsed, parsed.fname, parsed.arg
      ensures nextScheduled == old(nextScheduled) && o == Switch(old(View()), nextScheduled, found).0
      ensures o == Unslotted <==> ShellUnslotted(old(View()), nextScheduled, found)
      ensures o != Unslotted ==>
                && Valid() && Mapped() && View() == Switch(old(View()), nextScheduled, found).1
                && displayed == if ShellRefused(old(View()), nextScheduled, found) then old(executing)
                                else old(displayed)
      ensures o != Unslotted ==>
                if Launching(old(View()), nextScheduled) then parsed.Has(shell)
                else unchanged(parsed, parsed.fname, parsed.arg)
    {
      assert DescribedAt(terminals, pcbs, stacks, 0) && DescribedAt(terminals, pcbs, stacks, nextScheduled);
      SwitchOutcomes(View(), nextScheduled, found);
      if terminals[0].processes == 0 || nextScheduled == executing {
        o := Idle;
      } else if terminals[nextScheduled].processes == 0 {
        assert stacks[0] != [] && stacks[nextScheduled] == [];
        o := StartShell(junk, found);
      } else {
        assert stacks[0] != [] && stacks[nextScheduled] != [];
        SwitchTo();
        o := Switched;
      }
    }

    /** context_switch to a terminal with processes. */
    method SwitchTo()
      requires Valid() && nextScheduled < TERMINALS && stacks[nextScheduled] != []
      modifies this`pde32, this`esp0, this`executing
      ensures Valid() && Mapped() && executing == nextScheduled
      ensures View() == old(View()).(executing := nextScheduled, esp0 := StackTop(Active(View())) - 4)
    {
      assert DescribedAt(terminals, pcbs, stacks, nextScheduled);
      RunningPcb(terminals, pcbs, View().(executing := nextScheduled));
      var next := pcbs[SlotAt(terminals[nextScheduled].activePcb)].processNum;
      ProcessMap(next);
      esp0 := EIGHT_MB - EIGHT_KB * next - 4;
      executing := nextScheduled;
    }

    /** sys_execute of shell on terminal n. */
    method ExecuteShell(n: nat, junk: seq<Byte>, ghost found: Program) returns (o: Outcome)
      requires Valid() && WellFormed(img) && n < TERMINALS && |junk| == BUFFER_LENGTH
      requires Finds(img, shell, junk, found)
      modifies this`executing
      modifies this`processes, this`numProcessExecuting, this`terminals, this`pcbs, this`esp0, this`pde32,
               this`stacks, this`failed
      modifies parsed, parsed.fname, parsed.arg
      ensures Valid() && (o, View()) == Execute(old(View()).(executing := n), found)
      ensures executing == n && if o == Launched then Mapped() else pde32 == old(pde32) && stacks == old(stacks)
      ensures if old(numProcessExecuting) != SLOTS then parsed.Has(shell)
              else unchanged(parsed, parsed.fname, parsed.arg)
    {
      executing := n;
      o := SysExecute(Some(shell), junk, found);
    }

    /** context_switch to a terminal without processes. */
    method StartShell(junk: seq<Byte>, ghost found: Program) returns (o: SwitchOutcome)
      requires Valid() && WellFormed(img) && Mapped() && nextScheduled < TERMINALS && |junk| == BUFFER_LENGTH
      requires Finds(img, shell, junk, found)
      modifies this`executing, this`displayed
      modifies this`processes, this`numProcessExecuting, this`terminals, this`pcbs, this`esp0, this`pde32,
               this`stacks, this`failed
      modifies parsed, parsed.fname, parsed.arg
      ensures o == Started(old(View()), nextScheduled, found).0
      ensures o != Unslotted ==> Valid() && Mapped() && View() == Started(old(View()), nextScheduled, found).1
      ensures displayed == if o == ShellFailed then old(executing) else old(displayed)
      ensures o != Unslotted ==>
                if old(numProcessExecuting) != SLOTS then parsed.Has(shell)
                else unchanged(parsed, parsed.fname, parsed.arg)
    {
      var temp := executing;
      var r := ExecuteShell(nextScheduled, junk, found);
      if r == Launched {
        o := ShellStarted;
      } else if r == NoSlot {
        o := Unslotted;
      } else {
        executing := temp;
        displayed := temp;
        o := ShellFailed;
      }
    }

    /** pit_interrupt: round robin over the terminals. */
    method PitInterrupt(junk: seq<Byte>, ghost found: Program) returns (o: SwitchOutcome)
      requires Valid() && WellFormed(img) && Inv(View()) && Running(View()) && Mapped() && |junk| == BUFFER_LENGTH
      requires Finds(img, shell, junk, found)
      modifies this, parsed, parsed.fname, parsed.arg
      ensures var step := Step(old(View()), Timer(found));
              && (o == Unslotted <==> step == None)
              && (o != Unslotted ==> Valid() && Mapped() && step == Some(View()))
      ensures o == Switch(old(View()), Next(old(executing)), found).0
      ensures o != Unslotted ==>
                displayed == if ShellRefused(old(View()), Next(old(executing)), found) then old(executing)
                             else old(displayed)
      ensures o != Unslotted ==>
                if Parses(old(View()), Timer(found)) then parsed.Has(shell)
                else unchanged(parsed, parsed.fname, parsed.arg)
    {
      ghost var s := View();
      nextScheduled := (executing + 1) % TERMINALS;
      assert nextScheduled == Next(s.executing) && View() == s;
      o := ContextSwitch(junk, found);
    }

    /** Everything that holds between calls while processes run. */
    ghost predicate Alive()
      reads this, parsed, parsed.fname, parsed.arg
    {
      Valid() && WellFormed(img) && Inv(View()) && Running(View()) && Mapped()
    }

    /** One call, event ev of the abstract machine; false when it is past its defined behaviour. */
    method Perform(call: Call, junk: seq<Byte>, ghost ev: Event) returns (ok: bool)
      requires Alive() && Admits(img, shell, parsed.arg.Length, call, junk, ev)
      modifies this, parsed, parsed.fname, parsed.arg
      ensures var step := Step(old(View()), ev);
              && (ok <==> step != None)
              && (ok ==> Alive() && step == Some(View()))
      ensures ok ==>
                if Parses(old(View()), ev) then parsed.Has(CommandOf(shell, call))
                else unchanged(parsed, parsed.fname, parsed.arg)
    {
      ghost var s := View();
      match call {
        case ExecuteCall(command) =>
          var o := SysExecute(command, junk, if ev.Exec? then ev.program else Missing);
          ok := o != NoSlot;
        case HaltCall(status) =>
          var o, ret := SysHalt(status, junk, ev.shell);
          ok := o != NullParent;
        case TimerCall =>
          var o := PitInterrupt(junk, ev.shell);
          ok := o != Unslotted;
      }
      if ok {
        StepKeeps(s, ev, View());
      }
    }

    /** Any run of calls, up to the first one past its defined behaviour: it is a run of the abstract
        machine, the tables describe its last state, and the buffers hold the command it parsed last. */
    method Play(calls: seq<Call>, junks: seq<seq<Byte>>, ghost events: seq<Event>, ghost commands: seq<seq<Byte>>,
                ghost first: seq<Byte>)
        returns (done: nat, ghost trace: seq<State>)
      requires Alive() && parsed.Has(first) && |junks| == |calls| == |events| == |commands|
      requires forall k {:trigger events[k]} :: 0 <= k < |calls| ==>
                 Admits(img, shell, parsed.arg.Length, calls[k], junks[k], events[k])
      requires forall k {:trigger commands[k]} :: 0 <= k < |calls| ==> commands[k] == CommandOf(shell, calls[k])
      modifies this, parsed, parsed.fname, parsed.arg
      ensures done <= |calls| && |trace| == done + 1 && trace[0] == old(View()) && IsRun(trace, events[..done])
      ensures if done == |calls| then Alive() && View() == trace[done]
              else Inv(trace[done]) && Running(trace[done]) && Step(trace[done], events[done]) == None
      ensures done == |calls| ==> parsed.Has(InBuffers(trace, events, commands, first, done))
    {
      trace := [View()];
      done := 0;
      ghost var past: seq<Event> := [];
      while done < |calls|
        invariant done <= |calls| && |trace| == done + 1 && trace[0] == old(View()) && past == events[..done]
        invariant Alive() && View() == trace[done] && IsRun(trace, past)
        invariant parsed.Has(InBuffers(trace, past, commands, first, done))
      {
        var ok := Perform(calls[done], junks[done], events[done]);
        if !ok {
          break;
        }
        RunGrows(trace, past, events[done], View());
        InBuffersNext(trace, past, commands, first, View(), events[done]);
        PrefixGrows(events, done);
        trace, past := trace + [View()], past + [events[done]];
        done := done + 1;
      }
      assert done == |calls| ==> past == events;
    }

    /** What the command names: parsing, directory scan and executable check. */
    method CheckProgram(command: seq<Byte>, junk: seq<Byte>, ghost found: Program) returns (program: Program)
      requires Valid() && WellFormed(img) && |junk| == BUFFER_LENGTH && Free(command, NUL)
               && |Argument(command)| < parsed.arg.Length
      requires Finds(img, command, junk, found)
      modifies this`numProcessExecuting, this`failed, parsed, parsed.fname, parsed.arg
      ensures Valid() && parsed.Holds(command) && program == found
      ensures View() == Checked(old(View()), program) && pde32 == old(pde32)
    {
      assert found == ProgramOf(img, command, junk);
      var d := FindProgram(command);
      if d < 0 {
        return Missing;
      }
      var ok := ExecutableCheck(d, junk);
      return if ok then Executable else NotExecutable;
    }

    /** sys_execute. */
    method SysExecute(command: Option<seq<Byte>>, junk: seq<Byte>, ghost found: Program) returns (o: Outcome)
      requires Valid() && WellFormed(img) && |junk| == BUFFER_LENGTH
      requires command.Some? ==> Free(command.value, NUL) && |Argument(command.value)| < parsed.arg.Length
      requires command.Some? ==> Finds(img, command.value, junk, found)
      modifies this`processes, this`numProcessExecuting, this`terminals, this`pcbs, this`esp0, this`pde32,
               this`stacks, this`failed
      modifies parsed, parsed.fname, parsed.arg
      ensures Valid()
      ensures command.None? ==>
                View() == old(View()) && o == if old(numProcessExecuting) == SLOTS then LimitReached else NullCommand
      ensures command.Some? ==> (o, View()) == Execute(old(View()), found)
      ensures command.Some? && o != LimitReached ==> parsed.Has(command.value)
      ensures command.None? || o == LimitReached ==> unchanged(parsed, parsed.fname, parsed.arg)
      ensures if o == Launched then Mapped()
              else pde32 == old(pde32) && stacks == old(stacks) && executing == old(executing)
    {
      if numProcessExecuting == SLOTS {
        return LimitReached;
      }
      if command.None? {
        return NullCommand;
      }
      var program := CheckProgram(command.value, junk, found);
      o := LaunchFound(program, old(View()));
    }

    /** The rest of sys_execute, by what the command turned out to be. */
    method LaunchFound(program: Program, ghost s: State) returns (o: Outcome)
      requires Valid() && s.executing < |s.stacks| && View() == Checked(s, program) && s.counter != SLOTS
      modifies this`processes, this`numProcessExecuting, this`terminals, this`pcbs, this`esp0, this`pde32, this`stacks
      ensures Valid() && (o, View()) == Execute(s, program)
      ensures if o == Launched then Mapped()
              else pde32 == old(pde32) && stacks == old(stacks) && executing == old(executing)
    {
      if program == Missing {
        return NotFound;
      }
      if program == NotExecutable {
        return BadMagic;
      }
      o := LaunchProgram();
    }
  }

  /** The end of entry: the first shell, on terminal 0. Play takes over from here. */
  method Boot(img: seq<Byte>, behind: seq<Byte>, junk: seq<Byte>) returns (k: Kernel, ok: bool)
    requires WellFormed(img) && |behind| + ARGLEN < WORD && |junk| == BUFFER_LENGTH
    ensures fresh(k) && k.img == img && k.shell == SHELL && (ok <==> ProgramOf(img, SHELL, junk) == Executable)
    ensures ok ==> k.Alive() && AfterLaunches(k.View(), 1) && k.displayed == 0 && k.parsed.Has(SHELL)
    ensures fresh(k.parsed) && fresh(k.parsed.fname) && fresh(k.parsed.arg)
  {
    k := new Kernel(img, behind);
    ok := FirstShell(k, junk, ProgramOf(img, SHELL, junk));
  }

  method FirstShell(k: Kernel, junk: seq<Byte>, ghost found: Program) returns (ok: bool)
    requires k.Valid() && k.View() == INITIAL && WellFormed(k.img) && |junk| == BUFFER_LENGTH
    requires Finds(k.img, k.shell, junk, found)
    modifies k`processes, k`numProcessExecuting, k`terminals, k`pcbs, k`esp0, k`pde32, k`stacks, k`failed
    modifies k.parsed, k.parsed.fname, k.parsed.arg
    ensures ok <==> found == Executable
    ensures ok ==> k.Alive() && AfterLaunches(k.View(), 1) && k.parsed.Has(k.shell)
  {
    FirstLaunch(found);
    var o := k.SysExecute(Some(k.shell), junk, found);
    ok := o == Launched;
  }

  /** After a run of calls executing_terminal is told by the number of timer interrupts, when every terminal
      has had a process all along, and num_process_executing by the processes and the files that were found
      and are no executables. */
  method PlayTurns(k: Kernel, calls: seq<Call>, junks: seq<seq<Byte>>, ghost events: seq<Event>,
                   ghost commands: seq<seq<Byte>>, ghost first: seq<Byte>)
      returns (done: nat, ghost trace: seq<State>, ghost bad: nat)
    requires k.Alive() && k.parsed.Has(first) && |junks| == |calls| == |events| == |commands|
    requires forall j {:trigger events[j]} :: 0 <= j < |calls| ==>
               Admits(k.img, k.shell, k.parsed.arg.Length, calls[j], junks[j], events[j])
    requires forall j {:trigger commands[j]} :: 0 <= j < |calls| ==> commands[j] == CommandOf(k.shell, calls[j])
    modifies k, k.parsed, k.parsed.fname, k.parsed.arg
    ensures done <= |calls| && |trace| == done + 1 && trace[0] == old(k.View()) && IsRun(trace, events[..done])
    ensures done == |calls| ==>
              && k.Alive() && k.View() == trace[done] && Tables(k.processes, k.terminals, k.pcbs, k.stacks)
              && k.pde32 == 0x80_0000 + 0x40_0000 * Active(k.View())
    ensures done == |calls| && AllAlive(trace[0]) && Counted(trace[0]) ==>
              k.executing == Turn(old(k.executing), Timers(events))
    ensures done == |calls| && old(k.numProcessExecuting) == Total(old(k.stacks)) && old(k.failed) == 0 ==>
              && bad == BadFiles(trace, events, done)
              && k.numProcessExecuting == Less(Total(k.stacks), bad)
  {
    done, trace := k.Play(calls, junks, events, commands, first);
    bad := 0;
    if done == |calls| {
      assert events[..done] == events;
      TurnsTaken(trace, events);
      bad := CounterLeft(trace, events);
    }
  }

  lemma TurnsTaken(trace: seq<State>, events: seq<Event>)
    requires IsRun(trace, events)
    ensures AllAlive(trace[0]) && Counted(trace[0]) ==>
              trace[|events|].executing == Turn(trace[0].executing, Timers(events))
  {
    if AllAlive(trace[0]) && Counted(trace[0]) {
      RunTurns(trace, events, |events|);
      assert events[..|events|] == events;
    }
  }

  lemma CounterLeft(trace: seq<State>, events: seq<Event>) returns (bad: nat)
    requires IsRun(trace, events)
    ensures trace[0].counter == Total(trace[0].stacks) && trace[0].failed == 0 ==>
              && bad == BadFiles(trace, events, |events|)
              && trace[|events|].counter == Less(Total(trace[|events|].stacks), bad)
  {
    bad := 0;
    if trace[0].counter == Total(trace[0].stacks) && trace[0].failed == 0 {
      bad := RunCounterExact(trace, events, |events|);
    }
  }

  /** A program is executed and halts at once: tables and counter describe what they did before, and what the
      terminal's program was doing goes on. */
  method ExecuteAndHalt(k: Kernel, command: seq<Byte>, status: Byte, junk: seq<Byte>, ghost shell: Program)
    requires k.Alive() && Counted(k.View()) && k.numProcessExecuting != 6 && Total(k.stacks) < 6
    requires Fits(ExecuteCall(Some(command)), k.parsed.arg.Length) && |junk| == BUFFER_LENGTH
    requires Finds(k.img, command, junk, Executable) && Finds(k.img, k.shell, junk, shell)
    modifies k, k.parsed, k.parsed.fname, k.parsed.arg
    ensures k.Alive() && k.View() == old(k.View())
  {
    ExecuteExact(k.View(), Executable);
    HaltUndoesExecute(k.View(), shell);
    var started := k.Perform(ExecuteCall(Some(command)), junk, Exec(Executable));
    var halted := k.Perform(HaltCall(status), junk, HaltNow(shell));
  }

  // ----- whose argument a program gets -----

  /** A run of calls and then a sys_getargs, for a program that call i of the run launched: it gets its own
      argument exactly when the text left by the last command parsed since is that argument. */
  method PlayGetargs(k: Kernel, calls: seq<Call>, junks: seq<seq<Byte>>, ghost events: seq<Event>,
                     ghost commands: seq<seq<Byte>>, ghost first: seq<Byte>, ghost i: nat, buf: array<Byte>,
                     nbytes: nat)
      returns (done: nat, ghost trace: seq<State>, r: int)
    requires k.Alive() && k.parsed.Has(first) && |junks| == |calls| == |events| == |commands| && i < |calls|
    requires forall j {:trigger events[j]} :: 0 <= j < |calls| ==>
               Admits(k.img, k.shell, k.parsed.arg.Length, calls[j], junks[j], events[j])
    requires forall j {:trigger commands[j]} :: 0 <= j < |calls| ==>
               commands[j] == CommandOf(k.shell, calls[j]) && Free(commands[j], NUL)
    requires buf != k.parsed.arg && buf != k.parsed.fname && Free(first, NUL)
    requires |Argument(commands[i])| < nbytes <= buf.Length && nbytes < k.parsed.arg.Length && 2 * nbytes < WORD
    modifies k, k.parsed, k.parsed.fname, k.parsed.arg, buf
    ensures done <= |calls| && |trace| == done + 1 && IsRun(trace, events[..done])
    ensures done == |calls| && LaunchesAt(trace, events, i) ==>
              var own, last := Argument(commands[i]), LastParse(trace, events, done);
              && i <= last < |commands|
              && (last == i <==> forall j :: i < j < done ==> !ParsedAt(trace, events, j))
              && k.parsed.Answers(own, commands[last], r, buf[..nbytes])
  {
    done, trace := k.Play(calls, junks, events, commands, first);
    if done < |calls| {
      return done, trace, -1;
    }
    assert events[..done] == events;
    if LaunchesAt(trace, events, i) {
      SinceLaunch(trace, events, commands, first, i);
    }
    InBuffersFree(trace, events, commands, first);
    ghost var c := InBuffers(trace, events, commands, first, done);
    ArgumentFree(commands[i]);
    r := k.parsed.GetOwn(buf, nbytes, c, Argument(commands[i]));
  }

  /** A shell on terminal 0 executes a program with an argument, and a timer interrupt starts shell on
      terminal 1. The program could get its argument before, and gets none after. */
  method LoseArgument(k: Kernel, command: seq<Byte>, junk: seq<Byte>, buf: array<Byte>, nbytes: nat)
      returns (before: int, after: int)
    requires k.Alive() && |junk| == BUFFER_LENGTH && k.shell == SHELL && k.View().executing == 0 && k.stacks[1] == []
    requires k.numProcessExecuting == Total(k.stacks) < SLOTS - 1
    requires Free(command, NUL) && 0 < |Argument(command)| < ARGLEN
    requires Finds(k.img, command, junk, Executable) && Finds(k.img, SHELL, junk, Executable)
    requires buf != k.parsed.arg && buf != k.parsed.fname
    requires |Argument(command)| < nbytes <= buf.Length && nbytes <= ARGLEN
    modifies k, k.parsed, k.parsed.fname, k.parsed.arg, buf
    ensures before == 0 && after == -1
    ensures |k.stacks| == TERMINALS && |k.stacks[0]| == |old(k.stacks)[0]| + 1
  {
    ghost var s' := LosingSteps(k.View());
    before := LaunchAndAsk(k, command, junk, buf, nbytes);
    after := SwitchAndAsk(k, junk, buf, nbytes, s');
  }

  method SwitchAndAsk(k: Kernel, junk: seq<Byte>, buf: array<Byte>, nbytes: nat, ghost s': State) returns (after: int)
    requires k.Alive() && |junk| == BUFFER_LENGTH && k.shell == SHELL && Finds(k.img, SHELL, junk, Executable)
    requires Step(k.View(), Timer(Executable)) == Some(s') && Parses(k.View(), Timer(Executable))
    requires buf != k.parsed.arg && nbytes <= buf.Length && nbytes <= ARGLEN
    modifies k, k.parsed, k.parsed.fname, k.parsed.arg, buf
    ensures k.View() == s' && after == -1
  {
    var ok := k.Perform(TimerCall, junk, Timer(Executable));
    ShellName();
    after := Ask(k.parsed, SHELL, buf, nbytes);
  }

  method LaunchAndAsk(k: Kernel, command: seq<Byte>, junk: seq<Byte>, buf: array<Byte>, nbytes: nat)
      returns (before: int)
    requires k.Alive() && |junk| == BUFFER_LENGTH && Step(k.View(), Exec(Executable)) == Some(Launch(k.View()))
    requires Parses(k.View(), Exec(Executable)) && Finds(k.img, command, junk, Executable)
    requires Free(command, NUL) && 0 < |Argument(command)| < ARGLEN
    requires buf != k.parsed.arg && |Argument(command)| < nbytes <= buf.Length && nbytes <= ARGLEN
    modifies k, k.parsed, k.parsed.fname, k.parsed.arg, buf
    ensures k.Alive() && k.View() == Launch(old(k.View())) && before == 0
  {
    var ok := k.Perform(ExecuteCall(Some(command)), junk, Exec(Executable));
    before := Ask(k.parsed, command, buf, nbytes);
  }

  method Ask(parsed: Parsed, command: seq<Byte>, buf: array<Byte>, nbytes: nat) returns (r: int)
    requires parsed.Valid() && parsed.Has(command) && buf != parsed.arg && nbytes <= buf.Length && nbytes <= ARGLEN
    modifies buf
    ensures r == if Served(Argument(command), nbytes) then 0 else -1
  {
    ghost var name := Name(command);
    r := parsed.GetArgs(buf, nbytes, command);
  }

  lemma {:induction false} NoneUsed(processes: seq<nat>)
    requires forall i :: 0 <= i < |processes| ==> processes[i] == 0
    ensures CountUsed(processes) == 0
  {
    if processes != [] {
      NoneUsed(processes[..|processes| - 1]);
    }
  }
}
