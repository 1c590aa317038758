/** Whose argument sys_getargs hands over: fname, arg and arg_length belong to no process (syscall.c:24-26). */
module Arguments {
  import opened Machine
  import opened Bytes
  import opened Commands
  import opened Processes
  import opened ProcessCounts
  import opened ProcessRuns

  /** The step calls parse_command: an execute past the limit test, or one that executes shell. */
  ghost predicate Parses(s: State, ev: Event)
    requires |s.stacks| == TERMINALS && s.executing < TERMINALS && s.stacks[s.executing] != []
  {
    match ev
    case Exec(_) => s.counter != SLOTS
    case ExecNull => false
    case HaltNow(_) => |s.stacks[s.executing]| == 1 && Popped(s).counter != SLOTS
    case Timer(_) => s.stacks[0] != [] && s.stacks[Next(s.executing)] == [] && s.counter != SLOTS
  }

  ghost predicate ParsedAt(trace: seq<State>, events: seq<Event>, j: nat)
    requires j < |trace| && j < |events|
  {
    var s := trace[j];
    && |s.stacks| == TERMINALS && s.executing < TERMINALS && s.stacks[s.executing] != []
    && Parses(s, events[j])
  }

  /** The last step before state k of a run that parsed a command, or -1. */
  ghost function LastParse(trace: seq<State>, events: seq<Event>, k: nat): (i: int)
    requires k <= |trace| && k <= |events|
    ensures -1 <= i < k
    decreases k
  {
    if k == 0 then -1 else if ParsedAt(trace, events, k - 1) then k - 1 else LastParse(trace, events, k - 1)
  }

  /** The command in the buffers, step by step: commands[j] is the one step j parses if it parses one, first
      the one before the run. */
  ghost function InBuffers(trace: seq<State>, events: seq<Event>, commands: seq<seq<Byte>>, first: seq<Byte>,
                           k: nat): seq<Byte>
    requires k <= |trace| && k <= |events| && k <= |commands|
    decreases k
  {
    if k == 0 then first
    else if ParsedAt(trace, events, k - 1) then commands[k - 1]
    else InBuffers(trace, events, commands, first, k - 1)
  }

  /** It is the command of the last step that parsed one. */
  lemma {:induction false} InBuffersIsLast(trace: seq<State>, events: seq<Event>, commands: seq<seq<Byte>>,
                                           first: seq<Byte>, k: nat)
    requires k <= |trace| && k <= |events| && k <= |commands|
    ensures var i := LastParse(trace, events, k);
            InBuffers(trace, events, commands, first, k) == if i < 0 then first else commands[i]
    decreases k
  {
    if k > 0 {
      InBuffersIsLast(trace, events, commands, first, k - 1);
    }
  }

  /** Later steps do not matter. */
  lemma {:induction false} InBuffersGrows(trace: seq<State>, events: seq<Event>, commands: seq<seq<Byte>>,
                                          first: seq<Byte>, k: nat, s: State, ev: Event)
    requires k <= |trace| && k <= |events| && k <= |commands|
    ensures InBuffers(trace + [s], events + [ev], commands, first, k) == InBuffers(trace, events, commands, first, k)
    decreases k
  {
    if k > 0 {
      InBuffersGrows(trace, events, commands, first, k - 1, s, ev);
    }
  }

  /** One step more of a run. */
  lemma InBuffersNext(trace: seq<State>, events: seq<Event>, commands: seq<seq<Byte>>, first: seq<Byte>,
                      s: State, ev: Event)
    requires IsRun(trace, events) && |events| < |commands|
    requires |trace[|events|].stacks| == TERMINALS && trace[|events|].executing < TERMINALS
    requires trace[|events|].stacks[trace[|events|].executing] != []
    ensures var n := |events|;
            InBuffers(trace + [s], events + [ev], commands, first, n + 1) ==
              if Parses(trace[n], ev) then commands[n] else InBuffers(trace, events, commands, first, n)
  {
    var n := |events|;
    InBuffersGrows(trace, events, commands, first, n, s, ev);
    assert (trace + [s])[n] == trace[n] && (events + [ev])[n] == ev;
  }

  /** A program whose command step i parsed, as every launching execute of a run does (LaunchParses), and
      sys_getargs at state k with any count n that leaves room for a terminator: it gets its own argument exactly
      when the text in the buffers is that argument. When nothing has been parsed since, that is so exactly for an
      argument below 128 bytes, or with a NUL behind it. */
  lemma OwnArgumentExact(trace: seq<State>, events: seq<Event>, commands: seq<seq<Byte>>, first: seq<Byte>,
                         i: nat, k: nat, behind: seq<Byte>, n: nat)
    requires |trace| == |events| + 1 && |commands| == |events| && i < k < |trace| && ParsedAt(trace, events, i)
    requires Free(first, NUL) && forall j :: 0 <= j < |commands| ==> Free(commands[j], NUL)
    requires var b := Argument(InBuffers(trace, events, commands, first, k));
             |Argument(commands[i])| < n <= |Kept(b)| + |behind|
    ensures var own, last := Argument(commands[i]), LastParse(trace, events, k);
            && i <= last < |commands|
            && (var b := Argument(commands[last]);
                GetsOwn(own, Argument(InBuffers(trace, events, commands, first, k)), behind, n) <==>
                  OwnInBuffer(own, b, behind, n))
    ensures (forall j :: i < j < k ==> !ParsedAt(trace, events, j)) ==>
              var own := Argument(commands[i]);
              && InBuffers(trace, events, commands, first, k) == commands[i]
              && (GetsOwn(own, own, behind, n) <==> |own| < ARGLEN || behind[0] == NUL)
  {
    var last := LastParse(trace, events, k);
    LastParseFrom(trace, events, i, k);
    InBuffersIsLast(trace, events, commands, first, k);
    ArgumentFree(commands[i]);
    ArgumentFree(commands[last]);
    GetsOwnExact(Argument(commands[i]), Argument(commands[last]), behind, n);
    if last == i {
      OwnText(Argument(commands[i]), behind);
    }
  }

  lemma ArgumentFree(c: seq<Byte>)
    requires Free(c, NUL)
    ensures Free(Argument(c), NUL)
  {
  }

  lemma OwnText(a: seq<Byte>, behind: seq<Byte>)
    ensures Text(a, behind) == a <==> |a| < ARGLEN || behind == [] || behind[0] == NUL
  {
    assert |a + CString(behind)| == |a| + |CString(behind)|;
    assert a + [] == a;
  }

  /** Step i is an execute that launches a program. */
  ghost predicate LaunchesAt(trace: seq<State>, events: seq<Event>, i: nat)
    requires |trace| == |events| + 1 && i < |events|
  {
    events[i].Exec? && Height(trace[i + 1], trace[i].executing) > Height(trace[i], trace[i].executing)
  }

  lemma LaunchParses(trace: seq<State>, events: seq<Event>, i: nat)
    requires IsRun(trace, events) && i < |events| && LaunchesAt(trace, events, i)
    ensures ParsedAt(trace, events, i)
  {
    RunKeeps(trace, events, i);
    assert StepsTo(trace[i], events[i], trace[i + 1]);
  }

  lemma {:induction false} LastParseFrom(trace: seq<State>, events: seq<Event>, i: nat, k: nat)
    requires i < k <= |trace| && k <= |events| && ParsedAt(trace, events, i)
    ensures i <= LastParse(trace, events, k)
    ensures LastParse(trace, events, k) == i <==> forall j :: i < j < k ==> !ParsedAt(trace, events, j)
    decreases k
  {
    var j := k - 1;
    if j > i {
      LastParseFrom(trace, events, i, j);
    }
  }

  /** The command in the buffers after a run that launched a program with step i: it is that of the last step
      that parsed one, which is step i itself exactly when no later step did. */
  lemma SinceLaunch(trace: seq<State>, events: seq<Event>, commands: seq<seq<Byte>>, first: seq<Byte>, i: nat)
    requires IsRun(trace, events) && |commands| == |events| && i < |events| && LaunchesAt(trace, events, i)
    ensures var k := |events|;
            var last := LastParse(trace, events, k);
            && i <= last && InBuffers(trace, events, commands, first, k) == commands[last]
            && (last == i <==> forall j :: i < j < k ==> !ParsedAt(trace, events, j))
  {
    LaunchParses(trace, events, i);
    LastParseFrom(trace, events, i, |events|);
    InBuffersIsLast(trace, events, commands, first, |events|);
  }

  lemma InBuffersFree(trace: seq<State>, events: seq<Event>, commands: seq<seq<Byte>>, first: seq<Byte>)
    requires |trace| >= |events| == |commands|
    requires Free(first, NUL) && forall j {:trigger commands[j]} :: 0 <= j < |commands| ==> Free(commands[j], NUL)
    ensures Free(InBuffers(trace, events, commands, first, |events|), NUL)
  {
    InBuffersIsLast(trace, events, commands, first, |events|);
  }

  /** An execute and a timer step onto a terminal without processes, which executes shell there. */
  lemma LosingSteps(s: State) returns (s': State)
    requires Inv(s) && Running(s) && s.counter == Total(s.stacks) < SLOTS - 1 && s.executing == 0 && s.stacks[1] == []
    ensures Step(s, Exec(Executable)) == Some(Launch(s)) && Parses(s, Exec(Executable))
    ensures Inv(Launch(s)) && Running(Launch(s))
    ensures Step(Launch(s), Timer(Executable)) == Some(s') && Parses(Launch(s), Timer(Executable))
    ensures |s'.stacks| == TERMINALS && |s'.stacks[0]| == |s.stacks[0]| + 1
  {
    FreeSlotExists(s);
    LaunchKeeps(s);
    LaunchTotal(s);
    FreeSlotExists(Launch(s));
    s' := Launch(Launch(s).(executing := 1));
  }
}
