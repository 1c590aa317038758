/** Whole runs of calls on the keyboard buffers and the video pages. */
module ConsoleRuns {
  import opened Machine
  import opened Bytes
  import opened Screens
  import opened Consoles
  import opened Keyboards

  /** A step as the screens take it: terminal_write drops NULs. */
  function Told(s: Step): (r: Step)
    ensures Enabled(r) <==> Enabled(s)
  {
    if s.ProgramWrite? then ProgramWrite(NonNul(s.s)) else s
  }

  /** Every other step, and a text without NULs, is told as it is. */
  lemma TextIsTold(s: Step)
    requires s.ProgramWrite? ==> Free(s.s, 0)
    ensures Told(s) == s
  {
    if s.ProgramWrite? {
      NonNulKeeps(s.s);
    }
  }

  lemma {:induction false} NonNulKeeps(s: seq<Byte>)
    requires Free(s, 0)
    ensures NonNul(s) == s
  {
    if s != [] {
      NonNulKeeps(s[..|s| - 1]);
    }
  }

  function ToldAll(run: seq<Step>): (r: seq<Step>)
    ensures |r| == |run| && forall i :: 0 <= i < |run| ==> r[i] == Told(run[i])
  {
    seq(|run|, i requires 0 <= i < |run| => Told(run[i]))
  }

  lemma ToldNext(run: seq<Step>, n: nat)
    requires n < |run|
    ensures ToldAll(run[..n + 1]) == ToldAll(run[..n]) + [Told(run[n])]
  {
  }

  /** What the program on the executing terminal is handed. */
  function ReadBy(k: Console, nbytes: int): seq<Byte>
    requires k.Valid()
  {
    ReadResult(k.ttys[k.ctl.executing].line, nbytes)
  }

  /** A read waits while the flag of the executing terminal is down. */
  predicate Waits(k: Console, s: Step)
    requires k.Valid()
  {
    s.ProgramRead? && !k.ttys[k.ctl.executing].line.ready
  }

  /** What the reads of a run are handed, in order. */
  function Reads(k: Console, run: seq<Step>): seq<seq<Byte>>
    requires k.Valid() && Runnable(run)
  {
    if run == [] then []
    else
      var before, s := run[..|run| - 1], run[|run| - 1];
      Reads(k, before) + if s.ProgramRead? then [ReadBy(ConsoleRun(k, before), s.nbytes)] else []
  }

  lemma RunNext(k: Console, run: seq<Step>, s: Step)
    requires k.Valid() && Runnable(run) && Enabled(s)
    ensures Runnable(run + [s]) && ConsoleRun(k, run + [s]) == ConsoleStep(ConsoleRun(k, run), s)
    ensures Reads(k, run + [s]) == Reads(k, run) + if s.ProgramRead? then [ReadBy(ConsoleRun(k, run), s.nbytes)] else []
  {
    assert (run + [s])[..|run|] == run;
  }

  /** The buffers and pages are those of console k. The trigger keeps them out of proofs that only hand it on. */
  ghost predicate Stands(kb: Keyboard, k: Console)
    reads kb, kb.display, kb.display.frames
  {
    && k.Valid()
    && forall j: Console {:trigger Waits(j, ProgramRead(0))} :: j == k && j.Valid() ==> kb.Valid() && kb.View() == j
  }

  /** One call; false for a read that has to wait. */
  method Perform(kb: Keyboard, s: Step) returns (ok: bool, read: seq<Byte>)
    requires kb.Valid() && Enabled(s)
    modifies kb, kb.display, kb.display.frames
    ensures kb.Valid() && (ok <==> !Waits(old(kb.View()), s))
    ensures kb.View() == if ok then ConsoleStep(old(kb.View()), Told(s)) else old(kb.View())
    ensures ok && s.ProgramRead? ==> read == ReadBy(old(kb.View()), s.nbytes)
  {
    ok, read := true, [];
    match s
    case Code(c) => kb.GetScancode(c);
    case Schedule(t) => kb.Schedule(t);
    case ProgramWrite(b) => Write(kb, b);
    case ProgramRead(n) => ok, read := TryRead(kb, n);
  }

  method TryRead(kb: Keyboard, nbytes: int) returns (ok: bool, read: seq<Byte>)
    requires kb.Valid()
    modifies kb`terminals
    ensures kb.Valid() && (ok <==> !Waits(old(kb.View()), ProgramRead(nbytes)))
    ensures kb.View() == if ok then ConsoleStep(old(kb.View()), ProgramRead(nbytes)) else old(kb.View())
    ensures ok ==> read == ReadBy(old(kb.View()), nbytes)
  {
    ok, read := kb.terminals[kb.display.executing].enterFlag, [];
    if ok {
      read := Read(kb, nbytes);
    }
  }

  method Write(kb: Keyboard, s: seq<Byte>)
    requires kb.Valid()
    modifies kb.display`cursors, kb.display.frames
    ensures kb.Valid() && kb.View() == ConsoleStep(old(kb.View()), ProgramWrite(NonNul(s)))
  {
    ghost var k := kb.View();
    var buf := new Byte[|s|](i requires 0 <= i < |s| => s[i]);
    assert buf[..|s|] == s && kb.View() == k;
    kb.WriteToConsole(buf, |s|);
  }

  method Read(kb: Keyboard, nbytes: int) returns (read: seq<Byte>)
    requires kb.Valid() && kb.terminals[kb.display.executing].enterFlag
    modifies kb`terminals
    ensures kb.Valid() && kb.View() == ConsoleStep(old(kb.View()), ProgramRead(nbytes))
    ensures read == ReadBy(old(kb.View()), nbytes)
  {
    ghost var k, line := kb.View(), kb.Lines()[kb.display.executing];
    assert k.ttys[k.ctl.executing].line == line;
    var buf := new Byte[if nbytes < 0 then 0 else nbytes];
    assert kb.View() == k;
    var r := kb.TerminalRead(buf, nbytes);
    read := buf[..r];
  }

  /** Any run of scancodes, writes, reads and scheduling, in any interleaving, up to the first read that has to
      wait: buffers and pages show what the console of three terminals would, each of them as if it had been
      alone with its own events, and the reads return what that console hands over. */
  method Play(kb: Keyboard, run: seq<Step>) returns (done: nat, handed: seq<seq<Byte>>)
    requires kb.Valid() && Runnable(run)
    modifies kb, kb.display, kb.display.frames
    ensures kb.Valid() && done <= |run| && (done < |run| ==> Waits(kb.View(), run[done]))
    ensures var told, k := ToldAll(run[..done]), old(kb.View());
            && Runnable(told) && kb.View() == ConsoleRun(k, told) && handed == Reads(k, told)
            && forall t :: 0 <= t < TERMINALS ==> kb.View().ttys[t] == TtyRun(k.ttys[t], Own(k.ctl, told, t))
  {
    ghost var k := kb.View();
    ghost var told: seq<Step> := [];
    done, handed := 0, [];
    while done < |run|
      invariant done <= |run| && told == ToldAll(run[..done]) && Runnable(told)
      invariant Stands(kb, ConsoleRun(k, told)) && handed == Reads(k, told)
    {
      var s := run[done];
      var ok, read := PerformOn(kb, s, ConsoleRun(k, told));
      if !ok {
        break;
      }
      RunNext(k, told, Told(s));
      ToldNext(run, done);
      told, done := told + [Told(s)], done + 1;
      handed := handed + if s.ProgramRead? then [read] else [];
    }
    AllIsolated(k, told);
    ghost var waits := Waits(ConsoleRun(k, told), ProgramRead(0));
  }

  method PerformOn(kb: Keyboard, s: Step, ghost c: Console) returns (ok: bool, read: seq<Byte>)
    requires Stands(kb, c) && Enabled(s)
    modifies kb, kb.display, kb.display.frames
    ensures (ok <==> !Waits(c, s)) && Stands(kb, if ok then ConsoleStep(c, Told(s)) else c)
    ensures ok && s.ProgramRead? ==> read == ReadBy(c, s.nbytes)
  {
    ghost var waits := Waits(c, ProgramRead(0));
    ok, read := Perform(kb, s);
  }

  lemma AllIsolated(k: Console, run: seq<Step>)
    requires k.Valid() && Runnable(run)
    ensures forall t :: 0 <= t < TERMINALS ==> ConsoleRun(k, run).ttys[t] == TtyRun(k.ttys[t], Own(k.ctl, run, t))
  {
    forall t | 0 <= t < TERMINALS
      ensures ConsoleRun(k, run).ttys[t] == TtyRun(k.ttys[t], Own(k.ctl, run, t))
    {
      TerminalsAreIsolated(k, run, t);
    }
  }

  /** The same for a terminal that only keys other than Enter and Ctrl-L reach: its page shows what it showed,
      followed by exactly the characters that its keyboard buffer holds. */
  method PlayTyping(kb: Keyboard, run: seq<Step>, ghost t: nat, ghost base: seq<Byte>, ghost top: nat)
      returns (done: nat, ghost top': nat)
    requires kb.Valid() && Runnable(run) && t < TERMINALS
    requires ShowsLine(kb.display.ScreenOf(t), base, kb.Lines()[t].typed, top)
    requires forall n :: 0 <= n <= |run| ==> KeysOnly(Own(kb.Ctl(), ToldAll(run[..n]), t))
    modifies kb, kb.display, kb.display.frames
    ensures kb.Valid() && done <= |run|
    ensures kb.Lines()[t].typed ==
              EditAll(old(kb.Lines())[t].typed, KeysOf(Own(old(kb.Ctl()), ToldAll(run[..done]), t)))
    ensures ShowsLine(kb.display.ScreenOf(t), base, kb.Lines()[t].typed, top')
  {
    ghost var k := kb.View();
    assert k.ttys[t] == Tty(kb.display.ScreenOf(t), kb.Lines()[t]) && k.ctl == kb.Ctl();
    var handed;
    done, handed := Play(kb, run);
    assert kb.View().ttys[t] == Tty(kb.display.ScreenOf(t), kb.Lines()[t]);
    assert KeysOnly(Own(k.ctl, ToldAll(run[..done]), t));
    top' := TypingRunShows(k, ToldAll(run[..done]), t, base, top);
  }

  ghost predicate KeysOnly(events: seq<Event>) {
    forall i :: 0 <= i < |events| ==> events[i].Press?
  }
}
