/** A program's read of descriptor 0: sys_read, the descriptor table and terminal_read together. */
module TerminalInput {
  import opened Machine
  import opened Bytes
  import opened FileTables
  import opened Screens
  import opened Consoles
  import opened Keyboards
  import opened ConsoleRuns

  /** read(fd, buf, nbytes) on a descriptor of the terminal, once enter_flag of the executing terminal is up. */
  method ReadTerminal(files: FileTable, kb: Keyboard, fd: int, buf: array<Byte>, nbytes: int, ghost k: Console)
    returns (r: int)
    requires files.Valid() && !files.Refused(fd) && files.desc[fd].kind == Terminal
    requires Stands(kb, k) && k.ttys[k.ctl.executing].line.ready
    requires 0 < nbytes <= buf.Length && 2 * nbytes < WORD && buf !in kb.display.frames
    modifies kb`terminals, files.desc, buf
    ensures files.Valid() && files.desc[..] == old(files.desc[..])
    ensures Stands(kb, ConsoleStep(k, ProgramRead(nbytes)))
    ensures 0 <= r <= buf.Length && buf[..r] == ReadBy(k, nbytes) && buf[r..] == old(buf[r..])
  {
    var line := TakeLine(kb, nbytes, k);
    r := Deliver(files, fd, buf, nbytes, line);
  }

  method TakeLine(kb: Keyboard, nbytes: int, ghost k: Console) returns (line: seq<Byte>)
    requires Stands(kb, k) && k.ttys[k.ctl.executing].line.ready && nbytes > 0
    modifies kb`terminals
    ensures Stands(kb, ConsoleStep(k, ProgramRead(nbytes)))
    ensures line == ReadBy(k, nbytes) && |line| < nbytes
  {
    assert !Waits(k, ProgramRead(0));
    line := ConsoleRuns.Read(kb, nbytes);
  }

  method Deliver(files: FileTable, fd: int, buf: array<Byte>, nbytes: int, line: seq<Byte>) returns (r: int)
    requires files.Valid() && !files.Refused(fd) && files.desc[fd].kind == Terminal
    requires 0 < nbytes && |line| <= buf.Length && 2 * nbytes < WORD
    modifies files.desc, buf
    ensures files.Valid() && files.desc[..] == old(files.desc[..])
    ensures r == |line| && buf[..r] == line && buf[r..] == old(buf[r..])
  {
    assert files.desc[..][fd] == files.desc[fd];
    r := files.Read(fd, buf, 0, nbytes, line);
    assert buf[..r] == buf[0..0 + |line|];
  }

  /** Enter on the displayed terminal, and its program's read of descriptor 0: what was typed, with a newline, as
      far as it fits in front of one more byte. */
  method EnterThenRead(files: FileTable, kb: Keyboard, buf: array<Byte>, nbytes: int, ghost k: Console) returns (r: int)
    requires files.Valid() && files.desc[0].kind == Terminal && Stands(kb, k) && k.ctl.displayed == k.ctl.executing
    requires 0 < nbytes <= buf.Length && 2 * nbytes < WORD && buf !in kb.display.frames
    modifies kb, kb.display, kb.display.frames, files.desc, buf
    ensures files.Valid() && files.desc[..] == old(files.desc[..])
    ensures var line := k.ttys[k.ctl.displayed].line.typed + [10];
            r == Min(nbytes - 1, |line|) && buf[..r] == line[..r] && buf[r..] == old(buf[r..])
  {
    PressEnter(kb, k);
    r := ReadTerminal(files, kb, 0, buf, nbytes, ConsoleStep(k, Code(0x1C)));
  }

  method PressEnter(kb: Keyboard, ghost k: Console)
    requires Stands(kb, k)
    modifies kb, kb.display, kb.display.frames
    ensures Stands(kb, ConsoleStep(k, Code(0x1C)))
  {
    ghost var waits := Waits(k, ProgramRead(0));
    kb.GetScancode(0x1C);
  }

  /** A read of descriptor 0 after any run of scancodes, writes, reads and switches. It waits exactly when the
      terminal whose program runs has seen no Enter since a line was last taken there; otherwise it brings
      what had been typed there up to the last Enter, by that terminal's own keys alone, with a newline. */
  method RunThenRead(files: FileTable, kb: Keyboard, run: seq<Step>, buf: array<Byte>, nbytes: int, ghost k: Console)
    returns (done: nat, r: int)
    requires files.Valid() && files.desc[0].kind == Terminal && Stands(kb, k) && Runnable(run)
    requires 0 < nbytes <= buf.Length && 2 * nbytes < WORD && buf !in kb.display.frames
    modifies kb, kb.display, kb.display.frames, files.desc, buf
    ensures files.Valid() && files.desc[..] == old(files.desc[..]) && done <= |run|
    ensures -1 <= r <= buf.Length && Answers(k, ToldAll(run[..done]), nbytes, if r < 0 then Waiting else Got(buf[..r]))
  {
    done := PlayOn(kb, run, k);
    ghost var told := ToldAll(run[..done]);
    ghost var k' := ConsoleRun(k, told);
    AnswerMeans(k, told, nbytes);
    var ready := IsReady(kb, k');
    r := -1;
    if ready {
      r := ReadTerminal(files, kb, 0, buf, nbytes, k');
    }
  }

  datatype Answer = Waiting | Got(bytes: seq<Byte>)

  /** What a read of nbytes makes of a run from k, by the terminal's own events. */
  ghost function AnswerTo(k: Console, run: seq<Step>, nbytes: int): Answer
    requires k.Valid() && Runnable(run) && nbytes > 0
  {
    var t := ConsoleRun(k, run).ctl.executing;
    var events := Own(k.ctl, run, t);
    var i, j, l := LastSubmit(events), LastTaken(events), k.ttys[t].line;
    if (if i < 0 && j < 0 then !l.ready else i <= j) then Waiting
    else
      var line := if i < 0 then l.last else EditAll(FirstTyped(l, events[..i]), KeysSince(events[..i])) + [10];
      Got(line[..Min(nbytes - 1, |line|)])
  }

  /** a is that answer. The trigger keeps it out of proofs that only hand it on. */
  ghost predicate Answers(k: Console, run: seq<Step>, nbytes: int, a: Answer)
    requires k.Valid() && Runnable(run) && nbytes > 0
  {
    forall n {:trigger AnswerTo(k, run, n)} :: n == nbytes ==> a == AnswerTo(k, run, n)
  }

  /** What the line began with at the Enter before, and the keys since. */
  function FirstTyped(l: Line, events: seq<Event>): seq<Byte> {
    if LastSubmit(events) < 0 then l.typed else []
  }

  function KeysSince(events: seq<Event>): seq<Key> {
    KeysOf(events[LastSubmit(events) + 1..])
  }

  lemma AnswerMeans(k: Console, run: seq<Step>, nbytes: int)
    requires k.Valid() && Runnable(run) && nbytes > 0
    ensures var k' := ConsoleRun(k, run);
            Answers(k, run, nbytes, if k'.ttys[k'.ctl.executing].line.ready then Got(ReadBy(k', nbytes)) else Waiting)
  {
    var k' := ConsoleRun(k, run);
    var t := k'.ctl.executing;
    var events := Own(k.ctl, run, t);
    TerminalsAreIsolated(k, run, t);
    LineMeans(k.ttys[t].line, events, nbytes);
    assert k'.ttys[t].line == LineRun(k.ttys[t].line, events);
  }

  /** A read waits exactly when that answer is to wait. */
  lemma WaitsExact(k: Console, run: seq<Step>, nbytes: int)
    requires k.Valid() && Runnable(run) && nbytes > 0
    ensures Waits(ConsoleRun(k, run), ProgramRead(nbytes)) <==> AnswerTo(k, run, nbytes) == Waiting
  {
    AnswerMeans(k, run, nbytes);
  }

  lemma LineMeans(l: Line, events: seq<Event>, nbytes: int)
    requires nbytes > 0
    ensures var i, j, l' := LastSubmit(events), LastTaken(events), LineRun(l, events);
            && (l'.ready <==> if i < 0 && j < 0 then l.ready else i > j)
            && l'.last == if i < 0 then l.last else EditAll(FirstTyped(l, events[..i]), KeysSince(events[..i])) + [10]
  {
    ReadyExact(l, events);
    CompletedLine(l, events);
    var i := LastSubmit(events);
    if i >= 0 {
      TypedIsFold(l, events[..i]);
    }
  }

  method PlayOn(kb: Keyboard, run: seq<Step>, ghost k: Console) returns (done: nat)
    requires Stands(kb, k) && Runnable(run)
    modifies kb, kb.display, kb.display.frames
    ensures done <= |run| && Runnable(ToldAll(run[..done])) && Stands(kb, ConsoleRun(k, ToldAll(run[..done])))
  {
    ghost var waits := Waits(k, ProgramRead(0));
    var handed;
    done, handed := Play(kb, run);
  }

  method IsReady(kb: Keyboard, ghost k: Console) returns (ready: bool)
    requires Stands(kb, k)
    ensures ready == k.ttys[k.ctl.executing].line.ready
  {
    ghost var waits := Waits(k, ProgramRead(0));
    ready := kb.terminals[kb.display.executing].enterFlag;
  }
}
