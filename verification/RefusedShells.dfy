/** The timer interrupt on the kernel's tables and on the screens together. */
module RefusedShells {
  import opened Machine
  import opened Bytes
  import opened Files
  import opened Screens
  import opened Displays
  import opened Commands
  import opened Processes
  import opened ProcessCounts
  import opened ProcessRuns
  import opened Kernels

  /** What is on the video page and the save pages, with the cursors. */
  datatype Picture = Picture(video: seq<Byte>, saved: seq<seq<Byte>>, at: seq<nat>, displayed: nat, executing: nat) {
    predicate Valid() {
      |saved| == |at| == TERMINALS && displayed < TERMINALS && executing < TERMINALS
    }

    function ScreenOf(t: nat): Screen
      requires Valid() && t < TERMINALS
    {
      Screen(if t == displayed then video else saved[t], at[t])
    }
  }

  ghost predicate SameScreens(p: Picture, q: Picture)
    requires p.Valid() && q.Valid()
  {
    forall t :: 0 <= t < TERMINALS ==> p.ScreenOf(t) == q.ScreenOf(t)
  }

  ghost function PictureOf(d: Display): (p: Picture)
    requires d.Laid()
    reads d, d.frames
    ensures p.Valid()
  {
    Picture(Chars(d.frames[0][..]), [Chars(d.frames[1][..]), Chars(d.frames[2][..]), Chars(d.frames[3][..])],
            [Position(d.cursors[0]), Position(d.cursors[1]), Position(d.cursors[2])], d.displayed, d.executing)
  }

  function Position(c: Cursor): nat
    requires OnScreen(c)
  {
    COLS * c.y + c.x
  }

  lemma PictureShows(d: Display, t: nat)
    requires d.Laid() && t < TERMINALS
    ensures d.ScreenOf(t) == PictureOf(d).ScreenOf(t)
  {
    var p := PictureOf(d);
    assert p.at[t] == Position(d.cursors[t]) && p.saved[t] == Chars(d.frames[t + 1][..]);
    assert d.ScreenOf(t).cursor == Position(d.cursors[t]);
  }

  /** A switch leaves the pages as they are: one that is refused moves displayed_terminal alone. */
  ghost function Moved(p: Picture, refused: bool, next: nat): Picture {
    if refused then p.(displayed := p.executing) else p.(executing := next)
  }

  /** It keeps what all terminals show exactly when no shell is refused, or the terminal that runs on is the
      displayed one, or the pages of the two happen to have the same characters. */
  lemma MovedExact(p: Picture, refused: bool, next: nat)
    requires p.Valid() && next < TERMINALS
    ensures var q := Moved(p, refused, next);
            && q.Valid()
            && (SameScreens(p, q) <==>
                  !refused || p.executing == p.displayed
                  || p.saved[p.executing] == p.video == p.saved[p.displayed])
            && (refused ==> q.ScreenOf(p.executing) == Screen(p.video, p.at[p.executing]))
  {
    var q, t, u := Moved(p, refused, next), p.executing, p.displayed;
    assert q.ScreenOf(t) == p.ScreenOf(t) && q.ScreenOf(u) == p.ScreenOf(u) && refused && t != u ==>
        p.saved[t] == p.video == p.saved[u];
  }

  /** k.Alive(); the trigger keeps the tables out of proofs that only hand it on. */
  ghost predicate Lives(k: Kernel)
    reads k, k.parsed, k.parsed.fname, k.parsed.arg
  {
    |k.stacks| == TERMINALS && k.executing < TERMINALS && forall s {:trigger Inv(s)} :: s == k.View() ==> k.Alive()
  }

  /** Tables and screens agree on displayed_terminal and executing_terminal. */
  ghost predicate Tied(k: Kernel, d: Display)
    reads k, k.parsed, k.parsed.fname, k.parsed.arg, d, d.frames
  {
    && Lives(k) && d.Laid() && k.executing == d.executing && k.displayed == d.displayed
    && k.parsed.fname !in d.frames && k.parsed.arg !in d.frames
  }

  /** A timer interrupt on both. */
  method TimerInterrupt(k: Kernel, d: Display, junk: seq<Byte>, ghost found: Program) returns (o: SwitchOutcome)
    requires Tied(k, d) && d.Valid() && WellFormed(k.img) && |junk| == BUFFER_LENGTH
    requires Finds(k.img, k.shell, junk, found)
    modifies k, k.parsed, k.parsed.fname, k.parsed.arg, d
    ensures o != Unslotted ==> Tied(k, d) && (o, k.View()) == Switch(old(k.View()), Next(old(k.executing)), found)
    ensures o == Unslotted <==> ShellUnslotted(old(k.View()), Next(old(k.executing)), found)
    ensures o != Unslotted ==>
              var refused := ShellRefused(old(k.View()), Next(old(k.executing)), found);
              && PictureOf(d) == Moved(old(PictureOf(d)), refused, k.executing)
              && (d.Valid() <==> !refused || old(d.executing) == old(d.displayed))
  {
    ghost var p := PictureOf(d);
    o := Interrupt(k, junk, found);
    assert PictureOf(d) == p;
    if o != Unslotted {
      Follow(d, o == ShellFailed, k.executing);
    }
  }

  /** The interrupt on the tables. */
  method Interrupt(k: Kernel, junk: seq<Byte>, ghost found: Program) returns (o: SwitchOutcome)
    requires Lives(k) && WellFormed(k.img) && |junk| == BUFFER_LENGTH && Finds(k.img, k.shell, junk, found)
    modifies k, k.parsed, k.parsed.fname, k.parsed.arg
    ensures o != Unslotted ==> Lives(k) && (o, k.View()) == Switch(old(k.View()), Next(old(k.executing)), found)
    ensures o == Unslotted <==> ShellUnslotted(old(k.View()), Next(old(k.executing)), found)
    ensures o == ShellFailed <==> ShellRefused(old(k.View()), Next(old(k.executing)), found)
    ensures o == ShellFailed ==> k.executing == k.displayed == old(k.executing)
    ensures o != Unslotted && o != ShellFailed ==> k.displayed == old(k.displayed)
  {
    ghost var s := k.View();
    assert Inv(s);
    SwitchOutcomes(s, Next(k.executing), found);
    o := k.PitInterrupt(junk, found);
    if o != Unslotted {
      StepKeeps(s, ProcessRuns.Timer(found), k.View());
    }
  }

  /** The two variables of the screens behind it. */
  method Follow(d: Display, refused: bool, next: nat)
    requires d.Valid() && next < TERMINALS && (refused ==> next == d.executing)
    modifies d`displayed, d`executing
    ensures d.Laid() && PictureOf(d) == Moved(old(PictureOf(d)), refused, next)
    ensures d.Valid() <==> !refused || next == old(d.displayed)
  {
    if refused {
      d.ResetDisplayed(next);
    } else {
      d.Schedule(next);
    }
  }

  /** Function key n + 1 with Alt. */
  method SwitchTerminal(k: Kernel, d: Display, n: nat)
    requires Tied(k, d) && d.Valid() && n < TERMINALS
    modifies k`displayed, d, d.frames
    ensures Tied(k, d) && d.Valid() && k.displayed == n && d.executing == old(d.executing)
    ensures k.View() == old(k.View()) && d.Screens() == old(d.Screens())
  {
    assert Inv(k.View());
    d.SwitchActiveTerminal(n);
    k.displayed := n;
  }

  /** Six shells on terminal 0, before the first timer interrupt. */
  method FillSlots(img: seq<Byte>, behind: seq<Byte>, junk: seq<Byte>) returns (k: Kernel)
    requires WellFormed(img) && |behind| + ARGLEN < WORD && |junk| == BUFFER_LENGTH
    requires ProgramOf(img, SHELL, junk) == Executable
    ensures fresh(k) && fresh(k.parsed) && fresh(k.parsed.fname) && fresh(k.parsed.arg)
    ensures k.img == img && k.shell == SHELL && Lives(k) && AfterLaunches(k.View(), SLOTS) && k.displayed == 0
  {
    var ok;
    k, ok := Boot(img, behind, junk);
    LaunchShells(k, junk);
  }

  method LaunchShells(k: Kernel, junk: seq<Byte>)
    requires Lives(k) && AfterLaunches(k.View(), 1) && WellFormed(k.img) && |junk| == BUFFER_LENGTH
    requires k.shell == SHELL && ProgramOf(k.img, SHELL, junk) == Executable
    modifies k`processes, k`numProcessExecuting, k`terminals, k`pcbs, k`esp0, k`pde32, k`stacks, k`failed
    modifies k.parsed, k.parsed.fname, k.parsed.arg
    ensures Lives(k) && AfterLaunches(k.View(), SLOTS)
  {
    for n := 1 to SLOTS
      invariant Lives(k) && AfterLaunches(k.View(), n)
    {
      LaunchShell(k, junk, n);
    }
  }

  method LaunchShell(k: Kernel, junk: seq<Byte>, ghost n: nat)
    requires Lives(k) && AfterLaunches(k.View(), n) && WellFormed(k.img) && |junk| == BUFFER_LENGTH && 0 < n < SLOTS
    requires k.shell == SHELL && ProgramOf(k.img, SHELL, junk) == Executable
    modifies k`processes, k`numProcessExecuting, k`terminals, k`pcbs, k`esp0, k`pde32, k`stacks, k`failed
    modifies k.parsed, k.parsed.fname, k.parsed.arg
    ensures Lives(k) && AfterLaunches(k.View(), n + 1)
  {
    assert Inv(k.View());
    ghost var m := n + 1;
    LaunchesFill(n);
    LaunchesFill(m);
    var o := k.SysExecute(Some(k.shell), junk, Executable);
  }

  /** What it looks like: six shells run on terminal 0, terminal 1 is displayed and still blank, and a program
      has written c on terminal 0. The next timer interrupt displays terminal 0, and c is gone from it. */
  method WrittenAndGone(img: seq<Byte>, behind: seq<Byte>, junk: seq<Byte>, c: Byte)
    returns (k: Kernel, d: Display, ghost before: Screen)
    requires WellFormed(img) && |behind| + ARGLEN < WORD && |junk| == BUFFER_LENGTH
    requires ProgramOf(img, SHELL, junk) == Executable && c != NUL && c != SPACE && !BreaksLine(c)
    ensures before.Valid() && before.chars[0] == c
    ensures Tied(k, d) && k.displayed == 0 && !d.Valid() && d.ScreenOf(0).chars == BLANK.chars
  {
    k := FillSlots(img, behind, junk);
    FullRefuses(k.View(), SLOTS);
    d, before := Written(k, c);
    Refuse(k, d, junk);
  }

  lemma FullRefuses(s: State, n: nat)
    requires AfterLaunches(s, n) && n == SLOTS
    ensures |s.stacks| == TERMINALS && s.executing == 0
    ensures ShellRefused(s, 1, Executable) && !ShellUnslotted(s, 1, Executable)
  {
    ShellRefusedWhenFull(n, Executable);
    LaunchesFill(n);
    SwitchOutcomes(s, 1, Executable);
  }

  method Written(k: Kernel, c: Byte) returns (d: Display, ghost before: Screen)
    requires Lives(k) && k.executing == k.displayed == 0 && c != NUL && !BreaksLine(c)
    modifies k`displayed
    ensures fresh(d) && Tied(k, d) && d.Valid() && d.executing == 0 && d.displayed == 1 && k.View() == old(k.View())
    ensures before == d.ScreenOf(0) == Put(BLANK, c) && d.ScreenOf(1) == BLANK
  {
    d := new Display([]);
    SwitchTerminal(k, d, 1);
    d.WriteByte(c);
    before := d.ScreenOf(0);
  }

  method Refuse(k: Kernel, d: Display, junk: seq<Byte>)
    requires Tied(k, d) && d.Valid() && WellFormed(k.img) && |junk| == BUFFER_LENGTH && d.executing != d.displayed
    requires Finds(k.img, k.shell, junk, Executable) && ShellRefused(k.View(), Next(k.executing), Executable)
    requires !ShellUnslotted(k.View(), Next(k.executing), Executable)
    modifies k, k.parsed, k.parsed.fname, k.parsed.arg, d
    ensures Tied(k, d) && d.displayed == old(d.executing) && !d.Valid()
    ensures d.ScreenOf(d.displayed).chars == old(d.ScreenOf(d.displayed)).chars
  {
    ghost var p := PictureOf(d);
    PictureShows(d, d.displayed);
    MovedExact(p, true, d.executing);
    var o := TimerInterrupt(k, d, junk, Executable);
    PictureShows(d, d.displayed);
  }
}
