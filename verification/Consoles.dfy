/** The three terminals as their users see them: screen, line buffer and completed line each. */
module Consoles {
  import opened Machine
  import opened Bytes
  import opened Screens
  import opened Keymap

  /** typed is the buffer being edited; last is the latest completed line; ready is enter_flag. */
  datatype Line = Line(typed: seq<Byte>, last: seq<Byte>, ready: bool)

  datatype Tty = Tty(screen: Screen, line: Line) {
    predicate Valid() {
      screen.Valid() && |line.typed| <= LINE_CAP && |line.last| <= LINE_CAP + 1
    }
  }

  // ----- one terminal on its own -----

  datatype Event =
    | Press(k: Key)
    | Submit
    | Wipe
    | Write(s: seq<Byte>)
    | Read(nbytes: int)

  /** What terminal_read hands over for a buffer of nbytes. */
  function ReadResult(l: Line, nbytes: int): seq<Byte> {
    l.last[..if nbytes <= 1 then 0 else Min(nbytes - 1, |l.last|)]
  }

  function LineStep(l: Line, e: Event): Line {
    match e
    case Press(k) => l.(typed := EditLine(l.typed, k))
    case Submit => Line([], l.typed + [NEWLINE], true)
    case Read(nbytes) => if nbytes == 0 then l else l.(ready := false)
    case _ => l
  }

  function ScreenStep(v: Screen, typed: seq<Byte>, e: Event): (r: Screen)
    requires v.Valid()
    ensures r.Valid()
  {
    match e
    case Press(k) => EchoKey(v, typed, k)
    case Submit => Put(v, NEWLINE)
    case Wipe => BLANK
    case Write(s) => PutAll(v, s)
    case Read(_) => v
  }

  function LineRun(l: Line, events: seq<Event>): Line {
    if events == [] then l else LineStep(LineRun(l, events[..|events| - 1]), events[|events| - 1])
  }

  function TtyStep(t: Tty, e: Event): (r: Tty)
    requires t.Valid()
    ensures r.Valid()
  {
    Tty(ScreenStep(t.screen, t.line.typed, e), LineStep(t.line, e))
  }

  function TtyRun(t: Tty, events: seq<Event>): (r: Tty)
    requires t.Valid()
    ensures r.Valid() && r.line == LineRun(t.line, events)
  {
    if events == [] then t else TtyStep(TtyRun(t, events[..|events| - 1]), events[|events| - 1])
  }

  /** Position of the last Submit, or -1. */
  function LastSubmit(events: seq<Event>): (i: int)
    ensures -1 <= i < |events| && (i >= 0 ==> events[i] == Submit)
    ensures forall j :: i < j < |events| ==> events[j] != Submit
  {
    if events == [] then -1
    else if events[|events| - 1] == Submit then |events| - 1
    else LastSubmit(events[..|events| - 1])
  }

  function KeysOf(events: seq<Event>): seq<Key> {
    if events == [] then []
    else KeysOf(events[..|events| - 1]) + if events[|events| - 1].Press? then [events[|events| - 1].k] else []
  }

  /** The line buffer is the capped push/pop fold of the keys since the last Enter. */
  lemma {:induction false} TypedIsFold(l: Line, events: seq<Event>)
    ensures var i := LastSubmit(events);
            LineRun(l, events).typed == EditAll(if i < 0 then l.typed else [], KeysOf(events[i + 1..]))
  {
    if events == [] {
      assert events[0..] == [];
    } else {
      var n := |events| - 1;
      var before, e := events[..n], events[n];
      assert LineRun(l, events) == LineStep(LineRun(l, before), e);
      if e == Submit {
        assert events[n + 1..] == [];
      } else {
        TypedIsFold(l, before);
        var i := LastSubmit(before);
        assert LastSubmit(events) == i;
        LastKey(if i < 0 then l.typed else [], events, i);
      }
    }
  }

  /** The completed line is the buffer as it was at the last Enter, with one newline. */
  lemma {:induction false} CompletedLine(l: Line, events: seq<Event>)
    ensures var i := LastSubmit(events);
            LineRun(l, events).last == if i < 0 then l.last else LineRun(l, events[..i]).typed + [NEWLINE]
  {
    if events != [] {
      var n := |events| - 1;
      if events[n] != Submit {
        CompletedLine(l, events[..n]);
        var i := LastSubmit(events[..n]);
        assert i >= 0 ==> events[..n][..i] == events[..i];
      }
    }
  }

  lemma LastKey(line: seq<Byte>, events: seq<Event>, i: int)
    requires -1 <= i < |events| - 1
    ensures var n := |events| - 1;
            var typed := EditAll(line, KeysOf(events[..n][i + 1..]));
            EditAll(line, KeysOf(events[i + 1..])) == if events[n].Press? then EditLine(typed, events[n].k) else typed
  {
    var n := |events| - 1;
    var before, after := events[..n][i + 1..], events[i + 1..];
    assert after[..|after| - 1] == before && after[|after| - 1] == events[n];
    var keys := KeysOf(before);
    if events[n].Press? {
      KeysFold(line, keys, events[n].k);
    } else {
      assert KeysOf(after) == keys + [] == keys;
    }
  }

  lemma KeysFold(line: seq<Byte>, keys: seq<Key>, k: Key)
    ensures EditAll(line, keys + [k]) == EditLine(EditAll(line, keys), k)
  {
    assert (keys + [k])[..|keys|] == keys;
  }

  /** Position of the last read that takes a line, or -1. */
  function LastTaken(events: seq<Event>): (i: int)
    ensures -1 <= i < |events|
  {
    if events == [] then -1
    else if events[|events| - 1].Read? && events[|events| - 1].nbytes != 0 then |events| - 1
    else LastTaken(events[..|events| - 1])
  }

  /** A line is there to be read exactly when Enter came after the last read that took one. */
  lemma {:induction false} ReadyExact(l: Line, events: seq<Event>)
    ensures var i, j := LastSubmit(events), LastTaken(events);
            LineRun(l, events).ready <==> if i < 0 && j < 0 then l.ready else i > j
  {
    if events != [] {
      ReadyExact(l, events[..|events| - 1]);
    }
  }

  /** A read after a completed line returns a prefix of the latest one, newline included when it fits. */
  lemma ReadLatestLine(t: Tty, events: seq<Event>, nbytes: int)
    requires t.Valid() && LastSubmit(events) >= 0 && nbytes >= 1
    ensures var i := LastSubmit(events);
            var line := TtyRun(t, events[..i]).line.typed + [NEWLINE];
            && |line| <= LINE_CAP + 1
            && ReadResult(TtyRun(t, events).line, nbytes) == line[..Min(nbytes - 1, |line|)]
  {
    CompletedLine(t.line, events);
  }

  // ----- the three terminals together -----

  datatype Control = Control(displayed: nat, executing: nat, mods: Modifiers) {
    predicate Valid() {
      displayed < TERMINALS && executing < TERMINALS
    }
  }

  datatype Console = Console(ttys: seq<Tty>, ctl: Control) {
    predicate Valid() {
      |ttys| == TERMINALS && ctl.Valid() && forall t :: 0 <= t < TERMINALS ==> ttys[t].Valid()
    }
  }

  /** The console with the given screens, lines and control state. */
  function Assembled(screens: seq<Screen>, lines: seq<Line>, ctl: Control): (k: Console)
    requires |screens| == |lines| == TERMINALS
    ensures |k.ttys| == TERMINALS && forall t :: 0 <= t < TERMINALS ==> k.ttys[t] == Tty(screens[t], lines[t])
  {
    Console([Tty(screens[0], lines[0]), Tty(screens[1], lines[1]), Tty(screens[2], lines[2])], ctl)
  }

  /** Scancodes arrive for the displayed terminal; programs act on the executing one. */
  datatype Step =
    | Code(c: Byte)
    | Schedule(t: nat)
    | ProgramWrite(s: seq<Byte>)
    | ProgramRead(nbytes: int)

  datatype Meaning = ForTty(e: Event) | Show(t: nat) | Interrupt | Nothing

  /** What scancode c means once it has updated the modifiers to m. */
  function MeaningOf(m: Modifiers, c: Byte): Meaning {
    if c == ENTER then ForTty(Submit)
    else if c == BACKSPACE then ForTty(Press(Backspace))
    else if m.ctrl && c == LETTER_L then ForTty(Wipe)
    else if m.ctrl && c == LETTER_C then Interrupt
    else if m.alt && F1 <= c <= F3 then Show(c - F1)
    else if !m.ctrl && Symbol(m.mode, c) != '\0' then ForTty(Press(Char(Symbol(m.mode, c) as int)))
    else Nothing
  }

  /** What codes mean, by their numbers: Enter, backspace, control with l and c, and alt with F1 to F3. Anything
      else types a character that is neither newline nor return, with control up, or nothing. */
  lemma ScancodesMean(m: Modifiers, c: Byte)
    ensures var e := MeaningOf(m, c);
            if c == 0x1C then e == ForTty(Submit)
            else if c == 0x0E then e == ForTty(Press(Backspace))
            else if m.ctrl && c == 0x26 then e == ForTty(Wipe)
            else if m.ctrl && c == 0x2E then e == Interrupt
            else if m.alt && 0x3B <= c <= 0x3D then e == Show(c - 0x3B)
            else
              || e == Nothing
              || (!m.ctrl && c < 59 && e.ForTty? && e.e.Press? && e.e.k.Char?
                  && e.e.k.c != 0 && e.e.k.c != 10 && e.e.k.c != 13)
  {
    if c != ENTER {
      SymbolStaysOnLine(m.mode, c);
    }
    SymbolBelow(m.mode, c);
  }

  /** Every printable character can be typed, with shift held or not. */
  lemma EveryCharacterTypes(a: char) returns (shift: bool)
    requires ' ' <= a <= '~'
    ensures var c := CodeFor(a);
            var m := AfterCodes(Keymap.INITIAL, if shift then [0x2A, c] else [c]);
            MeaningOf(m, c) == ForTty(Press(Char(a as int)))
  {
    Printable(a);
    var c := CodeFor(a);
    shift := CapOf(c).plain != a;
    NoOtherMeaning(a);
    TypesAfter(c, shift);
  }

  /** A step reaches one terminal at most: a scancode the displayed one, a program's call the one whose program
      runs; scheduling reaches none. */
  lemma StepReaches(k: Console, s: Step, t: nat)
    requires k.Valid() && Enabled(s) && t < TERMINALS
    requires s.Schedule? || t != if s.Code? then k.ctl.displayed else k.ctl.executing
    ensures ConsoleStep(k, s).ttys[t] == k.ttys[t]
  {
  }

  /** Who is displayed and who runs after a step, with m the modifiers it leaves: alt with F1 to F3 shows a
      terminal, control with c makes the displayed one run, scheduling makes any run, and nothing else does. */
  lemma ControlExact(k: Console, s: Step)
    requires k.Valid() && Enabled(s)
    ensures var was, now := k.ctl, ConsoleStep(k, s).ctl;
            var m := if s.Code? then NextModifiers(was.mods, s.c) else was.mods;
            && now.mods == m
            && now.displayed == (if s.Code? && m.alt && 0x3B <= s.c <= 0x3D then s.c - 0x3B else was.displayed)
            && now.executing == if s.Schedule? then s.t else if s.Code? && m.ctrl && s.c == 0x2E then was.displayed
                                else was.executing
  {
    if s.Code? {
      ScancodesMean(NextModifiers(k.ctl.mods, s.c), s.c);
    }
  }

  /** What arrives at the terminal a step is for: Enter completes the line and breaks the row, backspace takes
      the last character from line and screen, control with l blanks the screen alone, a program's bytes go to
      the screen in order, and its read takes the completed line. */
  lemma ArrivesExact(k: Console, s: Step)
    requires k.Valid() && Enabled(s)
    ensures var d, e := k.ctl.displayed, k.ctl.executing;
            var r := ConsoleStep(k, s);
            && (s == Code(0x1C) ==>
                  r.ttys[d] == Tty(Put(k.ttys[d].screen, 10), Line([], k.ttys[d].line.typed + [10], true)))
            && (s == Code(0x0E) && k.ttys[d].line.typed == [] ==> r.ttys[d] == k.ttys[d])
            && (s == Code(0x0E) && k.ttys[d].line.typed != [] ==>
                  var l := k.ttys[d].line;
                  r.ttys[d] == Tty(Erase(k.ttys[d].screen), l.(typed := l.typed[..|l.typed| - 1])))
            && (s == Code(0x26) && r.ctl.mods.ctrl ==> r.ttys[d] == k.ttys[d].(screen := BLANK))
            && (s.ProgramWrite? ==> r.ttys[e] == k.ttys[e].(screen := PutAll(k.ttys[e].screen, s.s)))
            && (s.ProgramRead? && s.nbytes != 0 ==>
                  r.ttys[e] == k.ttys[e].(line := k.ttys[e].line.(ready := false)))
  {
    if s.Code? {
      ScancodesMean(NextModifiers(k.ctl.mods, s.c), s.c);
    }
  }

  /** Every printable character typed with no modifier held, on its key or with shift first, is written on the
      displayed terminal and added to its line, if the line has room. */
  lemma CharacterArrives(k: Console, a: char) returns (k': Console)
    requires k.Valid() && k.ctl.mods == Keymap.INITIAL && ' ' <= a <= '~'
    ensures k'.Valid() && (k' == ConsoleStep(k, Code(CodeFor(a)))
                           || k' == ConsoleStep(ConsoleStep(k, Code(0x2A)), Code(CodeFor(a))))
    ensures var d := k.ctl.displayed;
            var was, now := k.ttys[d], k'.ttys[d];
            && k'.ctl.displayed == d && k'.ctl.executing == k.ctl.executing
            && now == if |was.line.typed| < 127
                      then Tty(Put(was.screen, a as int), was.line.(typed := was.line.typed + [a as int]))
                      else was
  {
    var shift := EveryCharacterTypes(a);
    var c := CodeFor(a);
    var codes: seq<Byte> := [0x2A, c];
    var one: seq<Byte> := [c];
    var held: seq<Byte> := [0x2A];
    assert one[..0] == [] && held[..0] == [] && codes[..1] == held;
    assert AfterCodes(Keymap.INITIAL, one) == NextModifiers(Keymap.INITIAL, c);
    assert AfterCodes(Keymap.INITIAL, held) == NextModifiers(Keymap.INITIAL, 0x2A);
    assert AfterCodes(Keymap.INITIAL, codes) == NextModifiers(AfterCodes(Keymap.INITIAL, held), c);
    var before := if shift then ConsoleStep(k, Code(0x2A)) else k;
    ScancodesMean(NextModifiers(Keymap.INITIAL, 0x2A), 0x2A);
    ShiftTypesNothing();
    k' := ConsoleStep(before, Code(c));
  }

  lemma ShiftTypesNothing()
    ensures MeaningOf(NextModifiers(Keymap.INITIAL, 0x2A), 0x2A) == Nothing
  {
  }

  /** Not Enter, backspace or a modifier. */
  predicate TypesOnly(c: Byte) {
    c < 59 && c != 0x1C && c != 0x0E && c != 0x2A && c != 0x36 && c != 0x1D && c != 0x38 && c != 0x3A
  }

  lemma NoOtherMeaning(a: char)
    ensures TypesOnly(CodeFor(a))
  {
  }

  lemma TypesAfter(c: Byte, shift: bool)
    requires TypesOnly(c)
    ensures var m := AfterCodes(Keymap.INITIAL, if shift then [0x2A, c] else [c]);
            m == Modifiers(if shift then ORIG_SHIFT_MODE else ORIG_MODE, shift, false, false)
  {
    var codes: seq<Byte> := if shift then [0x2A, c] else [c];
    var held: seq<Byte> := [0x2A];
    assert held[..0] == [] && held[0] == 0x2A;
    assert AfterCodes(Keymap.INITIAL, held) == NextModifiers(Keymap.INITIAL, 0x2A);
    assert codes[..|codes| - 1] == if shift then held else [];
  }

  predicate Enabled(s: Step) {
    s.Schedule? ==> s.t < TERMINALS
  }

  function NextControl(k: Control, s: Step): (r: Control)
    requires k.Valid() && Enabled(s)
    ensures r.Valid()
  {
    match s
    case Code(c) =>
      var m := NextModifiers(k.mods, c);
      (match MeaningOf(m, c)
       case Show(t) => Control(t, k.executing, m)
       case Interrupt => Control(k.displayed, k.displayed, m)
       case _ => k.(mods := m))
    case Schedule(t) => k.(executing := t)
    case _ => k
  }

  /** The terminal a step is about and what it does there. */
  function Directed(k: Control, s: Step): (nat, seq<Event>) {
    match s
    case Code(c) =>
      var meaning := MeaningOf(NextModifiers(k.mods, c), c);
      (k.displayed, if meaning.ForTty? then [meaning.e] else [])
    case Schedule(t) => (k.executing, [])
    case ProgramWrite(b) => (k.executing, [Write(b)])
    case ProgramRead(n) => (k.executing, [Read(n)])
  }

  function ConsoleStep(k: Console, s: Step): (r: Console)
    requires k.Valid() && Enabled(s)
    ensures r.Valid()
  {
    var (t, e) := Directed(k.ctl, s);
    Console(if e == [] then k.ttys else k.ttys[t := TtyStep(k.ttys[t], e[0])], NextControl(k.ctl, s))
  }

  /** The step of one scancode, on the parts of a console. */
  ghost predicate CodeEffect(c: Byte, screens: seq<Screen>, lines: seq<Line>, k: Control,
                             screens': seq<Screen>, lines': seq<Line>, k': Control)
    requires |screens| == |lines| == TERMINALS && k.displayed < TERMINALS
             && forall t :: 0 <= t < TERMINALS ==> screens[t].Valid()
  {
    var d, m := k.displayed, NextModifiers(k.mods, c);
    match MeaningOf(m, c)
    case ForTty(e) => Took(e, d, screens, lines, screens', lines') && k' == k.(mods := m)
    case Show(t) => screens' == screens && lines' == lines && k' == Control(t, k.executing, m)
    case Interrupt => screens' == screens && lines' == lines && k' == Control(d, d, m)
    case Nothing => screens' == screens && lines' == lines && k' == k.(mods := m)
  }

  /** What Enter, backspace or a key with the given symbol does to the displayed terminal d; nothing for other codes. */
  ghost predicate KeyEffect(c: Byte, symbol: Ascii, ctrl: bool, d: nat, screens: seq<Screen>, lines: seq<Line>,
      screens': seq<Screen>, lines': seq<Line>)
    requires |screens| == |lines| == TERMINALS && d < TERMINALS && forall t :: 0 <= t < TERMINALS ==> screens[t].Valid()
  {
    if c == ENTER then Took(Submit, d, screens, lines, screens', lines')
    else if c == BACKSPACE then Took(Press(Backspace), d, screens, lines, screens', lines')
    else if !ctrl && symbol != '\0' then Took(Press(Char(symbol as int)), d, screens, lines, screens', lines')
    else screens' == screens && lines' == lines
  }

  /** Terminal d took event e; the others are the same. */
  ghost predicate Took(e: Event, d: nat, screens: seq<Screen>, lines: seq<Line>, screens': seq<Screen>,
      lines': seq<Line>)
    requires |screens| == |lines| == TERMINALS && d < TERMINALS && forall t :: 0 <= t < TERMINALS ==> screens[t].Valid()
  {
    && screens' == screens[d := ScreenStep(screens[d], lines[d].typed, e)]
    && lines' == lines[d := LineStep(lines[d], e)]
  }

  /** The function keys type nothing, so it does not matter that they change the displayed terminal first. */
  lemma KeyEffectElsewhere(c: Byte, symbol: Ascii, ctrl: bool, d: nat, d': nat, screens: seq<Screen>,
      lines: seq<Line>, screens': seq<Screen>, lines': seq<Line>)
    requires |screens| == |lines| == TERMINALS && d < TERMINALS && d' < TERMINALS
             && forall t :: 0 <= t < TERMINALS ==> screens[t].Valid()
    requires d == d' || (F1 <= c <= F3 && symbol == '\0')
    ensures KeyEffect(c, symbol, ctrl, d, screens, lines, screens', lines')
            == KeyEffect(c, symbol, ctrl, d', screens, lines, screens', lines')
  {
  }

  /** Enter first, then the stored key, on the terminal displayed by then. */
  lemma EffectsFollow(c: Byte, symbol: Ascii, ctrl: bool, d: nat, d': nat, screens: seq<Screen>, lines: seq<Line>,
                      between: seq<Screen>, linesBetween: seq<Line>, screens': seq<Screen>, lines': seq<Line>)
    requires |screens| == |lines| == |between| == |linesBetween| == TERMINALS && d < TERMINALS && d' < TERMINALS
    requires forall t :: 0 <= t < TERMINALS ==> screens[t].Valid() && between[t].Valid()
    requires if c == ENTER then Took(Submit, d, screens, lines, between, linesBetween)
             else between == screens && linesBetween == lines
    requires if c == ENTER then screens' == between && lines' == linesBetween
             else KeyEffect(c, symbol, ctrl, d', between, linesBetween, screens', lines')
    requires d == d' || (F1 <= c <= F3 && symbol == '\0')
    ensures KeyEffect(c, symbol, ctrl, d, screens, lines, screens', lines')
  {
    KeyEffectElsewhere(c, symbol, ctrl, d, d', screens, lines, screens', lines');
  }

  lemma EffectsCompose(c: Byte, k: Control, k': Control, screens: seq<Screen>, lines: seq<Line>, wiped: seq<Screen>,
      screens': seq<Screen>, lines': seq<Line>)
    requires |screens| == |wiped| == |lines| == TERMINALS && k.Valid()
    requires forall t :: 0 <= t < TERMINALS ==> screens[t].Valid() && wiped[t].Valid()
    requires k'.mods == NextModifiers(k.mods, c)
    requires wiped == if k'.mods.ctrl && c == LETTER_L then screens[k.displayed := BLANK] else screens
    requires KeyEffect(c, Symbol(k'.mods.mode, c), k'.mods.ctrl, k.displayed, wiped, lines, screens', lines')
    requires k'.displayed == if k'.mods.alt && F1 <= c <= F3 then c - F1 else k.displayed
    requires k'.executing == if k'.mods.ctrl && c == LETTER_C then k.displayed else k.executing
    ensures CodeEffect(c, screens, lines, k, screens', lines', k')
  {
  }

  /** One scancode, as modifiers, Ctrl-L and the stored key make it up, is one step of the console. */
  lemma ScancodeIsStep(c: Byte, k: Control, k': Control, screens: seq<Screen>, lines: seq<Line>, wiped: seq<Screen>,
      screens': seq<Screen>, lines': seq<Line>)
    requires |screens| == |wiped| == |lines| == TERMINALS && k.Valid() && Assembled(screens, lines, k).Valid()
    requires forall t :: 0 <= t < TERMINALS ==> screens[t].Valid() && wiped[t].Valid()
    requires k'.mods == NextModifiers(k.mods, c)
    requires wiped == if k'.mods.ctrl && c == LETTER_L then screens[k.displayed := BLANK] else screens
    requires KeyEffect(c, Symbol(k'.mods.mode, c), k'.mods.ctrl, k.displayed, wiped, lines, screens', lines')
    requires k'.displayed == if k'.mods.alt && F1 <= c <= F3 then c - F1 else k.displayed
    requires k'.executing == if k'.mods.ctrl && c == LETTER_C then k.displayed else k.executing
    ensures Assembled(screens', lines', k') == ConsoleStep(Assembled(screens, lines, k), Code(c))
  {
    EffectsCompose(c, k, k', screens, lines, wiped, screens', lines');
    EffectIsStep(c, screens, lines, k, screens', lines', k');
  }

  lemma EffectIsStep(c: Byte, screens: seq<Screen>, lines: seq<Line>, k: Control,
                     screens': seq<Screen>, lines': seq<Line>, k': Control)
    requires |screens| == |lines| == TERMINALS && k.Valid() && Assembled(screens, lines, k).Valid()
    requires forall t :: 0 <= t < TERMINALS ==> screens[t].Valid()
    requires CodeEffect(c, screens, lines, k, screens', lines', k')
    ensures Assembled(screens', lines', k') == ConsoleStep(Assembled(screens, lines, k), Code(c))
  {
    var a, b := Assembled(screens', lines', k'), ConsoleStep(Assembled(screens, lines, k), Code(c));
    assert forall t :: 0 <= t < TERMINALS ==> a.ttys[t] == b.ttys[t];
  }

  lemma WriteIsStep(screens: seq<Screen>, lines: seq<Line>, k: Control, s: seq<Byte>)
    requires |screens| == |lines| == TERMINALS && k.Valid() && Assembled(screens, lines, k).Valid()
    ensures Assembled(screens[k.executing := PutAll(screens[k.executing], s)], lines, k)
            == ConsoleStep(Assembled(screens, lines, k), ProgramWrite(s))
  {
    var e := k.executing;
    assert Assembled(screens, lines, k).ttys[e].screen == screens[e];
    var a, b := Assembled(screens[e := PutAll(screens[e], s)], lines, k),
        ConsoleStep(Assembled(screens, lines, k), ProgramWrite(s));
    assert forall t :: 0 <= t < TERMINALS ==> a.ttys[t] == b.ttys[t];
  }

  lemma ReadIsStep(screens: seq<Screen>, lines: seq<Line>, k: Control, nbytes: int)
    requires |screens| == |lines| == TERMINALS && k.Valid() && Assembled(screens, lines, k).Valid()
    ensures var line := lines[k.executing];
            Assembled(screens, if nbytes == 0 then lines else lines[k.executing := line.(ready := false)], k) ==
              ConsoleStep(Assembled(screens, lines, k), ProgramRead(nbytes))
  {
    var e, was := k.executing, Assembled(screens, lines, k);
    var lines' := if nbytes == 0 then lines else lines[e := lines[e].(ready := false)];
    assert was.ttys[e] == Tty(screens[e], lines[e]);
    var a, b := Assembled(screens, lines', k), ConsoleStep(was, ProgramRead(nbytes));
    assert b.ttys[e] == TtyStep(was.ttys[e], Read(nbytes)) == a.ttys[e];
    assert forall t :: 0 <= t < TERMINALS && t != e ==> a.ttys[t] == b.ttys[t];
    assert a.ttys == b.ttys;
  }

  ghost predicate Runnable(run: seq<Step>) {
    forall i :: 0 <= i < |run| ==> Enabled(run[i])
  }

  function ConsoleRun(k: Console, run: seq<Step>): (r: Console)
    requires k.Valid() && forall i :: 0 <= i < |run| ==> Enabled(run[i])
    ensures r.Valid()
  {
    if run == [] then k else ConsoleStep(ConsoleRun(k, run[..|run| - 1]), run[|run| - 1])
  }

  function ControlRun(k: Control, run: seq<Step>): (r: Control)
    requires k.Valid() && forall i :: 0 <= i < |run| ==> Enabled(run[i])
    ensures r.Valid()
  {
    if run == [] then k else NextControl(ControlRun(k, run[..|run| - 1]), run[|run| - 1])
  }

  /** The events of a run that concern terminal t: keys while it is displayed, programs while it executes. */
  function Own(k: Control, run: seq<Step>, t: nat): seq<Event>
    requires k.Valid() && forall i :: 0 <= i < |run| ==> Enabled(run[i])
  {
    if run == [] then []
    else
      var before := run[..|run| - 1];
      var (u, e) := Directed(ControlRun(k, before), run[|run| - 1]);
      Own(k, before, t) + if u == t then e else []
  }

  /** In any interleaving each terminal's screen, line and completed line are those of a private
      terminal given only its own events: switching and the other terminals are invisible to it. */
  lemma {:induction false} TerminalsAreIsolated(k: Console, run: seq<Step>, t: nat)
    requires k.Valid() && Runnable(run) && t < TERMINALS
    ensures ConsoleRun(k, run).ctl == ControlRun(k.ctl, run)
    ensures ConsoleRun(k, run).ttys[t] == TtyRun(k.ttys[t], Own(k.ctl, run, t))
  {
    if run != [] {
      var before := run[..|run| - 1];
      TerminalsAreIsolated(k, before, t);
      var (u, e) := Directed(ControlRun(k.ctl, before), run[|run| - 1]);
      var own := Own(k.ctl, before, t);
      if u == t && e != [] {
        assert e == [e[0]];
        assert (own + e)[..|own|] == own;
      } else {
        assert own + [] == own;
      }
    }
  }

  /** Keys alone, on one terminal: the screen is the old one followed by the surviving characters. */
  lemma {:induction false} PressesEcho(t: Tty, events: seq<Event>)
    requires t.Valid() && forall i :: 0 <= i < |events| ==> events[i].Press?
    ensures TtyRun(t, events).screen == EchoAll(t.screen, t.line.typed, KeysOf(events))
    ensures TtyRun(t, events).line.typed == EditAll(t.line.typed, KeysOf(events))
  {
    if events != [] {
      var before := events[..|events| - 1];
      PressesEcho(t, before);
      var keys, k := KeysOf(before), events[|events| - 1].k;
      assert (keys + [k])[..|keys|] == keys;
    }
  }

  /** e presses no key that breaks a line. */
  ghost predicate StaysOnLine(e: Event) {
    e.Press? && e.k.Char? ==> !BreaksLine(e.k.c)
  }

  lemma DirectedStaysOnLine(k: Control, s: Step)
    requires k.Valid() && Enabled(s)
    ensures var e := Directed(k, s).1; |e| <= 1 && (e != [] ==> StaysOnLine(e[0]))
  {
    if s.Code? && s.c != ENTER {
      SymbolStaysOnLine(NextModifiers(k.mods, s.c).mode, s.c);
    }
  }

  /** What scancodes press on a terminal never breaks a line: Enter is no such key. */
  lemma {:induction false} OwnStaysOnLine(k: Control, run: seq<Step>, t: nat)
    requires k.Valid() && Runnable(run)
    ensures forall i :: 0 <= i < |Own(k, run, t)| ==> StaysOnLine(Own(k, run, t)[i])
  {
    if run != [] {
      OwnStaysOnLine(k, run[..|run| - 1], t);
      DirectedStaysOnLine(ControlRun(k, run[..|run| - 1]), run[|run| - 1]);
    }
  }

  lemma {:induction false} KeysTypable(events: seq<Event>)
    requires forall i :: 0 <= i < |events| ==> StaysOnLine(events[i])
    ensures Typable(KeysOf(events))
  {
    if events != [] {
      KeysTypable(events[..|events| - 1]);
      assert StaysOnLine(events[|events| - 1]);
    }
  }

  /** Scancodes, switches and the other terminals' programs in any interleaving: while all that reaches
      terminal t are keys other than Enter and Ctrl-L, its screen is what it was, followed by exactly the
      characters that survive in its line buffer. */
  lemma TypingRunShows(k: Console, run: seq<Step>, t: nat, base: seq<Byte>, top: nat) returns (top': nat)
    requires k.Valid() && Runnable(run) && t < TERMINALS
    requires ShowsLine(k.ttys[t].screen, base, k.ttys[t].line.typed, top)
    requires forall i :: 0 <= i < |Own(k.ctl, run, t)| ==> Own(k.ctl, run, t)[i].Press?
    ensures var tty, keys := ConsoleRun(k, run).ttys[t], KeysOf(Own(k.ctl, run, t));
            && tty.line.typed == EditAll(k.ttys[t].line.typed, keys)
            && ShowsLine(tty.screen, base, tty.line.typed, top')
  {
    var own := Own(k.ctl, run, t);
    TerminalsAreIsolated(k, run, t);
    PressesEcho(k.ttys[t], own);
    OwnStaysOnLine(k.ctl, run, t);
    KeysTypable(own);
    top' := TypingShowsSurvivors(k.ttys[t].screen, base, k.ttys[t].line.typed, top, KeysOf(own));
  }
}
