/** The keyboard interrupt and terminal_read, on the buffers of the three terminals. */
module Keyboards {
  import opened Machine
  import opened Bytes
  import opened Screens
  import opened Displays
  import opened Keymap
  import Consoles

  const KEYBOARD_BUF_SIZE := 128

  /** keyboard_buf, stored_old_buf, cur_buf_size, old_buf_size and enter_flag of a terminal. */
  datatype Buffers = Buffers(keyboardBuf: seq<Byte>, storedOldBuf: seq<Byte>, curBufSize: nat, oldBufSize: nat,
      enterFlag: bool) {
    predicate Valid() {
      |keyboardBuf| == |storedOldBuf| == KEYBOARD_BUF_SIZE && curBufSize <= LINE_CAP && oldBufSize <= KEYBOARD_BUF_SIZE
    }

    /** What the buffers stand for. */
    function AsLine(): Consoles.Line
      requires Valid()
    {
      Consoles.Line(keyboardBuf[..curBufSize], storedOldBuf[..oldBufSize], enterFlag)
    }
  }

  class Keyboard {
    const display: Display
    var terminals: seq<Buffers>
    var mode: nat
    var shift: bool
    var ctrl: bool
    var alt: bool

    ghost predicate Valid()
      reads this, display, display.frames
    {
      display.Valid() && mode < 4 && Sound()
    }

    ghost predicate Sound()
      reads this`terminals
    {
      |terminals| == TERMINALS && forall t :: 0 <= t < TERMINALS ==> terminals[t].Valid()
    }

    ghost function Lines(): (r: seq<Consoles.Line>)
      requires Sound()
      reads this`terminals
      ensures |r| == TERMINALS && forall t :: 0 <= t < TERMINALS ==> r[t] == terminals[t].AsLine()
    {
      [terminals[0].AsLine(), terminals[1].AsLine(), terminals[2].AsLine()]
    }

    ghost function Mods(): Modifiers
      reads this
    {
      Modifiers(mode, shift, ctrl, alt)
    }

    ghost function View(): (k: Consoles.Console)
      requires Valid()
      reads this, display, display.frames
      ensures k.Valid()
    {
      Consoles.Assembled(display.Screens(), Lines(), Ctl())
    }

    /** keyboard_init and terminal_init: nothing typed, nothing completed. */
    constructor (display: Display)
      requires display.Valid()
      ensures Valid() && this.display == display
      ensures var empty := Consoles.Line([], [], false); Mods() == INITIAL && Lines() == [empty, empty, empty]
    {
      this.display := display;
      var empty := Buffers(Fill(KEYBOARD_BUF_SIZE, NUL), Fill(KEYBOARD_BUF_SIZE, NUL), 0, 0, false);
      terminals := [empty, empty, empty];
      mode, shift, ctrl, alt := ORIG_MODE, false, false, false;
    }

    /** The part of getScancode that keeps mode and SHIFT, in its order. */
    method UpdateModes(c: Byte)
      requires mode < 4
      modifies this`mode, this`shift
      ensures mode < 4
      ensures shift == Held(old(shift), c, LEFT_SHIFT_ON, RIGHT_SHIFT_ON, LEFT_SHIFT_OFF, RIGHT_SHIFT_OFF)
      ensures mode == NextMode(old(mode), shift, ctrl, c)
    {
      if c == CAPSLOCK_ON {
        if mode == ORIG_MODE {
          mode := CAP_MODE;
        } else if mode == ORIG_SHIFT_MODE {
          mode := CAP_SHIFT_MODE;
        } else if mode == CAP_SHIFT_MODE {
          mode := ORIG_MODE;
        } else {
          mode := ORIG_MODE;
        }
      }
      if c == LEFT_SHIFT_ON || c == RIGHT_SHIFT_ON {
        shift := true;
      }
      if c == LEFT_SHIFT_OFF || c == RIGHT_SHIFT_OFF {
        shift := false;
      }
      if !ctrl {
        if shift {
          mode := if mode == ORIG_MODE || mode == ORIG_SHIFT_MODE then ORIG_SHIFT_MODE else CAP_SHIFT_MODE;
        } else {
          mode := if mode == ORIG_MODE || mode == ORIG_SHIFT_MODE then ORIG_MODE else CAP_MODE;
        }
      }
    }

    method Push(d: nat, c: Byte)
      requires Sound() && d < TERMINALS && terminals[d].curBufSize < LINE_CAP
      modifies this`terminals
      ensures Sound() && Lines() == old(Lines())[d := old(Lines())[d].(typed := old(Lines())[d].typed + [c])]
    {
      var b := terminals[d];
      terminals := terminals[d := b.(keyboardBuf := b.keyboardBuf[b.curBufSize := c], curBufSize := b.curBufSize + 1)];
      assert terminals[d].AsLine().typed == b.AsLine().typed + [c];
    }

    method Pop(d: nat)
      requires Sound() && d < TERMINALS && terminals[d].curBufSize != 0
      modifies this`terminals
      ensures Sound()
      ensures var l := old(Lines())[d]; Lines() == old(Lines())[d := l.(typed := EditLine(l.typed, Backspace))]
    {
      var b := terminals[d];
      terminals := terminals[d := b.(curBufSize := b.curBufSize - 1)];
      assert terminals[d].AsLine().typed == EditLine(b.AsLine().typed, Backspace);
    }

    /** The end of the Enter branch: the typed line with a newline becomes the completed line. */
    method HandOver(d: nat)
      requires Sound() && d < TERMINALS
      modifies this`terminals
      ensures Sound()
      ensures Lines() == old(Lines())[d := Consoles.Line([], old(Lines())[d].typed + [NEWLINE], true)]
    {
      var b := terminals[d];
      var n := b.curBufSize;
      var typed := b.keyboardBuf[n := NEWLINE];
      n := n + 1;
      var stored := b.storedOldBuf;
      for i := 0 to n
        invariant |stored| == KEYBOARD_BUF_SIZE && stored[..i] == typed[..i]
      {
        stored := stored[i := typed[i]];
      }
      assert typed[..n] == b.AsLine().typed + [NEWLINE];
      terminals := terminals[d := Buffers(typed, stored, 0, n, true)];
    }

    /** The Enter branch of getScancode. */
    method Enter()
      requires Valid()
      modifies this`terminals, display`cursors, display.frames[0]
      ensures Valid()
      ensures Took(Consoles.Submit, old(display.Screens()), old(Lines()))
      ensures var d := display.displayed; display.cursors[d] == Cursor(0, Min(old(display.cursors)[d].y + 1, 24))
    {
      display.Putc(NEWLINE);
      HandOver(display.displayed);
    }

    method StoreChar(c: Byte)
      requires Valid() && terminals[display.displayed].curBufSize < LINE_CAP
      modifies this`terminals, display`cursors, display.frames[0]
      ensures Valid() && Took(Consoles.Press(Char(c)), old(display.Screens()), old(Lines()))
    {
      Push(display.displayed, c);
      display.Putc(c);
    }

    method StoreBackspace()
      requires Valid() && terminals[display.displayed].curBufSize != 0
      modifies this`terminals, display`cursors, display.frames[0]
      ensures Valid() && Took(Consoles.Press(Backspace), old(display.Screens()), old(Lines()))
    {
      Pop(display.displayed);
      display.Backspace();
    }

    /** The displayed terminal has taken event e since the screens and lines were as given. */
    ghost predicate Took(e: Consoles.Event, screens: seq<Screen>, lines: seq<Consoles.Line>)
      requires Valid() && |screens| == |lines| == TERMINALS && forall t :: 0 <= t < TERMINALS ==> screens[t].Valid()
      reads this, display, display.frames
    {
      Consoles.Took(e, display.displayed, screens, lines, display.Screens(), Lines())
    }

    /** store_in_buffer, with out_key inside it, for a key whose entry in the scancode table is symbol. */
    method StoreInBuffer(c: Byte, symbol: Ascii)
      requires Valid() && (c == BACKSPACE || c == ENTER || symbol != '\0')
      modifies this`terminals, display`cursors, display.frames[0]
      ensures Valid()
      ensures c == ENTER ==> display.Screens() == old(display.Screens()) && Lines() == old(Lines())
      ensures c != ENTER ==> Took(Consoles.Press(if c == BACKSPACE then Backspace else Char(symbol as int)),
              old(display.Screens()), old(Lines()))
    {
      var d := display.displayed;
      if terminals[d].curBufSize < KEYBOARD_BUF_SIZE - 2 || terminals[d].curBufSize == KEYBOARD_BUF_SIZE - 2 {
        if c != BACKSPACE {
          if c == ENTER {
            return;
          }
          StoreChar(symbol as int);
        }
      }
      if c == BACKSPACE && terminals[d].curBufSize != 0 {
        StoreBackspace();
      }
    }

    /** The control key, Ctrl-L and Ctrl-C, as far as the console is concerned. */
    method ControlKey(c: Byte)
      requires Valid()
      modifies this`ctrl, display`executing, display`cursors, display.frames[0]
      ensures Valid() && ctrl == Held(old(ctrl), c, LEFT_CTRL_ON, LEFT_CTRL_ON, LEFT_CTRL_OFF, LEFT_CTRL_OFF)
      ensures display.Screens() == if ctrl && c == LETTER_L then old(display.Screens())[display.displayed := BLANK]
              else old(display.Screens())
      ensures display.executing == if ctrl && c == LETTER_C then display.displayed else old(display.executing)
    {
      if c == LEFT_CTRL_ON {
        ctrl := true;
      }
      if c == LEFT_CTRL_OFF {
        ctrl := false;
      }
      if ctrl {
        if c == LETTER_L {
          display.ClearAndReset();
        } else if c == LETTER_C {
          display.executing := display.displayed;
        }
      }
    }

    /** The alt key, and Alt-F1 to Alt-F3. */
    method AltKey(c: Byte)
      requires Valid()
      modifies this`alt, display`displayed, display`table, display.frames[0], display.frames[display.displayed + 1]
      ensures Valid() && alt == Held(old(alt), c, LEFT_ALT_ON, LEFT_ALT_ON, LEFT_ALT_OFF, LEFT_ALT_OFF)
      ensures display.Screens() == old(display.Screens())
      ensures display.displayed == if alt && F1 <= c <= F3 then c - F1 else old(display.displayed)
    {
      if c == LEFT_ALT_ON {
        alt := true;
      }
      if c == LEFT_ALT_OFF {
        alt := false;
      }
      if alt {
        if c == F1 {
          display.SwitchActiveTerminal(0);
        }
        if c == F2 {
          display.SwitchActiveTerminal(1);
        }
        if c == F3 {
          display.SwitchActiveTerminal(2);
        }
      }
    }

    ghost function Ctl(): Consoles.Control
      reads this, display
    {
      Consoles.Control(display.displayed, display.executing, Mods())
    }

    /** The end of getScancode: keys that type something are stored with control up, backspace always. */
    method StoreKey(c: Byte, symbol: Ascii)
      requires Valid() && (symbol != '\0' ==> c < SCANCODES)
      modifies this`terminals, display`cursors, display.frames[0]
      ensures Valid()
      ensures if c == ENTER then display.Screens() == old(display.Screens()) && Lines() == old(Lines())
              else Consoles.KeyEffect(c, symbol, ctrl, display.displayed, old(display.Screens()), old(Lines()),
                  display.Screens(), Lines())
    {
      if c < SCANCODES && symbol != '\0' && !ctrl {
        StoreInBuffer(c, symbol);
      } else if c == BACKSPACE {
        StoreInBuffer(c, symbol);
      }
    }

    /** The first half of getScancode: control, caps lock and shift. */
    method Modify(c: Byte)
      requires Valid()
      modifies this`ctrl, this`mode, this`shift, display`executing, display`cursors, display.frames[0]
      ensures Valid() && Mods() == NextModifiers(old(Mods()), c).(alt := alt)
      ensures display.Screens() == if ctrl && c == LETTER_L then old(display.Screens())[display.displayed := BLANK]
              else old(display.Screens())
      ensures display.executing == if ctrl && c == LETTER_C then display.displayed else old(display.executing)
    {
      ControlKey(c);
      UpdateModes(c);
    }

    /** Enter, and the alt key with its function keys. */
    method EnterOrAlt(c: Byte)
      requires Valid()
      modifies this`terminals, this`alt, display`displayed, display`table, display`cursors, display.frames
      ensures Valid() && alt == Held(old(alt), c, LEFT_ALT_ON, LEFT_ALT_ON, LEFT_ALT_OFF, LEFT_ALT_OFF)
      ensures display.displayed == if alt && F1 <= c <= F3 then c - F1 else old(display.displayed)
      ensures if c == ENTER
              then Consoles.Took(Consoles.Submit, old(display.displayed), old(display.Screens()), old(Lines()),
                  display.Screens(), Lines())
              else display.Screens() == old(display.Screens()) && Lines() == old(Lines())
    {
      if c == ENTER {
        Enter();
      }
      AltKey(c);
    }

    /** The second half: Enter, alt and the keys that are stored. */
    method Respond(c: Byte, symbol: Ascii)
      requires Valid() && (symbol != '\0' ==> c < SCANCODES)
      modifies this`terminals, this`alt, display`displayed, display`table, display`cursors, display.frames
      ensures Valid() && alt == Held(old(alt), c, LEFT_ALT_ON, LEFT_ALT_ON, LEFT_ALT_OFF, LEFT_ALT_OFF)
      ensures display.displayed == if alt && F1 <= c <= F3 then c - F1 else old(display.displayed)
      ensures Consoles.KeyEffect(c, symbol, ctrl, old(display.displayed), old(display.Screens()), old(Lines()),
              display.Screens(), Lines())
    {
      ghost var d, screens, lines := display.displayed, display.Screens(), Lines();
      EnterOrAlt(c);
      ghost var between, linesBetween := display.Screens(), Lines();
      StoreKey(c, symbol);
      Consoles.EffectsFollow(c, symbol, ctrl, d, display.displayed, screens, lines, between, linesBetween,
          display.Screens(), Lines());
    }

    /** The body of getScancode, with its effect in parts: modifiers, Ctrl-L, and what the key does. */
    method Handle(c: Byte) returns (ghost wiped: seq<Screen>)
      requires Valid()
      modifies this, display, display.frames
      ensures Valid() && Mods() == NextModifiers(old(Mods()), c)
      ensures display.displayed == if alt && F1 <= c <= F3 then c - F1 else old(display.displayed)
      ensures display.executing == if ctrl && c == LETTER_C then old(display.displayed) else old(display.executing)
      ensures wiped == if ctrl && c == LETTER_L then old(display.Screens())[old(display.displayed) := BLANK]
              else old(display.Screens())
      ensures |wiped| == TERMINALS && forall t :: 0 <= t < TERMINALS ==> wiped[t].Valid()
      ensures Consoles.KeyEffect(c, Symbol(mode, c), ctrl, old(display.displayed), wiped, old(Lines()),
              display.Screens(), Lines())
    {
      Modify(c);
      wiped := display.Screens();
      SymbolBelow(mode, c);
      Respond(c, Symbol(mode, c));
    }

    /** getScancode: one keyboard interrupt is one step of the console. */
    method GetScancode(c: Byte)
      requires Valid()
      modifies this, display, display.frames
      ensures Valid() && View() == Consoles.ConsoleStep(old(View()), Consoles.Code(c))
    {
      ghost var k, screens, lines := Ctl(), display.Screens(), Lines();
      assert View() == Consoles.Assembled(screens, lines, k);
      ghost var wiped := Handle(c);
      Consoles.ScancodeIsStep(c, k, Ctl(), screens, lines, wiped, display.Screens(), Lines());
    }

    method CopyLine(b: Buffers, buf: array<Byte>, nbytes: int) returns (i: nat)
      requires b.Valid() && nbytes <= buf.Length
      modifies buf
      ensures i <= buf.Length && buf[..i] == Consoles.ReadResult(b.AsLine(), nbytes) && buf[i..] == old(buf[i..])
    {
      i := 0;
      while i < nbytes - 1 && i < b.oldBufSize
        invariant i <= b.oldBufSize && (i == 0 || i <= nbytes - 1)
        invariant buf[..i] == b.storedOldBuf[..i] && buf[i..] == old(buf[i..])
      {
        buf[i] := b.storedOldBuf[i];
        i := i + 1;
      }
    }

    method LowerFlag(e: nat)
      requires Sound() && e < TERMINALS
      modifies this`terminals
      ensures Sound() && Lines() == old(Lines())[e := old(Lines())[e].(ready := false)]
    {
      terminals := terminals[e := terminals[e].(enterFlag := false)];
    }

    /** terminal_read, once enter_flag is set: the completed line, or as much as fits. */
    method TerminalRead(buf: array?<Byte>, nbytes: int) returns (r: int)
      requires Valid() && terminals[display.executing].enterFlag
      requires buf != null ==> nbytes <= buf.Length && buf !in display.frames
      modifies this`terminals, buf
      ensures Valid()
      ensures buf == null ==> r == 0 && View() == old(View())
      ensures buf != null ==>
                && 0 <= r <= buf.Length && buf[r..] == old(buf[r..])
                && buf[..r] == Consoles.ReadResult(old(Lines())[display.executing], nbytes)
      ensures buf != null ==> View() == Consoles.ConsoleStep(old(View()), Consoles.ProgramRead(nbytes))
    {
      ghost var lines := Lines();
      assert View().Valid();
      Consoles.ReadIsStep(display.Screens(), lines, Ctl(), nbytes);
      if nbytes == 0 || buf == null {
        return 0;
      }
      r := TakeLine(buf, nbytes);
    }

    method TakeLine(buf: array<Byte>, nbytes: int) returns (r: nat)
      requires Sound() && display.executing < TERMINALS && nbytes <= buf.Length
      modifies this`terminals, buf
      ensures Sound() && Lines() == old(Lines())[display.executing := old(Lines())[display.executing].(ready := false)]
      ensures r <= buf.Length && buf[..r] == Consoles.ReadResult(old(Lines())[display.executing], nbytes)
              && buf[r..] == old(buf[r..])
    {
      var e := display.executing;
      r := CopyLine(terminals[e], buf, nbytes);
      LowerFlag(e);
    }

    /** terminal_write seen from the console: the executing terminal takes the bytes other than NUL. */
    method WriteToConsole(buf: array<Byte>, nbytes: nat)
      requires Valid() && nbytes <= buf.Length && buf !in display.frames
      modifies display`cursors, display.frames[0], display.frames[display.executing + 1]
      ensures Valid() && View() == Consoles.ConsoleStep(old(View()), Consoles.ProgramWrite(NonNul(buf[..nbytes])))
    {
      ghost var screens, lines, k, s := display.Screens(), Lines(), Ctl(), NonNul(buf[..nbytes]);
      assert View() == Consoles.Assembled(screens, lines, k);
      Consoles.WriteIsStep(screens, lines, k, s);
      WriteScreens(buf, nbytes, screens, s);
    }

    method WriteScreens(buf: array<Byte>, nbytes: nat, ghost screens: seq<Screen>, ghost s: seq<Byte>)
      requires display.Valid() && nbytes <= buf.Length && buf !in display.frames
      requires screens == display.Screens() && s == NonNul(buf[..nbytes])
      modifies display`cursors, display.frames[0], display.frames[display.executing + 1]
      ensures display.Valid() && buf[..] == old(buf[..])
      ensures display.Screens() == screens[display.executing := PutAll(screens[display.executing], s)]
    {
      var r := display.TerminalWrite(buf, nbytes);
      assert nbytes == 0 ==> screens[display.executing := screens[display.executing]] == screens;
    }

    /** context_switch seen from the console. */
    method Schedule(t: nat)
      requires Valid() && t < TERMINALS
      modifies display`executing
      ensures Valid() && View() == Consoles.ConsoleStep(old(View()), Consoles.Schedule(t))
    {
      ghost var screens, lines, k := display.Screens(), Lines(), Ctl();
      assert View() == Consoles.Assembled(screens, lines, k);
      display.Schedule(t);
      assert Ctl() == k.(executing := t);
    }
  }
}
