/** The keyboard's modifier automaton and scancode table. */
module Keymap {
  import opened Bytes

  const LEFT_CTRL_ON: Byte := 0x1D
  const LEFT_CTRL_OFF: Byte := 0x9D
  const LEFT_SHIFT_ON: Byte := 0x2A
  const LEFT_SHIFT_OFF: Byte := 0xAA
  const RIGHT_SHIFT_ON: Byte := 0x36
  const RIGHT_SHIFT_OFF: Byte := 0xB6
  const CAPSLOCK_ON: Byte := 0x3A
  const LEFT_ALT_ON: Byte := 0x38
  const LEFT_ALT_OFF: Byte := 0xB8
  const ENTER: Byte := 0x1C
  const BACKSPACE: Byte := 0x0E
  const LETTER_L: Byte := 0x26
  const LETTER_C: Byte := 0x2E
  const F1: Byte := 0x3B
  const F2: Byte := 0x3C
  const F3: Byte := 0x3D
  const SCANCODES := 59

  const ORIG_MODE := 0
  const ORIG_SHIFT_MODE := 1
  const CAP_SHIFT_MODE := 2
  const CAP_MODE := 3

  type Ascii = c: char | c < 128 as char

  /** What one key types in each of the four modes; NUL where it types nothing. */
  datatype KeyCap = Cap(plain: Ascii, shifted: Ascii, capsShifted: Ascii, caps: Ascii)

  /** The scancode table, column by column. */
  function CapOf(c: nat): KeyCap {
    match c
    case 0x02 => Cap('1', '!', '!', '1')
    case 0x03 => Cap('2', '@', '@', '2')
    case 0x04 => Cap('3', '#', '#', '3')
    case 0x05 => Cap('4', '$', '$', '4')
    case 0x06 => Cap('5', '%', '%', '5')
    case 0x07 => Cap('6', '^', '^', '6')
    case 0x08 => Cap('7', '&', '&', '7')
    case 0x09 => Cap('8', '*', '*', '8')
    case 0x0A => Cap('9', '(', '(', '9')
    case 0x0B => Cap('0', ')', ')', '0')
    case 0x0C => Cap('-', '_', '_', '-')
    case 0x0D => Cap('=', '+', '+', '=')
    case 0x10 => Cap('q', 'Q', 'q', 'Q')
    case 0x11 => Cap('w', 'W', 'w', 'W')
    case 0x12 => Cap('e', 'E', 'e', 'E')
    case 0x13 => Cap('r', 'R', 'r', 'R')
    case 0x14 => Cap('t', 'T', 't', 'T')
    case 0x15 => Cap('y', 'Y', 'y', 'Y')
    case 0x16 => Cap('u', 'U', 'u', 'U')
    case 0x17 => Cap('i', 'I', 'i', 'I')
    case 0x18 => Cap('o', 'O', 'o', 'O')
    case 0x19 => Cap('p', 'P', 'p', 'P')
    case 0x1A => Cap('[', '{', '{', '[')
    case 0x1B => Cap(']', '}', '}', ']')
    case 0x1C => Cap('\n', '\n', '\n', '\n')
    case 0x1E => Cap('a', 'A', 'a', 'A')
    case 0x1F => Cap('s', 'S', 's', 'S')
    case 0x20 => Cap('d', 'D', 'd', 'D')
    case 0x21 => Cap('f', 'F', 'f', 'F')
    case 0x22 => Cap('g', 'G', 'g', 'G')
    case 0x23 => Cap('h', 'H', 'h', 'H')
    case 0x24 => Cap('j', 'J', 'j', 'J')
    case 0x25 => Cap('k', 'K', 'k', 'K')
    case 0x26 => Cap('l', 'L', 'l', 'L')
    case 0x27 => Cap(';', ':', ':', ';')
    case 0x28 => Cap('\'', '\"', '\"', '\'')
    case 0x29 => Cap('`', '~', '~', '`')
    case 0x2B => Cap('\\', '|', '|', '\\')
    case 0x2C => Cap('z', 'Z', 'z', 'Z')
    case 0x2D => Cap('x', 'X', 'x', 'X')
    case 0x2E => Cap('c', 'C', 'c', 'C')
    case 0x2F => Cap('v', 'V', 'v', 'V')
    case 0x30 => Cap('b', 'B', 'b', 'B')
    case 0x31 => Cap('n', 'N', 'n', 'N')
    case 0x32 => Cap('m', 'M', 'm', 'M')
    case 0x33 => Cap(',', '<', '<', ',')
    case 0x34 => Cap('.', '>', '>', '.')
    case 0x35 => Cap('/', '?', '?', '/')
    case 0x37 => Cap('*', '*', '*', '*')
    case 0x39 => Cap(' ', ' ', ' ', ' ')
    case _ => Cap('\0', '\0', '\0', '\0')
  }

  function Symbol(mode: nat, c: nat): Ascii {
    var cap := CapOf(c);
    if mode == ORIG_MODE then cap.plain
    else if mode == ORIG_SHIFT_MODE then cap.shifted
    else if mode == CAP_SHIFT_MODE then cap.capsShifted
    else cap.caps
  }

  /** Only Enter's entry in the table breaks a line. */
  lemma SymbolStaysOnLine(mode: nat, c: nat)
    requires c != ENTER
    ensures Symbol(mode, c) != '\n' && Symbol(mode, c) != '\r'
  {
  }

  lemma SymbolBelow(mode: nat, c: nat)
    ensures Symbol(mode, c) != '\0' ==> c < SCANCODES
  {
  }

  // ----- the layout of the US keyboard, character by character -----

  /** The scancode of the key that has a printable character. */
  function CodeFor(a: char): Byte {
    match a
    case '1' | '!' => 0x02
    case '2' | '@' => 0x03
    case '3' | '#' => 0x04
    case '4' | '$' => 0x05
    case '5' | '%' => 0x06
    case '6' | '^' => 0x07
    case '7' | '&' => 0x08
    case '8' | '*' => 0x09
    case '9' | '(' => 0x0A
    case '0' | ')' => 0x0B
    case '-' | '_' => 0x0C
    case '=' | '+' => 0x0D
    case 'q' | 'Q' => 0x10
    case 'w' | 'W' => 0x11
    case 'e' | 'E' => 0x12
    case 'r' | 'R' => 0x13
    case 't' | 'T' => 0x14
    case 'y' | 'Y' => 0x15
    case 'u' | 'U' => 0x16
    case 'i' | 'I' => 0x17
    case 'o' | 'O' => 0x18
    case 'p' | 'P' => 0x19
    case '[' | '{' => 0x1A
    case ']' | '}' => 0x1B
    case 'a' | 'A' => 0x1E
    case 's' | 'S' => 0x1F
    case 'd' | 'D' => 0x20
    case 'f' | 'F' => 0x21
    case 'g' | 'G' => 0x22
    case 'h' | 'H' => 0x23
    case 'j' | 'J' => 0x24
    case 'k' | 'K' => 0x25
    case 'l' | 'L' => 0x26
    case ';' | ':' => 0x27
    case '\'' | '\"' => 0x28
    case '`' | '~' => 0x29
    case '\\' | '|' => 0x2B
    case 'z' | 'Z' => 0x2C
    case 'x' | 'X' => 0x2D
    case 'c' | 'C' => 0x2E
    case 'v' | 'V' => 0x2F
    case 'b' | 'B' => 0x30
    case 'n' | 'N' => 0x31
    case 'm' | 'M' => 0x32
    case ',' | '<' => 0x33
    case '.' | '>' => 0x34
    case '/' | '?' => 0x35
    case ' ' => 0x39
    case _ => 0
  }

  /** a is on its key. */
  ghost predicate OnKey(a: char) {
    0 < CodeFor(a) < 59 && (CapOf(CodeFor(a)).plain == a || CapOf(CodeFor(a)).shifted == a)
  }

  lemma SmallLetterOnKey(a: char)
    requires 'a' <= a <= 'z'
    ensures OnKey(a) && CapOf(CodeFor(a)).plain == a
  {
  }

  lemma CapitalOnKey(a: char)
    requires 'A' <= a <= 'Z'
    ensures OnKey(a) && CapOf(CodeFor(a)).shifted == a
  {
  }

  lemma DigitOnKey(a: char)
    requires '0' <= a <= '9' || a == ' '
    ensures OnKey(a) && CapOf(CodeFor(a)).plain == a
  {
  }

  lemma SymbolOnKey(a: char)
    requires '!' <= a <= '/' || ':' <= a <= '@'
    ensures OnKey(a)
  {
  }

  lemma BracketOnKey(a: char)
    requires '[' <= a <= '`' || '{' <= a <= '~'
    ensures OnKey(a)
  {
  }

  /** Every printable character is on its key, letters and digits in the places of their case. */
  lemma Printable(a: char)
    requires ' ' <= a <= '~'
    ensures OnKey(a) && ('a' <= a <= 'z' || '0' <= a <= '9' || a == ' ' ==> CapOf(CodeFor(a)).plain == a)
    ensures 'A' <= a <= 'Z' ==> CapOf(CodeFor(a)).shifted == a
  {
    if 'a' <= a <= 'z' {
      SmallLetterOnKey(a);
    } else if 'A' <= a <= 'Z' {
      CapitalOnKey(a);
    } else if '0' <= a <= '9' || a == ' ' {
      DigitOnKey(a);
    } else if a < 'A' {
      SymbolOnKey(a);
    } else {
      BracketOnKey(a);
    }
  }

  predicate IsLower(a: Ascii) {
    'a' <= a <= 'z'
  }

  predicate IsUpper(a: Ascii) {
    'A' <= a <= 'Z'
  }

  // ----- the modifier automaton -----

  datatype Modifiers = Modifiers(mode: nat, shift: bool, ctrl: bool, alt: bool)

  predicate CapsPart(mode: nat) {
    mode == CAP_SHIFT_MODE || mode == CAP_MODE
  }

  predicate ShiftPart(mode: nat) {
    mode == ORIG_SHIFT_MODE || mode == CAP_SHIFT_MODE
  }

  function ModeOf(caps: bool, shift: bool): nat {
    if caps then if shift then CAP_SHIFT_MODE else CAP_MODE
    else if shift then ORIG_SHIFT_MODE else ORIG_MODE
  }

  /** A held key: pressed by its make codes, released by its break codes. */
  predicate Held(was: bool, c: Byte, on1: Byte, on2: Byte, off1: Byte, off2: Byte) {
    if c == off1 || c == off2 then false else was || c == on1 || c == on2
  }

  /** The mode after scancode c, given the new SHIFT and CTRL. Caps Lock pressed in CAP_SHIFT_MODE drops
      the shift part too; it comes back with the next code for which CTRL is up. */
  function NextMode(mode: nat, shift: bool, ctrl: bool, c: Byte): nat {
    ModeOf(CapsPart(mode) != (c == CAPSLOCK_ON),
           if !ctrl then shift else ShiftPart(mode) && !(c == CAPSLOCK_ON && CapsPart(mode)))
  }

  function NextModifiers(m: Modifiers, c: Byte): Modifiers {
    var ctrl := Held(m.ctrl, c, LEFT_CTRL_ON, LEFT_CTRL_ON, LEFT_CTRL_OFF, LEFT_CTRL_OFF);
    var shift := Held(m.shift, c, LEFT_SHIFT_ON, RIGHT_SHIFT_ON, LEFT_SHIFT_OFF, RIGHT_SHIFT_OFF);
    var alt := Held(m.alt, c, LEFT_ALT_ON, LEFT_ALT_ON, LEFT_ALT_OFF, LEFT_ALT_OFF);
    Modifiers(NextMode(m.mode, shift, ctrl, c), shift, ctrl, alt)
  }

  const INITIAL := Modifiers(ORIG_MODE, false, false, false)

  function AfterCodes(m: Modifiers, codes: seq<Byte>): Modifiers {
    if codes == [] then m else NextModifiers(AfterCodes(m, codes[..|codes| - 1]), codes[|codes| - 1])
  }

  function Count(codes: seq<Byte>, c: Byte): nat {
    if codes == [] then 0 else Count(codes[..|codes| - 1], c) + if codes[|codes| - 1] == c then 1 else 0
  }

  /** The last code among a, b, c, d is a or b. */
  predicate LastIs(codes: seq<Byte>, a: Byte, b: Byte, c: Byte, d: Byte) {
    codes != [] &&
    var last := codes[|codes| - 1];
    if last == a || last == b then true
    else if last == c || last == d then false
    else LastIs(codes[..|codes| - 1], a, b, c, d)
  }

  /** After any codes: caps is the parity of Caps Lock presses, shift and control are what was last
      pressed or released, and with control up the mode agrees with both. */
  lemma {:induction false} ModifiersAfter(codes: seq<Byte>)
    ensures var m := AfterCodes(INITIAL, codes);
            && CapsPart(m.mode) == (Count(codes, 0x3A) % 2 == 1)
            && m.shift == LastIs(codes, 0x2A, 0x36, 0xAA, 0xB6)
            && m.ctrl == LastIs(codes, 0x1D, 0x1D, 0x9D, 0x9D)
            && m.alt == LastIs(codes, 0x38, 0x38, 0xB8, 0xB8)
            && (!m.ctrl ==> m.mode == ModeOf(CapsPart(m.mode), m.shift))
  {
    if codes != [] {
      ModifiersAfter(codes[..|codes| - 1]);
    }
  }

  /** mode agrees with itself and SHIFT. */
  predicate InStep(m: Modifiers) {
    m.mode == ModeOf(CapsPart(m.mode), m.shift)
  }

  /** One code takes mode out of step with SHIFT exactly when control is down after it and it moves SHIFT,
      or is Caps Lock while caps and shift are both in force. */
  lemma StepsOut(m: Modifiers, c: Byte)
    requires m.mode < 4 && InStep(m)
    ensures var m' := NextModifiers(m, c);
            !InStep(m') <==> m'.ctrl && (m'.shift != m.shift || (c == CAPSLOCK_ON && m.mode == CAP_SHIFT_MODE))
  {
  }

  /** Shift, Caps Lock, control, Caps Lock, all held: SHIFT is set and mode is the plain one. */
  lemma CapsDropsShift()
    ensures var m := AfterCodes(INITIAL, [LEFT_SHIFT_ON, CAPSLOCK_ON, LEFT_CTRL_ON, CAPSLOCK_ON]);
            m.shift && m.ctrl && m.mode == ORIG_MODE
  {
    var codes: seq<Byte> := [LEFT_SHIFT_ON, CAPSLOCK_ON, LEFT_CTRL_ON, CAPSLOCK_ON];
    assert codes[..3][..2][..1][..0] == [] && codes[..3][..2][..1] == codes[..1];
    assert codes[..3][..2] == codes[..2];
    assert AfterCodes(INITIAL, codes[..1]) == NextModifiers(INITIAL, LEFT_SHIFT_ON);
    assert AfterCodes(INITIAL, codes[..2]) == NextModifiers(AfterCodes(INITIAL, codes[..1]), CAPSLOCK_ON);
    assert AfterCodes(INITIAL, codes[..3]) == NextModifiers(AfterCodes(INITIAL, codes[..2]), LEFT_CTRL_ON);
  }

  /** In the table, the caps rows differ from the others on letters only. */
  lemma CapsMovesLettersOnly(c: nat)
    ensures var k := CapOf(c);
            if IsLower(k.plain) then
              IsUpper(k.shifted) && k.shifted as int + 32 == k.plain as int && k.capsShifted == k.plain
                  && k.caps == k.shifted
            else
              !IsUpper(k.plain) && !IsLower(k.shifted) && !IsUpper(k.shifted) && k.capsShifted == k.shifted
                  && k.caps == k.plain
  {
  }

  /** What is stored with control up: a letter is upper case exactly when caps differs from shift;
      anything else depends on shift alone. */
  lemma StoredSymbol(codes: seq<Byte>, c: Byte)
    ensures var m, k := AfterCodes(INITIAL, codes), CapOf(c);
            var caps := Count(codes, CAPSLOCK_ON) % 2 == 1;
            !m.ctrl ==> Symbol(m.mode, c) == if IsLower(k.plain) && caps then (if m.shift then k.plain else k.shifted)
                                            else if m.shift then k.shifted else k.plain
    ensures var m, k := AfterCodes(INITIAL, codes), CapOf(c);
            var caps := Count(codes, CAPSLOCK_ON) % 2 == 1;
            !m.ctrl && IsLower(k.plain) ==> (IsUpper(Symbol(m.mode, c)) <==> caps != m.shift)
  {
    ModifiersAfter(codes);
    CapsMovesLettersOnly(c);
  }
}
