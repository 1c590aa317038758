/** What one text screen shows: a 25-row window of an unbounded log of characters. */
module Screens {
  import opened Bytes

  const COLS := 80
  const ROWS := 25
  const CELLS := 2000

  /** The characters of a screen row by row, and the cursor as COLS * y + x. */
  datatype Screen = Screen(chars: seq<Byte>, cursor: nat) {
    predicate Valid() {
      |chars| == CELLS && cursor < CELLS
    }

    /** Every cell from the cursor on is blank. */
    ghost predicate BlankTail() {
      Valid() && forall i :: cursor <= i < CELLS ==> chars[i] == SPACE
    }
  }

  const BLANK := Screen(Fill(CELLS, SPACE), 0)

  predicate BreaksLine(c: Byte) {
    c == NEWLINE || c == RETURN
  }

  function ScrolledUp(chars: seq<Byte>): seq<Byte>
    requires |chars| == CELLS
  {
    chars[COLS..] + Fill(COLS, SPACE)
  }

  /** Moves the cursor to cell p, scrolling when p is past the last one. */
  function MoveTo(chars: seq<Byte>, p: nat): (r: Screen)
    requires |chars| == CELLS && p <= CELLS
    ensures r.Valid()
  {
    if p < CELLS then Screen(chars, p) else Screen(ScrolledUp(chars), p - COLS)
  }

  function Put(v: Screen, c: Byte): (r: Screen)
    requires v.Valid()
    ensures r.Valid()
  {
    if BreaksLine(c) then MoveTo(v.chars, (v.cursor / COLS + 1) * COLS)
    else MoveTo(v.chars[v.cursor := c], v.cursor + 1)
  }

  function Erase(v: Screen): (r: Screen)
    requires v.Valid()
    ensures r.Valid()
  {
    if v.cursor == 0 then v else Screen(v.chars[v.cursor - 1 := SPACE], v.cursor - 1)
  }

  function PutAll(v: Screen, s: seq<Byte>): (r: Screen)
    requires v.Valid()
    ensures r.Valid()
  {
    if s == [] then v else Put(PutAll(v, s[..|s| - 1]), s[|s| - 1])
  }

  /** One character, in numbers: newline (10) and return (13) go to the start of the next row and leave the
      characters alone, all others are written at the cursor, which moves on by one cell; below the last row
      the screen moves up by one. */
  lemma PutExact(v: Screen, c: Byte)
    requires v.Valid()
    ensures var r, breaks := Put(v, c), c == 10 || c == 13;
            var chars := if breaks then v.chars else v.chars[v.cursor := c];
            var next := if breaks then v.cursor - v.cursor % 80 + 80 else v.cursor + 1;
            && r.chars == (if next < 2000 then chars else chars[80..] + Fill(80, 32))
            && r.cursor == (if next < 2000 then next else 1920)
    ensures v.cursor % 80 < 79 ==> (Put(v, c).cursor % 80 == 0 <==> c == 10 || c == 13)
  {
    assert (v.cursor / COLS + 1) * COLS == v.cursor - v.cursor % 80 + 80;
  }

  lemma {:induction false} PutAllJoins(v: Screen, a: seq<Byte>, b: seq<Byte>)
    requires v.Valid()
    ensures PutAll(v, a + b) == PutAll(PutAll(v, a), b) && PutAll(v, []) == v
  {
    if b == [] {
      assert a + b == a;
    } else {
      var n := |b| - 1;
      PutAllJoins(v, a, b[..n]);
      assert (a + b)[..|a + b| - 1] == a + b[..n];
    }
  }

  // ----- the log behind a screen -----

  /** Everything written so far, wrapped at COLS, and the cell the window starts at. */
  datatype Log = Log(cells: seq<Byte>, top: nat)

  ghost predicate Shows(v: Screen, l: Log) {
    && v.Valid()
    && l.top % COLS == 0
    && l.top <= |l.cells| < l.top + CELLS
    && v.cursor == |l.cells| - l.top
    && forall i :: 0 <= i < CELLS ==> v.chars[i] == if l.top + i < |l.cells| then l.cells[l.top + i] else SPACE
  }

  /** Cell by cell: the window starts at a row of the log, ends behind its last cell, and is blank from there. */
  lemma ShowsExact(v: Screen, cells: seq<Byte>, top: nat)
    ensures Shows(v, Log(cells, top)) <==>
            && |v.chars| == 2000 && top % 80 == 0 && top <= |cells| < top + 2000 && v.cursor == |cells| - top
            && (forall i :: top <= i < |cells| ==> v.chars[i - top] == cells[i])
            && forall i :: v.cursor <= i < 2000 ==> v.chars[i] == 32
  {
    if Shows(v, Log(cells, top)) {
      forall i | top <= i < |cells|
        ensures v.chars[i - top] == cells[i]
      {
        assert cells[top + (i - top)] == v.chars[i - top];
      }
    }
  }

  /** The log with new cells; the window follows by one row when the cursor leaves it. */
  function Grown(l: Log, cells: seq<Byte>): Log {
    Log(cells, if |cells| == l.top + CELLS then l.top + COLS else l.top)
  }

  function LogPut(l: Log, c: Byte): Log {
    Grown(l, l.cells + if BreaksLine(c) then Fill(COLS - |l.cells| % COLS, SPACE) else [c])
  }

  function LogErase(l: Log): Log {
    if |l.cells| <= l.top then l else l.(cells := l.cells[..|l.cells| - 1])
  }

  lemma PutShows(v: Screen, l: Log, c: Byte)
    requires Shows(v, l)
    ensures Shows(Put(v, c), LogPut(l, c))
  {
    var r, k := Put(v, c), LogPut(l, c);
    assert BreaksLine(c) ==> |k.cells| == l.top + (v.cursor / COLS + 1) * COLS;
    forall i | 0 <= i < CELLS
      ensures r.chars[i] == if k.top + i < |k.cells| then k.cells[k.top + i] else SPACE
    {
      if k.top > l.top && i < CELLS - COLS {
        assert BreaksLine(c) ==> r.chars[i] == v.chars[i + COLS];
      }
    }
  }

  lemma EraseShows(v: Screen, l: Log)
    requires Shows(v, l)
    ensures Shows(Erase(v), LogErase(l))
  {
  }

  /** A text without line breaks is appended to the log as it is, and a newline fills its row with blanks. */
  lemma {:induction false} WriteShows(v: Screen, cells: seq<Byte>, top: nat, s: seq<Byte>) returns (top': nat)
    requires Shows(v, Log(cells, top)) && forall i :: 0 <= i < |s| ==> s[i] != 10 && s[i] != 13
    ensures Shows(PutAll(v, s), Log(cells + s, top')) && top <= top'
  {
    if s == [] {
      assert cells + s == cells;
      return top;
    }
    var n := |s| - 1;
    var t := WriteShows(v, cells, top, s[..n]);
    PutShows(PutAll(v, s[..n]), Log(cells + s[..n], t), s[n]);
    assert cells + s == cells + s[..n] + [s[n]];
    top' := LogPut(Log(cells + s[..n], t), s[n]).top;
  }

  lemma WriteLineShows(v: Screen, cells: seq<Byte>, top: nat, s: seq<Byte>) returns (top': nat)
    requires Shows(v, Log(cells, top)) && forall i :: 0 <= i < |s| ==> s[i] != 10 && s[i] != 13
    ensures Shows(PutAll(v, s + [10]), Log(cells + s + Fill(80 - (|cells| + |s|) % 80, 32), top')) && top <= top'
  {
    var t := WriteShows(v, cells, top, s);
    PutShows(PutAll(v, s), Log(cells + s, t), 10);
    assert (s + [10])[..|s|] == s;
    top' := LogPut(Log(cells + s, t), 10).top;
  }

  // ----- any run of output, erasing and clearing -----

  datatype Action = Output(c: Byte) | Rubout | ClearAndReset

  function Act(v: Screen, a: Action): (r: Screen)
    requires v.Valid()
    ensures r.Valid()
  {
    match a
    case Output(c) => Put(v, c)
    case Rubout => Erase(v)
    case ClearAndReset => BLANK
  }

  function ActAll(v: Screen, run: seq<Action>): (r: Screen)
    requires v.Valid()
    ensures r.Valid()
  {
    if run == [] then v else Act(ActAll(v, run[..|run| - 1]), run[|run| - 1])
  }

  function LogAct(l: Log, a: Action): Log {
    match a
    case Output(c) => LogPut(l, c)
    case Rubout => LogErase(l)
    case ClearAndReset => Log([], 0)
  }

  function LogAll(l: Log, run: seq<Action>): Log {
    if run == [] then l else LogAct(LogAll(l, run[..|run| - 1]), run[|run| - 1])
  }

  /** After any run the screen is a window of the log, and nothing is written from the cursor on. */
  lemma {:induction false} WindowOfLog(v: Screen, run: seq<Action>)
    requires v.BlankTail()
    ensures Shows(ActAll(v, run), LogAll(Log(v.chars[..v.cursor], 0), run))
    ensures ActAll(v, run).BlankTail()
  {
    if run != [] {
      var before, l := ActAll(v, run[..|run| - 1]), LogAll(Log(v.chars[..v.cursor], 0), run[..|run| - 1]);
      WindowOfLog(v, run[..|run| - 1]);
      match run[|run| - 1] {
        case Output(c) => PutShows(before, l, c);
        case Rubout => EraseShows(before, l);
        case ClearAndReset =>
      }
    }
  }

  // ----- typing -----

  const LINE_CAP := 127

  datatype Key = Char(c: Byte) | Backspace

  predicate Typable(keys: seq<Key>) {
    forall i :: 0 <= i < |keys| && keys[i].Char? ==> !BreaksLine(keys[i].c)
  }

  /** The line buffer after one key: a push up to the cap, or a pop. */
  function EditLine(line: seq<Byte>, k: Key): seq<Byte> {
    match k
    case Char(c) => if |line| < LINE_CAP then line + [c] else line
    case Backspace => if line == [] then line else line[..|line| - 1]
  }

  /** The echo of one key on the screen, given the line before it. */
  function EchoKey(v: Screen, line: seq<Byte>, k: Key): (r: Screen)
    requires v.Valid()
    ensures r.Valid()
  {
    match k
    case Char(c) => if |line| < LINE_CAP then Put(v, c) else v
    case Backspace => if line == [] then v else Erase(v)
  }

  function EditAll(line: seq<Byte>, keys: seq<Key>): (r: seq<Byte>)
    ensures |line| <= LINE_CAP ==> |r| <= LINE_CAP
  {
    if keys == [] then line else EditLine(EditAll(line, keys[..|keys| - 1]), keys[|keys| - 1])
  }

  function EchoAll(v: Screen, line: seq<Byte>, keys: seq<Key>): (r: Screen)
    requires v.Valid()
    ensures r.Valid()
  {
    if keys == [] then v
    else EchoKey(EchoAll(v, line, keys[..|keys| - 1]), EditAll(line, keys[..|keys| - 1]), keys[|keys| - 1])
  }

  /** The keys of a text, one after the other. */
  function Typed(s: seq<Byte>): (keys: seq<Key>)
    ensures |keys| == |s| && forall i :: 0 <= i < |s| ==> keys[i] == Char(s[i])
  {
    seq(|s|, i requires 0 <= i < |s| => Char(s[i]))
  }

  /** Of a text typed on an empty line the first 127 characters survive, and any further one changes neither
      the line nor the screen. */
  lemma {:induction false} FirstCharactersSurvive(s: seq<Byte>, v: Screen, c: Byte)
    requires v.Valid()
    ensures EditAll([], Typed(s)) == s[..Min(|s|, 127)]
    ensures |s| >= 127 ==>
              var line := EditAll([], Typed(s));
              EditLine(line, Char(c)) == line && EchoKey(v, line, Char(c)) == v
  {
    if s != [] {
      var n := |s| - 1;
      FirstCharactersSurvive(s[..n], v, c);
      assert Typed(s)[..n] == Typed(s[..n]);
      assert n < 127 ==> s[..n][..n] + [s[n]] == s;
    }
  }

  /** n backspaces take the last n characters away, as far as there are any. */
  lemma {:induction false} BackspacesErase(line: seq<Byte>, n: nat)
    ensures EditAll(line, seq(n, _ => Backspace)) == line[..if n < |line| then |line| - n else 0]
  {
    if n > 0 {
      BackspacesErase(line, n - 1);
      assert seq(n, _ => Backspace)[..n - 1] == seq(n - 1, _ => Backspace);
    }
  }

  /** v is the screen of base followed by line, and the window has not passed the end of base. */
  ghost predicate ShowsLine(v: Screen, base: seq<Byte>, line: seq<Byte>, top: nat) {
    |line| <= LINE_CAP && top <= |base| && Shows(v, Log(base + line, top))
  }

  /** Typing leaves the old screen followed by exactly the surviving characters: no erase is lost. */
  lemma {:induction false} TypingShowsSurvivors(v: Screen, base: seq<Byte>, line: seq<Byte>, top: nat,
      keys: seq<Key>) returns (top': nat)
    requires ShowsLine(v, base, line, top) && Typable(keys)
    ensures ShowsLine(EchoAll(v, line, keys), base, EditAll(line, keys), top')
    ensures top' <= |base| && Shows(EchoAll(v, line, keys), Log(base + EditAll(line, keys), top'))
  {
    if keys == [] {
      return top;
    }
    var before, k := keys[..|keys| - 1], keys[|keys| - 1];
    var t := TypingShowsSurvivors(v, base, line, top, before);
    var u, edited := EchoAll(v, line, before), EditAll(line, before);
    var l := Log(base + edited, t);
    top' := Grown(l, base + EditLine(edited, k)).top;
    match k {
      case Char(c) =>
        PutShows(u, l, c);
        assert base + (edited + [c]) == base + edited + [c];
      case Backspace =>
        EraseShows(u, l);
        assert edited != [] ==> (base + edited)[..|base + edited| - 1] == base + EditLine(edited, k);
    }
  }

  /** A pop of the line goes unseen exactly at the origin; Ctrl-L puts the cursor there and keeps the line
      (keyboard.c:113). */
  lemma LostErase(v: Screen, line: seq<Byte>)
    requires v.Valid() && line != []
    ensures EditLine(line, Backspace) != line
    ensures EchoKey(v, line, Backspace) == v <==> v.cursor == 0
    ensures EchoKey(Act(v, ClearAndReset), line, Backspace) == BLANK
  {
  }
}
