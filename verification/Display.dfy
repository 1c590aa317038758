/** Three virtual text screens on one video page, their save pages, and the user video page table. */
module Displays {
  import opened Machine
  import opened Bytes
  import opened Screens

  const PAGE := 4096
  const FRAMES := 7
  const ATTRIB: Byte := 7

  // ----- one page of video memory: character bytes at even offsets, attributes at odd ones -----

  function Chars(page: seq<Byte>): (r: seq<Byte>)
    requires |page| == PAGE
    ensures |r| == CELLS && forall k :: 0 <= k < CELLS ==> r[k] == page[2 * k]
  {
    seq(CELLS, k requires 0 <= k < CELLS => page[2 * k])
  }

  ghost predicate Painted(page: seq<Byte>)
    requires |page| == PAGE
  {
    forall k :: 0 <= k < CELLS ==> page[2 * k + 1] == ATTRIB
  }

  ghost predicate Blank(page: seq<Byte>)
    requires |page| == PAGE
  {
    Chars(page) == Fill(CELLS, SPACE) && Painted(page)
  }

  method WriteCell(page: array<Byte>, k: nat, c: Byte)
    requires page.Length == PAGE && k < CELLS
    modifies page
    ensures page[2 * k] == c && page[2 * k + 1] == ATTRIB
    ensures Chars(page[..]) == old(Chars(page[..]))[k := c]
    ensures old(Painted(page[..])) ==> Painted(page[..])
  {
    page[2 * k] := c;
    page[2 * k + 1] := ATTRIB;
  }

  /** Rows moved up in columns 0..i and in rows 0..j of column i. */
  function Moved(was: seq<Byte>, i: nat, j: nat): (r: seq<Byte>)
    requires |was| == CELLS
    ensures |r| == CELLS
  {
    seq(CELLS, k requires 0 <= k < CELLS =>
      if k < CELLS - COLS && (k % COLS < i || (k % COLS == i && k / COLS < j)) then was[k + COLS] else was[k])
  }

  lemma MoveOne(was: seq<Byte>, i: nat, j: nat)
    requires |was| == CELLS && i < COLS && j < ROWS - 1
    ensures Moved(was, i, j)[COLS * (j + 1) + i] == was[COLS * (j + 1) + i]
    ensures Moved(was, i, j)[COLS * j + i := was[COLS * (j + 1) + i]] == Moved(was, i, j + 1)
    ensures Moved(was, i, ROWS - 1) == Moved(was, i + 1, 0)
  {
    assert (COLS * (j + 1) + i) % COLS == i && (COLS * (j + 1) + i) / COLS == j + 1;
    assert (COLS * j + i) % COLS == i && (COLS * j + i) / COLS == j;
    assert forall k :: 0 <= k < CELLS && k % COLS == i && k / COLS == j ==> k == COLS * j + i;
  }

  /** The first n cells of the last row blanked. */
  function Blanked(s: seq<Byte>, n: nat): seq<Byte>
    requires |s| == CELLS && n <= COLS
  {
    s[..CELLS - COLS] + Fill(n, SPACE) + s[CELLS - COLS + n..]
  }

  lemma BlankNext(s: seq<Byte>, n: nat)
    requires |s| == CELLS && n < COLS
    ensures Blanked(s, n)[CELLS - COLS + n := SPACE] == Blanked(s, n + 1)
  {
  }

  /** The column-by-column scroll in place moves the screen up exactly one row. */
  method Scroll(page: array<Byte>)
    requires page.Length == PAGE
    modifies page
    ensures Chars(page[..]) == ScrolledUp(old(Chars(page[..])))
    ensures old(Painted(page[..])) ==> Painted(page[..])
  {
    ghost var was := Chars(page[..]);
    MoveRows(page);
    BlankLastRow(page);
    assert Moved(was, COLS, 0)[..CELLS - COLS] == was[COLS..];
  }

  method MoveRows(page: array<Byte>)
    requires page.Length == PAGE
    modifies page
    ensures Chars(page[..]) == Moved(old(Chars(page[..])), COLS, 0)
    ensures old(Painted(page[..])) ==> Painted(page[..])
  {
    ghost var was := Chars(page[..]);
    assert Moved(was, 0, 0) == was;
    for i := 0 to COLS
      invariant Chars(page[..]) == Moved(was, i, 0)
      invariant old(Painted(page[..])) ==> Painted(page[..])
    {
      for j := 0 to ROWS - 1
        invariant Chars(page[..]) == Moved(was, i, j)
        invariant old(Painted(page[..])) ==> Painted(page[..])
      {
        MoveOne(was, i, j);
        CopyUp(page, COLS * j + i);
      }
      MoveOne(was, i, 0);
    }
  }

  /** One assignment of the scroll loop: cell k takes the character of the cell below it. */
  method CopyUp(page: array<Byte>, k: nat)
    requires page.Length == PAGE && k + COLS < CELLS
    modifies page
    ensures Chars(page[..]) == old(Chars(page[..]))[k := old(Chars(page[..]))[k + COLS]]
    ensures old(Painted(page[..])) ==> Painted(page[..])
  {
    page[2 * k] := page[2 * (k + COLS)];
  }

  method BlankLastRow(page: array<Byte>)
    requires page.Length == PAGE
    modifies page
    ensures Chars(page[..]) == Blanked(old(Chars(page[..])), COLS)
    ensures old(Painted(page[..])) ==> Painted(page[..])
  {
    ghost var moved := Chars(page[..]);
    for i := 0 to COLS
      invariant Chars(page[..]) == Blanked(moved, i)
      invariant old(Painted(page[..])) ==> Painted(page[..])
    {
      WriteCell(page, COLS * (ROWS - 1) + i, SPACE);
      BlankNext(moved, i);
    }
  }

  method ClearPage(page: array<Byte>)
    requires page.Length == PAGE
    modifies page
    ensures Blank(page[..])
  {
    for i := 0 to CELLS
      invariant forall k :: 0 <= k < i ==> page[2 * k] == SPACE && page[2 * k + 1] == ATTRIB
    {
      page[2 * i] := SPACE;
      page[2 * i + 1] := ATTRIB;
    }
  }

  method Memcpy(dest: array<Byte>, src: array<Byte>, n: nat)
    requires n <= dest.Length && n <= src.Length && dest != src
    modifies dest
    ensures dest[..n] == src[..n] && dest[n..] == old(dest[n..])
  {
    for i := 0 to n
      invariant dest[..i] == src[..i] && dest[n..] == old(dest[n..])
    {
      dest[i] := src[i];
    }
  }

  lemma PutAllNext(v: Screen, s: seq<Byte>, c: Byte)
    requires v.Valid()
    ensures PutAll(v, NonNul(s + [c])) == if c == NUL then PutAll(v, NonNul(s)) else Put(PutAll(v, NonNul(s)), c)
  {
    assert (s + [c])[..|s|] == s;
    assert (NonNul(s) + [c])[..|NonNul(s)|] == NonNul(s);
  }

  // ----- paging of video memory -----

  const VIDADDR := 0xB8000
  const FARPAGE := 0x84B8000
  const VIDEO_INDEX := 0xB8
  const USERVIDPAGE := 33
  const INDEX_SEG := 4
  const USER_WRITE := 7
  const VIRSTART := 0x8000000
  const VIREND := 0x8400000

  datatype Entry = Entry(address: nat, flags: nat)

  datatype Cursor = Cursor(x: int, y: int)

  /** Physical address of frame f: 0 is the video page, 1..3 the save pages, 4..6 the private user frames. */
  function FrameAddress(f: nat): nat {
    VIDADDR + f * PAGE
  }

  /** The walk of a virtual address under page directory entry USERVIDPAGE. */
  function Walk(table: seq<Entry>, a: nat): nat
    requires |table| == 1024 && a / 0x400000 == USERVIDPAGE
  {
    table[a / PAGE % 1024].address + a % PAGE
  }

  /** The address sys_vidmap hands to a program of terminal t. */
  function VidmapAddress(t: nat): nat {
    FARPAGE + t * PAGE + PAGE * 4
  }

  /** The save page of terminal t as the kernel addresses it. */
  function SaveAddress(t: nat): nat {
    FARPAGE + (t + 1) * PAGE
  }

  function EntryAt(table: seq<Entry>, f: nat): Entry
    requires |table| == 1024 && f < FRAMES
  {
    table[VIDEO_INDEX + f]
  }

  /** What the table must hold while terminal d is displayed. */
  ghost predicate Mapped(table: seq<Entry>, d: nat) {
    && |table| == 1024
    && forall f :: 0 <= f < FRAMES ==>
         EntryAt(table, f) == Entry(if f == d + INDEX_SEG then VIDADDR else FrameAddress(f), USER_WRITE)
  }

  lemma WalkAt(table: seq<Entry>, f: nat)
    requires |table| == 1024 && f < FRAMES
    ensures (FARPAGE + f * PAGE) / 0x400000 == USERVIDPAGE
    ensures Walk(table, FARPAGE + f * PAGE) == EntryAt(table, f).address
  {
  }

  /** A program's video window is the real video page exactly while its terminal is displayed;
      otherwise it is that terminal's own frame, apart from all others and from every save page. */
  lemma VidmapIsolation(table: seq<Entry>, d: nat, t: nat, u: nat)
    requires Mapped(table, d) && d < TERMINALS && t < TERMINALS && u < TERMINALS
    ensures VidmapAddress(t) / 0x400000 == USERVIDPAGE && SaveAddress(u) / 0x400000 == USERVIDPAGE
    ensures Walk(table, VidmapAddress(t)) == (if t == d then VIDADDR else FrameAddress(INDEX_SEG + t))
    ensures Walk(table, VidmapAddress(t)) == VIDADDR == 0xB8000 <==> t == d
    ensures VidmapAddress(t) == 0x84BC000 + 0x1000 * t && SaveAddress(t) == 0x84B9000 + 0x1000 * t
    ensures t != u ==> Walk(table, VidmapAddress(t)) != Walk(table, VidmapAddress(u))
    ensures Walk(table, SaveAddress(u)) == FrameAddress(u + 1)
    ensures Walk(table, VidmapAddress(t)) != Walk(table, SaveAddress(u))
    ensures t != u ==> Walk(table, SaveAddress(t)) != Walk(table, SaveAddress(u))
  {
    WalkAt(table, t + INDEX_SEG);
    WalkAt(table, u + INDEX_SEG);
    WalkAt(table, t + 1);
    WalkAt(table, u + 1);
  }

  // ----- the displays -----

  ghost function Shown(page: seq<Byte>, at: Cursor): Screen
    requires |page| == PAGE && OnScreen(at)
  {
    Screen(Chars(page), COLS * at.y + at.x)
  }

  predicate OnScreen(at: Cursor) {
    0 <= at.x < COLS && 0 <= at.y < ROWS
  }

  /** The step to the start of the next row. */
  method NextRow(page: array<Byte>, at: Cursor) returns (r: Cursor)
    requires page.Length == PAGE && 0 <= at.x <= COLS && 0 <= at.y < ROWS
    modifies page
    ensures r == Cursor(0, Min(at.y + 1, 24)) && (at.y < 24 ==> page[..] == old(page[..]))
    ensures OnScreen(r) && Shown(page[..], r) == MoveTo(old(Chars(page[..])), (at.y + 1) * COLS)
    ensures old(Painted(page[..])) ==> Painted(page[..])
  {
    r := Cursor(0, at.y + 1);
    if r.y >= ROWS {
      r := r.(y := ROWS - 1);
      Scroll(page);
    }
  }

  /** The body that putc and putc_non_displayed share, on the page and the cursor each of them uses. */
  method PutAt(page: array<Byte>, at: Cursor, c: Byte) returns (r: Cursor)
    requires page.Length == PAGE && OnScreen(at)
    modifies page
    ensures OnScreen(r) && Shown(page[..], r) == Put(old(Shown(page[..], at)), c)
    ensures old(Painted(page[..])) ==> Painted(page[..])
    ensures r == if c == 10 || c == 13 || at.x == 79 then Cursor(0, Min(at.y + 1, 24)) else Cursor(at.x + 1, at.y)
    ensures c != 10 && c != 13 && 80 * at.y + at.x < 1999 ==>
              var a := 2 * (80 * at.y + at.x); page[a] == c && page[a + 1] == 7
  {
    if c == NEWLINE || c == RETURN {
      r := NextRow(page, at);
    } else {
      WriteCell(page, COLS * at.y + at.x, c);
      r := at.(x := at.x + 1);
      if r.x >= COLS {
        r := NextRow(page, r);
      }
    }
  }

  /** The body of backspace. */
  method EraseAt(page: array<Byte>, at: Cursor) returns (r: Cursor)
    requires page.Length == PAGE && OnScreen(at)
    modifies page
    ensures OnScreen(r) && Shown(page[..], r) == Erase(old(Shown(page[..], at)))
    ensures old(Painted(page[..])) ==> Painted(page[..])
  {
    if at.x == 0 && at.y == 0 {
      return at;
    }
    if at.x == 0 {
      r := Cursor(COLS - 1, at.y - 1);
      WriteCell(page, COLS * r.y + r.x, SPACE);
    } else {
      r := PutAt(page, at.(x := at.x - 1), SPACE);
      r := r.(x := r.x - 1);
    }
  }

  method BlankPages(n: nat) returns (pages: seq<array<Byte>>)
    ensures |pages| == n
    ensures forall f :: 0 <= f < n ==> fresh(pages[f]) && pages[f].Length == PAGE && Blank(pages[f][..])
    ensures forall f, g :: 0 <= f < g < n ==> pages[f] != pages[g]
  {
    pages := [];
    for i := 0 to n
      invariant |pages| == i
      invariant forall f :: 0 <= f < i ==> fresh(pages[f]) && pages[f].Length == PAGE && Blank(pages[f][..])
      invariant forall f, g :: 0 <= f < g < i ==> pages[f] != pages[g]
    {
      var page := new Byte[PAGE];
      ClearPage(page);
      pages := pages + [page];
    }
  }

  /** The part of INIT_PAGE for video memory: each entry maps its own frame, that of terminal 0 the video page. */
  method InitialTable() returns (table: seq<Entry>)
    ensures Mapped(table, 0)
  {
    table := seq(1024, (i: nat) => Entry(i * PAGE, 2));
    for f := 0 to FRAMES
      invariant |table| == 1024
      invariant forall g :: 0 <= g < f ==> EntryAt(table, g) == Entry(FrameAddress(g), USER_WRITE)
    {
      table := table[VIDEO_INDEX + f := Entry(VIDADDR + f * PAGE, USER_WRITE)];
    }
    table := table[VIDEO_INDEX + INDEX_SEG := Entry(VIDADDR, USER_WRITE)];
  }

  class Display {
    const frames: seq<array<Byte>>
    var cursors: seq<Cursor>
    var table: seq<Entry>
    var displayed: nat
    var executing: nat

    /** Pages and cursors are in order. */
    ghost predicate Laid()
      reads this, frames
    {
      && |frames| == FRAMES && |cursors| == TERMINALS
      && displayed < TERMINALS && executing < TERMINALS
      && (forall f, g :: 0 <= f < g < FRAMES ==> frames[f] != frames[g])
      && (forall f :: 0 <= f < FRAMES ==> frames[f].Length == PAGE)
      && (forall f :: 0 <= f <= TERMINALS ==> Painted(frames[f][..]))
      && (forall t :: 0 <= t < TERMINALS ==> OnScreen(cursors[t]))
    }

    ghost predicate Valid()
      reads this, frames
    {
      Laid() && Mapped(table, displayed)
    }

    /** The state after INIT_PAGE, clear and terminal_init: terminal 0 is displayed, with the boot messages
        that entry prints on it, and the other screens are blank. */
    constructor (messages: seq<Byte>)
      ensures Valid() && displayed == 0 && executing == 0
      ensures forall f :: 0 <= f < FRAMES ==> fresh(frames[f])
      ensures Screens() == [PutAll(BLANK, messages), BLANK, BLANK]
    {
      var pages := BlankPages(FRAMES);
      var initial := InitialTable();
      frames := pages;
      cursors := [Cursor(0, 0), Cursor(0, 0), Cursor(0, 0)];
      table := initial;
      displayed, executing := 0, 0;
      new;
      for i := 0 to |messages|
        invariant Valid() && displayed == 0 && executing == 0
        invariant Screens() == [PutAll(BLANK, messages[..i]), BLANK, BLANK]
      {
        Putc(messages[i]);
        assert messages[..i + 1][..i] == messages[..i];
      }
      assert messages[..|messages|] == messages;
    }

    /** The page that holds the screen of terminal t. */
    ghost function PageOf(t: nat): array<Byte>
      requires |frames| == FRAMES && t < TERMINALS
      reads this
    {
      if t == displayed then frames[0] else frames[t + 1]
    }

    /** The screen of terminal t, displayed or not. */
    ghost function ScreenOf(t: nat): (v: Screen)
      requires Laid() && t < TERMINALS
      reads this, frames
      ensures v.Valid()
    {
      Shown(PageOf(t)[..], cursors[t])
    }

    ghost function Screens(): (r: seq<Screen>)
      requires Laid()
      reads this, frames
      ensures |r| == TERMINALS && forall t :: 0 <= t < TERMINALS ==> r[t] == ScreenOf(t) && r[t].Valid()
    {
      [ScreenOf(0), ScreenOf(1), ScreenOf(2)]
    }

    /** putc: writes to the displayed terminal. */
    method Putc(c: Byte)
      requires Valid()
      modifies this`cursors, frames[0]
      ensures Valid() && Screens() == old(Screens())[displayed := Put(old(ScreenOf(displayed)), c)]
      ensures c == 10 || c == 13 ==> cursors[displayed] == Cursor(0, Min(old(cursors)[displayed].y + 1, 24))
    {
      var at := PutAt(frames[0], cursors[displayed], c);
      cursors := cursors[displayed := at];
    }

    /** putc_non_displayed: writes to the save page of the executing terminal. */
    method PutcNonDisplayed(c: Byte)
      requires Valid() && executing != displayed
      modifies this`cursors, frames[executing + 1]
      ensures Valid() && Screens() == old(Screens())[executing := Put(old(ScreenOf(executing)), c)]
    {
      var at := PutAt(frames[executing + 1], cursors[executing], c);
      cursors := cursors[executing := at];
    }

    /** backspace: blanks the cell before the cursor, except at the origin. */
    method Backspace()
      requires Valid()
      modifies this`cursors, frames[0]
      ensures Valid() && Screens() == old(Screens())[displayed := Erase(old(ScreenOf(displayed)))]
    {
      var at := EraseAt(frames[0], cursors[displayed]);
      cursors := cursors[displayed := at];
    }

    /** clear and reset_screen, as Ctrl-L calls them. */
    method ClearAndReset()
      requires Valid()
      modifies this`cursors, frames[0]
      ensures Valid() && Screens() == old(Screens())[displayed := BLANK]
    {
      ClearPage(frames[0]);
      cursors := cursors[displayed := Cursor(0, 0)];
    }

    /** switch_active_terminal: no screen changes, only which one is on the video page. */
    method SwitchActiveTerminal(n: nat)
      requires Valid() && n < TERMINALS
      modifies this`displayed, this`table, frames[0], frames[displayed + 1]
      ensures Valid() && displayed == n && Screens() == old(Screens())
    {
      ghost var d, shown, next := displayed, frames[0][..], PageOf(n)[..];
      Memcpy(frames[displayed + 1], frames[0], PAGE);
      assert frames[d + 1][..] == frames[d + 1][..PAGE] == shown;
      ClearPage(frames[0]);
      Memcpy(frames[0], frames[n + 1], PAGE);
      assert frames[0][..] == frames[0][..PAGE] == frames[n + 1][..] == next;
      table := table[VIDEO_INDEX + displayed + INDEX_SEG := Entry(FrameAddress(INDEX_SEG + displayed), USER_WRITE)];
      table := table[VIDEO_INDEX + n + INDEX_SEG := Entry(VIDADDR, USER_WRITE)];
      displayed := n;
      assert forall t :: 0 <= t < TERMINALS ==> PageOf(t)[..] == old(PageOf(t)[..]);
    }

    /** One round of the loop of terminal_write. */
    method WriteByte(c: Byte)
      requires Valid()
      modifies this`cursors, frames[0], frames[executing + 1]
      ensures Valid()
      ensures var v := old(ScreenOf(executing));
              Screens() == old(Screens())[executing := if c == NUL then v else Put(v, c)]
    {
      if c != NUL {
        if executing == displayed {
          Putc(c);
        } else {
          PutcNonDisplayed(c);
        }
      }
    }

    /** terminal_write: the bytes other than NUL, on the executing terminal. */
    method TerminalWrite(buf: array?<Byte>, nbytes: int) returns (r: int)
      requires Valid() && (buf != null ==> nbytes <= buf.Length)
      requires buf != null ==> forall f :: 0 <= f < FRAMES ==> frames[f] != buf
      modifies this`cursors, frames[0], frames[executing + 1]
      ensures Valid()
      ensures r == if nbytes != 0 && buf == null then -1 else nbytes
      ensures Screens() == if nbytes <= 0 || buf == null then old(Screens())
                           else old(Screens())[executing := PutAll(old(ScreenOf(executing)), NonNul(buf[..nbytes]))]
    {
      if nbytes == 0 {
        return 0;
      }
      if buf == null {
        return -1;
      }
      ghost var v := ScreenOf(executing);
      var i := 0;
      while i < nbytes
        invariant 0 <= i && (nbytes >= 0 ==> i <= nbytes) && (nbytes < 0 ==> i == 0)
        invariant Valid() && Screens() == old(Screens())[executing := PutAll(v, NonNul(buf[..i]))]
        invariant buf[..] == old(buf[..])
        decreases nbytes - i
      {
        PutAllNext(v, buf[..i], buf[i]);
        assert buf[..i + 1] == buf[..i] + [buf[i]];
        WriteByte(buf[i]);
        i := i + 1;
      }
      return nbytes;
    }

    /** The assignment of context_switch: terminal t's program runs next. */
    method Schedule(t: nat)
      requires Valid() && t < TERMINALS
      modifies this`executing
      ensures Valid() && executing == t && Screens() == old(Screens())
    {
      executing := t;
    }

    /** What a failed launch in context_switch does to the screens: displayed_terminal is set and no memory
        is moved. Terminal t then takes over the video page as it is and the terminal that was displayed
        falls back to its save page, so the screens stay the same only when t was displayed already or the
        characters on those pages agree; the page table still maps the old terminal to the video page. */
    method ResetDisplayed(t: nat)
      requires Valid() && t < TERMINALS
      modifies this`displayed
      ensures displayed == t && Laid() && (Valid() <==> t == old(displayed))
      ensures forall u :: 0 <= u < TERMINALS && (t == old(displayed) || (u != t && u != old(displayed))) ==>
                Screens()[u] == old(Screens())[u]
      ensures var d := old(displayed);
              t != d ==>
                && Screens()[t] == Shown(frames[0][..], cursors[t])
                && Screens()[d] == Shown(frames[d + 1][..], cursors[d])
                && (Screens() == old(Screens()) <==>
                      Chars(frames[t + 1][..]) == Chars(frames[0][..]) == Chars(frames[d + 1][..]))
    {
      displayed := t;
      assert t != old(displayed) ==> EntryAt(table, old(displayed) + INDEX_SEG) == Entry(VIDADDR, USER_WRITE);
    }

    /** sys_vidmap: where the caller's screen pointer lies and where its video window is. */
    method Vidmap(screenStart: nat) returns (r: int, a: nat)
      requires Valid()
      ensures r == if 0x800_0000 < screenStart < 0x840_0000 then 0 else -1
      ensures r == 0 ==> a / 0x400000 == USERVIDPAGE
      ensures r == 0 ==> Walk(table, a) == if executing == displayed then VIDADDR
              else FrameAddress(INDEX_SEG + executing)
    {
      a := 0;
      if screenStart == 0 {
        return -1, a;
      }
      if !(screenStart > VIRSTART && screenStart < VIREND) {
        return -1, a;
      }
      VidmapIsolation(table, displayed, executing, executing);
      return 0, FARPAGE + executing * PAGE + PAGE * 4;
    }
  }
}
