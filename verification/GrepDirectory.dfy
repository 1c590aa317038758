/** The main program of grep: the lines of every file that the directory names. */
module GrepDirectory {
  import opened Sequences
  import opened Bytes
  import opened Files
  import opened FileTables
  import opened Commands
  import opened Grep

  const DOT: Byte := 46

  // ----- which files are searched, and what comes out -----

  datatype Outcome = Outcome(status: int, out: seq<Byte>)

  /** What reads of 32 bytes bring, until one comes back empty. */
  ghost function Delivered(img: seq<Byte>, d: Descriptor): seq<seq<Byte>>
    requires Scanned(img, d)
    decreases ToRead(img, d)
  {
    var bytes := ReadingOf(img, d, false, NAME_LENGTH, []).bytes;
    if bytes == [] then []
    else
      ReadFits(img, d, NAME_LENGTH);
      [bytes] + Delivered(img, Advanced(img, d, NAME_LENGTH))
  }

  predicate Dotted(name: seq<Byte>) {
    name != [] && name[0] == DOT
  }

  /** The file names among them: none that starts with a dot. */
  function Chosen(pieces: seq<seq<Byte>>): (r: seq<seq<Byte>>)
    ensures forall i :: 0 <= i < |r| ==> Free(r[i], NUL)
  {
    if pieces == [] then []
    else (if Dotted(pieces[0]) then [] else [CString(pieces[0])]) + Chosen(pieces[1..])
  }

  function EntryOf(img: seq<Byte>, name: seq<Byte>): (e: int)
    requires |img| >= BLOCK && DirCount(img) <= MAX_ENTRIES
    ensures -1 <= e < DirCount(img)
  {
    Lookup(img, name + [NUL])
  }

  /** The searches of the named files in order, up to the first that cannot be opened. */
  ghost function Searches(img: seq<Byte>, s: seq<Byte>, names: seq<seq<Byte>>, room: bool): Outcome
    requires WellFormed(img) && DirEnds(img, 0)
  {
    if names == [] then Outcome(0, [])
    else if EntryOf(img, names[0]) < 0 || !room then Outcome(3, [])
    else
      var rest := Searches(img, s, names[1..], room);
      rest.(out := OutputOf(names[0], s, img, EntryOf(img, names[0])) + rest.out)
  }

  ghost predicate AllExact(img: seq<Byte>, names: seq<seq<Byte>>)
    requires WellFormed(img) && DirEnds(img, 0)
  {
    forall i :: 0 <= i < |names| && EntryOf(img, names[i]) >= 0 ==> Exact(img, EntryOf(img, names[i]))
  }

  /** The first name that no entry has ends it with status 3, after the output of the files before it. */
  lemma {:induction false} FirstMissingStops(img: seq<Byte>, s: seq<Byte>, names: seq<seq<Byte>>, missing: seq<Byte>,
                                             rest: seq<seq<Byte>>)
    requires WellFormed(img) && DirEnds(img, 0) && EntryOf(img, missing) == -1
    requires forall i :: 0 <= i < |names| ==> EntryOf(img, names[i]) != -1
    ensures Searches(img, s, names, true).status == 0
    ensures Searches(img, s, names + [missing] + rest, true) == Outcome(3, Searches(img, s, names, true).out)
  {
    var all := names + [missing] + rest;
    if names == [] {
      assert all[0] == missing;
    } else {
      FirstMissingStops(img, s, names[1..], missing, rest);
      assert all[0] == names[0] && all[1..] == names[1..] + [missing] + rest;
    }
  }

  /** Without a free descriptor the first name does. */
  lemma NoDescriptorStops(img: seq<Byte>, s: seq<Byte>, names: seq<seq<Byte>>)
    requires WellFormed(img) && DirEnds(img, 0)
    ensures Searches(img, s, names, false) == Outcome(if names == [] then 0 else 3, [])
  {
  }

  /** The chosen names are those that do not start with a dot (46), in order. */
  lemma ChosenMeans(a: seq<seq<Byte>>, name: seq<Byte>, b: seq<seq<Byte>>)
    requires Free(name, 0)
    ensures Chosen(a + b) == Chosen(a) + Chosen(b)
    ensures Chosen([name]) == if name != [] && name[0] == 46 then [] else [name]
  {
    ChosenJoins(a, b);
    assert name[..|name|] == name;
    CStringIs(name, |name|);
  }

  lemma {:induction false} ChosenJoins(a: seq<seq<Byte>>, b: seq<seq<Byte>>)
    ensures Chosen(a + b) == Chosen(a) + Chosen(b)
  {
    if a == [] {
      assert a + b == b;
    } else {
      var first, rest := a[0], a[1..];
      ChosenJoins(rest, b);
      assert a == [first] + rest && a + b == [first] + (rest + b);
      ChosenNext(first, rest);
      ChosenNext(first, rest + b);
      Regroup(if Dotted(first) then [] else [CString(first)], Chosen(rest), Chosen(b));
    }
  }

  // ----- every file once -----

  /** The lines that the entries from..n of the directory contribute, each under its own name. */
  ghost function EntriesSearched(img: seq<Byte>, s: seq<Byte>, from: nat, n: nat): seq<Byte>
    requires WellFormed(img) && DirEnds(img, 0) && from <= n <= DirCount(img)
    decreases n - from
  {
    if from == n then []
    else
      var name := CString(EntryName(img, from));
      (if Dotted(name) then [] else OutputOf(name, s, img, from)) + EntriesSearched(img, s, from + 1, n)
  }

  /** No two entries have the same name, and each has one. */
  ghost predicate DistinctNames(img: seq<Byte>)
    requires |img| >= BLOCK && DirCount(img) <= MAX_ENTRIES
  {
    && (forall i :: 0 <= i < DirCount(img) ==> CString(EntryName(img, i)) != [])
    && forall i, j :: 0 <= i < j < DirCount(img) ==> CString(EntryName(img, i)) != CString(EntryName(img, j))
  }

  /** The entries have different names, and the reads of the directory end where they do. */
  ghost predicate EndsExactly(img: seq<Byte>)
    requires WellFormed(img)
  {
    && DistinctNames(img)
    && if DirCount(img) < MAX_ENTRIES then CString(EntryName(img, DirCount(img))) == []
       else FileLength(img, 0) % 256 == 0
  }

  /** What main does once directory entry e is open as "."; room says whether a descriptor is left. */
  ghost function Searched(img: seq<Byte>, s: seq<Byte>, e: nat, room: bool): Outcome
    requires WellFormed(img) && DirEnds(img, 0) && e < DirCount(img)
  {
    OpenedScanned(img, e);
    Searches(img, s, Chosen(Delivered(img, Opened(img, e))), room)
  }

  lemma OpenedScanned(img: seq<Byte>, e: nat)
    requires WellFormed(img) && DirEnds(img, 0) && e < DirCount(img)
    ensures Scanned(img, Opened(img, e))
  {
  }

  /** When all names differ and the reads of the directory end where its entries do, main succeeds and puts
      out the lines of every file whose name does not start with a dot, once and in directory order. */
  lemma EveryFileOnce(img: seq<Byte>, s: seq<Byte>, e: nat)
    requires WellFormed(img) && DirEnds(img, 0) && EndsExactly(img)
    requires e < DirCount(img) && EntryType(img, e) == 1
    ensures Searched(img, s, e, true) == Outcome(0, EntriesSearched(img, s, 0, DirCount(img)))
  {
    OpenedScanned(img, e);
    DeliveredNames(img, Opened(img, e));
    ListedExact(img);
    EntriesFrom(img, s, 0);
    assert Listed(img, 0) == EntryNames(img, 0, DirCount(img));
  }

  /** From entry i on. The trigger keeps the searches out of the induction. */
  ghost predicate SearchedFrom(img: seq<Byte>, s: seq<Byte>, i: nat)
    requires WellFormed(img) && DirEnds(img, 0) && i <= DirCount(img)
  {
    forall n {:trigger EntryNames(img, i, n)} :: n == DirCount(img) ==>
      Searches(img, s, Chosen(EntryNames(img, i, n)), true) == Outcome(0, EntriesSearched(img, s, i, n))
  }

  lemma {:induction false} EntriesFrom(img: seq<Byte>, s: seq<Byte>, i: nat)
    requires WellFormed(img) && DirEnds(img, 0) && DistinctNames(img) && i <= DirCount(img)
    ensures SearchedFrom(img, s, i)
    decreases DirCount(img) - i
  {
    if i < DirCount(img) {
      EntriesFrom(img, s, i + 1);
      EntriesNext(img, s, i);
    }
  }

  lemma EntriesNext(img: seq<Byte>, s: seq<Byte>, i: nat)
    requires WellFormed(img) && DirEnds(img, 0) && DistinctNames(img) && i < DirCount(img)
    requires SearchedFrom(img, s, i + 1)
    ensures SearchedFrom(img, s, i)
  {
    EntryAhead(img, s, i, EntryNames(img, i + 1, DirCount(img)));
  }

  lemma EntryAhead(img: seq<Byte>, s: seq<Byte>, i: nat, names: seq<seq<Byte>>)
    requires WellFormed(img) && DirEnds(img, 0) && DistinctNames(img) && i < DirCount(img)
    ensures var name, rest := CString(EntryName(img, i)), Searches(img, s, Chosen(names), true);
            Searches(img, s, Chosen([name] + names), true) ==
              rest.(out := (if Dotted(name) then [] else OutputOf(name, s, img, i)) + rest.out)
  {
    var name := CString(EntryName(img, i));
    OwnEntry(img, i);
    ChosenNext(name, names);
    SearchesNext(img, s, name, Chosen(names));
  }

  lemma ChosenNext(piece: seq<Byte>, pieces: seq<seq<Byte>>)
    ensures Chosen([piece] + pieces) == if Dotted(piece) then Chosen(pieces) else [CString(piece)] + Chosen(pieces)
  {
    assert ([piece] + pieces)[1..] == pieces;
  }

  lemma SearchesNext(img: seq<Byte>, s: seq<Byte>, name: seq<Byte>, names: seq<seq<Byte>>)
    requires WellFormed(img) && DirEnds(img, 0) && EntryOf(img, name) >= 0
    ensures var rest := Searches(img, s, names, true);
            Searches(img, s, [name] + names, true) ==
              rest.(out := OutputOf(name, s, img, EntryOf(img, name)) + rest.out)
  {
    assert ([name] + names)[1..] == names;
  }

  lemma OwnEntry(img: seq<Byte>, i: nat)
    requires WellFormed(img) && DistinctNames(img) && i < DirCount(img)
    ensures CString(CString(EntryName(img, i))) == CString(EntryName(img, i))
    ensures EntryOf(img, CString(EntryName(img, i))) == i
  {
    var name := CString(EntryName(img, i));
    assert name[..|name|] == name;
    CStringIs(name, |name|);
    SeenName(name);
    LookupFirst(img, name + [NUL], 0);
    forall j | 0 <= j < DirCount(img)
      ensures Names(img, name + [NUL], j) <==> CString(EntryName(img, j)) == name
    {
      assert EntryName(img, j)[..NAME_LENGTH] == EntryName(img, j);
    }
  }

  lemma SeenName(name: seq<Byte>)
    requires Free(name, NUL) && |name| <= NAME_LENGTH
    ensures Seen(name + [NUL], NAME_LENGTH) == name
  {
    var m := (name + [NUL])[..Min(NAME_LENGTH, |name| + 1)];
    assert m[..|name|] == name;
    CStringIs(m, |name|);
  }

  /** Of the directory the pieces are its names. */
  lemma {:induction false} DeliveredNames(img: seq<Byte>, d: Descriptor)
    requires Scanned(img, d) && d.kind == Directory
    ensures Delivered(img, d) == Listed(img, d.position)
    decreases ToRead(img, d)
  {
    DirectoryReading(img, d, NAME_LENGTH);
    if DirName(img, d.position) != [] {
      DeliveredNames(img, Advanced(img, d, NAME_LENGTH));
    }
  }

  /** d still delivers these pieces. The trigger keeps the definition out of proofs that only hand it on. */
  ghost predicate Delivers(img: seq<Byte>, d: Descriptor, pieces: seq<seq<Byte>>) {
    forall e {:trigger Scanned(img, e)} :: e == d ==> Scanned(img, e) && pieces == Delivered(img, e)
  }

  lemma DeliversNext(img: seq<Byte>, d: Descriptor, pieces: seq<seq<Byte>>)
    requires Delivers(img, d, pieces)
    ensures Scanned(img, d)
    ensures var bytes := ReadingOf(img, d, false, NAME_LENGTH, []).bytes;
            if bytes == [] then pieces == []
            else pieces != [] && bytes == pieces[0] && Delivers(img, Advanced(img, d, NAME_LENGTH), pieces[1..])
  {
    assert Scanned(img, d);
    ReadFits(img, d, NAME_LENGTH);
  }

  // ----- the program -----

  /** The searches of the names still to come complete the total. */
  ghost predicate Pending(img: seq<Byte>, s: seq<Byte>, room: bool, total: Outcome, exact: bool, out: seq<Byte>,
                          names: seq<seq<Byte>>)
    requires WellFormed(img) && DirEnds(img, 0)
  {
    forall ns {:trigger Searches(img, s, ns, room)} :: ns == names ==>
      var rest := Searches(img, s, ns, room);
      total.status == rest.status && (exact ==> AllExact(img, ns) && total.out == out + rest.out)
  }

  lemma PendingNext(img: seq<Byte>, s: seq<Byte>, room: bool, total: Outcome, exact: bool, out: seq<Byte>,
                    name: seq<Byte>, names: seq<seq<Byte>>)
    requires WellFormed(img) && DirEnds(img, 0)
    requires Pending(img, s, room, total, exact, out, [name] + names)
    ensures var e := EntryOf(img, name);
            if e < 0 || !room then total.status == 3 && (exact ==> total.out == out)
            else
              && (exact ==> Exact(img, e))
              && Pending(img, s, room, total, exact, out + OutputOf(name, s, img, e), names)
  {
    var all := [name] + names;
    var now := Searches(img, s, all, room);
    assert all[0] == name && all[1..] == names;
    var e := EntryOf(img, name);
    if e >= 0 && room {
      var rest := Searches(img, s, names, room);
      Regroup(out, OutputOf(name, s, img, e), rest.out);
      if exact {
        assert forall i :: 0 <= i < |names| ==> all[i + 1] == names[i];
      }
    }
  }

  lemma PendingNone(img: seq<Byte>, s: seq<Byte>, room: bool, total: Outcome, exact: bool, out: seq<Byte>)
    requires WellFormed(img) && DirEnds(img, 0) && Pending(img, s, room, total, exact, out, [])
    ensures total.status == 0 && (exact ==> total.out == out)
  {
    var none := Searches(img, s, [], room);
  }

  /** What that comes to for a program with a free descriptor, on a directory that names every entry differently
      and ends where its entries do, when every file in it is exact: the lines of every file, each once. */
  lemma FindsMeans(img: seq<Byte>, d: seq<Descriptor>, s: seq<Byte>, status: int, out: seq<Byte>)
    requires WellFormed(img) && DirEnds(img, 0) && FIRST_FILE <= |d|
    ensures var e, fd := EntryOf(img, [DOT]), LeastFree(d, FIRST_FILE);
            Finds(img, d, s, status, out) ==>
              && (e < 0 || fd < 0 ==> status == 2 && out == [])
              && (e >= 0 && fd >= 0 && EntryType(img, e) == 1 && LeastFree(d, fd + 1) >= 0 && EndsExactly(img) ==>
                    && status == 0
                    && (AllExact(img, Chosen(Listed(img, 0))) ==> out == EntriesSearched(img, s, 0, DirCount(img))))
  {
    var e, fd := EntryOf(img, [DOT]), LeastFree(d, FIRST_FILE);
    if e >= 0 && fd >= 0 && EntryType(img, e) == 1 && LeastFree(d, fd + 1) >= 0 && EndsExactly(img) {
      EveryFileOnce(img, s, e);
      OpenedScanned(img, e);
      DeliveredNames(img, Opened(img, e));
    }
  }

  /** One round of main: the search of the file named in buf[..cnt]. */
  method SearchPiece(files: FileTable, s: seq<Byte>, buf: array<Byte>, cnt: nat, data: array<Byte>, ghost room: bool,
                     ghost total: Outcome, ghost exact: bool, ghost before: seq<Byte>, ghost names: seq<seq<Byte>>)
    returns (r: int, out: seq<Byte>)
    requires files.Valid() && Free(s, NUL) && DirEnds(files.img, 0)
    requires data.Length == BUFSIZE + 1 && data[BUFSIZE] != NEWLINE && cnt < buf.Length && buf != data
    requires room == (LeastFree(files.desc[..], FIRST_FILE) >= 0)
    requires Pending(files.img, s, room, total, exact, before, [CString(buf[..cnt])] + names)
    modifies data, buf, files.desc
    ensures files.Valid() && data[BUFSIZE] != NEWLINE && room == (LeastFree(files.desc[..], FIRST_FILE) >= 0)
    ensures forall i :: 0 <= i < FD_COUNT && !old(files.desc[i].free) ==> files.desc[i] == old(files.desc[i])
    ensures if r == 0 then Pending(files.img, s, room, total, exact, before + out, names)
            else total.status == 3 && (exact ==> total.out == before + out)
  {
    ghost var piece, desc := buf[..cnt], files.desc[..];
    PendingNext(files.img, s, room, total, exact, before, CString(piece), names);
    buf[cnt] := NUL;
    CStringCut(buf[..], piece);
    r, out := DoOneFile(files, s, CString(buf[..]), data);
    LeastFreeByFlags(files.desc[..], desc, FIRST_FILE);
    assert before + [] == before;
  }

  lemma LeastFreeByFlags(a: seq<Descriptor>, b: seq<Descriptor>, i: nat)
    requires |a| == |b| && i <= |a| && forall k :: 0 <= k < |a| ==> a[k].free == b[k].free
    ensures LeastFree(a, i) == LeastFree(b, i)
    decreases |a| - i
  {
  }

  /** The loop of main over the open directory. */
  method SearchAll(files: FileTable, fd: int, s: seq<Byte>, buf: array<Byte>, data: array<Byte>, ghost room: bool,
                   ghost total: Outcome, ghost exact: bool, ghost pieces: seq<seq<Byte>>)
    returns (status: int, out: seq<Byte>)
    requires files.Valid() && FIRST_FILE <= fd < FD_COUNT && !files.desc[fd].free && Free(s, NUL)
    requires DirEnds(files.img, 0) && room == (LeastFree(files.desc[..], FIRST_FILE) >= 0)
    requires Delivers(files.img, files.desc[fd], pieces)
    requires Pending(files.img, s, room, total, exact, [], Chosen(pieces))
    requires data.Length == BUFSIZE + 1 && data[BUFSIZE] != NEWLINE && buf.Length == NAME_LENGTH + 1 && buf != data
    modifies data, buf, files.desc
    ensures files.Valid() && status == total.status && (exact ==> out == total.out)
  {
    ghost var img, rest := files.img, pieces;
    status, out := 0, [];
    var cnt := NextPiece(files, fd, buf, rest);
    while 0 != cnt
      invariant files.Valid() && data[BUFSIZE] != NEWLINE && !files.desc[fd].free && 0 <= cnt <= NAME_LENGTH
      invariant status == 0 && room == (LeastFree(files.desc[..], FIRST_FILE) >= 0)
      invariant Pending(img, s, room, total, exact, out, Chosen(rest)) && (cnt == 0 <==> rest == [])
      invariant cnt != 0 ==> buf[..cnt] == rest[0] && Delivers(img, files.desc[fd], rest[1..])
      decreases |rest|
    {
      if -1 == cnt {
        status := 3;
        break;
      }
      ChosenFront(rest);
      rest := rest[1..];
      if DOT != buf[0] {
        var printed;
        status, printed := SearchPiece(files, s, buf, cnt, data, room, total, exact, out, Chosen(rest));
        out := out + printed;
        if 0 != status {
          status := 3;
          break;
        }
      }
      cnt := NextPiece(files, fd, buf, rest);
    }
    if status == 0 {
      PendingNone(img, s, room, total, exact, out);
    }
  }

  lemma ChosenFront(pieces: seq<seq<Byte>>)
    requires pieces != []
    ensures var rest := Chosen(pieces[1..]);
            Chosen(pieces) == if Dotted(pieces[0]) then rest else [CString(pieces[0])] + rest
  {
  }

  /** The read of one round. */
  method NextPiece(files: FileTable, fd: int, buf: array<Byte>, ghost pieces: seq<seq<Byte>>) returns (cnt: int)
    requires files.Valid() && FIRST_FILE <= fd < FD_COUNT && !files.desc[fd].free && buf.Length == NAME_LENGTH + 1
    requires Delivers(files.img, files.desc[fd], pieces)
    modifies buf, files.desc
    ensures files.Valid() && 0 <= cnt <= NAME_LENGTH && (cnt == 0 <==> pieces == [])
    ensures !files.desc[fd].free && LeastFree(files.desc[..], FIRST_FILE) == old(LeastFree(files.desc[..], FIRST_FILE))
    ensures cnt != 0 ==> buf[..cnt] == pieces[0] && Delivers(files.img, files.desc[fd], pieces[1..])
  {
    ghost var desc := files.desc[..];
    DeliversNext(files.img, files.desc[fd], pieces);
    cnt := ReadOn(files, fd, buf, 0, NAME_LENGTH);
    assert buf[..0] == [];
    LeastFreeByFlags(files.desc[..], desc, FIRST_FILE);
  }

  lemma CStringCut(m: seq<Byte>, piece: seq<Byte>)
    requires |piece| < |m| && m[..|piece|] == piece && m[|piece|] == NUL
    ensures CString(m) == CString(piece)
  {
    var n := |CString(piece)|;
    assert m[..n] == piece[..n];
    assert m[n] == NUL;
    CStringIs(m, n);
  }

  /** main: the files that the directory names are searched for the argument in the kernel's buffers. */
  method Program(parsed: Parsed, files: FileTable, search: array<Byte>, buf: array<Byte>, data: array<Byte>,
                 ghost command: seq<Byte>)
    returns (status: int, out: seq<Byte>)
    requires parsed.Valid() && parsed.Has(command) && Free(command, NUL) && BUFSIZE < parsed.arg.Length
    requires files.Valid() && DirEnds(files.img, 0) && |Pattern(parsed, command)| < BUFSIZE == search.Length
    requires buf.Length == NAME_LENGTH + 1 && data.Length == BUFSIZE + 1 && data[BUFSIZE] != NEWLINE
    requires search != parsed.arg && search != buf && search != data && buf != data
    modifies search, buf, data, files.desc
    ensures files.Valid()
    ensures if Argument(command) == [] then status == 3 && out == []
            else Finds(files.img, old(files.desc[..]), old(Pattern(parsed, command)), status, out)
  {
    ghost var s := Pattern(parsed, command);
    var r := ReadPattern(parsed, search, command, s);
    if 0 != r {
      return 3, [];
    }
    status, out := SearchDirectory(files, CString(search[..]), buf, data);
  }

  /** The call of getargs. */
  method ReadPattern(parsed: Parsed, search: array<Byte>, ghost command: seq<Byte>, ghost s: seq<Byte>)
    returns (r: int)
    requires parsed.Valid() && parsed.Has(command) && Free(command, NUL) && BUFSIZE < parsed.arg.Length
    requires s == Pattern(parsed, command) && |s| < BUFSIZE == search.Length && search != parsed.arg
    modifies search
    ensures r == if Argument(command) == [] then -1 else 0
    ensures r == 0 ==> CString(search[..]) == s
  {
    ghost var name, a := Name(command), Argument(command);
    ghost var behind := parsed.arg[|Kept(a)| + 1..];
    assert Free(a, NUL);
    MemoryText(a, behind);
    r := parsed.GetArgs(search, BUFSIZE, command);
    assert search[..] == search[..BUFSIZE];
    if r == 0 {
      CStringPrefix(Kept(a) + behind, BUFSIZE, s);
    }
  }

  /** From the open of "." on. */
  method SearchDirectory(files: FileTable, s: seq<Byte>, buf: array<Byte>, data: array<Byte>)
    returns (status: int, out: seq<Byte>)
    requires files.Valid() && DirEnds(files.img, 0) && Free(s, NUL) && buf != data
    requires buf.Length == NAME_LENGTH + 1 && data.Length == BUFSIZE + 1 && data[BUFSIZE] != NEWLINE
    modifies buf, data, files.desc
    ensures files.Valid() && Finds(files.img, old(files.desc[..]), s, status, out)
  {
    ghost var img, d := files.img, files.desc[..];
    DotName();
    var fd := files.Open([DOT, NUL]);
    if -1 == fd {
      return 2, [];
    }
    ghost var e := EntryOf(img, [DOT]);
    ghost var room := LeastFree(d, fd + 1) >= 0;
    SecondFree(d, Opened(img, e));
    OpenedScanned(img, e);
    ghost var pieces := Delivered(img, Opened(img, e));
    ghost var total, exact := Searched(img, s, e, room), AllExact(img, Chosen(pieces));
    assert files.desc[..][fd] == files.desc[fd];
    assert [] + total.out == total.out;
    status, out := SearchAll(files, fd, s, buf, data, room, total, exact, pieces);
  }

  lemma DotName()
    ensures [DOT] + [NUL] == [DOT, NUL] && Readable([DOT, NUL], NAME_LENGTH)
  {
    assert [DOT, NUL][..1] == [DOT];
    CStringIs([DOT, NUL], 1);
  }

  lemma SecondFree(d: seq<Descriptor>, taken: Descriptor)
    requires FIRST_FILE <= |d| && !taken.free
    ensures var fd := LeastFree(d, FIRST_FILE);
            fd >= 0 ==> (LeastFree(d[fd := taken], FIRST_FILE) >= 0 <==> LeastFree(d, fd + 1) >= 0)
  {
    var fd := LeastFree(d, FIRST_FILE);
    if fd >= 0 {
      var next := LeastFree(d, fd + 1);
      var d' := d[fd := taken];
      assert next >= 0 ==> d'[next].free;
      assert forall k :: 0 <= k < |d| && k != fd ==> d'[k] == d[k];
    }
  }

  /** The string in the argument buffer, with what lies behind an argument that fills it. */
  ghost function Pattern(parsed: Parsed, command: seq<Byte>): seq<Byte>
    requires parsed.Valid() && parsed.Has(command)
    reads parsed, parsed.fname, parsed.arg
  {
    var name, a := Name(command), Argument(command);
    Text(a, parsed.arg[|Kept(a)| + 1..])
  }

  /** What main makes of image and descriptors d: 2 when "." cannot be opened, and otherwise the searches. */
  ghost predicate Finds(img: seq<Byte>, d: seq<Descriptor>, s: seq<Byte>, status: int, out: seq<Byte>)
    requires WellFormed(img) && DirEnds(img, 0) && FIRST_FILE <= |d|
  {
    var e, fd := EntryOf(img, [DOT]), LeastFree(d, FIRST_FILE);
    if e < 0 || fd < 0 then status == 2 && out == []
    else
      OpenedScanned(img, e);
      var total, names := Searched(img, s, e, LeastFree(d, fd + 1) >= 0), Chosen(Delivered(img, Opened(img, e)));
      status == total.status && (AllExact(img, names) ==> out == total.out)
  }
}
