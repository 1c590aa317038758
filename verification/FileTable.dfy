/** The descriptor table of the running process, and programs that read files through it. */
module FileTables {
  import opened Machine
  import opened Bytes
  import opened Files
  import opened Sequences

  const FD_COUNT := 8
  const FIRST_FILE := 2

  datatype Kind = Terminal | Rtc | Directory | Regular

  datatype Descriptor = Descriptor(free: bool, kind: Kind, inode: nat, position: nat)

  function KindOf(filetype: nat): Kind {
    if filetype == 0 then Rtc else if filetype == 1 then Directory else Regular
  }

  /** The smallest free descriptor from i on, or -1. */
  function LeastFree(d: seq<Descriptor>, i: nat): (fd: int)
    requires i <= |d|
    ensures fd == -1 || i <= fd < |d|
    ensures fd == -1 ==> forall j :: i <= j < |d| ==> !d[j].free
    ensures fd != -1 ==> d[fd].free && forall j :: i <= j < fd ==> !d[j].free
    decreases |d| - i
  {
    if i == |d| then -1 else if d[i].free then i else LeastFree(d, i + 1)
  }

  /** The descriptor sys_open installs for directory entry e: types are 0 for the RTC, 1 for a directory and
      2 for a file. */
  function Opened(img: seq<Byte>, e: nat): (d: Descriptor)
    requires |img| >= BLOCK && e < MAX_ENTRIES
    ensures !d.free && d.position == 0 && d.inode == if EntryType(img, e) >= 2 then EntryInode(img, e) else 0
    ensures d.kind == if EntryType(img, e) == 0 then Rtc else if EntryType(img, e) == 1 then Directory else Regular
  {
    var kind := KindOf(EntryType(img, e));
    Descriptor(false, kind, if kind == Regular then EntryInode(img, e) else 0, 0)
  }

  /** The bytes of f that a read of n bytes at position p transfers. */
  function Piece(f: seq<Byte>, p: nat, n: nat): (r: seq<Byte>)
    requires p <= |f|
    ensures |r| <= n && p + |r| <= |f|
    ensures |r| < n ==> p + |r| == |f|
  {
    f[p..Min(p + n, |f|)]
  }

  /** What one read does: its result, the bytes that arrive and how far the position moves. */
  datatype Reading = Reading(result: int, bytes: seq<Byte>, advance: nat)

  /** file_read, dir_read, rtc_read and terminal_read on descriptor d; line is what the terminal hands over. */
  ghost function ReadingOf(img: seq<Byte>, d: Descriptor, noBuffer: bool, nbytes: int, line: seq<Byte>): (r: Reading)
    requires WellFormed(img) && -WORD <= 2 * nbytes < WORD
    requires d.kind == Regular ==> d.inode < 64 && d.position <= FileLength(img, d.inode)
    requires d.kind == Directory && !noBuffer ==> 64 * d.position + 96 <= |img|
  {
    match d.kind
    case Regular =>
      if d.position == FileLength(img, d.inode) then Reading(0, [], 0)
      else if noBuffer || nbytes == 0 then Reading(-1, [], 0)
      else var p := Piece(Contents(img, d.inode), d.position, Unsigned(nbytes)); Reading(|p|, p, |p|)
    case Directory =>
      if noBuffer then Reading(-1, [], 0)
      else
        var name := DirName(img, d.position);
        var n := if nbytes < 0 then 0 else Min(nbytes, |name|);
        Reading(n, name[..n], 1)
    case Rtc => Reading(0, [], 0)
    case Terminal => if noBuffer || nbytes == 0 then Reading(0, [], 0) else Reading(|line|, line, 0)
  }

  /** A read fails exactly when it asks for the next piece of a file without a buffer or with a count of 0, or
      for a name without a buffer; otherwise it answers how many bytes arrived. What a terminal hands over
      arrives whole, and only its readers wait for it. */
  lemma ReadFailsExactly(img: seq<Byte>, d: Descriptor, noBuffer: bool, nbytes: int, line: seq<Byte>)
    requires WellFormed(img) && -WORD <= 2 * nbytes < WORD
    requires d.kind == Regular ==> d.inode < 64 && d.position <= FileLength(img, d.inode)
    requires d.kind == Directory && !noBuffer ==> 64 * d.position + 96 <= |img|
    ensures var r := ReadingOf(img, d, noBuffer, nbytes, line);
            && (r.result == -1 <==>
                  || (d.kind == Regular && d.position < FileLength(img, d.inode) && (noBuffer || nbytes == 0))
                  || (d.kind == Directory && noBuffer))
            && (r.result != -1 ==> r.result == |r.bytes|) && (r.result == -1 ==> r.bytes == [] && r.advance == 0)
            && (d.kind == Terminal && !noBuffer && nbytes != 0 ==> r.bytes == line)
            && (d.kind == Rtc ==> r.result == 0)
            && (d.kind == Terminal || d.kind == Rtc ==> r.advance == 0)
  {
  }

  class FileTable {
    const img: seq<Byte>
    const desc: array<Descriptor>

    ghost predicate Valid()
      reads this, desc
    {
      && desc.Length == FD_COUNT
      && WellFormed(img)
      && forall i :: 0 <= i < FD_COUNT && desc[i].kind == Regular ==>
           desc[i].inode < 64 && desc[i].position <= FileLength(img, desc[i].inode)
    }

    /** The table of a freshly executed program: terminal input and output only. */
    constructor (img: seq<Byte>)
      requires WellFormed(img)
      ensures Valid() && fresh(desc) && this.img == img
      ensures forall i :: 0 <= i < FD_COUNT ==> desc[i] == Descriptor(i >= FIRST_FILE, Terminal, 0, 0)
    {
      this.img := img;
      this.desc := new Descriptor[FD_COUNT](i => Descriptor(i >= FIRST_FILE, Terminal, 0, 0));
    }

    method Open(name: seq<Byte>) returns (fd: int)
      requires Valid() && Readable(name, NAME_LENGTH)
      modifies desc
      ensures Valid()
      ensures fd == if Lookup(img, name) < 0 then -1 else LeastFree(old(desc[..]), FIRST_FILE)
      ensures desc[..] == if fd < 0 then old(desc[..]) else old(desc[..])[fd := Opened(img, Lookup(img, name))]
    {
      var d := FindEntry(img, name);
      if d < 0 {
        return -1;
      }
      for i := FIRST_FILE to FD_COUNT
        invariant desc[..] == old(desc[..])
        invariant LeastFree(old(desc[..]), FIRST_FILE) == LeastFree(old(desc[..]), i)
      {
        if desc[i].free {
          desc[i] := Opened(img, d);
          return i;
        }
      }
      return -1;
    }

    method Close(fd: int) returns (r: int)
      requires Valid()
      modifies desc
      ensures Valid()
      ensures r == if FIRST_FILE <= fd < FD_COUNT && !old(desc[..])[fd].free then 0 else -1
      ensures desc[..] == if r == 0 then old(desc[..])[fd := old(desc[..])[fd].(free := true)] else old(desc[..])
    {
      if fd < FIRST_FILE || fd >= FD_COUNT {
        return -1;
      }
      if desc[fd].free {
        return -1;
      }
      desc[fd] := desc[fd].(free := true);
      return 0;
    }

    /** The descriptors that sys_read turns away. */
    predicate Refused(fd: int)
      requires desc.Length == FD_COUNT
      reads desc
    {
      fd < 0 || fd >= FD_COUNT || fd == 1 || (fd >= FIRST_FILE && desc[fd].free)
    }

    /** A directory position from which dir_read stays inside the image. */
    predicate InImage(fd: int)
      requires desc.Length == FD_COUNT && 0 <= fd < FD_COUNT
      reads desc
    {
      desc[fd].kind == Directory ==> 64 * desc[fd].position + 96 <= |img|
    }

    /** sys_read of any descriptor into buf[at..], with the read function of its kind behind it. */
    method Read(fd: int, buf: array?<Byte>, at: nat, nbytes: int, line: seq<Byte>) returns (r: int)
      requires Valid() && -WORD <= 2 * nbytes < WORD && (Refused(fd) || buf == null || InImage(fd))
      requires !Refused(fd) && buf != null ==> at + |ReadingOf(img, desc[fd], false, nbytes, line).bytes| <= buf.Length
      modifies desc, buf
      ensures Valid()
      ensures fd < 0 || fd > 7 || fd == 1 || (fd >= 2 && old(desc[..])[fd].free) <==> old(Refused(fd))
      ensures !old(Refused(fd)) && old(desc[..])[fd].kind == Terminal && buf != null && nbytes > 0 ==>
                r == |line| && buf[at..at + |line|] == line
      ensures old(Refused(fd)) ==> r == -1 && desc[..] == old(desc[..]) && (buf != null ==> buf[..] == old(buf[..]))
      ensures !old(Refused(fd)) ==>
                var d := old(desc[..])[fd];
                var reading := ReadingOf(img, d, buf == null, nbytes, line);
                && r == reading.result
                && desc[..] == old(desc[..])[fd := d.(position := d.position + reading.advance)]
                && (buf != null ==> var n := |reading.bytes|;
                      && buf[at..at + n] == reading.bytes
                      && buf[..at] == old(buf[..at]) && buf[at + n..] == old(buf[at + n..]))
    {
      if fd < 0 || fd > 7 || fd == 1 {
        return -1;
      }
      if fd >= FIRST_FILE && desc[fd].free {
        return -1;
      }
      assert desc[fd] == desc[..][fd];
      match desc[fd].kind {
        case Regular => r := FileRead(fd, buf, at, nbytes, line);
        case Directory => r := DirRead(fd, buf, at, nbytes, line);
        case Rtc => r := 0;
        case Terminal =>
          if nbytes == 0 || buf == null {
            return 0;
          }
          CopyIn(buf, at, line);
          r := |line|;
      }
    }

    /** file_read. */
    method FileRead(fd: nat, buf: array?<Byte>, at: nat, nbytes: int, ghost line: seq<Byte>) returns (r: int)
      requires Valid() && fd < FD_COUNT && desc[fd].kind == Regular && -WORD <= 2 * nbytes < WORD
      requires buf != null ==> at + |ReadingOf(img, desc[fd], false, nbytes, line).bytes| <= buf.Length
      modifies desc, buf
      ensures Valid()
      ensures var d := old(desc[..])[fd];
              var reading := ReadingOf(img, d, buf == null, nbytes, line);
              && r == reading.result
              && desc[..] == old(desc[..])[fd := d.(position := d.position + reading.advance)]
              && (buf != null ==> var n := |reading.bytes|;
                    && buf[at..at + n] == reading.bytes
                    && buf[..at] == old(buf[..at]) && buf[at + n..] == old(buf[at + n..]))
    {
      if desc[fd].position >= FileLength(img, desc[fd].inode) {
        return 0;
      }
      assert InodeOk(img, desc[fd].inode);
      r := ReadData(img, desc[fd].inode, desc[fd].position, buf, at, Unsigned(nbytes));
      if r != -1 {
        desc[fd] := desc[fd].(position := desc[fd].position + r);
      }
    }

    /** dir_read: the name at the position, which moves on by one. */
    method DirRead(fd: nat, buf: array?<Byte>, at: nat, nbytes: int, ghost line: seq<Byte>) returns (r: int)
      requires Valid() && fd < FD_COUNT && desc[fd].kind == Directory && -WORD <= 2 * nbytes < WORD
      requires buf != null ==> InImage(fd) && at + |ReadingOf(img, desc[fd], false, nbytes, line).bytes| <= buf.Length
      modifies desc, buf
      ensures Valid()
      ensures var d := old(desc[..])[fd];
              var reading := ReadingOf(img, d, buf == null, nbytes, line);
              && r == reading.result
              && desc[..] == old(desc[..])[fd := d.(position := d.position + reading.advance)]
              && (buf != null ==> var n := |reading.bytes|;
                    && buf[at..at + n] == reading.bytes
                    && buf[..at] == old(buf[..at]) && buf[at + n..] == old(buf[at + n..]))
    {
      if buf == null {
        return -1;
      }
      assert desc[..][fd] == desc[fd];
      r := CopyName(desc[fd].position, buf, at, nbytes);
      desc[fd] := desc[fd].(position := desc[fd].position + 1);
    }

    /** The copying loop of dir_read. */
    method CopyName(p: nat, buf: array<Byte>, at: nat, nbytes: int) returns (i: nat)
      requires 64 * p + 96 <= |img|
      requires at + (if nbytes < 0 then 0 else Min(nbytes, |DirName(img, p)|)) <= buf.Length
      modifies buf
      ensures i == if nbytes < 0 then 0 else Min(nbytes, |DirName(img, p)|)
      ensures buf[at..at + i] == DirName(img, p)[..i]
      ensures buf[..at] == old(buf[..at]) && buf[at + i..] == old(buf[at + i..])
    {
      ghost var name := DirName(img, p);
      i := 0;
      while i < NAME_LENGTH && img[64 + 64 * p + i] != NUL && i < nbytes
        invariant i <= |name| && (i == 0 || i <= nbytes)
        invariant forall k :: at <= k < at + i ==> buf[k] == name[k - at]
        invariant forall k :: 0 <= k < at || at + i <= k < buf.Length ==> buf[k] == old(buf[k])
      {
        DirNameByte(img, p, i);
        buf[at + i] := img[64 + 64 * p + i];
        i := i + 1;
      }
      if i < NAME_LENGTH {
        DirNameByte(img, p, i);
      }
    }

    method CopyIn(buf: array<Byte>, at: nat, line: seq<Byte>)
      requires at + |line| <= buf.Length
      modifies buf
      ensures buf[at..at + |line|] == line
      ensures buf[..at] == old(buf[..at]) && buf[at + |line|..] == old(buf[at + |line|..])
    {
      for i := 0 to |line|
        invariant forall k :: at <= k < at + i ==> buf[k] == line[k - at]
        invariant forall k :: 0 <= k < at || at + i <= k < buf.Length ==> buf[k] == old(buf[k])
      {
        buf[at + i] := line[i];
      }
    }
  }

  // ----- reading a file in pieces -----

  /** What successive reads of the given sizes return, starting at position p. */
  function Pieces(f: seq<Byte>, p: nat, sizes: seq<nat>): (r: seq<Byte>)
    requires p <= |f|
    ensures |r| <= |f| - p
    decreases sizes
  {
    if sizes == [] then [] else var piece := Piece(f, p, sizes[0]); piece + Pieces(f, p + |piece|, sizes[1..])
  }

  function Sum(sizes: seq<nat>): nat {
    if sizes == [] then 0 else sizes[0] + Sum(sizes[1..])
  }

  /** However the reads are cut, together they are one read of the total size. */
  lemma {:induction false} PiecesJoin(f: seq<Byte>, p: nat, sizes: seq<nat>)
    requires p <= |f|
    ensures Pieces(f, p, sizes) == Piece(f, p, Sum(sizes))
    decreases sizes
  {
    if sizes != [] {
      PiecesJoin(f, p + |Piece(f, p, sizes[0])|, sizes[1..]);
      PieceAppend(f, p, sizes[0], Sum(sizes[1..]));
    }
  }

  /** Adjacent reads concatenate. */
  lemma PieceAppend(f: seq<Byte>, p: nat, m: nat, n: nat)
    requires p <= |f|
    ensures Piece(f, p, m) + Piece(f, p + |Piece(f, p, m)|, n) == Piece(f, p, m + n)
  {
  }

  /** Reads from the start whose first empty one asked for something have delivered the file, once. */
  lemma DrainedExactlyOnce(f: seq<Byte>, sizes: seq<nat>, last: nat)
    requires last > 0
    ensures Sum(sizes) >= |f| <==> Piece(f, |Pieces(f, 0, sizes)|, last) == []
    ensures Sum(sizes) >= |f| ==> Pieces(f, 0, sizes) == f
  {
    PiecesJoin(f, 0, sizes);
  }

  // ----- cat -----

  /** All the pieces in a row. */
  function Flat(s: seq<seq<Byte>>): seq<Byte> {
    if s == [] then [] else s[0] + Flat(s[1..])
  }

  /** What a program that reads entry e to the end sees. */
  ghost function Stream(img: seq<Byte>, e: nat): seq<Byte>
    requires WellFormed(img) && e < DirCount(img)
    requires EntryType(img, e) == 1 ==> DirEnds(img, 0)
  {
    if EntryType(img, e) == 2 then Contents(img, EntryInode(img, e))
    else if EntryType(img, e) == 1 then Flat(Listed(img, 0))
    else []
  }

  /** What a descriptor still has to deliver. */
  ghost predicate Remaining(img: seq<Byte>, d: Descriptor, rest: seq<Byte>)
    requires WellFormed(img)
  {
    match d.kind
    case Regular =>
      d.inode < 64 && d.position <= FileLength(img, d.inode) && rest == Contents(img, d.inode)[d.position..]
    case Directory => DirEnds(img, d.position) && rest == Flat(Listed(img, d.position))
    case Rtc => rest == []
    case Terminal => false
  }

  /** A read of n bytes delivers the front of the rest, or nothing at its end. */
  ghost predicate ReadsOn(img: seq<Byte>, d: Descriptor, rest: seq<Byte>, n: nat, line: seq<Byte>)
    requires WellFormed(img) && Remaining(img, d, rest) && 2 * n < WORD
  {
    var reading := ReadingOf(img, d, false, n, line);
    && reading.result == |reading.bytes| <= |rest| && |reading.bytes| <= n
    && reading.bytes == rest[..|reading.bytes|]
    && (reading.bytes == [] ==> rest == [])
    && (reading.bytes != [] ==> Remaining(img, d.(position := d.position + reading.advance), rest[|reading.bytes|..]))
  }

  lemma FileReadsOn(img: seq<Byte>, d: Descriptor, rest: seq<Byte>, n: nat, line: seq<Byte>)
    requires WellFormed(img) && Remaining(img, d, rest) && d.kind == Regular && 0 < n && 2 * n < WORD
    ensures ReadsOn(img, d, rest, n, line)
  {
    PieceReadsOn(Contents(img, d.inode), d.position, n);
  }

  /** A directory needs a buffer of at least a name. */
  lemma DirectoryReadsOn(img: seq<Byte>, d: Descriptor, rest: seq<Byte>, n: nat, line: seq<Byte>)
    requires WellFormed(img) && Remaining(img, d, rest) && d.kind != Regular && NAME_LENGTH <= n && 2 * n < WORD
    ensures ReadsOn(img, d, rest, n, line)
  {
    if d.kind == Directory {
      NameReadsOn(img, d.position);
    }
  }

  lemma EveryReadsOn(img: seq<Byte>, d: Descriptor, rest: seq<Byte>, n: nat)
    requires WellFormed(img) && Remaining(img, d, rest) && NAME_LENGTH <= n && 2 * n < WORD
    ensures ReadsOn(img, d, rest, n, [])
  {
    if d.kind == Regular {
      FileReadsOn(img, d, rest, n, []);
    } else {
      DirectoryReadsOn(img, d, rest, n, []);
    }
  }

  lemma PieceReadsOn(f: seq<Byte>, p: nat, n: nat)
    requires p <= |f| && n > 0
    ensures var piece, rest := Piece(f, p, n), f[p..];
            && |piece| <= |rest| && piece == rest[..|piece|] && (piece == [] <==> p == |f|)
            && rest[|piece|..] == f[p + |piece|..]
  {
  }

  lemma NameReadsOn(img: seq<Byte>, p: nat)
    requires DirEnds(img, p)
    ensures var name, rest := DirName(img, p), Flat(Listed(img, p));
            && |name| <= |rest| && name == rest[..|name|] && (name == [] ==> rest == [])
            && (name != [] ==> DirEnds(img, p + 1) && rest[|name|..] == Flat(Listed(img, p + 1)))
  {
    if DirName(img, p) != [] {
      assert Listed(img, p)[1..] == Listed(img, p + 1);
    }
  }

  /** cat: copies a file, or the names in the directory, to the terminal. */
  method Cat(files: FileTable, name: seq<Byte>, buf: array<Byte>) returns (status: int, out: seq<Byte>)
    requires files.Valid() && buf.Length == 1024 && Readable(name, NAME_LENGTH)
    requires var e := Lookup(files.img, name);
             e >= 0 && EntryType(files.img, e) == 1 ==> DirEnds(files.img, 0)
    modifies files.desc, buf
    ensures files.Valid()
    ensures var e := Lookup(files.img, name);
            if e < 0 || LeastFree(old(files.desc[..]), FIRST_FILE) < 0 then status == 2 && out == []
            else
              status == 0 && out == match EntryType(files.img, e)
                                    case 2 => Contents(files.img, EntryInode(files.img, e))
                                    case 1 => Flat(Listed(files.img, 0))
                                    case _ => []
  {
    var fd := files.Open(name);
    if fd == -1 {
      return 2, [];
    }
    assert files.desc[fd] == files.desc[..][fd];
    OpenedRemains(files.img, Lookup(files.img, name));
    status, out := CopyOut(files, fd, buf, Stream(files.img, Lookup(files.img, name)));
  }

  /** The loop of cat over an open descriptor. */
  method CopyOut(files: FileTable, fd: int, buf: array<Byte>, ghost all: seq<Byte>)
      returns (status: int, out: seq<Byte>)
    requires files.Valid() && FIRST_FILE <= fd < FD_COUNT && buf.Length == 1024
    requires !files.desc[fd].free && Remaining(files.img, files.desc[fd], all)
    modifies files.desc, buf
    ensures files.Valid() && status == 0 && out == all
  {
    out := [];
    ghost var rest := all;
    var cnt := ReadNext(files, fd, buf, rest);
    while cnt != 0
      invariant files.Valid() && 0 <= cnt <= 1024 && cnt <= |rest| && buf[..cnt] == rest[..cnt]
      invariant !files.desc[fd].free && (cnt != 0 ==> Remaining(files.img, files.desc[fd], rest[cnt..]))
      invariant all == out + rest && (cnt == 0 ==> rest == [])
      decreases |rest|
    {
      if cnt == -1 {
        return 3, out;
      }
      HandedOver(out, rest, cnt);
      out := out + buf[..cnt];
      rest := rest[cnt..];
      cnt := ReadNext(files, fd, buf, rest);
    }
    return 0, out;
  }

  lemma OpenedRemains(img: seq<Byte>, e: nat)
    requires WellFormed(img) && e < DirCount(img)
    requires EntryType(img, e) == 1 ==> DirEnds(img, 0)
    ensures Remaining(img, Opened(img, e), Stream(img, e))
  {
    assert EntryInode(img, e) < 64 && EntryType(img, e) <= 2;
    if EntryType(img, e) == 2 {
      assert Contents(img, EntryInode(img, e))[0..] == Contents(img, EntryInode(img, e));
    }
  }

  /** One read of the loop of cat. */
  method ReadNext(files: FileTable, fd: int, buf: array<Byte>, ghost rest: seq<Byte>) returns (cnt: int)
    requires files.Valid() && FIRST_FILE <= fd < FD_COUNT && buf.Length == 1024
    requires !files.desc[fd].free && Remaining(files.img, files.desc[fd], rest)
    modifies files.desc, buf
    ensures 0 <= cnt <= 1024 && cnt <= |rest| && buf[..cnt] == rest[..cnt] && (cnt == 0 ==> rest == [])
    ensures files.Valid() && !files.desc[fd].free && (cnt != 0 ==> Remaining(files.img, files.desc[fd], rest[cnt..]))
  {
    assert files.desc[..][fd] == files.desc[fd];
    EveryReadsOn(files.img, files.desc[fd], rest, 1024);
    cnt := files.Read(fd, buf, 0, 1024, []);
    assert files.desc[fd] == files.desc[..][fd];
  }
}
