/** The read-only file-system image and the descriptor table of one process. */
module Files {
  import opened Arithmetic
  import opened Bytes
  import opened Sequences

  const BLOCK := 4096
  const NAME_LENGTH := 32
  const MAX_ENTRIES := 63

  // ----- the image: boot block, inode blocks, data blocks -----

  function DirCount(img: seq<Byte>): nat requires |img| >= BLOCK { Word(img, 0) }
  function InodeCount(img: seq<Byte>): nat requires |img| >= BLOCK { Word(img, 4) }
  function DataCount(img: seq<Byte>): nat requires |img| >= BLOCK { Word(img, 8) }

  function EntryName(img: seq<Byte>, i: nat): (r: seq<Byte>)
    requires |img| >= BLOCK && i < MAX_ENTRIES
    ensures |r| == NAME_LENGTH
  {
    img[64 + 64 * i..64 + 64 * i + NAME_LENGTH]
  }

  function EntryType(img: seq<Byte>, i: nat): nat
    requires |img| >= BLOCK && i < MAX_ENTRIES
  {
    Word(img, 96 + 64 * i)
  }

  function EntryInode(img: seq<Byte>, i: nat): nat
    requires |img| >= BLOCK && i < MAX_ENTRIES
  {
    Word(img, 100 + 64 * i)
  }

  function FileLength(img: seq<Byte>, n: nat): nat
    requires |img| >= (n + 2) * BLOCK
  {
    Word(img, (n + 1) * BLOCK)
  }

  function BlockNumber(img: seq<Byte>, n: nat, k: nat): nat
    requires |img| >= (n + 2) * BLOCK && k < 1023
  {
    Word(img, (n + 1) * BLOCK + 4 + 4 * k)
  }

  function BlockCount(length: nat): nat {
    (length + BLOCK - 1) / BLOCK
  }

  /** What mkfs promises, for any number of inodes; int32 fields are not negative. */
  ghost predicate Formatted(img: seq<Byte>) {
    && |img| >= BLOCK
    && DirCount(img) <= MAX_ENTRIES
    && DataCount(img) < 0x8_0000
    && InodeCount(img) < 0x8_0000
    && |img| == (1 + InodeCount(img) + DataCount(img)) * BLOCK
    && (forall n {:trigger InodeOk(img, n)} :: 0 <= n < InodeCount(img) ==> InodeOk(img, n))
    && (forall i {:trigger EntryInode(img, i)} :: 0 <= i < DirCount(img) ==>
          EntryInode(img, i) < InodeCount(img) && EntryType(img, i) <= 2)
  }

  ghost predicate InodeOk(img: seq<Byte>, n: nat)
    requires |img| >= (n + 2) * BLOCK
  {
    && FileLength(img, n) <= 1023 * BLOCK
    && BlockCount(FileLength(img, n)) <= DataCount(img)
    && forall k :: 0 <= k < BlockCount(FileLength(img, n)) ==> BlockNumber(img, n, k) < DataCount(img)
  }

  /** The k-th data block of file n: data blocks follow the inode blocks. */
  ghost function DataBlock(img: seq<Byte>, n: nat, k: nat): (r: seq<Byte>)
    requires Formatted(img) && n < InodeCount(img) && k < BlockCount(FileLength(img, n))
    ensures |r| == BLOCK
  {
    assert InodeOk(img, n);
    var a := BlockAddress(img, n, k);
    img[a..a + BLOCK]
  }

  function BlockAddress(img: seq<Byte>, n: nat, k: nat): nat
    requires |img| >= (n + 2) * BLOCK && k < 1023
  {
    (1 + InodeCount(img) + BlockNumber(img, n, k)) * BLOCK
  }

  ghost function Blocks(img: seq<Byte>, n: nat, k: nat): (r: seq<Byte>)
    requires Formatted(img) && n < InodeCount(img) && k <= BlockCount(FileLength(img, n))
    ensures |r| == k * BLOCK
  {
    if k == 0 then [] else Blocks(img, n, k - 1) + DataBlock(img, n, k - 1)
  }

  /** The flat file n: its data blocks in order, cut at its length. */
  ghost function Contents(img: seq<Byte>, n: nat): (r: seq<Byte>)
    requires Formatted(img) && n < InodeCount(img)
    ensures |r| == FileLength(img, n)
  {
    Blocks(img, n, BlockCount(FileLength(img, n)))[..FileLength(img, n)]
  }

  lemma {:induction false} BlocksAt(img: seq<Byte>, n: nat, k: nat, o: nat)
    requires Formatted(img) && n < InodeCount(img) && k <= BlockCount(FileLength(img, n)) && o < k * BLOCK
    ensures Blocks(img, n, k)[o] == DataBlock(img, n, o / BLOCK)[o % BLOCK]
  {
    var front, last := Blocks(img, n, k - 1), DataBlock(img, n, k - 1);
    if o < |front| {
      BlocksAt(img, n, k - 1, o);
      assert (front + last)[o] == front[o];
    } else {
      DivModUnique(o, BLOCK, k - 1, o - |front|);
      assert (front + last)[o] == last[o - |front|];
    }
  }

  /** read_data finds its blocks after 65 blocks whatever the boot block says (file.c:99). */
  function ByteAddress(img: seq<Byte>, n: nat, o: nat): nat
    requires |img| >= (n + 2) * BLOCK && o / BLOCK < 1023
  {
    (MAX_ENTRIES + 2 + BlockNumber(img, n, o / BLOCK)) * BLOCK + o % BLOCK
  }

  /** The address read_data uses is that of the file's byte exactly on images with 64 inodes. */
  lemma FixedBlockBase(img: seq<Byte>, n: nat, o: nat)
    requires Formatted(img) && n < InodeCount(img) && o < FileLength(img, n)
    ensures o / BLOCK < BlockCount(FileLength(img, n)) <= 1023
    ensures ByteAddress(img, n, o) == BlockAddress(img, n, o / BLOCK) + o % BLOCK <==> InodeCount(img) == 64
  {
    assert InodeOk(img, n);
  }

  lemma ByteAt(img: seq<Byte>, n: nat, o: nat)
    requires WellFormed(img) && n < 64 && o < FileLength(img, n)
    ensures o / BLOCK < 1023 && ByteAddress(img, n, o) < |img|
    ensures img[ByteAddress(img, n, o)] == Contents(img, n)[o]
  {
    assert InodeOk(img, n);
    BlocksAt(img, n, BlockCount(FileLength(img, n)), o);
  }

  ghost predicate WellFormed(img: seq<Byte>) {
    Formatted(img) && InodeCount(img) == 64
  }

  /** Four bytes, the lowest first. */
  function Little(a: int, b: int, c: int, d: int): int {
    a + 0x100 * b + 0x1_0000 * c + 0x100_0000 * d
  }

  /** Where everything of a file stands in the image, in bytes: inode n fills block n + 1, first the length, then
      the block numbers, all little-endian; data block b is block b + 65. */
  lemma ByteByOffsets(img: seq<Byte>, n: nat, o: nat)
    requires WellFormed(img) && n < 64 && o < |Contents(img, n)|
    ensures o / 4096 < 1023 && 4096 * (n + 2) <= |img|
    ensures var i := 4096 * (n + 1);
            |Contents(img, n)| == Little(img[i], img[i + 1], img[i + 2], img[i + 3])
    ensures var k := 4096 * (n + 1) + 4 + 4 * (o / 4096);
            var block := Little(img[k], img[k + 1], img[k + 2], img[k + 3]);
            var a := 4096 * (65 + block) + o % 4096;
            a < |img| && Contents(img, n)[o] == img[a]
  {
    ByteAt(img, n, o);
    assert InodeOk(img, n);
  }

  /** Directory entry i takes 64 bytes from byte 64 * (i + 1) on: 32 of name, then type and inode. */
  lemma EntryByOffsets(img: seq<Byte>, i: nat)
    requires |img| >= 4096 && i < 63
    ensures var a := 64 * (i + 1);
            && EntryName(img, i) == img[a..a + 32]
            && EntryType(img, i) == Little(img[a + 32], img[a + 33], img[a + 34], img[a + 35])
            && EntryInode(img, i) == Little(img[a + 36], img[a + 37], img[a + 38], img[a + 39])
    ensures DirCount(img) == Little(img[0], img[1], img[2], img[3])
  {
  }

  // ----- directory lookup -----

  /** The scan takes entry i for the C string name. */
  predicate Names(img: seq<Byte>, name: seq<Byte>, i: nat)
    requires |img| >= BLOCK && i < MAX_ENTRIES
  {
    Seen(name, NAME_LENGTH) == Seen(EntryName(img, i), NAME_LENGTH)
  }

  /** d is the first of the entries from..DirCount that name matches, or -1 when there is none. */
  ghost predicate FirstEntry(img: seq<Byte>, name: seq<Byte>, d: int)
    requires |img| >= BLOCK && DirCount(img) <= MAX_ENTRIES
  {
    && -1 <= d < DirCount(img)
    && (d >= 0 ==> Names(img, name, d))
    && forall i :: 0 <= i < (if d < 0 then DirCount(img) else d) ==> !Names(img, name, i)
  }

  /** The entry a name denotes, or -1. */
  function Lookup(img: seq<Byte>, name: seq<Byte>): (d: int)
    requires |img| >= BLOCK && DirCount(img) <= MAX_ENTRIES
    ensures -1 <= d < DirCount(img)
  {
    LookupFrom(img, name, 0)
  }

  function LookupFrom(img: seq<Byte>, name: seq<Byte>, i: nat): (d: int)
    requires |img| >= BLOCK && i <= DirCount(img) <= MAX_ENTRIES
    ensures -1 <= d < DirCount(img)
    decreases DirCount(img) - i
  {
    if i == DirCount(img) then -1 else if Names(img, name, i) then i else LookupFrom(img, name, i + 1)
  }

  lemma {:induction false} LookupFirst(img: seq<Byte>, name: seq<Byte>, i: nat)
    requires |img| >= BLOCK && i <= DirCount(img) <= MAX_ENTRIES
    requires forall j :: 0 <= j < i ==> !Names(img, name, j)
    ensures FirstEntry(img, name, LookupFrom(img, name, i))
    decreases DirCount(img) - i
  {
    if i < DirCount(img) {
      if !Names(img, name, i) {
        LookupFirst(img, name, i + 1);
        assert LookupFrom(img, name, i) == LookupFrom(img, name, i + 1);
      } else {
        assert LookupFrom(img, name, i) == i;
      }
    }
  }

  /** For a name of at most 32 bytes the scan finds the first entry whose name, up to its NUL padding, is equal. */
  lemma LookupByName(img: seq<Byte>, name: seq<Byte>)
    requires |img| >= BLOCK && DirCount(img) <= MAX_ENTRIES && |name| <= NAME_LENGTH && Free(name, NUL)
    ensures var d := Lookup(img, Padded(name, NAME_LENGTH));
            && (d >= 0 ==> CString(EntryName(img, d)) == name)
            && forall i :: 0 <= i < (if d < 0 then DirCount(img) else d) ==> CString(EntryName(img, i)) != name
  {
    var s := Padded(name, NAME_LENGTH);
    assert s[..NAME_LENGTH] == s && s[..|name|] == name;
    CStringIs(s, |name|);
    LookupFirst(img, s, 0);
    forall i | 0 <= i < DirCount(img)
      ensures Names(img, s, i) <==> CString(EntryName(img, i)) == name
    {
      assert EntryName(img, i)[..NAME_LENGTH] == EntryName(img, i);
    }
  }

  method FindEntry(img: seq<Byte>, name: seq<Byte>) returns (d: int)
    requires |img| >= BLOCK && DirCount(img) <= MAX_ENTRIES && Readable(name, NAME_LENGTH)
    ensures d == Lookup(img, name)
  {
    for i := 0 to DirCount(img)
      invariant Lookup(img, name) == LookupFrom(img, name, i)
    {
      var c := Strncmp(name, EntryName(img, i), NAME_LENGTH);
      if c == 0 {
        return i;
      }
    }
    return -1;
  }

  // ----- reading -----

  /** How many bytes of file n a read of length bytes at an offset transfers. */
  function Transferred(img: seq<Byte>, n: nat, offset: nat, length: nat): nat
    requires |img| >= (n + 2) * BLOCK
  {
    if offset <= FileLength(img, n) then Min(length, FileLength(img, n) - offset) else 0
  }

  /** read_data: copies file bytes to buf[at..] and returns how many, or -1. */
  method ReadData(img: seq<Byte>, inode: nat, offset: nat, buf: array?<Byte>, at: nat, length: nat) returns (r: int)
    requires WellFormed(img)
    requires buf != null && inode <= MAX_ENTRIES ==> at + Transferred(img, inode, offset, length) <= buf.Length
    modifies buf
    ensures r == -1 <==> inode > MAX_ENTRIES || length == 0 || buf == null || offset > FileLength(img, inode)
                         || offset / BLOCK > DataCount(img)
    ensures r == -1 && buf != null ==> buf[..] == old(buf[..])
    ensures r != -1 ==>
              && r == Transferred(img, inode, offset, length)
              && buf[at..at + r] == Contents(img, inode)[offset..offset + r]
              && buf[..at] == old(buf[..at]) && buf[at + r..] == old(buf[at + r..])
  {
    if inode > InodeCount(img) {
      return -1;
    }
    if inode > MAX_ENTRIES || length == 0 || buf == null || offset > FileLength(img, inode)
       || offset / BLOCK > DataCount(img) {
      return -1;
    }
    r := CopyData(img, inode, offset, buf, at, length, Contents(img, inode));
  }

  /** The copying loop of read_data. */
  method CopyData(img: seq<Byte>, inode: nat, offset: nat, buf: array<Byte>, at: nat, length: nat, ghost f: seq<Byte>)
    returns (i: nat)
    requires WellFormed(img) && inode < 64 && f == Contents(img, inode)
    requires offset <= |f| && at + Min(length, |f| - offset) <= buf.Length
    modifies buf
    ensures i == Min(length, |f| - offset) && buf[at..at + i] == f[offset..offset + i]
    ensures buf[..at] == old(buf[..at]) && buf[at + i..] == old(buf[at + i..])
  {
    var start := offset;
    i := 0;
    while i < length && start < FileLength(img, inode)
      invariant i <= length && start == offset + i <= |f|
      invariant forall k :: at <= k < at + i ==> buf[k] == f[k - at + offset]
      invariant forall k :: 0 <= k < at || at + i <= k < buf.Length ==> buf[k] == old(buf[k])
    {
      ByteAt(img, inode, start);
      buf[at + i] := img[ByteAddress(img, inode, start)];
      start, i := start + 1, i + 1;
    }
  }

  // ----- the directory as a file -----

  /** The name dir_read takes at a position: it is not compared with the number of entries. */
  function DirName(img: seq<Byte>, p: nat): (r: seq<Byte>)
    requires 64 * p + 96 <= |img|
    ensures |r| <= NAME_LENGTH && Free(r, NUL)
  {
    CString(img[64 + 64 * p..96 + 64 * p])
  }

  lemma DirNameByte(img: seq<Byte>, p: nat, i: nat)
    requires 64 * p + 96 <= |img| && i <= |DirName(img, p)| && i < NAME_LENGTH
    ensures var name, b := DirName(img, p), img[64 + 64 * p + i];
            (i < |name| <==> b != NUL) && (i < |name| ==> name[i] == b)
  {
    var window := img[64 + 64 * p..96 + 64 * p];
    assert window[i] == img[64 + 64 * p + i];
  }

  /** Reading on from position p meets an empty name. */
  predicate DirEnds(img: seq<Byte>, p: nat)
    decreases |img| - 64 * p
  {
    64 * p + 96 <= |img| && (DirName(img, p) == [] || DirEnds(img, p + 1))
  }

  /** The names that successive reads from position p return before the first empty one. */
  function Listed(img: seq<Byte>, p: nat): seq<seq<Byte>>
    requires DirEnds(img, p)
    decreases |img| - 64 * p
  {
    if DirName(img, p) == [] then [] else [DirName(img, p)] + Listed(img, p + 1)
  }

  /** The names of the entries from..n of the directory. */
  function EntryNames(img: seq<Byte>, from: nat, n: nat): (r: seq<seq<Byte>>)
    requires |img| >= BLOCK && from <= n <= MAX_ENTRIES
    ensures |r| == n - from && forall i :: 0 <= i < |r| ==> r[i] == CString(EntryName(img, from + i))
    decreases n - from
  {
    if from == n then [] else [CString(EntryName(img, from))] + EntryNames(img, from + 1, n)
  }

  /** Behind the last of 63 entries dir_read takes the length field of inode 0 for a name. */
  lemma BehindFullDirectory(img: seq<Byte>)
    requires |img| >= 2 * BLOCK
    ensures DirName(img, MAX_ENTRIES) == [] <==> FileLength(img, 0) % 256 == 0
  {
    assert img[64 + 64 * MAX_ENTRIES..96 + 64 * MAX_ENTRIES][0] == img[BLOCK];
  }

  lemma {:induction false} ListedFrom(img: seq<Byte>, from: nat, n: nat)
    requires |img| >= 2 * BLOCK && from <= n <= MAX_ENTRIES && DirEnds(img, from)
    requires forall i :: from <= i < n ==> CString(EntryName(img, i)) != []
    ensures DirEnds(img, n) && Listed(img, from) == EntryNames(img, from, n) + Listed(img, n)
    decreases n - from
  {
    if from < n {
      assert DirName(img, from) == CString(EntryName(img, from)) != [];
      ListedFrom(img, from + 1, n);
      Regroup([DirName(img, from)], EntryNames(img, from + 1, n), Listed(img, n));
    } else {
      NothingAhead(Listed(img, n));
    }
  }

  /** Reading the directory lists exactly its entries, when they have names and the ones behind them are
      zero, except that a full directory runs on when the length of inode 0 is no multiple of 256. */
  lemma ListedExact(img: seq<Byte>)
    requires |img| >= 2 * BLOCK && DirCount(img) <= MAX_ENTRIES && DirEnds(img, 0)
    requires forall i :: 0 <= i < DirCount(img) ==> CString(EntryName(img, i)) != []
    requires DirCount(img) < MAX_ENTRIES ==> CString(EntryName(img, DirCount(img))) == []
    ensures DirEnds(img, DirCount(img))
    ensures Listed(img, 0) == EntryNames(img, 0, DirCount(img))
            <==> DirCount(img) < MAX_ENTRIES || FileLength(img, 0) % 256 == 0
  {
    var n := DirCount(img);
    ListedFrom(img, 0, n);
    ListedEnd(img, n);
    SameLength(EntryNames(img, 0, n), Listed(img, n));
  }

  lemma ListedEnd(img: seq<Byte>, n: nat)
    requires |img| >= 2 * BLOCK && n <= MAX_ENTRIES && DirEnds(img, n)
    requires n < MAX_ENTRIES ==> CString(EntryName(img, n)) == []
    ensures Listed(img, n) == [] <==> n < MAX_ENTRIES || FileLength(img, 0) % 256 == 0
  {
    if n < MAX_ENTRIES {
      assert DirName(img, n) == CString(EntryName(img, n));
    } else {
      BehindFullDirectory(img);
    }
  }

  lemma SameLength<T>(a: seq<T>, b: seq<T>)
    ensures a + b == a <==> b == []
  {
    assert |a + b| == |a| + |b|;
    assert b == [] ==> a + b == a;
  }
}
