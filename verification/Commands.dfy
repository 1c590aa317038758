/** Command parsing and the argument hand-over of the kernel. */
module Commands {
  import opened Machine
  import opened Bytes
  import opened Files

  const ARGLEN := 128
  const SHELL: seq<Byte> := [115, 104, 101, 108, 108]

  // ----- what a command means -----

  /** Where the name ends: at the first space, but after 32 bytes at the latest. */
  function NameLength(c: seq<Byte>): (n: nat)
    ensures n <= |c| && n <= NAME_LENGTH && Free(c[..n], SPACE)
    ensures n < |c| && n < NAME_LENGTH ==> c[n] == SPACE
  {
    NameLengthFrom(c, 0)
  }

  function NameLengthFrom(c: seq<Byte>, i: nat): (n: nat)
    requires i <= |c| && i <= NAME_LENGTH && Free(c[..i], SPACE)
    ensures i <= n <= |c| && n <= NAME_LENGTH && Free(c[..n], SPACE)
    ensures n < |c| && n < NAME_LENGTH ==> c[n] == SPACE
    decreases |c| - i
  {
    if i == |c| || i == NAME_LENGTH || c[i] == SPACE then i else NameLengthFrom(c, i + 1)
  }

  function Name(c: seq<Byte>): seq<Byte> {
    c[..NameLength(c)]
  }

  /** Everything past the byte after the name. */
  function Argument(c: seq<Byte>): seq<Byte> {
    if NameLength(c) + 1 <= |c| then c[NameLength(c) + 1..] else []
  }

  /** name, a space and an argument parse back to the two. */
  lemma SplitsAtSpace(name: seq<Byte>, arg: seq<Byte>)
    requires |name| <= NAME_LENGTH && Free(name, SPACE)
    ensures Name(name + [SPACE] + arg) == name && Argument(name + [SPACE] + arg) == arg
    ensures Name(name) == name && Argument(name) == []
  {
    var c := name + [SPACE] + arg;
    NameEnds(c, 0, |name|);
    NameEnds(name, 0, |name|);
    assert c[..|name|] == name;
  }

  /** A command whose first 32 bytes have no space is cut there, and one byte is skipped. */
  lemma LongName(c: seq<Byte>)
    requires |c| > 32 && Free(c[..32], 32)
    ensures Name(c) == c[..32] && Argument(c) == c[33..]
  {
    FullName(c, 0);
  }

  lemma {:induction false} FullName(c: seq<Byte>, i: nat)
    requires |c| > 32 && Free(c[..32], SPACE) && i <= 32
    ensures Free(c[..i], SPACE) && NameLengthFrom(c, i) == NAME_LENGTH
    decreases 32 - i
  {
    assert forall k :: 0 <= k < 32 ==> c[..32][k] == c[k];
    if i < 32 {
      FullName(c, i + 1);
    }
  }

  lemma ShellName()
    ensures Free(SHELL, NUL) && Argument(SHELL) == []
  {
    SplitsAtSpace(SHELL, []);
  }

  lemma {:induction false} NameEnds(c: seq<Byte>, i: nat, n: nat)
    requires i <= n <= |c| && n <= NAME_LENGTH && Free(c[..n], SPACE) && Free(c[..i], SPACE)
    requires n < |c| ==> c[n] == SPACE
    ensures NameLengthFrom(c, i) == n
    decreases n - i
  {
    if i < n {
      assert c[..n][i] == c[i];
      NameEnds(c, i + 1, n);
    }
  }

  // ----- what sys_getargs hands over -----

  /** The bytes that parsing puts into the argument buffer: padded to 128, or running over its end. */
  function Kept(a: seq<Byte>): (r: seq<Byte>)
    ensures |r| >= ARGLEN && |r| >= |a| && r[..|a|] == a
  {
    if |a| <= ARGLEN then Padded(a, ARGLEN) else a
  }

  /** sys_getargs succeeds for argument a and count nbytes, which it compares unsigned (syscall.c:26, 505). */
  predicate Served(a: seq<Byte>, nbytes: int) {
    a != [] && |a| <= Unsigned(nbytes)
  }

  /** In numbers: any negative count of a 32-bit caller is served, and otherwise one that the argument fits. */
  lemma ServedExact(a: seq<Byte>, nbytes: int)
    requires -0x8000_0000 <= nbytes < 0x8000_0000 && |a| < 0x8000_0000
    ensures Served(a, nbytes) <==> a != [] && (nbytes < 0 || |a| <= nbytes)
  {
  }

  /** The n bytes a caller receives, given what lies in memory behind the kept argument. */
  function Received(a: seq<Byte>, behind: seq<Byte>, n: nat): seq<Byte>
    requires n <= |Kept(a)| + |behind|
  {
    (Kept(a) + behind)[..n]
  }

  /** A caller has its argument as a C string exactly when the count leaves room for a NUL and there is
      one: inside the 128 bytes, or by chance behind an argument that fills them. */
  lemma ReceivedExact(a: seq<Byte>, behind: seq<Byte>, n: nat)
    requires Free(a, NUL) && |a| <= n <= |Kept(a)| + |behind|
    ensures var r := Received(a, behind, n);
            CString(r) == a && |a| < |r| <==> |a| < n && (|a| < ARGLEN || behind[0] == NUL)
  {
    var r := Received(a, behind, n);
    assert r[..|a|] == a;
    if |a| < n && r[|a|] == NUL {
      CStringIs(r, |a|);
    }
  }

  /** An argument of 128 bytes, asked for with a count of 1024 as cat and grep do: the caller's string
      runs on into what lies behind the buffer. */
  lemma FullArgumentRunsOn(c: Byte, behind: seq<Byte>)
    requires c != NUL && |behind| == 1024 - ARGLEN && behind[0] != NUL
    ensures var a := Fill(ARGLEN, c); Served(a, 1024) && CString(Received(a, behind, 1024)) != a
  {
    var a := Fill(ARGLEN, c);
    ReceivedExact(a, behind, 1024);
  }

  /** The text a caller can find: the argument, with what lies behind it when it fills the buffer. */
  function Text(a: seq<Byte>, behind: seq<Byte>): seq<Byte> {
    if |a| < ARGLEN then a else a + CString(behind)
  }

  /** A caller that expects argument own and asks for n bytes gets it, as far as sys_getargs goes: a failure
      for an empty one, and otherwise a terminated string that is own. b is the argument in the buffer. */
  ghost predicate GetsOwn(own: seq<Byte>, b: seq<Byte>, behind: seq<Byte>, n: nat)
    requires n <= |Kept(b)| + |behind|
  {
    if own == [] then !Served(b, n)
    else Served(b, n) && CString(Received(b, behind, n)) == own && |own| < n
  }

  /** With room for a terminator, exactly when the text that can be found is that argument; an empty one also
      when the count is too small for what is there. */
  lemma GetsOwnExact(own: seq<Byte>, b: seq<Byte>, behind: seq<Byte>, n: nat)
    requires Free(own, NUL) && Free(b, NUL) && |own| < n <= |Kept(b)| + |behind|
    ensures GetsOwn(own, b, behind, n) <==> OwnInBuffer(own, b, behind, n)
  {
    var m, r := Kept(b) + behind, Received(b, behind, n);
    MemoryText(b, behind);
    if own != [] && |b| <= n {
      CStringPrefix(m, n, own);
    }
  }

  lemma MemoryText(b: seq<Byte>, behind: seq<Byte>)
    requires Free(b, NUL)
    ensures CString(Kept(b) + behind) == Text(b, behind) && |b| <= |Text(b, behind)|
  {
    if |b| < ARGLEN {
      ShortText(b, behind);
    } else {
      assert Kept(b) == b;
      StringsJoin(b, behind);
    }
  }

  lemma ShortText(b: seq<Byte>, behind: seq<Byte>)
    requires Free(b, NUL) && |b| < ARGLEN
    ensures CString(Kept(b) + behind) == b
  {
    var k, m := Kept(b), Kept(b) + behind;
    assert k[|b|] == NUL && m[|b|] == k[|b|];
    assert m[..|b|] == k[..|b|] == b;
    CStringIs(m, |b|);
  }

  lemma StringsJoin(b: seq<Byte>, c: seq<Byte>)
    requires Free(b, NUL)
    ensures CString(b + c) == b + CString(c)
  {
    var n := |b| + |CString(c)|;
    assert (b + c)[..n] == b + c[..|CString(c)|];
    assert n < |b + c| ==> (b + c)[n] == c[|CString(c)|];
    CStringIs(b + c, n);
  }

  /** A string shorter than n bytes is the string at the start of m exactly when it is that of the first n. */
  lemma CStringPrefix(m: seq<Byte>, n: nat, own: seq<Byte>)
    requires |own| < n <= |m|
    ensures CString(m[..n]) == own <==> CString(m) == own
  {
    var k := |own|;
    if CString(m[..n]) == own {
      assert m[..n][k] == NUL && m[..n][..k] == m[..k];
      CStringIs(m, k);
    }
    if CString(m) == own {
      assert m[..n][..k] == m[..k];
      CStringIs(m[..n], k);
    }
  }

  /** What a caller that expects argument own makes of a sys_getargs call. */
  ghost predicate Got(own: seq<Byte>, r: int, received: seq<Byte>) {
    if own == [] then r == -1 else r == 0 && CString(received) == own && |own| < |received|
  }

  lemma GotExact(own: seq<Byte>, b: seq<Byte>, behind: seq<Byte>, n: nat, r: int, received: seq<Byte>)
    requires Free(own, NUL) && Free(b, NUL) && |own| < n == |received| && n <= |Kept(b)| + |behind|
    requires r == (if Served(b, n) then 0 else -1) && (r == 0 ==> received == Received(b, behind, n))
    ensures Got(own, r, received) <==> OwnInBuffer(own, b, behind, n)
  {
    GetsOwnExact(own, b, behind, n);
  }

  /** When a program gets its own argument: b is the one in the buffer, with some memory behind it. */
  ghost predicate OwnInBuffer(own: seq<Byte>, b: seq<Byte>, behind: seq<Byte>, n: nat) {
    if own == [] then b == [] || n < |b| else Text(b, behind) == own
  }

  // ----- the buffers -----

  /** fname, arg and arg_length. arg[k + 1] is the k-th argument byte: arg[0] stands for the byte in
      front of the C array, which the clearing loop overwrites when there is no separator (syscall.c:145),
      and arg[129..] for the memory behind it, which a longer argument overwrites and a larger count reads. */
  class Parsed {
    const fname: array<Byte>
    const arg: array<Byte>
    var argLength: nat

    ghost predicate Valid()
      reads this, fname, arg
    {
      fname.Length == NAME_LENGTH && ARGLEN < arg.Length <= WORD && argLength < arg.Length
    }

    /** The buffers hold the parts of command c, padded with NULs. */
    ghost predicate Holds(c: seq<Byte>)
      requires Valid()
      reads this, fname, arg
    {
      var a := Argument(c);
      && fname[..] == Padded(Name(c), NAME_LENGTH)
      && |Kept(a)| < arg.Length && arg[1..|Kept(a)| + 1] == Kept(a)
      && argLength == |a|
    }

    /** The same; the trigger keeps the buffers out of proofs that only hand it on. */
    ghost predicate Has(c: seq<Byte>)
      requires Valid()
      reads this, fname, arg
    {
      forall d {:trigger Name(d)} :: d == c ==> Holds(d)
    }

    constructor (behind: seq<Byte>)
      requires |behind| + ARGLEN < WORD
      ensures Valid() && argLength == 0 && arg.Length == ARGLEN + 1 + |behind| && fresh(fname) && fresh(arg)
    {
      fname := new Byte[NAME_LENGTH](_ => NUL);
      arg := new Byte[ARGLEN + 1 + |behind|](i requires 0 <= i < ARGLEN + 1 + |behind| =>
        if i <= ARGLEN then NUL else behind[i - ARGLEN - 1]);
      argLength := 0;
    }

    /** parse_command. */
    method ParseCommand(command: seq<Byte>)
      requires Valid() && Free(command, NUL) && |Argument(command)| < arg.Length
      modifies this, fname, arg
      ensures Valid() && Holds(command)
      ensures arg[0] == if NameLength(command) == |command| then NUL else old(arg[0])
      ensures var n := |Kept(Argument(command))|; arg[n + 1..] == old(arg[n + 1..])
    {
      var n := ScanName(command);
      CopyName(command, n);
      CopyArgument(command, n);
    }

    /** The loop that looks for the end of the name. */
    method ScanName(command: seq<Byte>) returns (i: nat)
      requires Free(command, NUL)
      ensures i == NameLength(command)
    {
      i := 0;
      while i < |command| && i < NAME_LENGTH
        invariant i <= |command| && i <= NAME_LENGTH && Free(command[..i], SPACE)
        invariant NameLengthFrom(command, i) == NameLength(command)
      {
        if command[i] == SPACE || command[i] == NUL {
          break;
        }
        i := i + 1;
      }
    }

    method CopyName(command: seq<Byte>, n: nat)
      requires Valid() && n <= |command| && n <= NAME_LENGTH
      modifies fname
      ensures fname[..] == Padded(command[..n], NAME_LENGTH)
    {
      for i := 0 to n
        invariant fname[..i] == command[..i]
      {
        fname[i] := command[i];
      }
      for i := n to NAME_LENGTH
        invariant fname[..i] == command[..n] + Fill(i - n, NUL)
      {
        fname[i] := NUL;
      }
      assert fname[..] == fname[..NAME_LENGTH];
    }

    method CopyArgument(command: seq<Byte>, n: nat)
      requires Valid() && n <= |command| && |command| - n - 1 < arg.Length
      modifies this`argLength, arg
      ensures var a := if n + 1 <= |command| then command[n + 1..] else [];
              && argLength == |a| && arg[1..|Kept(a)| + 1] == Kept(a)
              && arg[|Kept(a)| + 1..] == old(arg[|Kept(a)| + 1..])
      ensures arg[0] == if n == |command| then NUL else old(arg[0])
    {
      ghost var a := if n + 1 <= |command| then command[n + 1..] else [];
      LoadArgument(command, n, a);
      ClearRest(|command| - n - 1, a);
    }

    /** The argument bytes, counted. */
    method LoadArgument(command: seq<Byte>, n: nat, ghost a: seq<Byte>)
      requires Valid() && n <= |command| && a == if n + 1 <= |command| then command[n + 1..] else []
      requires |a| < arg.Length
      modifies this`argLength, arg
      ensures argLength == |a| && arg[1..|a| + 1] == a && arg[0] == old(arg[0]) && arg[|a| + 1..] == old(arg[|a| + 1..])
    {
      argLength := 0;
      var i := n + 1;
      while i < |command|
        invariant argLength == i - n - 1 <= |a| && i <= |command| + 1
        invariant forall k :: 0 <= k < arg.Length ==> arg[k] == if 1 <= k < i - n then a[k - 1] else old(arg[k])
      {
        arg[i - n] := command[i];
        argLength := argLength + 1;
        i := i + 1;
      }
    }

    /** NULs from position from to the end of the 128 bytes; from is -1 when there was no separator. */
    method ClearRest(from: int, ghost a: seq<Byte>)
      requires from == |a| || (from == -1 && a == [])
      requires Valid() && |a| < arg.Length && arg[1..|a| + 1] == a
      modifies arg
      ensures arg[1..|Kept(a)| + 1] == Kept(a) && arg[|Kept(a)| + 1..] == old(arg[|Kept(a)| + 1..])
      ensures arg[0] == if from == -1 then NUL else old(arg[0])
    {
      ghost var was := arg[..];
      WriteNuls(from);
      assert arg[1..|Kept(a)| + 1] == was[1..|a| + 1] + Fill(|Kept(a)| - |a|, NUL);
      assert arg[|Kept(a)| + 1..] == was[|Kept(a)| + 1..];
    }

    /** The clearing loop. */
    method WriteNuls(from: int)
      requires Valid() && -1 <= from < arg.Length
      modifies arg
      ensures forall k :: 0 <= k < arg.Length ==> arg[k] == if from < k <= ARGLEN then NUL else old(arg[k])
    {
      var i := from;
      while i < ARGLEN
        invariant from <= i && (i <= ARGLEN || i == from)
        invariant forall k :: 0 <= k < arg.Length ==> arg[k] == if from < k <= i then NUL else old(arg[k])
      {
        arg[i + 1] := NUL;
        i := i + 1;
      }
    }

    /** The copying loop of sys_getargs. */
    method CopyOut(buf: array<Byte>, nbytes: int, ghost m: seq<Byte>)
      requires arg.Length > 0 && m == arg[1..] && nbytes < arg.Length && nbytes <= buf.Length && buf != arg
      modifies buf
      ensures if nbytes < 0 then buf[..] == old(buf[..])
              else buf[..nbytes] == m[..nbytes] && buf[nbytes..] == old(buf[nbytes..])
    {
      var i := 0;
      while i < nbytes
        invariant 0 <= i && (nbytes >= 0 ==> i <= nbytes) && (nbytes < 0 ==> i == 0)
        invariant forall k :: 0 <= k < i ==> buf[k] == arg[k + 1]
        invariant forall k :: i <= k < buf.Length ==> buf[k] == old(buf[k])
        invariant m == arg[1..]
      {
        buf[i] := arg[i + 1];
        i := i + 1;
      }
    }

    /** sys_getargs. A negative count passes the comparison and copies nothing. */
    method GetArgs(buf: array?<Byte>, nbytes: int, ghost command: seq<Byte>) returns (r: int)
      requires Valid() && Holds(command) && -WORD <= 2 * nbytes < WORD && nbytes < arg.Length
      requires buf != null ==> nbytes <= buf.Length && buf != arg
      modifies buf
      ensures r == if buf != null && Served(Argument(command), nbytes) then 0 else -1
      ensures buf != null && (r == -1 || nbytes < 0) ==> buf[..] == old(buf[..])
      ensures r == 0 && nbytes >= 0 ==>
                var a := Argument(command);
                && nbytes <= |Kept(a)| + |arg[|Kept(a)| + 1..]|
                && buf[..nbytes] == Received(a, arg[|Kept(a)| + 1..], nbytes) && buf[nbytes..] == old(buf[nbytes..])
    {
      if buf == null || argLength == 0 || argLength > Unsigned(nbytes) {
        return -1;
      }
      ghost var kept := |Kept(Argument(command))|;
      ghost var m := arg[1..kept + 1] + arg[kept + 1..];
      assert m == arg[1..];
      CopyOut(buf, nbytes, m);
      return 0;
    }

    /** sys_getargs for a program that expects argument own: it gets it exactly when the text that can be
        found in the buffer is own. */
    method GetOwn(buf: array<Byte>, nbytes: nat, ghost command: seq<Byte>, ghost own: seq<Byte>) returns (r: int)
      requires Valid() && Has(command) && Free(command, NUL) && Free(own, NUL)
      requires buf != arg && |own| < nbytes <= buf.Length && nbytes < arg.Length && 2 * nbytes < WORD
      modifies buf
      ensures Answers(own, command, r, buf[..nbytes])
    {
      ghost var name, b := Name(command), Argument(command);
      ghost var behind := arg[|Kept(b)| + 1..];
      ghost var received := Received(b, behind, nbytes);
      assert Free(b, NUL);
      r := GetArgs(buf, nbytes, command);
      assert arg[|Kept(b)| + 1..] == behind && (r == 0 ==> buf[..nbytes] == received);
      GotExact(own, b, behind, nbytes, r, buf[..nbytes]);
    }

    /** When the argument in the buffer is a program's own and below 128 bytes, the program gets it; when there is
        none or one that does not begin with its own, it does not. */
    lemma AnswersMean(own: seq<Byte>, command: seq<Byte>, r: int, received: seq<Byte>)
      requires Answers(own, command, r, received) && own != [] && Free(own, 0) && |own| < |received|
      ensures Argument(command) == own && |own| < 128 ==> r == 0 && CString(received) == own
      ensures Argument(command) == [] || (Argument(command)[0] != own[0]) ==> !(r == 0 && CString(received) == own)
    {
    }

    /** r and received are what a program that expects argument own makes of command in the buffers. */
    ghost predicate Answers(own: seq<Byte>, command: seq<Byte>, r: int, received: seq<Byte>)
      reads arg
    {
      var b := Argument(command);
      && |Kept(b)| < arg.Length
      && (Got(own, r, received) <==> OwnInBuffer(own, b, arg[|Kept(b)| + 1..], |received|))
    }
  }
}
