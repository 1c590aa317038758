/** The system-call emulator: cutting a command into argv, and joining argv into one argument string. */
module Emulator {
  import opened Bytes
  import opened Sequences

  const SLASH: Byte := 47
  const DOT: Byte := 46

  // ----- words -----

  predicate Separates(b: Byte) {
    b == SPACE || b == NEWLINE
  }

  ghost predicate IsWord(w: seq<Byte>) {
    w != [] && Free(w, SPACE) && Free(w, NEWLINE) && Free(w, NUL)
  }

  function WordLength(s: seq<Byte>): (n: nat)
    ensures n <= |s| && (forall i :: 0 <= i < n ==> !Separates(s[i])) && (n < |s| ==> Separates(s[n]))
  {
    if s == [] || Separates(s[0]) then 0 else 1 + WordLength(s[1..])
  }

  function Spaces(s: seq<Byte>): (n: nat)
    ensures n <= |s| && (forall i :: 0 <= i < n ==> s[i] == SPACE) && (n < |s| ==> s[n] != SPACE)
  {
    if s == [] || s[0] != SPACE then 0 else 1 + Spaces(s[1..])
  }

  /** The arguments in s: words apart from each other by spaces, up to a newline that follows a space. */
  function Args(s: seq<Byte>): seq<seq<Byte>>
    decreases |s|
  {
    var t := s[Spaces(s)..];
    if t == [] || t[0] == NEWLINE then []
    else
      var n := WordLength(t);
      [t[..n]] + if n < |t| then Args(t[n + 1..]) else []
  }

  /** argv for a command: the program under "./", then the arguments. */
  function Argv(c: seq<Byte>): seq<seq<Byte>> {
    var n := WordLength(c);
    [[DOT, SLASH] + c[..n]] + if n < |c| then Args(c[n + 1..]) else []
  }

  /** Words with one space between them. */
  function Joined(words: seq<seq<Byte>>): seq<Byte> {
    if words == [] then []
    else if |words| == 1 then words[0]
    else words[0] + [SPACE] + Joined(words[1..])
  }

  // ----- a reference that does not scan: cut at every space, drop the empty pieces -----

  function Fields(s: seq<Byte>): seq<seq<Byte>> {
    if s == [] then [[]]
    else
      var f := Fields(s[1..]);
      if s[0] == SPACE then [[]] + f else if f == [] then [] else [[s[0]] + f[0]] + f[1..]
  }

  function NonEmpty(f: seq<seq<Byte>>): seq<seq<Byte>> {
    if f == [] then [] else (if f[0] == [] then [] else [f[0]]) + NonEmpty(f[1..])
  }

  lemma {:induction false} FieldsWord(w: seq<Byte>, rest: seq<Byte>)
    requires Free(w, SPACE)
    ensures Fields(w) == [w] && Fields(w + [SPACE] + rest) == [w] + Fields(rest)
  {
    var s := w + [SPACE] + rest;
    if w == [] {
      assert s[1..] == rest;
    } else {
      FieldsWord(w[1..], rest);
      assert s[1..] == w[1..] + [SPACE] + rest && s[0] == w[0];
      assert [w[0]] + w[1..] == w;
    }
  }

  lemma {:induction false} SpacesSkip(s: seq<Byte>)
    ensures NonEmpty(Fields(s)) == NonEmpty(Fields(s[Spaces(s)..]))
  {
    if s != [] && s[0] == SPACE {
      SpacesSkip(s[1..]);
      assert s[1..][Spaces(s[1..])..] == s[Spaces(s)..];
      assert ([[]] + Fields(s[1..]))[1..] == Fields(s[1..]);
    }
  }

  lemma NonEmptyCons(w: seq<Byte>, f: seq<seq<Byte>>)
    requires w != []
    ensures NonEmpty([w] + f) == [w] + NonEmpty(f)
  {
    assert ([w] + f)[1..] == f;
  }

  lemma WordThenSpace(t: seq<Byte>)
    requires t != [] && Free(t, NEWLINE) && t[0] != SPACE
    ensures var n := WordLength(t);
            && t[..n] != [] && Free(t[..n], SPACE)
            && (n < |t| ==> t == t[..n] + [SPACE] + t[n + 1..])
  {
    var n := WordLength(t);
    FirstByte(t);
    assert forall i :: 0 <= i < n ==> t[..n][i] == t[i];
    if n < |t| {
      SplitAt(t, n);
    }
  }

  lemma FirstByte(t: seq<Byte>)
    requires t != [] && !Separates(t[0])
    ensures WordLength(t) > 0
  {
  }

  lemma SplitAt(t: seq<Byte>, n: nat)
    requires n < |t|
    ensures t == t[..n] + [t[n]] + t[n + 1..]
  {
  }

  /** On text without newlines the scanner finds exactly the non-empty pieces between spaces. */
  lemma {:induction false} ArgsAreFields(s: seq<Byte>)
    requires Free(s, NEWLINE)
    ensures Args(s) == NonEmpty(Fields(s))
    decreases |s|
  {
    SpacesSkip(s);
    var t := s[Spaces(s)..];
    if t != [] {
      var n := WordLength(t);
      WordThenSpace(t);
      if n < |t| {
        ArgsAreFields(t[n + 1..]);
        FieldsWord(t[..n], t[n + 1..]);
        NonEmptyCons(t[..n], Fields(t[n + 1..]));
      } else {
        assert t[..n] == t && [t] + [] == [t];
        FieldsWord(t, []);
        NonEmptyCons(t, []);
      }
    }
  }

  // ----- splitting what was joined -----

  lemma {:induction false} WordLengthIs(w: seq<Byte>, rest: seq<Byte>)
    requires Free(w, SPACE) && Free(w, NEWLINE)
    requires rest != [] ==> Separates(rest[0])
    ensures WordLength(w + rest) == |w|
  {
    if w == [] {
      assert w + rest == rest;
    } else {
      assert (w + rest)[1..] == w[1..] + rest;
      WordLengthIs(w[1..], rest);
    }
  }

  lemma FirstWord(words: seq<seq<Byte>>)
    requires words != [] && IsWord(words[0])
    ensures var w, s := words[0], Joined(words);
            && WordLength(s) == |w| <= |s| && s[..|w|] == w
            && (if |words| == 1 then s == w else |w| < |s| && s[|w| + 1..] == Joined(words[1..]))
            && Spaces(s) == 0 && s[0] != NEWLINE
  {
    var w := words[0];
    var tail := if |words| == 1 then [] else [SPACE] + Joined(words[1..]);
    assert Joined(words) == w + tail;
    WordLengthIs(w, tail);
    assert (w + tail)[0] == w[0] && w[0] != SPACE && w[0] != NEWLINE;
  }

  /** Splitting the space-joined words recovers them. */
  lemma {:induction false} ArgsOfJoined(words: seq<seq<Byte>>)
    requires forall i :: 0 <= i < |words| ==> IsWord(words[i])
    ensures Args(Joined(words)) == words
  {
    if words != [] {
      FirstWord(words);
      assert Joined(words)[0..] == Joined(words);
      ArgsOfJoined(words[1..]);
      assert words == [words[0]] + words[1..];
    }
  }

  lemma ArgvOfOne(w: seq<Byte>)
    requires IsWord(w)
    ensures Argv(w) == [[DOT, SLASH] + w]
  {
    assert w + [] == w;
    WordLengthIs(w, []);
    assert w[..|w|] == w;
  }

  lemma ArgvOfMore(w: seq<Byte>, rest: seq<Byte>)
    requires IsWord(w)
    ensures Argv(w + [SPACE] + rest) == [[DOT, SLASH] + w] + Args(rest)
  {
    var c := w + [SPACE] + rest;
    assert c == w + ([SPACE] + rest);
    WordLengthIs(w, [SPACE] + rest);
    assert c[..|w|] == w && c[|w| + 1..] == rest;
  }

  lemma ArgvOfJoined(words: seq<seq<Byte>>)
    requires words != [] && forall i :: 0 <= i < |words| ==> IsWord(words[i])
    ensures Argv(Joined(words)) == [[DOT, SLASH] + words[0]] + words[1..]
  {
    if |words| == 1 {
      ArgvOfOne(words[0]);
      assert words[1..] == [] && Joined(words) == words[0];
    } else {
      ArgsOfJoined(words[1..]);
      ArgvOfMore(words[0], Joined(words[1..]));
      assert Joined(words) == words[0] + [SPACE] + Joined(words[1..]);
    }
  }

  /** What follows a word: the rest of a typed line. */
  function LineTail(words: seq<seq<Byte>>): (tail: seq<Byte>)
    requires words != []
    ensures tail != [] && Separates(tail[0])
  {
    if |words| == 1 then [NEWLINE] else [SPACE] + (Joined(words[1..]) + [NEWLINE])
  }

  lemma LineOfWords(words: seq<seq<Byte>>)
    requires words != []
    ensures Joined(words) + [10] == words[0] + LineTail(words)
    ensures LineTail(words)[1..] == if |words| == 1 then [] else Joined(words[1..]) + [10]
  {
    if |words| > 1 {
      FourJoin(words[0], [SPACE], Joined(words[1..]), [10]);
      Behind(SPACE, Joined(words[1..]) + [10]);
    }
  }

  lemma WordAhead(w: seq<Byte>, tail: seq<Byte>)
    requires IsWord(w) && tail != [] && Separates(tail[0])
    ensures Args(w + tail) == [w] + Args(tail[1..]) && Argv(w + tail) == [[46, 47] + w] + Args(tail[1..])
  {
    var s := w + tail;
    WordLengthIs(w, tail);
    HeadAndTail(w, tail);
    NoSpaces(s);
    ArgsUnfold(s);
  }

  lemma NoSpaces(s: seq<Byte>)
    requires s != [] && s[0] != SPACE
    ensures Spaces(s) == 0
  {
  }

  lemma {:induction false} ArgsOfTail(words: seq<seq<Byte>>)
    requires words != [] && forall i :: 0 <= i < |words| ==> IsWord(words[i])
    ensures Args(LineTail(words)[1..]) == words[1..]
  {
    LineOfWords(words);
    if |words| == 1 {
      NoArgs();
    } else {
      var rest := words[1..];
      LineOfWords(rest);
      ArgsOfTail(rest);
      ArgsOfMore(rest[0], LineTail(rest), rest[1..]);
      FirstAndRest(rest);
    }
  }

  lemma NoArgs()
    ensures Args([]) == []
  {
  }

  lemma ArgsOfMore(w: seq<Byte>, tail: seq<Byte>, words: seq<seq<Byte>>)
    requires IsWord(w) && tail != [] && Separates(tail[0]) && Args(tail[1..]) == words
    ensures Args(w + tail) == [w] + words
  {
    WordAhead(w, tail);
  }

  /** A command as it is typed, words with single spaces and a newline at the end, splits into its words. */
  lemma ArgvOfLine(words: seq<seq<Byte>>)
    requires words != [] && forall i :: 0 <= i < |words| ==> IsWord(words[i])
    ensures Argv(Joined(words) + [10]) == [[46, 47] + words[0]] + words[1..]
  {
    LineOfWords(words);
    WordAhead(words[0], LineTail(words));
    ArgsOfTail(words);
  }

  /** What is left of s after its first word and the separator. */
  function Rest(s: seq<Byte>): seq<Byte> {
    var n := WordLength(s);
    if n < |s| then s[n + 1..] else []
  }

  lemma ArgsUnfold(s: seq<Byte>)
    ensures var t := s[Spaces(s)..];
            Args(s) == if t == [] || t[0] == NEWLINE then [] else [t[..WordLength(t)]] + Args(Rest(t))
  {
    assert Args([]) == [];
  }

  lemma {:induction false} ArgsAreWords(s: seq<Byte>)
    requires Free(s, NUL)
    ensures forall i :: 0 <= i < |Args(s)| ==> IsWord(Args(s)[i])
    decreases |s|
  {
    var t := s[Spaces(s)..];
    ArgsUnfold(s);
    if t != [] && t[0] != NEWLINE {
      FirstIsWord(t);
      RestShorter(t);
      ArgsAreWords(Rest(t));
      WordsCons(t[..WordLength(t)], Args(Rest(t)));
    }
  }

  lemma WordsCons(w: seq<Byte>, words: seq<seq<Byte>>)
    requires IsWord(w) && forall i :: 0 <= i < |words| ==> IsWord(words[i])
    ensures forall i :: 0 <= i < |words| + 1 ==> IsWord(([w] + words)[i])
  {
  }

  lemma RestShorter(t: seq<Byte>)
    requires t != [] && !Separates(t[0])
    ensures |Rest(t)| < |t| && (Free(t, NUL) ==> Free(Rest(t), NUL))
  {
    FirstByte(t);
    var n := WordLength(t);
    assert forall i :: 0 <= i < |Rest(t)| ==> Rest(t)[i] == t[n + 1 + i];
  }

  lemma FirstIsWord(t: seq<Byte>)
    requires t != [] && !Separates(t[0]) && Free(t, NUL)
    ensures IsWord(t[..WordLength(t)])
  {
    FirstByte(t);
    assert forall i :: 0 <= i < WordLength(t) ==> t[..WordLength(t)][i] == t[i];
  }

  /** Splitting and joining collapses the spacing, and doing it again changes nothing. */
  lemma JoinIsIdempotent(s: seq<Byte>)
    requires Free(s, NUL)
    ensures Args(Joined(Args(s))) == Args(s)
    ensures Joined(Args(Joined(Args(s)))) == Joined(Args(s))
  {
    ArgsAreWords(s);
    ArgsOfJoined(Args(s));
  }

  // ----- the tokenizer -----

  /** The NUL-terminated string w stands at buf[a]. */
  ghost predicate StringAt(buf: seq<Byte>, a: int, w: seq<Byte>) {
    0 <= a && a + |w| < |buf| && buf[a..a + |w|] == w && buf[a + |w|] == NUL
  }

  /** args[..n] point to the given words, all of them before scan. */
  ghost predicate Points(buf: seq<Byte>, args: seq<int>, words: seq<seq<Byte>>, scan: nat) {
    && |words| <= |args|
    && forall k :: 0 <= k < |words| ==> StringAt(buf, args[k], words[k]) && args[k] + |words[k]| < scan
  }

  lemma StringKept(buf: seq<Byte>, buf': seq<Byte>, a: int, w: seq<Byte>, scan: nat)
    requires StringAt(buf, a, w) && a + |w| < scan <= |buf| == |buf'|
    requires forall i :: 0 <= i < scan ==> buf'[i] == buf[i]
    ensures StringAt(buf', a, w)
  {
    assert buf'[a..a + |w|] == buf[a..a + |w|];
  }

  lemma PointsKept(buf: seq<Byte>, buf': seq<Byte>, args: seq<int>, args': seq<int>, words: seq<seq<Byte>>,
      scan: nat, scan': nat)
    requires Points(buf, args, words, scan) && scan <= scan' && scan <= |buf| == |buf'|
    requires forall i :: 0 <= i < scan ==> buf'[i] == buf[i]
    requires |args'| >= |words| && forall k :: 0 <= k < |words| ==> args'[k] == args[k]
    ensures Points(buf', args', words, scan')
  {
    forall k | 0 <= k < |words|
      ensures StringAt(buf', args'[k], words[k]) && args'[k] + |words[k]| < scan'
    {
      StringKept(buf, buf', args[k], words[k], scan);
    }
  }

  /** Byte k of a string, or its terminator. */
  function ByteOr(s: seq<Byte>, k: int): Byte {
    if 0 <= k < |s| then s[k] else NUL
  }

  lemma StandsAt(buf: seq<Byte>, from: nat, s: seq<Byte>, k: nat)
    requires from + |s| < |buf| && buf[from..from + |s|] == s && buf[from + |s|] == NUL && k <= |s|
    ensures buf[from + k] == ByteOr(s, k)
  {
    assert k < |s| ==> buf[from..from + |s|][k] == buf[from + k];
  }

  /** scan++ while a byte of the current word is there. */
  method SkipWord(buf: array<Byte>, from: nat, ghost s: seq<Byte>) returns (scan: nat)
    requires from + |s| < buf.Length && buf[from..from + |s|] == s && buf[from + |s|] == NUL && Free(s, NUL)
    ensures scan == from + WordLength(s)
  {
    scan := from;
    ghost var n := WordLength(s);
    StandsAt(buf[..], from, s, 0);
    while NUL != buf[scan] && SPACE != buf[scan] && NEWLINE != buf[scan]
      invariant from <= scan <= from + n && buf[scan] == ByteOr(s, scan - from)
      decreases from + n - scan
    {
      scan := scan + 1;
      StandsAt(buf[..], from, s, scan - from);
    }
  }

  const BUFFER := 1026
  const MAX_ARGS := 1024
  const NO_ARG := -1

  /** The scanner stands at scan with s before it. */
  ghost predicate Before(buf: seq<Byte>, scan: nat, s: seq<Byte>) {
    && |buf| == BUFFER && Free(s, NUL)
    && scan + |s| < BUFFER && buf[scan..scan + |s|] == s && buf[scan + |s|] == NUL
  }

  /** scan++ while there is a space; more says whether a word stands there. */
  method SkipSpaces(buf: array<Byte>, from: nat, ghost s: seq<Byte>) returns (scan: nat, more: bool)
    requires Before(buf[..], from, s)
    ensures var t := s[Spaces(s)..];
            scan == from + Spaces(s) && Before(buf[..], scan, t) && (more <==> t != [] && t[0] != NEWLINE)
  {
    scan := from;
    ghost var n := Spaces(s);
    StandsAt(buf[..], from, s, 0);
    while SPACE == buf[scan]
      invariant from <= scan <= from + n && buf[scan] == ByteOr(s, scan - from)
      decreases from + n - scan
    {
      scan := scan + 1;
      StandsAt(buf[..], from, s, scan - from);
    }
    assert buf[..][scan..scan + |s| - n] == s[n..];
    more := !(NUL == buf[scan] || NEWLINE == buf[scan]);
  }

  /** Each word takes two bytes of the buffer with its separator, so the pointers never run out. */
  ghost predicate Room(words: nat, scan: nat, s: seq<Byte>) {
    2 * words + (if s == [] then 0 else 1) <= scan
  }

  function Past(scan: nat, s: seq<Byte>): nat {
    if s == [] then scan + 1 else scan
  }

  function ScanAfter(scan: nat, s: seq<Byte>): nat {
    var n := WordLength(s);
    if n < |s| then scan + n + 1 else scan + n
  }

  /** The buffer with a NUL in place of the separator. */
  function CutOff(buf: seq<Byte>, scan: nat, s: seq<Byte>): (r: seq<Byte>)
    requires scan + |s| < |buf|
    ensures |r| == |buf|
  {
    var n := WordLength(s);
    if n < |s| then buf[scan + n := NUL] else buf
  }

  lemma RestBefore(buf: seq<Byte>, scan: nat, s: seq<Byte>)
    requires Before(buf, scan, s)
    ensures Before(CutOff(buf, scan, s), ScanAfter(scan, s), Rest(s))
  {
    var n := WordLength(s);
    if n < |s| {
      CutBefore(buf, scan, s, n);
    }
  }

  lemma CutBefore(buf: seq<Byte>, scan: nat, s: seq<Byte>, n: nat)
    requires Before(buf, scan, s) && n < |s|
    ensures Before(buf[scan + n := NUL], scan + n + 1, s[n + 1..])
  {
    assert buf[scan + n := NUL][scan + n + 1..scan + |s|] == buf[scan..scan + |s|][n + 1..];
  }

  lemma WordStored(buf: seq<Byte>, scan: nat, s: seq<Byte>, start: nat)
    requires Before(buf, scan, s) && start <= scan
    ensures StringAt(CutOff(buf, scan, s), start, buf[start..scan] + s[..WordLength(s)])
  {
    var n := WordLength(s);
    assert buf[start..scan + n] == buf[start..scan] + buf[scan..scan + |s|][..n];
    assert CutOff(buf, scan, s)[start..scan + n] == buf[start..scan + n];
  }

  lemma WordTaken(buf: seq<Byte>, args: seq<int>, words: seq<seq<Byte>>, start: nat, scan: nat, s: seq<Byte>)
    requires Before(buf, scan, s) && start <= scan && |words| < |args| && Points(buf, args, words, start)
    ensures Points(CutOff(buf, scan, s), args[|words| := start], words + [buf[start..scan] + s[..WordLength(s)]],
                   Past(ScanAfter(scan, s), Rest(s)))
  {
    var buf', args' := CutOff(buf, scan, s), args[|words| := start];
    var w, scan' := buf[start..scan] + s[..WordLength(s)], Past(ScanAfter(scan, s), Rest(s));
    PointsKept(buf, buf', args, args', words, start, scan');
    WordStored(buf, scan, s, start);
    forall k | 0 <= k < |words| + 1
      ensures StringAt(buf', args'[k], (words + [w])[k]) && args'[k] + |(words + [w])[k]| < scan'
    {
      assert k < |words| ==> (words + [w])[k] == words[k];
    }
  }

  /** Stores the word that starts at buf[start] and runs on into s as argument k, and cuts it off. */
  method TakeWord(buf: array<Byte>, args: array<int>, k: nat, start: nat, scan: nat, ghost s: seq<Byte>)
      returns (scan': nat, more: bool)
    requires Before(buf[..], scan, s) && k < args.Length
    modifies buf, args
    ensures more <==> WordLength(s) < |s|
    ensures scan' == ScanAfter(scan, s) && buf[..] == CutOff(old(buf[..]), scan, s)
            && args[..] == old(args[..])[k := start]
  {
    args[k] := start;
    scan' := SkipWord(buf, scan, s);
    more := NUL != buf[scan'];
    if more {
      buf[scan'] := NUL;
      scan' := scan' + 1;
    }
  }

  /** Room is kept by a word: it has at least one byte. */
  lemma RoomKept(k: nat, scan: nat, s: seq<Byte>)
    requires Room(k, scan, s) && s != [] && WordLength(s) > 0
    ensures Room(k + 1, ScanAfter(scan, s), Rest(s))
  {
  }

  /** One more argument: the first word of t, which starts at scan. */
  method TakeArg(buf: array<Byte>, args: array<int>, n: nat, scan: nat, ghost t: seq<Byte>,
      ghost words: seq<seq<Byte>>) returns (scan': nat)
    requires Before(buf[..], scan, t) && args.Length == MAX_ARGS && n == |words| && Room(n, scan, t)
    requires t != [] && WordLength(t) > 0 && Points(buf[..], args[..], words, scan)
    modifies buf, args
    ensures Before(buf[..], scan', Rest(t)) && Room(n + 1, scan', Rest(t))
    ensures Points(buf[..], args[..], words + [t[..WordLength(t)]], Past(scan', Rest(t)))
  {
    ghost var b, w := buf[..], t[..WordLength(t)];
    assert b[scan..scan] + w == w;
    WordTaken(b, args[..], words, scan, scan, t);
    RestBefore(b, scan, t);
    RoomKept(n, scan, t);
    var more;
    scan', more := TakeWord(buf, args, n, scan, scan, t);
  }

  /** The end of the arguments: a terminator where the scanner stands. */
  method EndArgs(buf: array<Byte>, args: array<int>, scan: nat, ghost words: seq<seq<Byte>>, ghost past: nat)
    requires scan < buf.Length == BUFFER && past <= BUFFER && Points(buf[..], args[..], words, past)
    requires past <= scan || (past == scan + 1 && buf[scan] == NUL)
    modifies buf
    ensures Points(buf[..], args[..], words, BUFFER)
  {
    ghost var b := buf[..];
    buf[scan] := NUL;
    PointsKept(b, buf[..], args[..], args[..], words, past, BUFFER);
  }

  lemma ArgsNext(s: seq<Byte>, words: seq<seq<Byte>>)
    ensures var t := s[Spaces(s)..];
            if t == [] || t[0] == NEWLINE then words + Args(s) == words
            else WordLength(t) > 0 && words + Args(s) == words + [t[..WordLength(t)]] + Args(Rest(t))
  {
    var t := s[Spaces(s)..];
    ArgsUnfold(s);
    if t == [] || t[0] == NEWLINE {
      Regroup(words, [], []);
    } else {
      FirstByte(t);
      Regroup(words, [t[..WordLength(t)]], Args(Rest(t)));
    }
  }

  /** The argument loop, from the first argument on. */
  method TakeArgs(buf: array<Byte>, args: array<int>, from: nat, ghost s: seq<Byte>, ghost first: seq<seq<Byte>>)
      returns (n: nat)
    requires Before(buf[..], from, s) && args.Length == MAX_ARGS && |first| == 1 && Room(1, from, s)
    requires Points(buf[..], args[..], first, Past(from, s))
    modifies buf, args
    ensures n == |first + Args(s)| < MAX_ARGS && Points(buf[..], args[..], first + Args(s), BUFFER)
  {
    n := 1;
    var scan: nat := from;
    ghost var rest, words := s, first;
    while true
      invariant n == |words| && Before(buf[..], scan, rest) && Room(n, scan, rest)
      invariant Points(buf[..], args[..], words, Past(scan, rest))
      invariant words + Args(rest) == first + Args(s)
      decreases |rest|
    {
      ghost var t, past := rest[Spaces(rest)..], Past(scan, rest);
      ArgsNext(rest, words);
      var more;
      scan, more := SkipSpaces(buf, scan, rest);
      if !more {
        EndArgs(buf, args, scan, words, past);
        return;
      }
      PointsKept(buf[..], buf[..], args[..], args[..], words, past, scan);
      scan := TakeArg(buf, args, n, scan, t, words);
      words := words + [t[..WordLength(t)]];
      n, rest := n + 1, Rest(t);
    }
  }

  /** The tokenizer of ece391_execute: argv as pointers into buf, or -1 for a command over 1023 bytes. */
  method Tokenize(command: seq<Byte>, buf: array<Byte>, args: array<int>) returns (n: int)
    requires Free(command, NUL) && buf.Length == BUFFER && args.Length == MAX_ARGS
    modifies buf, args
    ensures n == if |command| > 1023 then -1 else |Argv(command)|
    ensures n != -1 ==> n < MAX_ARGS && args[n] == NO_ARG && Points(buf[..], args[..], Argv(command), BUFFER)
    ensures forall k :: 0 <= k < n ==>
              var w, a := Argv(command)[k], args[k];
              0 <= a && a + |w| < 1026 && buf[a..a + |w|] == w && buf[a + |w|] == 0
  {
    if 1023 < |command| {
      return -1;
    }
    n := TokenizeShort(command, buf, args);
    PointsMean(buf[..], args[..], Argv(command));
  }

  lemma PointsMean(buf: seq<Byte>, args: seq<int>, words: seq<seq<Byte>>)
    requires Points(buf, args, words, BUFFER) && |buf| == BUFFER
    ensures forall k :: 0 <= k < |words| ==>
              var w, a := words[k], args[k];
              0 <= a && a + |w| < 1026 && buf[a..a + |w|] == w && buf[a + |w|] == 0
  {
  }

  method TokenizeShort(command: seq<Byte>, buf: array<Byte>, args: array<int>) returns (n: int)
    requires Free(command, NUL) && |command| <= 1023 && buf.Length == BUFFER && args.Length == MAX_ARGS
    modifies buf, args
    ensures n == |Argv(command)| < MAX_ARGS && args[n] == NO_ARG && Points(buf[..], args[..], Argv(command), BUFFER)
  {
    buf[0], buf[1] := DOT, SLASH;
    Strcpy(buf, 2, command);
    n := Cut(command, buf, args);
    ghost var a := args[..];
    args[n] := NO_ARG;
    PointsKept(buf[..], buf[..], a, args[..], Argv(command), BUFFER, BUFFER);
  }

  /** The scan of "./" and the command behind it. */
  method Cut(command: seq<Byte>, buf: array<Byte>, args: array<int>) returns (n: nat)
    requires |command| <= 1023 && args.Length == MAX_ARGS && Before(buf[..], 2, command) && buf[..2] == [DOT, SLASH]
    modifies buf, args
    ensures n == |Argv(command)| < MAX_ARGS && buf.Length == BUFFER && Points(buf[..], args[..], Argv(command), BUFFER)
  {
    ghost var b := buf[..];
    assert b[0..2] == buf[..2] == [DOT, SLASH];
    WordTaken(b, args[..], [], 0, 2, command);
    RestBefore(b, 2, command);
    var scan, more := TakeWord(buf, args, 0, 0, 2, command);
    ghost var first := [[DOT, SLASH] + command[..WordLength(command)]];
    assert [] + first == first;
    if !more {
      n := 1;
      assert Argv(command) == first;
    } else {
      n := TakeArgs(buf, args, scan, Rest(command), first);
    }
  }

  // ----- the joiner -----

  /** What the joiner still has to write from argument i on. */
  function Tail(words: seq<seq<Byte>>, i: nat): seq<Byte> {
    if i < |words| then Joined(words[i..]) else []
  }

  /** Argument i as it goes into the buffer: with a space after it unless it is the last. */
  function WithSpace(w: seq<Byte>, last: bool): seq<Byte> {
    if last then w else w + [SPACE]
  }

  lemma TailNext(words: seq<seq<Byte>>, i: nat)
    requires i < |words|
    ensures Tail(words, i) == WithSpace(words[i], i + 1 == |words|) + Tail(words, i + 1)
  {
    assert words[i..][1..] == words[i + 1..];
  }

  /** strcpy to buf[at..]. */
  method Strcpy(buf: array<Byte>, at: nat, s: seq<Byte>)
    requires at + |s| < buf.Length && Free(s, NUL)
    modifies buf
    ensures buf[at..at + |s|] == s && buf[at + |s|] == NUL
    ensures buf[..at] == old(buf[..at]) && buf[at + |s| + 1..] == old(buf[at + |s| + 1..])
  {
    for i := 0 to |s|
      invariant buf[at..at + i] == s[..i]
      invariant buf[..at] == old(buf[..at]) && buf[at + i..] == old(buf[at + i..])
    {
      buf[at + i] := s[i];
    }
    buf[at + |s|] := NUL;
  }

  // ----- the byte behind the count -----

  /** Some of the arguments, joined, are exactly nbytes long: strcpy puts the terminator behind them. */
  ghost predicate Overruns(argv: seq<seq<Byte>>, nbytes: int) {
    exists k {:trigger argv[1..k]} :: 1 < k <= |argv| && |Joined(argv[1..k])| == nbytes
  }

  /** Where argument i starts in the buffer. */
  function Start(argv: seq<seq<Byte>>, i: nat): nat
    requires i <= |argv|
  {
    if i <= 1 then 0 else Start(argv, i - 1) + |argv[i - 1]| + 1
  }

  lemma {:induction false} JoinedLonger(words: seq<seq<Byte>>, w: seq<Byte>)
    ensures |Joined(words + [w])| == (if words == [] then 0 else |Joined(words)| + 1) + |w|
  {
    if words != [] {
      JoinedLonger(words[1..], w);
      assert (words + [w])[1..] == words[1..] + [w];
    }
  }

  /** Where the terminator of argument k goes. */
  function End(argv: seq<seq<Byte>>, k: nat): nat
    requires 1 <= k < |argv|
  {
    Start(argv, k) + |argv[k]|
  }

  lemma {:induction false} EndIs(argv: seq<seq<Byte>>, k: nat)
    requires 1 <= k < |argv|
    ensures End(argv, k) == |Joined(argv[1..k + 1])|
  {
    assert argv[1..k + 1] == argv[1..k] + [argv[k]];
    JoinedLonger(argv[1..k], argv[k]);
    if k > 1 {
      EndIs(argv, k - 1);
    }
  }

  lemma OverrunsMeans(argv: seq<seq<Byte>>, nbytes: int)
    ensures Overruns(argv, nbytes) <==> exists k {:trigger End(argv, k)} :: 1 <= k < |argv| && End(argv, k) == nbytes
  {
    forall k | 1 <= k < |argv|
      ensures End(argv, k) == |Joined(argv[1..k + 1])|
    {
      EndIs(argv, k);
    }
    if Overruns(argv, nbytes) {
      var k :| 1 < k <= |argv| && |Joined(argv[1..k])| == nbytes;
      assert End(argv, k - 1) == nbytes;
    }
  }

  lemma {:induction false} EndsGrow(argv: seq<seq<Byte>>, i: nat, j: nat)
    requires 1 <= i < j < |argv|
    ensures End(argv, i) < End(argv, j)
  {
    if i + 1 < j {
      EndsGrow(argv, i, j - 1);
    }
  }

  /** Whether it happens shows at the first argument that ends at or behind nbytes. */
  lemma OverrunShows(argv: seq<seq<Byte>>, i: nat, nbytes: int)
    requires 1 <= i < |argv| && End(argv, i) >= nbytes
    requires forall k :: 1 <= k < i ==> End(argv, k) != nbytes
    ensures Overruns(argv, nbytes) <==> End(argv, i) == nbytes
  {
    OverrunsMeans(argv, nbytes);
    forall k | i < k < |argv|
      ensures End(argv, k) > nbytes
    {
      EndsGrow(argv, i, k);
    }
  }

  /** No argument before number i ends at nbytes. */
  ghost predicate NoneEnds(argv: seq<seq<Byte>>, i: nat, nbytes: int)
    requires i <= |argv|
  {
    forall k {:trigger End(argv, k)} :: 1 <= k < i ==> End(argv, k) != nbytes
  }

  lemma RoundShows(argv: seq<seq<Byte>>, i: nat, nbytes: int)
    requires 1 <= i < |argv| && NoneEnds(argv, i, nbytes)
    ensures End(argv, i) >= nbytes ==> (Overruns(argv, nbytes) <==> End(argv, i) == nbytes)
    ensures End(argv, i) != nbytes ==> NoneEnds(argv, i + 1, nbytes)
    ensures i + 1 < |argv| ==> Start(argv, i + 1) == End(argv, i) + 1
  {
    if End(argv, i) >= nbytes {
      OverrunShows(argv, i, nbytes);
    }
  }

  lemma NeverEnds(argv: seq<seq<Byte>>, nbytes: int)
    requires NoneEnds(argv, |argv|, nbytes)
    ensures !Overruns(argv, nbytes)
  {
    OverrunsMeans(argv, nbytes);
  }

  lemma TailStep(words: seq<seq<Byte>>, i: nat, done: seq<Byte>, s: seq<Byte>)
    requires i < |words| && done + Tail(words, i) == s
    ensures var piece := WithSpace(words[i], i + 1 == |words|); (done + piece) + Tail(words, i + 1) == s
    ensures |done| + |WithSpace(words[i], i + 1 == |words|)| <= |s|
  {
    TailNext(words, i);
    Regroup(done, WithSpace(words[i], i + 1 == |words|), Tail(words, i + 1));
  }

  /** An argument of three bytes and a count of three: the NUL goes to the fourth byte. */
  lemma OverrunExample()
    ensures Overruns([[DOT, SLASH, 120], [97, 98, 99]], 3)
  {
    var argv: seq<seq<Byte>> := [[DOT, SLASH, 120], [97, 98, 99]];
    assert argv[1..2] == [[97, 98, 99]];
  }

  /** ece391_getargs: the arguments joined by single spaces, if they and a terminator fit nbytes. The byte
      behind the count is overwritten exactly when some of the arguments fill it, and then it fails. */
  method GetArgs(argv: seq<seq<Byte>>, buf: array<Byte>, nbytes: int) returns (r: int)
    requires argv != [] && forall i :: 0 <= i < |argv| ==> Free(argv[i], NUL)
    requires nbytes < buf.Length
    modifies buf
    ensures var s := Tail(argv, 1);
            && r == (if |s| + 1 <= nbytes then 0 else -1)
            && (r == 0 ==> buf[..|s|] == s && buf[|s|] == NUL)
    ensures if Overruns(argv, nbytes) then r == -1 && Spilt(buf[..], old(buf[..]), nbytes)
            else Unspilt(buf[..], old(buf[..]), nbytes)
    ensures forall i :: 0 <= i < buf.Length && (i > nbytes || (i == nbytes && !Overruns(argv, nbytes))) ==>
              buf[i] == old(buf[i])
    ensures Overruns(argv, nbytes) ==> 0 <= nbytes && buf[nbytes] == 0
  {
    ghost var hit;
    var at;
    at, hit := JoinWords(argv, buf, nbytes);
    if at < 0 {
      return -1;
    }
    r := Terminate(buf, at, nbytes);
  }

  /** The loop of ece391_getargs: where it ends, or -1. */
  method JoinWords(argv: seq<seq<Byte>>, buf: array<Byte>, nbytes: int) returns (at: int, ghost hit: bool)
    requires argv != [] && forall i :: 0 <= i < |argv| ==> Free(argv[i], NUL)
    requires nbytes < buf.Length
    modifies buf
    ensures at >= 0 ==> at == |Tail(argv, 1)| && (at > 0 ==> at <= nbytes)
    ensures at >= 0 ==> at <= buf.Length && buf[..at] == Tail(argv, 1)
    ensures at < 0 ==> at == -1 && |Tail(argv, 1)| + 1 > nbytes
    ensures hit <==> Overruns(argv, nbytes)
    ensures if hit then Spilt(buf[..], old(buf[..]), nbytes) && (at < 0 || at == nbytes)
            else Unspilt(buf[..], old(buf[..]), nbytes)
  {
    var idx := 1;
    at, hit := 0, false;
    ghost var s, was := Tail(argv, 1), buf[..];
    while idx < |argv|
      invariant 1 <= idx <= |argv| && 0 <= at && (at > 0 ==> at <= nbytes) && (idx < |argv| ==> at == Start(argv, idx))
      invariant buf[..at] + Tail(argv, idx) == s
      invariant if hit then idx == |argv| && at == nbytes && Overruns(argv, nbytes) else NoneEnds(argv, idx, nbytes)
      invariant if hit then Spilt(buf[..], was, nbytes) else Unspilt(buf[..], was, nbytes)
    {
      TailStep(argv, idx, buf[..at], s);
      RoundShows(argv, idx, nbytes);
      hit := End(argv, idx) == nbytes;
      var next := AppendWord(argv[idx], idx + 1 == |argv|, buf, at, nbytes);
      at := next;
      if next < 0 {
        break;
      }
      assert buf[..at] + Tail(argv, idx + 1) == s;
      idx := idx + 1;
    }
    if at >= 0 {
      assert buf[..at] + [] == buf[..at];
      if !hit {
        NeverEnds(argv, nbytes);
      }
    }
  }

  /** The bytes from the count on are as before; for a negative count, all of them. */
  ghost predicate Unspilt(buf: seq<Byte>, was: seq<Byte>, nbytes: int) {
    |buf| == |was| && nbytes < |buf| && forall i {:trigger buf[i]} :: 0 <= i < |buf| && nbytes <= i ==> buf[i] == was[i]
  }

  /** Only the first of them has changed, to a NUL. */
  ghost predicate Spilt(buf: seq<Byte>, was: seq<Byte>, nbytes: int) {
    && |buf| == |was| && 0 <= nbytes < |buf| && buf[nbytes] == NUL
    && forall i {:trigger buf[i]} :: nbytes < i < |buf| ==> buf[i] == was[i]
  }

  method Terminate(buf: array<Byte>, at: nat, nbytes: int) returns (r: int)
    requires at <= buf.Length && nbytes < buf.Length
    modifies buf
    ensures r == if at + 1 <= nbytes then 0 else -1
    ensures r == 0 ==> buf[..at] == old(buf[..at]) && buf[at] == NUL
    ensures r == -1 ==> buf[..] == old(buf[..])
    ensures Unspilt(buf[..], old(buf[..]), nbytes)
  {
    if nbytes - at < 1 {
      return -1;
    }
    buf[at] := NUL;
    return 0;
  }

  /** One round of the joiner: a word, and a space when another one follows; -1 when they do not fit. */
  method AppendWord(w: seq<Byte>, last: bool, buf: array<Byte>, at: nat, nbytes: int) returns (r: int)
    requires Free(w, NUL) && nbytes < buf.Length && (at > 0 ==> at <= nbytes)
    modifies buf
    ensures var piece := WithSpace(w, last);
            && (r == if at + |piece| > nbytes then -1 else at + |piece|)
            && (r >= 0 ==> buf[..r] == old(buf[..at]) + piece)
    ensures if at + |w| == nbytes then Spilt(buf[..], old(buf[..]), nbytes) else Unspilt(buf[..], old(buf[..]), nbytes)
  {
    if |w| > nbytes - at {
      return -1;
    }
    r := Append(w, buf, at, nbytes);
    if last {
      return;
    }
    if nbytes - r < 1 {
      return -1;
    }
    ghost var done := buf[..r];
    buf[r] := SPACE;
    r := r + 1;
    assert buf[..r] == done + [SPACE];
  }

  method Append(w: seq<Byte>, buf: array<Byte>, at: nat, nbytes: nat) returns (at': nat)
    requires Free(w, NUL) && at + |w| <= nbytes < buf.Length
    modifies buf
    ensures at' == at + |w| && buf[..at'] == old(buf[..at]) + w
    ensures if at' == nbytes then Spilt(buf[..], old(buf[..]), nbytes) else Unspilt(buf[..], old(buf[..]), nbytes)
  {
    ghost var was := buf[..];
    Strcpy(buf, at, w);
    at' := at + |w|;
    TakenTwice(buf[..], at, at');
    assert forall i :: at' < i < buf.Length ==> buf[i] == buf[at' + 1..][i - at' - 1] == was[i];
  }
}
