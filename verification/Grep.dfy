/** grep: a chunked line scanner with carry-over, against a filter on the lines of the whole file. */
module Grep {
  import opened Bytes
  import opened Files
  import opened FileTables
  import opened Sequences
  import opened Machine

  const BUFSIZE := 1024
  const COLON: Byte := 58

  // ----- the whole-file line filter -----

  /** Index of the first newline, or |text|. */
  function LineEnd(text: seq<Byte>): (n: nat)
    ensures n <= |text| && Free(text[..n], NEWLINE)
    ensures n < |text| ==> text[n] == NEWLINE
  {
    if text == [] || text[0] == NEWLINE then 0 else 1 + LineEnd(text[1..])
  }

  lemma {:induction false} LineEndIs(text: seq<Byte>, n: nat)
    requires n <= |text| && Free(text[..n], NEWLINE)
    requires n < |text| ==> text[n] == NEWLINE
    ensures LineEnd(text) == n
  {
    if n > 0 {
      assert text[..n][0] == text[0] && text[1..][..n - 1] == text[..n][1..];
      LineEndIs(text[1..], n - 1);
    }
  }

  /** The lines of text; a non-empty rest without a newline is a line too. */
  function Lines(text: seq<Byte>): seq<seq<Byte>>
    decreases |text|
  {
    var n := LineEnd(text);
    if n < |text| then [text[..n]] + Lines(text[n + 1..]) else if text == [] then [] else [text]
  }

  ghost predicate At(line: seq<Byte>, s: seq<Byte>, k: nat) {
    k + |s| <= |line| && line[k..k + |s|] == s
  }

  ghost predicate Contains(line: seq<Byte>, s: seq<Byte>) {
    exists k :: At(line, s, k)
  }

  ghost function Matching(lines: seq<seq<Byte>>, s: seq<Byte>): seq<seq<Byte>> {
    if lines == [] then []
    else (if Contains(lines[0], s) then [lines[0]] else []) + Matching(lines[1..], s)
  }

  /** Each line as grep prints it: file name, colon, line, newline. */
  function Report(fname: seq<Byte>, lines: seq<seq<Byte>>): seq<Byte> {
    if lines == [] then [] else fname + [COLON] + lines[0] + [NEWLINE] + Report(fname, lines[1..])
  }

  ghost function Filtered(fname: seq<Byte>, s: seq<Byte>, text: seq<Byte>): seq<Byte> {
    Report(fname, Matching(Lines(text), s))
  }

  // ----- the filter, without the way it cuts lines -----

  /** Every line with a newline behind it. */
  function Terminated(lines: seq<seq<Byte>>): seq<Byte> {
    if lines == [] then [] else lines[0] + [10] + Terminated(lines[1..])
  }

  /** A text as it is with a newline at its end, if it is not empty and has none there. */
  function Ended(text: seq<Byte>): seq<Byte> {
    if text == [] || text[|text| - 1] == 10 then text else text + [10]
  }

  lemma EndedAt(text: seq<Byte>, n: nat)
    requires n < |text| && text[n] == 10
    ensures Ended(text) == text[..n] + [10] + Ended(text[n + 1..])
  {
    var rest := text[n + 1..];
    assert text == text[..n] + [10] + rest;
    assert rest != [] ==> rest[|rest| - 1] == text[|text| - 1];
  }

  /** The lines are the text cut at its newlines: none has one, and with them they are the text again. */
  lemma {:induction false} LinesJoin(text: seq<Byte>)
    ensures Terminated(Lines(text)) == Ended(text)
    decreases |text|
  {
    var n := LineEnd(text);
    LinesNext(text, n);
    if n < |text| {
      LinesJoin(text[n + 1..]);
      TerminatedNext(text[..n], Lines(text[n + 1..]));
      EndedAt(text, n);
    } else if text != [] {
      assert text[..n] == text;
      TerminatedNext(text, []);
    }
  }

  ghost predicate AllFree(lines: seq<seq<Byte>>) {
    forall line :: line in lines ==> Free(line, 10)
  }

  lemma {:induction false} LinesFree(text: seq<Byte>)
    ensures AllFree(Lines(text))
    decreases |text|
  {
    var n := LineEnd(text);
    LinesNext(text, n);
    if n < |text| {
      LinesFree(text[n + 1..]);
    } else {
      assert text[..n] == text;
    }
  }

  lemma TerminatedNext(line: seq<Byte>, lines: seq<seq<Byte>>)
    ensures Terminated([line] + lines) == line + [10] + Terminated(lines)
    ensures [line] + [] == [line] && Terminated([]) == [] && line + [10] + [] == line + [10]
  {
    assert ([line] + lines)[1..] == lines;
  }

  lemma ContainsMeans(line: seq<Byte>, s: seq<Byte>)
    ensures Contains(line, s) <==> exists a: seq<Byte>, b: seq<Byte> :: line == a + s + b
  {
    if Contains(line, s) {
      var k: nat :| At(line, s, k);
      assert line == line[..k] + s + line[k + |s|..];
    }
    if a: seq<Byte>, b: seq<Byte> :| line == a + s + b {
      assert At(line, s, |a|);
    }
  }

  /** One line: it is put out behind the file name and a colon (58) exactly when the pattern stands in it. */
  lemma FilteredLine(fname: seq<Byte>, s: seq<Byte>, line: seq<Byte>)
    requires s != [] && Free(line, 10)
    ensures Filtered(fname, s, line + [10]) ==
              if exists a: seq<Byte>, b: seq<Byte> :: line == a + s + b then fname + [58] + line + [10] else []
  {
    var text := line + [10];
    assert text[..|line|] == line && text[|line| + 1..] == [];
    LinesNext(text, |line|);
    LinesNext([], 0);
    PrintedCons(fname, s, line, []);
    ContainsMeans(line, s);
    Regroup(fname + [58] + line + [10], [], []);
  }

  /** The first line of a text: what it prints comes before what the rest prints. */
  lemma FilteredNext(fname: seq<Byte>, s: seq<Byte>, text: seq<Byte>, n: nat)
    requires s != [] && n < |text| && Free(text[..n], NEWLINE) && text[n] == NEWLINE
    ensures Filtered(fname, s, text) == Filtered(fname, s, text[..n] + [10]) + Filtered(fname, s, text[n + 1..])
  {
    var line := text[..n];
    LinesNext(text, n);
    PrintedCons(fname, s, line, Lines(text[n + 1..]));
    assert (line + [10])[..n] == line && (line + [10])[n + 1..] == [];
    LinesNext(line + [10], n);
    LinesNext([], 0);
    PrintedCons(fname, s, line, []);
    Regroup(if Contains(line, s) then fname + [COLON] + line + [NEWLINE] else [], [], []);
  }

  lemma LastEnds(a: seq<Byte>)
    requires a != [] && a[|a| - 1] == 10
    ensures LineEnd(a) < |a|
  {
    assert a[..|a|] == a;
  }

  /** The output for two pieces of text, the first of whole lines, is that for one and then that for the other. */
  lemma {:induction false} FilteredJoins(fname: seq<Byte>, s: seq<Byte>, a: seq<Byte>, b: seq<Byte>)
    requires s != [] && (a == [] || a[|a| - 1] == 10)
    ensures Filtered(fname, s, a + b) == Filtered(fname, s, a) + Filtered(fname, s, b)
    decreases |a|
  {
    if a == [] {
      FilteredNone(fname, s);
      NothingAhead(b);
      NothingAhead(Filtered(fname, s, b));
    } else {
      LastEnds(a);
      var n := LineEnd(a);
      SumSlices(a, b, n);
      var line, rest := a[..n], a[n + 1..];
      FilteredNext(fname, s, a, n);
      FilteredNext(fname, s, a + b, n);
      FilteredJoins(fname, s, rest, b);
      Regroup(Filtered(fname, s, line + [10]), Filtered(fname, s, rest), Filtered(fname, s, b));
    }
  }

  lemma FilteredNone(fname: seq<Byte>, s: seq<Byte>)
    ensures Filtered(fname, s, []) == []
  {
    LinesNext([], 0);
  }

  // ----- what the scanner prints -----

  /** The test s[0] == data[check] compares a signed char with an unsigned one (grep.c:43). */
  predicate Searchable(s: seq<Byte>) {
    s != [] && s[0] < 128
  }

  ghost function Printed(fname: seq<Byte>, s: seq<Byte>, text: seq<Byte>): seq<Byte> {
    if Searchable(s) then Filtered(fname, s, text) else []
  }

  ghost function PrintedLine(fname: seq<Byte>, s: seq<Byte>, line: seq<Byte>): seq<Byte> {
    if Searchable(s) && Contains(line, s) then fname + [COLON] + line + [NEWLINE] else []
  }

  /** The texts on which the scanner is exact: no NUL, every line shorter than the buffer. */
  ghost predicate Scannable(text: seq<Byte>) {
    Free(text, NUL) && ShortLines(text)
  }

  predicate ShortLines(text: seq<Byte>)
    decreases |text|
  {
    LineEnd(text) < BUFSIZE && (LineEnd(text) < |text| ==> ShortLines(text[LineEnd(text) + 1..]))
  }

  lemma {:induction false} ShortLinesMeans(text: seq<Byte>)
    ensures ShortLines(text) <==> forall i :: 0 <= i < |Lines(text)| ==> |Lines(text)[i]| < BUFSIZE
    decreases |text|
  {
    var n := LineEnd(text);
    if n < |text| {
      var rest := Lines(text[n + 1..]);
      ShortLinesMeans(text[n + 1..]);
      assert forall i :: 0 <= i < |rest| ==> Lines(text)[i + 1] == rest[i];
      assert Lines(text)[0] == text[..n];
    } else if text != [] {
      assert Lines(text)[0] == text;
    }
  }

  lemma LinesNext(text: seq<Byte>, n: nat)
    requires n <= |text| && Free(text[..n], NEWLINE) && (n < |text| ==> text[n] == NEWLINE)
    ensures Lines(text) == if n < |text| then [text[..n]] + Lines(text[n + 1..]) else if text == [] then [] else [text]
  {
    LineEndIs(text, n);
    assert LineEnd(text) == n;
    if n == |text| {
      assert text[..n] == text;
    }
  }

  /** The output for one line comes before the output for the lines after it. */
  lemma PrintedCons(fname: seq<Byte>, s: seq<Byte>, line: seq<Byte>, lines: seq<seq<Byte>>)
    requires s != []
    ensures Report(fname, Matching([line] + lines, s)) ==
              (if Contains(line, s) then fname + [COLON] + line + [NEWLINE] else []) + Report(fname, Matching(lines, s))
  {
    assert ([line] + lines)[1..] == lines;
    var m := Matching(lines, s);
    if Contains(line, s) {
      assert ([line] + m)[1..] == m;
    } else {
      assert [] + m == m;
    }
  }

  lemma NextLine(fname: seq<Byte>, s: seq<Byte>, text: seq<Byte>, n: nat)
    requires n < |text| && Free(text[..n], NEWLINE) && text[n] == NEWLINE
    ensures Printed(fname, s, text) == PrintedLine(fname, s, text[..n]) + Printed(fname, s, text[n + 1..])
  {
    LinesNext(text, n);
    if Searchable(s) {
      PrintedCons(fname, s, text[..n], Lines(text[n + 1..]));
    }
  }

  lemma NextScannable(text: seq<Byte>, n: nat)
    requires n < |text| && Free(text[..n], NEWLINE) && text[n] == NEWLINE && Scannable(text)
    ensures Scannable(text[n + 1..]) && Free(text[..n], NUL)
  {
    LineEndIs(text, n);
  }

  lemma LastLine(fname: seq<Byte>, s: seq<Byte>, text: seq<Byte>)
    requires Free(text, NEWLINE)
    ensures Printed(fname, s, text) == PrintedLine(fname, s, text)
    ensures Printed(fname, s, []) == [] && Scannable([])
  {
    assert text[..|text|] == text;
    LinesNext(text, |text|);
    if text == [] {
      assert forall k :: At(text, s, k) ==> s == [];
    } else if Searchable(s) {
      assert Lines(text) == [text] + [];
      PrintedCons(fname, s, text, []);
    }
  }

  lemma {:induction false} LineEndAtLeast(text: seq<Byte>, n: nat)
    requires n <= |text| && Free(text[..n], NEWLINE)
    ensures n <= LineEnd(text)
  {
    if n > 0 {
      assert text[..n][0] == text[0] && text[1..][..n - 1] == text[..n][1..];
      LineEndAtLeast(text[1..], n - 1);
    }
  }

  lemma LineFits(text: seq<Byte>, n: nat)
    requires n <= |text| && Free(text[..n], NEWLINE) && Scannable(text)
    ensures n < BUFSIZE
  {
    LineEndAtLeast(text, n);
  }

  /** A non-empty pattern is served correctly exactly when it starts in ASCII or occurs nowhere. */
  lemma ExactForAsciiPatterns(fname: seq<Byte>, s: seq<Byte>, text: seq<Byte>)
    requires s != []
    ensures Printed(fname, s, text) == Filtered(fname, s, text) <==>
            s[0] < 128 || forall line :: line in Lines(text) ==> !Contains(line, s)
  {
    MatchingMembers(Lines(text), s);
  }

  /** Such a pattern: the one-byte file 0xC8 has a line that contains it, and nothing is printed. */
  lemma HighPatternMissed(fname: seq<Byte>)
    ensures Filtered(fname, [200], [200]) == fname + [COLON, 200, NEWLINE] && Printed(fname, [200], [200]) == []
  {
    var text: seq<Byte> := [200];
    LinesNext(text, 1);
    assert At(text, text, 0);
    assert Lines(text) == [text] + [];
    PrintedCons(fname, text, text, []);
  }

  lemma {:induction false} MatchingMembers(lines: seq<seq<Byte>>, s: seq<Byte>)
    ensures Matching(lines, s) == [] <==> forall line :: line in lines ==> !Contains(line, s)
  {
    if lines != [] {
      MatchingMembers(lines[1..], s);
      assert forall line :: line in lines <==> line == lines[0] || line in lines[1..];
    }
  }

  // ----- the program -----

  /** strncmp of the user library. */
  method Strncmp(s1: seq<Byte>, s2: seq<Byte>, n: nat) returns (r: int)
    requires Readable(s1, n) && Readable(s2, n)
    ensures r == 0 <==> Seen(s1, n) == Seen(s2, n)
  {
    if n == 0 {
      return 0;
    }
    ghost var a, b := Seen(s1, n), Seen(s2, n);
    var i, left := 0, n;
    SeenBounds(s1, n, 0);
    SeenBounds(s2, n, 0);
    while s1[i] == s2[i]
      invariant 0 < left && i + left == n && i < |s1| && i < |s2| && i <= |a| && i <= |b|
      invariant (i < |a| <==> s1[i] != NUL) && (i < |b| <==> s2[i] != NUL)
      invariant a[..i] == b[..i]
      decreases left
    {
      assert i < |a| ==> a[i] == s1[i] && b[i] == s2[i];
      if s1[i] == NUL {
        return 0;
      }
      left := left - 1;
      if left == 0 {
        return 0;
      }
      i := i + 1;
      SeenBounds(s1, n, i);
      SeenBounds(s2, n, i);
    }
    assert i < |a| ==> a[i] == s1[i];
    assert i < |b| ==> b[i] == s2[i];
    return s1[i] as int - s2[i] as int;
  }

  lemma SeenAt(d: seq<Byte>, s: seq<Byte>, n: nat, k: nat)
    requires n < |d| && d[n] == NUL && k < n && Free(s, NUL)
    ensures Readable(d[k..], |s|) && Readable(s, |s|)
    ensures Seen(d[k..], |s|) == Seen(s, |s|) <==> At(d[..n], s, k)
  {
    var t := d[k..];
    assert t[n - k] == NUL;
    assert |CString(t)| <= n - k;
    assert s[..|s|] == s;
    CStringIs(s, |s|);
    if At(d[..n], s, k) {
      assert t[..|s|] == s;
      CStringIs(t[..|s|], |s|);
    }
  }

  /** The test at position k of a line, for a pattern with its terminator: the empty pattern hits a NUL. */
  ghost predicate HitAt(line: seq<Byte>, s: seq<Byte>, k: nat)
    requires k < |line|
  {
    if s == [] then line[k] == NUL else s[0] < 128 && At(line, s, k)
  }

  method TestAt(data: array<Byte>, s: seq<Byte>, start: nat, end: nat, check: nat) returns (found: bool)
    requires start <= check < end < data.Length && data[end] == NUL && Free(s, NUL)
    ensures found <==> HitAt(data[start..end], s, check - start)
  {
    ghost var line := data[start..end];
    SeenAt(data[start..], s, end - start, check - start);
    assert data[start..][..end - start] == line;
    assert data[start..][check - start..] == data[check..];
    if Signed((s + [NUL])[0]) == data[check] {
      var c := Strncmp(data[check..], s, |s|);
      return c == 0;
    }
    if s != [] && At(line, s, check - start) {
      assert line[check - start..check - start + |s|][0] == data[check];
    }
    return false;
  }

  /** The search loop over one line, data[start..end]. */
  method SearchLine(data: array<Byte>, s: seq<Byte>, start: nat, end: nat) returns (found: bool)
    requires start <= end < data.Length && data[end] == NUL && Free(s, NUL)
    ensures var line := data[start..end];
            found <==> if s == [] then !Free(line, NUL) else s[0] < 128 && Contains(line, s)
  {
    ghost var line := data[start..end];
    var check := start;
    while check < end
      invariant start <= check <= end && line == data[start..end]
      invariant forall k :: 0 <= k < check - start ==> !HitAt(line, s, k)
    {
      found := TestAt(data, s, start, end, check);
      if found {
        return true;
      }
      check := check + 1;
    }
    NoHit(line, s);
    return false;
  }

  lemma NoHit(line: seq<Byte>, s: seq<Byte>)
    requires forall k :: 0 <= k < |line| ==> !HitAt(line, s, k)
    ensures if s == [] then Free(line, NUL) else s[0] >= 128 || !Contains(line, s)
  {
    assert forall k {:trigger line[k]} :: 0 <= k < |line| ==> !HitAt(line, s, k);
    assert forall k :: At(line, s, k) && s != [] && s[0] < 128 ==> HitAt(line, s, k);
  }

  /** strcpy of the user library, from data[from..] down to data[0..]. */
  method CopyDown(data: array<Byte>, from: nat, end: nat)
    requires 0 < from <= end < data.Length && data[end] == NUL
    modifies data
    ensures data[end..] == old(data[end..])
    ensures Free(old(data[from..end]), NUL) ==> data[..end - from] == old(data[from..end])
  {
    ghost var line := data[from..end];
    var i := 0;
    while true
      invariant 0 <= i <= end - from
      invariant data[..i] == line[..i] && Free(line[..i], NUL) && data[i..] == old(data[i..])
      decreases end - i
    {
      data[i] := data[from + i];
      assert i < end - from ==> data[i] == line[i];
      if data[i] == NUL {
        break;
      }
      i := i + 1;
      assert data[..i] == data[..i - 1] + [data[i - 1]] && line[..i] == line[..i - 1] + [line[i - 1]];
    }
    assert line[..end - from] == line;
  }

  /** From position k on, text is scannable, and out and what the rest prints make up the total. The trigger
      keeps the definition out of proofs that only hand it on. */
  ghost predicate Scanning(fname: seq<Byte>, s: seq<Byte>, total: seq<Byte>, out: seq<Byte>, text: seq<Byte>, k: nat) {
    k <= |text| && forall rest {:trigger Printed(fname, s, rest)} ::
      rest == text[k..] ==> Scannable(rest) && total == out + Printed(fname, s, rest)
  }

  /** A line ends at position e; the next one starts behind it, if there is more text. */
  lemma AfterLine(fname: seq<Byte>, s: seq<Byte>, total: seq<Byte>, out: seq<Byte>, text: seq<Byte>, k: nat, e: nat)
    requires Scanning(fname, s, total, out, text, k) && k <= e <= |text| && Free(text[k..e], NEWLINE)
    requires e < |text| ==> text[e] == NEWLINE
    ensures Free(text[k..e], NUL)
    ensures Scanning(fname, s, total, out + PrintedLine(fname, s, text[k..e]), text, if e < |text| then e + 1 else e)
  {
    var rest, n, line := text[k..], e - k, PrintedLine(fname, s, text[k..e]);
    var printed := Printed(fname, s, rest);
    assert rest[..n] == text[k..e];
    if e < |text| {
      assert rest[n + 1..] == text[e + 1..];
      NextLine(fname, s, rest, n);
      NextScannable(rest, n);
      Regroup(out, line, Printed(fname, s, text[e + 1..]));
    } else {
      assert rest == text[k..e] && text[e..] == [];
      LastLine(fname, s, rest);
      Regroup(out, line, []);
    }
  }

  lemma LineInBuffer(fname: seq<Byte>, s: seq<Byte>, total: seq<Byte>, out: seq<Byte>, text: seq<Byte>, k: nat, e: nat)
    requires Scanning(fname, s, total, out, text, k) && k <= e <= |text| && Free(text[k..e], NEWLINE)
    ensures Free(text[k..e], NUL) && e - k < BUFSIZE
  {
    var rest := text[k..];
    var printed := Printed(fname, s, rest);
    assert rest[..e - k] == text[k..e];
    assert forall i :: 0 <= i < e - k ==> text[k..e][i] == rest[i];
    LineFits(rest, e - k);
  }

  /** Searches the line data[start..end] and prints it when it matches. */
  method PrintLine(fname: seq<Byte>, s: seq<Byte>, data: array<Byte>, start: nat, end: nat) returns (out: seq<Byte>)
    requires start <= end < data.Length && Free(s, NUL)
    modifies data
    ensures Free(old(data[start..end]), NUL) ==> out == PrintedLine(fname, s, old(data[start..end]))
    ensures data[..] == old(data[..])[end := NUL]
  {
    ghost var line := data[start..end];
    data[end] := NUL;
    assert data[start..end] == line;
    var found := SearchLine(data, s, start, end);
    if !found {
      return [];
    }
    if Free(line, NUL) {
      assert data[start..][..end - start] == line;
      CStringIs(data[start..], end - start);
    }
    return fname + [COLON] + CString(data[start..]) + [NEWLINE];
  }

  method FindEnd(data: array<Byte>, start: nat, last: nat) returns (end: nat)
    requires start <= last <= data.Length
    ensures start <= end <= last && Free(data[start..end], NEWLINE) && (end < last ==> data[end] == NEWLINE)
  {
    end := start;
    while end < last && NEWLINE != data[end]
      invariant start <= end <= last && forall k :: start <= k < end ==> data[k] != NEWLINE
    {
      end := end + 1;
    }
  }

  /** A partial line data[start..end] moves to the front of the buffer. */
  method CarryOver(data: array<Byte>, start: nat, end: nat)
    requires data.Length == BUFSIZE + 1 && 0 < start <= end <= BUFSIZE && data[BUFSIZE] != NEWLINE
    modifies data
    ensures data[BUFSIZE] != NEWLINE
    ensures Free(old(data[start..end]), NUL) ==> data[..end - start] == old(data[start..end])
  {
    ghost var line := data[start..end];
    data[end] := NUL;
    assert data[start..end] == line;
    CopyDown(data, start, end);
    assert data[BUFSIZE] == data[end..][BUFSIZE - end];
  }

  /** A complete line is searched; the buffer holds text[q..q + filled]. */
  method EmitLine(fname: seq<Byte>, s: seq<Byte>, data: array<Byte>, start: nat, end: nat, filled: nat,
                  ghost good: bool, ghost total: seq<Byte>, ghost out: seq<Byte>, ghost text: seq<Byte>, ghost q: nat)
    returns (printed: seq<Byte>)
    requires data.Length == BUFSIZE + 1 && start <= end <= filled <= BUFSIZE && data[BUFSIZE] != NEWLINE && Free(s, NUL)
    requires Free(data[start..end], NEWLINE) && (end < filled ==> data[end] == NEWLINE)
    requires good ==> Scanning(fname, s, total, out, text, q + start)
                      && q + filled <= |text| && data[start..filled] == text[q + start..q + filled]
    requires good && end == filled ==> |text| == q + filled
    modifies data
    ensures data[BUFSIZE] != NEWLINE && (end < filled ==> data[end + 1..filled] == old(data[end + 1..filled]))
    ensures good && end < filled ==> data[end + 1..filled] == text[q + (end + 1)..q + filled]
    ensures good ==> Scanning(fname, s, total, out + printed, text, if end < filled then q + (end + 1) else q + filled)
  {
    if good {
      SliceOfSlices(data[..], text, q, start, end, filled);
      AfterLine(fname, s, total, out, text, q + start, q + end);
    }
    printed := PrintLine(fname, s, data, start, end);
    assert end < filled ==> data[end + 1..filled] == old(data[end + 1..filled]);
  }

  lemma SliceOfSlices(a: seq<Byte>, b: seq<Byte>, q: nat, i: nat, j: nat, k: nat)
    requires i <= j <= k <= |a| && q + k <= |b| && a[i..k] == b[q + i..q + k]
    ensures a[i..j] == b[q + i..q + j] && a[j..k] == b[q + j..q + k]
    ensures j < k ==> a[j] == b[q + j] && a[j + 1..k] == b[q + (j + 1)..q + k]
  {
    assert forall m {:trigger a[m]} :: i <= m < k ==> a[m] == a[i..k][m - i] == b[q + m];
  }

  /** The line from start on ends at end, or goes on behind the buffer. */
  method LineUpTo(fname: seq<Byte>, s: seq<Byte>, data: array<Byte>, start: nat, filled: nat, ghost good: bool,
                  ghost total: seq<Byte>, ghost out: seq<Byte>, ghost text: seq<Byte>, ghost q: nat)
    returns (end: nat)
    requires data.Length == BUFSIZE + 1 && start <= filled <= BUFSIZE
    requires good ==> Scanning(fname, s, total, out, text, q + start)
                      && q + filled <= |text| && data[start..filled] == text[q + start..q + filled]
    ensures start <= end <= filled && Free(data[start..end], NEWLINE) && (end < filled ==> data[end] == NEWLINE)
    ensures good ==> Free(data[start..end], NUL) && end - start < BUFSIZE
  {
    end := FindEnd(data, start, filled);
    if good {
      SliceOfSlices(data[..], text, q, start, end, filled);
      LineInBuffer(fname, s, total, out, text, q + start, q + end);
    }
  }

  /** One pass over the buffer after a read of cnt bytes; data[..last] is carried over. The buffer holds
      text[q..q + filled], and the text goes on behind it only when it is full. */
  method ScanBuffer(fname: seq<Byte>, s: seq<Byte>, data: array<Byte>, filled: nat, cnt: nat, ghost good: bool,
                    ghost total: seq<Byte>, ghost before: seq<Byte>, ghost text: seq<Byte>, ghost q: nat)
    returns (last: nat, out: seq<Byte>)
    requires data.Length == BUFSIZE + 1 && filled <= BUFSIZE && data[BUFSIZE] != NEWLINE && Free(s, NUL)
    requires good ==> Scanning(fname, s, total, before, text, q)
                      && q + filled <= |text| && data[..filled] == text[q..q + filled]
                      && (filled < BUFSIZE || cnt == 0 ==> q + filled == |text|)
    modifies data
    ensures last < BUFSIZE && last <= filled && data[BUFSIZE] != NEWLINE
    ensures cnt == 0 || Free(old(data[..filled]), NEWLINE) ==> last == 0
    ensures good ==> Scanning(fname, s, total, before + out, text, q + (filled - last))
                     && data[..last] == text[q + (filled - last)..q + filled]
  {
    out := [];
    var lineStart := 0;
    ghost var free, acc := Free(data[..filled], NEWLINE), before;
    assert before + out == before;
    while true
      invariant lineStart <= filled && (lineStart < filled || lineStart == 0) && (free ==> lineStart == 0)
      invariant data[BUFSIZE] != NEWLINE && (free ==> Free(data[..filled], NEWLINE)) && acc == before + out
      invariant good ==> Scanning(fname, s, total, acc, text, q + lineStart)
      invariant good ==> data[lineStart..filled] == text[q + lineStart..q + filled]
      decreases filled - lineStart
    {
      var lineEnd := LineUpTo(fname, s, data, lineStart, filled, good, total, acc, text, q);
      assert lineEnd < filled ==> data[..filled][lineEnd] == NEWLINE;
      if NEWLINE != data[lineEnd] && 0 != cnt && lineStart != 0 {
        CarryOver(data, lineStart, lineEnd);
        last := filled - lineStart;
        break;
      }
      var printed := EmitLine(fname, s, data, lineStart, lineEnd, filled, good, total, acc, text, q);
      Regroup(before, out, printed);
      out, acc := out + printed, acc + printed;
      if lineEnd + 1 >= filled {
        last := 0;
        break;
      }
      lineStart := lineEnd + 1;
    }
  }

  // ----- the loop of do_one_file -----

  /** Where the scanner is exact: scannable files, directories whose names have no newline, and the RTC. */
  ghost predicate Exact(img: seq<Byte>, e: nat)
    requires WellFormed(img) && e < DirCount(img) && (EntryType(img, e) == 1 ==> DirEnds(img, 0))
  {
    if EntryType(img, e) == 2 then Scannable(Contents(img, EntryInode(img, e)))
    else EntryType(img, e) == 1 ==> forall name :: name in Listed(img, 0) ==> Free(name, NEWLINE)
  }

  /** A file is exact when it has no NUL and no line of 1024 bytes or more, a directory when no name in it has a
      newline, and the RTC always. */
  lemma ExactMeans(img: seq<Byte>, e: nat)
    requires WellFormed(img) && e < DirCount(img) && (EntryType(img, e) == 1 ==> DirEnds(img, 0))
    ensures EntryType(img, e) == 2 ==>
              var text := Contents(img, EntryInode(img, e));
              Exact(img, e) <==>
                (forall i :: 0 <= i < |text| ==> text[i] != 0)
                && forall i :: 0 <= i < |Lines(text)| ==> |Lines(text)[i]| < 1024
    ensures EntryType(img, e) == 1 ==> (Exact(img, e) <==> forall name :: name in Listed(img, 0) ==> Free(name, 10))
    ensures EntryType(img, e) == 0 ==> Exact(img, e)
  {
    if EntryType(img, e) == 2 {
      ShortLinesMeans(Contents(img, EntryInode(img, e)));
    }
  }

  /** What the scanner prints then: of a directory, each name is a line. */
  ghost function OutputOf(fname: seq<Byte>, s: seq<Byte>, img: seq<Byte>, e: nat): seq<Byte>
    requires WellFormed(img) && e < DirCount(img) && (EntryType(img, e) == 1 ==> DirEnds(img, 0))
  {
    if EntryType(img, e) == 2 then Printed(fname, s, Contents(img, EntryInode(img, e)))
    else if EntryType(img, e) == 1 then PrintedNames(fname, s, Listed(img, 0))
    else []
  }

  ghost function PrintedNames(fname: seq<Byte>, s: seq<Byte>, names: seq<seq<Byte>>): seq<Byte> {
    if Searchable(s) then Report(fname, Matching(names, s)) else []
  }

  /** An open descriptor of a file, the directory or the RTC. */
  ghost predicate Scanned(img: seq<Byte>, d: Descriptor) {
    && WellFormed(img) && d.kind != Terminal
    && (d.kind == Regular ==> d.inode < 64 && d.position <= FileLength(img, d.inode))
    && (d.kind == Directory ==> DirEnds(img, d.position))
  }

  /** How much there can still be to read. */
  ghost function ToRead(img: seq<Byte>, d: Descriptor): nat
    requires Scanned(img, d)
  {
    if d.kind == Regular then FileLength(img, d.inode) - d.position
    else if d.kind == Directory then |img| - 64 * d.position
    else 0
  }

  /** The descriptor after a read into n bytes. */
  ghost function Advanced(img: seq<Byte>, d: Descriptor, n: nat): Descriptor
    requires Scanned(img, d) && n > 0 && 2 * n < WORD
  {
    d.(position := d.position + ReadingOf(img, d, false, n, []).advance)
  }

  /** A read into n bytes fits them and gets further, until nothing comes. */
  lemma ReadFits(img: seq<Byte>, d: Descriptor, n: nat)
    requires Scanned(img, d) && n > 0 && 2 * n < WORD
    ensures var reading, d' := ReadingOf(img, d, false, n, []), Advanced(img, d, n);
            && reading.result == |reading.bytes| <= n
            && (reading.bytes != [] ==> Scanned(img, d') && ToRead(img, d') < ToRead(img, d))
  {
  }

  /** d is a descriptor of a file with text f, at position p of it. */
  ghost predicate IsText(img: seq<Byte>, d: Descriptor, f: seq<Byte>, p: nat)
    requires WellFormed(img)
  {
    && d.kind == Regular && p == d.position <= |f|
    && forall n {:trigger Contents(img, n)} :: n == d.inode ==> n < 64 && f == Contents(img, n)
  }

  /** d still delivers the names ns of the directory, one a read; the RTC delivers nothing. */
  ghost predicate HasNames(img: seq<Byte>, d: Descriptor, ns: seq<seq<Byte>>) {
    && d.kind != Regular && (d.kind != Directory ==> ns == [])
    && forall p {:trigger Listed(img, p)} :: p == d.position && d.kind == Directory ==>
         DirEnds(img, p) && ns == Listed(img, p)
  }

  /** Between two names: out and what the names ns print make up the total. */
  ghost predicate NamesLeft(fname: seq<Byte>, s: seq<Byte>, total: seq<Byte>, out: seq<Byte>, ns: seq<seq<Byte>>) {
    forall rest {:trigger PrintedNames(fname, s, rest)} :: rest == ns ==>
      (forall i :: 0 <= i < |rest| ==> Lineless(rest[i])) && total == out + PrintedNames(fname, s, rest)
  }

  ghost predicate Lineless(name: seq<Byte>) {
    name != [] && Free(name, NEWLINE) && Free(name, NUL) && |name| <= NAME_LENGTH
  }

  /** At the end of a text everything is printed. */
  lemma TextDone(fname: seq<Byte>, s: seq<Byte>, total: seq<Byte>, out: seq<Byte>, f: seq<Byte>, q: nat)
    requires Scanning(fname, s, total, out, f, q) && q == |f|
    ensures out == total
  {
    assert f[q..] == [];
    var none := Printed(fname, s, f[q..]);
    LastLine(fname, s, []);
    assert out + [] == out;
  }

  /** A name stands in the buffer like a text of its own. */
  lemma NameStarts(fname: seq<Byte>, s: seq<Byte>, total: seq<Byte>, out: seq<Byte>, ns: seq<seq<Byte>>)
    requires NamesLeft(fname, s, total, out, ns)
    ensures var name := FirstName(ns);
            && Scanning(fname, s, out + Printed(fname, s, name), out, name, 0)
            && Free(name, NEWLINE) && |name| < BUFSIZE && name[..|name|] == name
  {
    var all, name := PrintedNames(fname, s, ns), FirstName(ns);
    assert ns != [] ==> Lineless(ns[0]);
    assert name[..|name|] == name == name[0..];
    LineEndIs(name, |name|);
  }

  /** When it is done, the other names are left. */
  lemma NameDone(fname: seq<Byte>, s: seq<Byte>, total: seq<Byte>, out: seq<Byte>, ns: seq<seq<Byte>>,
      printed: seq<Byte>)
    requires NamesLeft(fname, s, total, out, ns)
    requires var name := FirstName(ns);
             Scanning(fname, s, out + Printed(fname, s, name), out + printed, name, |name|)
    ensures NamesLeft(fname, s, total, out + printed, OtherNames(ns))
    ensures ns == [] ==> out + printed == total
  {
    var all, name := PrintedNames(fname, s, ns), FirstName(ns);
    TextDone(fname, s, out + Printed(fname, s, name), out + printed, name, |name|);
    if ns == [] {
      LastLine(fname, s, []);
      assert out + [] == out;
    } else {
      assert Lineless(ns[0]) && ns == [ns[0]] + ns[1..];
      NameIsLine(fname, s, name, ns[1..]);
      Regroup(out, Printed(fname, s, name), PrintedNames(fname, s, ns[1..]));
    }
  }

  function FirstName(ns: seq<seq<Byte>>): seq<Byte> {
    if ns == [] then [] else ns[0]
  }

  function OtherNames(ns: seq<seq<Byte>>): seq<seq<Byte>> {
    if ns == [] then [] else ns[1..]
  }

  /** A name read from the directory is printed like a line. */
  lemma NameIsLine(fname: seq<Byte>, s: seq<Byte>, name: seq<Byte>, names: seq<seq<Byte>>)
    requires Free(name, NEWLINE)
    ensures PrintedNames(fname, s, [name] + names) == Printed(fname, s, name) + PrintedNames(fname, s, names)
  {
    LastLine(fname, s, name);
    if Searchable(s) {
      PrintedCons(fname, s, name, names);
    }
  }

  /** The read of one round, behind bytes f[q..q + last] of a text f, or of the next name. */
  method Refill(files: FileTable, fd: int, data: array<Byte>, last: nat, ghost f: seq<Byte>, ghost q: nat, ghost p: nat,
                ghost ns: seq<seq<Byte>>) returns (cnt: int)
    requires files.Valid() && FIRST_FILE <= fd < FD_COUNT && !files.desc[fd].free && Scanned(files.img, files.desc[fd])
    requires data.Length == BUFSIZE + 1 && last < BUFSIZE && p == q + last
    modifies data, files.desc
    ensures files.Valid() && 0 <= cnt <= BUFSIZE - last && !files.desc[fd].free
    ensures forall i :: 0 <= i < FD_COUNT && i != fd ==> files.desc[i] == old(files.desc[i])
    ensures cnt != 0 ==> Scanned(files.img, files.desc[fd])
    ensures cnt != 0 ==> ToRead(files.img, files.desc[fd]) < old(ToRead(files.img, files.desc[fd]))
    ensures data[BUFSIZE] == old(data[BUFSIZE])
    ensures old(IsText(files.img, files.desc[fd], f, p) && data[..last] == f[q..p]) ==>
              var filled := last + cnt;
              && q + filled <= |f| && data[..filled] == f[q..q + filled]
              && (filled < BUFSIZE || cnt == 0 ==> q + filled == |f|)
              && IsText(files.img, files.desc[fd], f, q + filled)
    ensures old(HasNames(files.img, files.desc[fd], ns)) && last == 0 ==>
              && data[..last + cnt] == FirstName(ns)
              && (cnt == 0 ==> ns == [])
              && (cnt != 0 ==> HasNames(files.img, files.desc[fd], OtherNames(ns)))
  {
    Refilled(files.img, files.desc[fd], last, f, q, data[..last], ns);
    cnt := ReadOn(files, fd, data, last, BUFSIZE);
  }

  /** What the bytes of the read are behind the carried ones. */
  lemma Refilled(img: seq<Byte>, d: Descriptor, last: nat, f: seq<Byte>, q: nat, carry: seq<Byte>, ns: seq<seq<Byte>>)
    requires Scanned(img, d) && last < BUFSIZE && |carry| == last
    ensures var bytes, d' := ReadingOf(img, d, false, BUFSIZE - last, []).bytes, Advanced(img, d, BUFSIZE - last);
            var filled := last + |bytes|;
            && (IsText(img, d, f, q + last) && carry == f[q..q + last] ==>
                  && q + filled <= |f| && carry + bytes == f[q..q + filled]
                  && (filled < BUFSIZE || |bytes| == 0 ==> q + filled == |f|)
                  && IsText(img, d', f, q + filled))
            && (HasNames(img, d, ns) && last == 0 ==>
                  && carry + bytes == FirstName(ns) && (|bytes| == 0 ==> ns == [])
                  && (|bytes| != 0 ==> HasNames(img, d', OtherNames(ns))))
  {
    if d.kind == Regular {
      TextRefilled(img, d, last, f, q, carry);
    } else if last == 0 {
      NameReadIsNext(img, d, BUFSIZE, ns);
      NothingAhead(FirstName(ns));
    }
  }

  /** The call of read into data[last..size], as far as every descriptor goes. */
  method ReadOn(files: FileTable, fd: int, data: array<Byte>, last: nat, size: nat) returns (cnt: int)
    requires files.Valid() && FIRST_FILE <= fd < FD_COUNT && !files.desc[fd].free && Scanned(files.img, files.desc[fd])
    requires data.Length == size + 1 && last < size <= BUFSIZE
    modifies data, files.desc
    ensures files.Valid() && 0 <= cnt <= size - last && data[size] == old(data[size])
    ensures forall i :: 0 <= i < FD_COUNT && i != fd ==> files.desc[i] == old(files.desc[i])
    ensures files.desc[fd] == Advanced(files.img, old(files.desc[fd]), size - last)
    ensures cnt != 0 ==> Scanned(files.img, files.desc[fd])
    ensures cnt != 0 ==> ToRead(files.img, files.desc[fd]) < old(ToRead(files.img, files.desc[fd]))
    ensures var bytes := ReadingOf(files.img, old(files.desc[fd]), false, size - last, []).bytes;
            cnt == |bytes| && data[..last + cnt] == old(data[..last]) + bytes
  {
    ghost var d, n := files.desc[fd], size - last;
    assert files.desc[..][fd] == d;
    ReadFits(files.img, d, n);
    cnt := files.Read(fd, data, last, size - last, []);
    assert files.desc[..][fd] == Advanced(files.img, d, n);
    assert forall i :: 0 <= i < FD_COUNT ==> files.desc[i] == files.desc[..][i];
    BehindCut(data[..], last + cnt, size);
    TakenTwice(data[..], last, last + cnt);
  }

  lemma TextRefilled(img: seq<Byte>, d: Descriptor, last: nat, f: seq<Byte>, q: nat, carry: seq<Byte>)
    requires Scanned(img, d) && d.kind == Regular && last < BUFSIZE
    ensures IsText(img, d, f, q + last) && carry == f[q..q + last] ==>
              var bytes := ReadingOf(img, d, false, BUFSIZE - last, []).bytes;
              var filled := last + |bytes|;
              && q + filled <= |f| && carry + bytes == f[q..q + filled]
              && (filled < BUFSIZE || bytes == [] ==> q + filled == |f|)
              && IsText(img, Advanced(img, d, BUFSIZE - last), f, q + filled)
  {
    var bytes := ReadingOf(img, d, false, BUFSIZE - last, []).bytes;
    TextReadIsNext(img, d, BUFSIZE - last, f, q + last);
    if q + last + |bytes| <= |f| {
      SlicesJoin(f, q, last, |bytes|);
    }
  }

  lemma SlicesJoin(f: seq<Byte>, q: nat, m: nat, n: nat)
    requires q + m + n <= |f|
    ensures f[q..q + m] + f[q + m..q + m + n] == f[q..q + (m + n)]
  {
  }

  /** A read brings the next bytes of a file. */
  lemma TextReadIsNext(img: seq<Byte>, d: Descriptor, n: nat, f: seq<Byte>, p: nat)
    requires Scanned(img, d) && d.kind == Regular && n > 0 && 2 * n < WORD
    ensures IsText(img, d, f, p) ==>
              var bytes := ReadingOf(img, d, false, n, []).bytes;
              && p + |bytes| <= |f| && bytes == f[p..p + |bytes|] && (|bytes| < n ==> p + |bytes| == |f|)
              && IsText(img, Advanced(img, d, n), f, p + |bytes|)
  {
  }

  /** A read into the buffer of a program brings the next name. */
  lemma NameReadIsNext(img: seq<Byte>, d: Descriptor, n: nat, ns: seq<seq<Byte>>)
    requires Scanned(img, d) && d.kind != Regular && n >= NAME_LENGTH && 2 * n < WORD
    ensures HasNames(img, d, ns) ==>
              var bytes := ReadingOf(img, d, false, n, []).bytes;
              && bytes == FirstName(ns) && (bytes == [] ==> ns == [])
              && (bytes != [] ==> HasNames(img, Advanced(img, d, n), OtherNames(ns)))
  {
    if d.kind == Directory {
      DirectoryReading(img, d, n);
      NextNames(img, d, ns, DirName(img, d.position));
    }
  }

  lemma DirectoryReading(img: seq<Byte>, d: Descriptor, n: nat)
    requires Scanned(img, d) && d.kind == Directory && n >= NAME_LENGTH && 2 * n < WORD
    ensures ReadingOf(img, d, false, n, []).bytes == DirName(img, d.position)
    ensures Advanced(img, d, n) == d.(position := d.position + 1)
  {
  }

  lemma NextNames(img: seq<Byte>, d: Descriptor, ns: seq<seq<Byte>>, name: seq<Byte>)
    requires DirEnds(img, d.position) && d.kind == Directory && name == DirName(img, d.position)
    ensures HasNames(img, d, ns) ==>
              && name == FirstName(ns) && (name == [] ==> ns == [])
              && (name != [] ==> HasNames(img, d.(position := d.position + 1), OtherNames(ns)))
  {
    var all := Listed(img, d.position);
    ListedNext(img, d.position);
  }

  lemma ListedNext(img: seq<Byte>, p: nat)
    requires DirEnds(img, p)
    ensures var name := DirName(img, p);
            && FirstName(Listed(img, p)) == name && (name == [] <==> Listed(img, p) == [])
            && (name != [] ==> DirEnds(img, p + 1) && OtherNames(Listed(img, p)) == Listed(img, p + 1))
  {
  }

  /** The loop of do_one_file over an open descriptor. */
  method ScanFile(files: FileTable, fd: int, s: seq<Byte>, fname: seq<Byte>, data: array<Byte>,
                  ghost good: bool, ghost total: seq<Byte>, ghost f: seq<Byte>, ghost ns0: seq<seq<Byte>>)
    returns (r: int, out: seq<Byte>)
    requires files.Valid() && FIRST_FILE <= fd < FD_COUNT && !files.desc[fd].free && Scanned(files.img, files.desc[fd])
    requires data.Length == BUFSIZE + 1 && data[BUFSIZE] != NEWLINE && Free(s, NUL)
    requires good ==> if files.desc[fd].kind == Regular
                      then IsText(files.img, files.desc[fd], f, 0) && Scanning(fname, s, total, [], f, 0)
                      else HasNames(files.img, files.desc[fd], ns0) && NamesLeft(fname, s, total, [], ns0)
    modifies data, files.desc
    ensures files.Valid() && r == 0 && data[BUFSIZE] != NEWLINE && (good ==> out == total)
    ensures forall i :: 0 <= i < FD_COUNT && i != fd ==> files.desc[i] == old(files.desc[i])
    ensures !files.desc[fd].free
  {
    ghost var text, names := good && files.desc[fd].kind == Regular, good && files.desc[fd].kind != Regular;
    ghost var q: nat, p: nat, ns := 0, 0, ns0;
    var last, cnt := 0, 1;
    out := [];
    while cnt != 0
      invariant files.Valid() && 0 <= last < BUFSIZE && data[BUFSIZE] != NEWLINE && !files.desc[fd].free
      invariant forall i :: 0 <= i < FD_COUNT && i != fd ==> files.desc[i] == old(files.desc[i])
      invariant cnt != 0 ==> Scanned(files.img, files.desc[fd])
      invariant p == q + last && (text ==> IsText(files.img, files.desc[fd], f, p) && data[..last] == f[q..p])
      invariant text ==> Scanning(fname, s, total, out, f, q)
      invariant names ==> last == 0 && NamesLeft(fname, s, total, out, ns)
      invariant names && cnt != 0 ==> HasNames(files.img, files.desc[fd], ns)
      invariant good && cnt == 0 ==> out == total
      decreases if cnt == 0 then 0 else ToRead(files.img, files.desc[fd]), cnt != 0
    {
      cnt := Refill(files, fd, data, last, f, q, p, ns);
      if -1 == cnt {
        return -1, out;
      }
      var filled := last + cnt;
      var printed;
      last, printed := Pass(fname, s, data, filled, cnt, text, names, f, q, ns, total, out);
      out, q, p, ns := out + printed, q + (filled - last), q + filled, OtherNames(ns);
    }
    return 0, out;
  }

  /** A pass over the buffer, for a text or for a name. */
  method Pass(fname: seq<Byte>, s: seq<Byte>, data: array<Byte>, filled: nat, cnt: nat,
              ghost text: bool, ghost names: bool, ghost f: seq<Byte>, ghost q: nat, ghost ns: seq<seq<Byte>>,
              ghost total: seq<Byte>, ghost before: seq<Byte>)
    returns (last: nat, out: seq<Byte>)
    requires data.Length == BUFSIZE + 1 && filled <= BUFSIZE && data[BUFSIZE] != NEWLINE && Free(s, NUL)
             && !(text && names)
    requires text ==> Scanning(fname, s, total, before, f, q)
                      && q + filled <= |f| && data[..filled] == f[q..q + filled]
                      && (filled < BUFSIZE || cnt == 0 ==> q + filled == |f|)
    requires names ==> NamesLeft(fname, s, total, before, ns)
    requires names ==> data[..filled] == FirstName(ns) && (cnt == 0 ==> ns == [])
    modifies data
    ensures last < BUFSIZE && last <= filled && data[BUFSIZE] != NEWLINE && (cnt == 0 ==> last == 0)
    ensures text ==> Scanning(fname, s, total, before + out, f, q + (filled - last))
    ensures text ==> data[..last] == f[q + (filled - last)..q + filled]
    ensures names ==> last == 0 && NamesLeft(fname, s, total, before + out, OtherNames(ns))
    ensures (text || names) && cnt == 0 ==> before + out == total
  {
    ghost var name := FirstName(ns);
    ghost var body, goal, at := f, total, q;
    if names {
      NameStarts(fname, s, total, before, ns);
      body, goal, at := name, before + Printed(fname, s, name), 0;
    }
    last, out := ScanBuffer(fname, s, data, filled, cnt, text || names, goal, before, body, at);
    if names {
      NameDone(fname, s, total, before, ns, out);
    }
    if text && cnt == 0 {
      TextDone(fname, s, total, before + out, f, q + (filled - last));
    }
  }

  lemma OpenedOwes(fname: seq<Byte>, s: seq<Byte>, img: seq<Byte>, e: nat, f: seq<Byte>, ns: seq<seq<Byte>>)
    requires WellFormed(img) && e < DirCount(img) && (EntryType(img, e) == 1 ==> DirEnds(img, 0))
    requires EntryType(img, e) == 2 ==> f == Contents(img, EntryInode(img, e))
    requires ns == if EntryType(img, e) == 1 then Listed(img, 0) else []
    ensures Scanned(img, Opened(img, e))
    ensures var d, total := Opened(img, e), OutputOf(fname, s, img, e);
            Exact(img, e) ==> if d.kind == Regular then IsText(img, d, f, 0) && Scanning(fname, s, total, [], f, 0)
                              else HasNames(img, d, ns) && NamesLeft(fname, s, total, [], ns)
  {
    if EntryType(img, e) == 2 {
      if Scannable(f) {
        TextStarts(fname, s, f);
      }
    } else {
      if EntryType(img, e) == 1 {
        ListedLineless(img, 0);
      }
      assert Matching([], s) == [];
      NamesStart(fname, s, ns);
    }
  }

  lemma TextStarts(fname: seq<Byte>, s: seq<Byte>, f: seq<Byte>)
    requires Scannable(f)
    ensures Scanning(fname, s, Printed(fname, s, f), [], f, 0)
  {
    assert f[0..] == f && [] + Printed(fname, s, f) == Printed(fname, s, f);
  }

  lemma NamesStart(fname: seq<Byte>, s: seq<Byte>, ns: seq<seq<Byte>>)
    ensures (forall i :: 0 <= i < |ns| ==> Lineless(ns[i])) ==> NamesLeft(fname, s, PrintedNames(fname, s, ns), [], ns)
  {
    assert [] + PrintedNames(fname, s, ns) == PrintedNames(fname, s, ns);
  }

  lemma {:induction false} ListedLineless(img: seq<Byte>, p: nat)
    requires DirEnds(img, p)
    ensures forall i :: 0 <= i < |Listed(img, p)| && Free(Listed(img, p)[i], NEWLINE) ==> Lineless(Listed(img, p)[i])
    decreases |img| - 64 * p
  {
    if DirName(img, p) != [] {
      ListedLineless(img, p + 1);
    }
  }

  /** do_one_file: prints the matching lines of one file. */
  method DoOneFile(files: FileTable, s: seq<Byte>, fname: seq<Byte>, data: array<Byte>) returns (r: int, out: seq<Byte>)
    requires files.Valid() && Free(s, NUL) && Free(fname, NUL)
    requires data.Length == BUFSIZE + 1 && data[BUFSIZE] != NEWLINE
    requires var e := Lookup(files.img, fname + [NUL]);
             e >= 0 && EntryType(files.img, e) == 1 ==> DirEnds(files.img, 0)
    modifies data, files.desc
    ensures files.Valid() && data[BUFSIZE] != NEWLINE
    ensures var e := Lookup(files.img, fname + [NUL]);
            if e < 0 || LeastFree(old(files.desc[..]), FIRST_FILE) < 0 then
              r == -1 && out == [] && files.desc[..] == old(files.desc[..])
            else
              r == 0 && (Exact(files.img, e) ==> out == OutputOf(fname, s, files.img, e))
    ensures forall i :: 0 <= i < FD_COUNT ==> files.desc[i].free == old(files.desc[i].free)
    ensures forall i :: 0 <= i < FD_COUNT && !old(files.desc[i].free) ==> files.desc[i] == old(files.desc[i])
  {
    assert (fname + [NUL])[..|fname|] == fname;
    CStringIs(fname + [NUL], |fname|);
    var fd := files.Open(fname + [NUL]);
    r, out := -1, [];
    if -1 != fd {
      r, out := ScanOpened(files, fd, s, fname, data, Lookup(files.img, fname + [NUL]));
      if r != -1 {
        assert files.desc[fd] == files.desc[..][fd];
        r := files.Close(fd);
      }
    }
    assert forall i :: 0 <= i < FD_COUNT ==> files.desc[i] == files.desc[..][i];
  }

  /** The loop of do_one_file over a descriptor just opened. */
  method ScanOpened(files: FileTable, fd: int, s: seq<Byte>, fname: seq<Byte>, data: array<Byte>, ghost e: int)
    returns (r: int, out: seq<Byte>)
    requires files.Valid() && Free(s, NUL) && data.Length == BUFSIZE + 1 && data[BUFSIZE] != NEWLINE
    requires FIRST_FILE <= fd < FD_COUNT && 0 <= e < DirCount(files.img)
    requires EntryType(files.img, e) == 1 ==> DirEnds(files.img, 0)
    requires files.desc[..][fd] == Opened(files.img, e)
    modifies data, files.desc
    ensures files.Valid() && data[BUFSIZE] != NEWLINE && !files.desc[fd].free
    ensures r == 0 && (Exact(files.img, e) ==> out == OutputOf(fname, s, files.img, e))
    ensures forall i :: 0 <= i < FD_COUNT && i != fd ==> files.desc[i] == old(files.desc[i])
  {
    ghost var img := files.img;
    ghost var f := if EntryType(img, e) == 2 then Contents(img, EntryInode(img, e)) else [];
    ghost var ns := if EntryType(img, e) == 1 then Listed(img, 0) else [];
    assert files.desc[fd] == files.desc[..][fd];
    OpenedOwes(fname, s, img, e, f, ns);
    r, out := ScanFile(files, fd, s, fname, data, Exact(img, e), OutputOf(fname, s, img, e), f, ns);
  }
}
