/** itoa, strrev and the %#x conversion of printf. */
module Numerals {
  import opened Arithmetic
  import opened Bytes

  const ZERO: Byte := 48

  // ----- numerals -----

  function DigitChar(d: nat): Byte
    requires d < 36
  {
    if d < 10 then 48 + d else 55 + d
  }

  function DigitValue(b: Byte): nat {
    if 48 <= b <= 57 then b - 48 else if 65 <= b <= 90 then b - 55 else 36
  }

  /** The digits of v from the lowest up, as the conversion loop produces them. */
  function LowFirst(v: nat, radix: nat): seq<Byte>
    requires 2 <= radix <= 36
  {
    if v == 0 then [] else [DigitChar(v % radix)] + LowFirst(v / radix, radix)
  }

  function Reversed(s: seq<Byte>): (r: seq<Byte>)
    ensures |r| == |s| && forall i :: 0 <= i < |s| ==> r[i] == s[|s| - 1 - i]
  {
    seq(|s|, i requires 0 <= i < |s| => s[|s| - 1 - i])
  }

  function Numeral(v: nat, radix: nat): seq<Byte>
    requires 2 <= radix <= 36
  {
    if v == 0 then [ZERO] else Reversed(LowFirst(v, radix))
  }

  /** What a string of digits stands for, highest first. */
  function Value(s: seq<Byte>, radix: nat): nat {
    if s == [] then 0 else Value(s[..|s| - 1], radix) * radix + DigitValue(s[|s| - 1])
  }

  /** The numerals a reader expects: digits below the radix, no leading zero but for zero itself. */
  ghost predicate Canonical(s: seq<Byte>, radix: nat) {
    && s != []
    && (forall i :: 0 <= i < |s| ==> DigitValue(s[i]) < radix)
    && (s[0] == ZERO ==> s == [ZERO])
  }

  function Pow(b: nat, n: nat): nat {
    if n == 0 then 1 else Pow(b, n - 1) * b
  }

  lemma ReversedCons(d: Byte, s: seq<Byte>)
    ensures Reversed([d] + s) == Reversed(s) + [d]
  {
  }

  lemma ValueNext(s: seq<Byte>, d: Byte, radix: nat)
    ensures Value(s + [d], radix) == Value(s, radix) * radix + DigitValue(d)
  {
    assert (s + [d])[..|s|] == s;
  }

  lemma DigitRead(d: nat)
    requires d < 36
    ensures DigitValue(DigitChar(d)) == d && DigitChar(d) != NUL && (DigitChar(d) == ZERO <==> d == 0)
  {
  }

  /** The digits are 0 to 9 and then A to Z. */
  lemma DigitsAre(d: nat)
    requires d < 36
    ensures DigitChar(d) as char == if d < 10 then '0' + d as char else 'A' + (d - 10) as char
  {
  }

  lemma LowFirstNext(v: nat, radix: nat) returns (q: nat, d: nat)
    requires 2 <= radix <= 36 && v > 0
    ensures d < radix && v == q * radix + d && q < v && LowFirst(v, radix) == [DigitChar(d)] + LowFirst(q, radix)
  {
    q, d := v / radix, v % radix;
    DivModIdentity(v, radix);
    DivSmaller(v, radix);
    DigitRead(d);
  }

  lemma {:induction false} LowFirstValue(v: nat, radix: nat)
    requires 2 <= radix <= 36
    ensures Value(Reversed(LowFirst(v, radix)), radix) == v
    decreases v
  {
    if v > 0 {
      var q, d := LowFirstNext(v, radix);
      LowFirstValue(q, radix);
      ReversedCons(DigitChar(d), LowFirst(q, radix));
      ValueNext(Reversed(LowFirst(q, radix)), DigitChar(d), radix);
      DigitRead(d);
    }
  }

  lemma {:induction false} LowFirstDigits(v: nat, radix: nat)
    requires 2 <= radix <= 36
    ensures forall i :: 0 <= i < |LowFirst(v, radix)| ==> DigitValue(LowFirst(v, radix)[i]) < radix
    ensures v > 0 ==> var s := LowFirst(v, radix); s != [] && s[|s| - 1] != ZERO
    decreases v
  {
    if v > 0 {
      var q, d := LowFirstNext(v, radix);
      LowFirstDigits(q, radix);
      DigitRead(d);
    }
  }

  /** itoa's numeral evaluates to the value and is canonical. */
  lemma NumeralIsCanonical(v: nat, radix: nat)
    requires 2 <= radix <= 36
    ensures Value(Numeral(v, radix), radix) == v && Canonical(Numeral(v, radix), radix)
  {
    LowFirstValue(v, radix);
    LowFirstDigits(v, radix);
    if v == 0 {
      assert [ZERO][..0] == [];
    }
  }

  lemma {:induction false} CanonicalPositive(s: seq<Byte>, radix: nat)
    requires 2 <= radix <= 36 && Canonical(s, radix) && s[0] != ZERO
    ensures Value(s, radix) > 0
  {
    if |s| > 1 {
      CanonicalPositive(s[..|s| - 1], radix);
      MulAtLeast(Value(s[..|s| - 1], radix), radix);
    } else {
      assert s[..0] == [];
    }
  }

  lemma NumeralNext(h: nat, d: nat, radix: nat)
    requires 2 <= radix <= 36 && d < radix && h > 0
    ensures h * radix + d > 0 && Numeral(h * radix + d, radix) == Numeral(h, radix) + [DigitChar(d)]
  {
    MulAtLeast(h, radix);
    DivModUnique(h * radix + d, radix, h, d);
    ReversedCons(DigitChar(d), LowFirst(h, radix));
  }

  lemma NumeralDigit(d: nat, radix: nat)
    requires 2 <= radix <= 36 && d < radix
    ensures Numeral(d, radix) == [DigitChar(d)]
  {
    if d > 0 {
      DivModUnique(d, radix, 0, d);
      assert LowFirst(d, radix) == [DigitChar(d)];
      ReversedCons(DigitChar(d), []);
    }
  }

  lemma LastDigit(s: seq<Byte>, radix: nat)
    requires 2 <= radix <= 36 && Canonical(s, radix) && |s| > 1
    requires var high := s[..|s| - 1]; high == Numeral(Value(high, radix), radix)
    ensures s == Numeral(Value(s, radix), radix)
  {
    var n := |s| - 1;
    var high, b := s[..n], s[n];
    assert s == high + [b] && b == DigitChar(DigitValue(b));
    CanonicalPositive(high, radix);
    NumeralNext(Value(high, radix), DigitValue(b), radix);
  }

  lemma OnlyDigit(s: seq<Byte>, radix: nat)
    requires 2 <= radix <= 36 && Canonical(s, radix) && |s| == 1
    ensures s == Numeral(Value(s, radix), radix)
  {
    NumeralDigit(DigitValue(s[0]), radix);
    assert s[..0] == [] && s == [s[0]];
  }

  lemma CanonicalPrefix(s: seq<Byte>, radix: nat)
    requires Canonical(s, radix) && |s| > 1
    ensures Canonical(s[..|s| - 1], radix) && s[0] != ZERO
  {
  }

  /** It is the only canonical numeral of its value. */
  lemma {:induction false} CanonicalUnique(s: seq<Byte>, radix: nat)
    requires 2 <= radix <= 36 && Canonical(s, radix)
    ensures s == Numeral(Value(s, radix), radix)
  {
    if |s| > 1 {
      CanonicalPrefix(s, radix);
      CanonicalUnique(s[..|s| - 1], radix);
      LastDigit(s, radix);
    } else {
      OnlyDigit(s, radix);
    }
  }

  lemma PowStep(q: nat, d: nat, radix: nat, n: nat)
    requires radix >= 2 && 0 < q * radix + d < Pow(radix, n)
    ensures n > 0 && q < Pow(radix, n - 1)
  {
    if n > 0 && q >= Pow(radix, n - 1) {
      MulMonotone(Pow(radix, n - 1), q, radix);
    }
  }

  /** A value below radix^n has at most n digits. */
  lemma {:induction false} NumeralLength(v: nat, radix: nat, n: nat)
    requires 2 <= radix <= 36 && v < Pow(radix, n)
    ensures |LowFirst(v, radix)| <= n
    decreases v
  {
    if v > 0 {
      var q, d := LowFirstNext(v, radix);
      PowStep(q, d, radix, n);
      NumeralLength(q, radix, n - 1);
    }
  }

  // ----- the library -----

  /** The string of n bytes at buf[at]. */
  ghost predicate StringAt(buf: seq<Byte>, at: nat, n: nat) {
    at + n < |buf| && Free(buf[at..at + n], NUL) && buf[at + n] == NUL
  }

  method Strlen(buf: array<Byte>, at: nat, ghost n: nat) returns (len: nat)
    requires StringAt(buf[..], at, n)
    ensures len == n
  {
    len := 0;
    while buf[at + len] != NUL
      invariant len <= n
      decreases n - len
    {
      len := len + 1;
    }
  }

  /** The outer k bytes on each side exchanged. */
  function Swapped(s: seq<Byte>, k: int): (r: seq<Byte>)
    ensures |r| == |s|
  {
    seq(|s|, (i: int) requires 0 <= i < |s| => if i < k || i >= |s| - k then s[|s| - 1 - i] else s[i])
  }

  lemma SwapNext(s: seq<Byte>, k: int)
    requires 0 <= k < |s| - 1 - k
    ensures var e, t := |s| - 1 - k, Swapped(s, k);
            t[k] == s[k] && t[e] == s[e] && Swapped(s, k + 1) == t[k := s[e]][e := s[k]]
  {
  }

  /** strrev: reverses in place the string that starts at buf[at]. */
  method Strrev(buf: array<Byte>, at: nat, ghost n: nat)
    requires StringAt(buf[..], at, n)
    modifies buf
    ensures buf[at..at + n] == Reversed(old(buf[at..at + n]))
    ensures buf[..at] == old(buf[..at]) && buf[at + n..] == old(buf[at + n..])
  {
    ghost var was := buf[at..at + n];
    var len: int := Strlen(buf, at, n);
    var beg: int, end: int := 0, len - 1;
    assert Swapped(was, 0) == was;
    while beg < end
      invariant 0 <= beg <= n && end == n - 1 - beg && beg <= end + 1 + (if n == 0 then 1 else 0)
      invariant buf[at..at + n] == Swapped(was, beg)
      invariant buf[..at] == old(buf[..at]) && buf[at + n..] == old(buf[at + n..])
    {
      SwapNext(was, beg);
      assert buf[at + beg] == buf[at..at + n][beg] && buf[at + end] == buf[at..at + n][end];
      buf[at + end], buf[at + beg] := buf[at + beg], buf[at + end];
      beg, end := beg + 1, end - 1;
    }
    assert Swapped(was, beg) == Reversed(was);
  }

  /** One round of the conversion loop of itoa. */
  method PutDigit(rest: nat, buf: array<Byte>, at: nat, p: nat, radix: nat) returns (rest': nat)
    requires 2 <= radix <= 36 && rest > 0 && at <= p < buf.Length
    modifies buf
    ensures rest' < rest && buf[at..p + 1] + LowFirst(rest', radix) == old(buf[at..p]) + LowFirst(rest, radix)
    ensures buf[..at] == old(buf[..at]) && buf[p + 1..] == old(buf[p + 1..])
  {
    DivSmaller(rest, radix);
    ghost var done := buf[at..p];
    buf[p] := DigitChar(rest % radix);
    assert buf[at..p + 1] == done + [DigitChar(rest % radix)];
    rest' := rest / radix;
  }

  /** The conversion loop of itoa: the digits, lowest first. */
  method WriteDigits(value: nat, buf: array<Byte>, at: nat, radix: nat, ghost digits: seq<Byte>) returns (p: nat)
    requires 2 <= radix <= 36 && digits == LowFirst(value, radix) && at + |digits| < buf.Length
    modifies buf
    ensures p == at + |digits| && buf[at..p] == digits
    ensures buf[..at] == old(buf[..at]) && buf[p..] == old(buf[p..])
  {
    p := at;
    var rest: nat := value;
    while rest > 0
      invariant at <= p <= at + |digits|
      invariant buf[at..p] + LowFirst(rest, radix) == digits
      invariant buf[..at] == old(buf[..at]) && buf[p..] == old(buf[p..])
      decreases rest
    {
      assert LowFirst(rest, radix) != [];
      rest := PutDigit(rest, buf, at, p, radix);
      p := p + 1;
    }
  }

  method ConvertPositive(value: nat, buf: array<Byte>, at: nat, radix: nat, ghost digits: seq<Byte>)
    requires 2 <= radix <= 36 && digits == LowFirst(value, radix) && Free(digits, NUL) && at + |digits| < buf.Length
    modifies buf
    ensures var n := |digits|;
            && buf[at..at + n] == Reversed(digits) && buf[at + n] == NUL
            && buf[..at] == old(buf[..at]) && buf[at + n + 1..] == old(buf[at + n + 1..])
  {
    var p := WriteDigits(value, buf, at, radix, digits);
    assert buf[p + 1..] == buf[p..][1..];
    Finish(buf, at, p);
  }

  /** itoa: writes the canonical numeral of value, NUL-terminated, at buf[at]. */
  method Itoa(value: nat, buf: array<Byte>, at: nat, radix: nat)
    requires 2 <= radix <= 36 && at + |Numeral(value, radix)| < buf.Length
    modifies buf
    ensures var n := |Numeral(value, radix)|;
            && buf[at..at + n] == Numeral(value, radix) && buf[at + n] == NUL
            && buf[..at] == old(buf[..at]) && buf[at + n + 1..] == old(buf[at + n + 1..])
  {
    if value == 0 {
      buf[at] := ZERO;
      buf[at + 1] := NUL;
      assert buf[at..at + 1] == [ZERO];
      return;
    }
    ghost var digits := LowFirst(value, radix);
    DigitsFree(value, radix);
    assert Numeral(value, radix) == Reversed(digits);
    ConvertPositive(value, buf, at, radix, digits);
  }

  /** The end of itoa: terminates the digits and reverses them. */
  method Finish(buf: array<Byte>, at: nat, p: nat)
    requires at <= p < buf.Length && Free(buf[at..p], NUL)
    modifies buf
    ensures buf[at..p] == Reversed(old(buf[at..p])) && buf[p] == NUL
    ensures buf[..at] == old(buf[..at]) && buf[p + 1..] == old(buf[p + 1..])
  {
    buf[p] := NUL;
    assert buf[at..p] == old(buf[at..p]) == buf[..][at..p];
    Strrev(buf, at, p - at);
    assert buf[p] == buf[p..][0] && buf[p + 1..] == buf[p..][1..];
  }

  lemma DivSmaller(v: nat, radix: nat)
    requires v > 0 && radix >= 2
    ensures v / radix < v
  {
    DivModIdentity(v, radix);
  }

  lemma {:induction false} DigitsFree(v: nat, radix: nat)
    requires 2 <= radix <= 36
    ensures Free(LowFirst(v, radix), NUL) && Free(Numeral(v, radix), NUL)
    decreases v
  {
    if v > 0 {
      var q, d := LowFirstNext(v, radix);
      DigitRead(d);
      DigitsFree(q, radix);
    }
  }

  /** The %#x branch of printf: conv[shown..] is printed up to its NUL. */
  method ConvertHex(value: nat, conv: array<Byte>) returns (shown: nat)
    requires value < 0x1_0000_0000 && conv.Length == 64
    modifies conv
    ensures shown + 8 < 64 && conv[shown + 8] == NUL
    ensures conv[shown..shown + 8] == Padded8(value)
  {
    ghost var digits := Numeral(value, 16);
    HexFits(value);
    Itoa(value, conv, 8, 16);
    DigitsFree(value, 16);
    shown := PadZeros(conv, digits);
  }

  /** The zeros before the digits at conv[8]. */
  method PadZeros(conv: array<Byte>, ghost digits: seq<Byte>) returns (shown: nat)
    requires conv.Length == 64 && 1 <= |digits| <= 8 && Free(digits, NUL)
    requires conv[8..8 + |digits|] == digits && conv[8 + |digits|] == NUL
    modifies conv
    ensures shown == |digits| && conv[shown + 8] == NUL && conv[shown..shown + 8] == Fill(8 - shown, ZERO) + digits
  {
    ghost var n := |digits|;
    assert conv[..][8..8 + n] == conv[8..8 + n];
    shown := Strlen(conv, 8, n);
    var i := shown;
    while i < 8
      invariant n <= i <= 8 && conv[n..i] == Fill(i - n, ZERO)
      invariant conv[8..8 + n] == digits && conv[8 + n] == NUL
    {
      conv[i] := ZERO;
      i := i + 1;
    }
    assert conv[n..n + 8] == conv[n..8] + conv[8..8 + n];
  }

  /** Eight hexadecimal digits of a 32-bit value. */
  function Padded8(v: nat): seq<Byte> {
    var s := Numeral(v, 16);
    if |s| <= 8 then Fill(8 - |s|, ZERO) + s else s
  }

  lemma HexFits(v: nat)
    requires v < 0x1_0000_0000
    ensures 1 <= |Numeral(v, 16)| <= 8
  {
    assert Pow(16, 4) == 0x1_0000;
    assert Pow(16, 8) == 0x1_0000_0000;
    NumeralLength(v, 16, 8);
    NumeralIsCanonical(v, 16);
  }

  /** %#x prints exactly eight hexadecimal digits, and they stand for the value. */
  lemma Padded8Value(v: nat)
    requires v < 0x1_0000_0000
    ensures |Padded8(v)| == 8 && Value(Padded8(v), 16) == v
    ensures forall i :: 0 <= i < 8 ==> DigitValue(Padded8(v)[i]) < 16
  {
    HexFits(v);
    NumeralIsCanonical(v, 16);
    ZeroPadded(8 - |Numeral(v, 16)|, Numeral(v, 16), 16);
  }

  lemma ZeroPadded(k: nat, s: seq<Byte>, radix: nat)
    requires radix >= 2 && Canonical(s, radix)
    ensures var t := Fill(k, ZERO) + s;
            Value(t, radix) == Value(s, radix) && forall i :: 0 <= i < |t| ==> DigitValue(t[i]) < radix
  {
    LeadingZeros(k, s, radix);
  }

  lemma {:induction false} LeadingZeros(k: nat, s: seq<Byte>, radix: nat)
    ensures Value(Fill(k, ZERO) + s, radix) == Value(s, radix)
  {
    var t := Fill(k, ZERO) + s;
    if s != [] {
      LeadingZeros(k, s[..|s| - 1], radix);
      assert t[..|t| - 1] == Fill(k, ZERO) + s[..|s| - 1];
    } else if k > 0 {
      LeadingZeros(k - 1, s, radix);
      assert t[..|t| - 1] == Fill(k - 1, ZERO) + s;
    } else {
      assert t == s;
    }
  }

  lemma {:induction false} PowMonotone(a: nat, b: nat, n: nat)
    requires a <= b
    ensures Pow(a, n) <= Pow(b, n)
  {
    if n > 0 {
      PowMonotone(a, b, n - 1);
      MulMonotone(Pow(a, n - 1), Pow(b, n - 1), a);
      MulMonotone(a, b, Pow(b, n - 1));
    }
  }

  /** No numeral of a 32-bit value is longer than 32 digits. */
  lemma NumeralFits(v: nat, radix: nat)
    requires v < 0x1_0000_0000 && 2 <= radix <= 36
    ensures |Numeral(v, radix)| <= 32
  {
    assert Pow(2, 8) == 0x100;
    assert Pow(2, 16) == 0x1_0000;
    assert Pow(2, 24) == 0x100_0000;
    assert Pow(2, 32) == 0x1_0000_0000;
    PowMonotone(2, radix, 32);
    NumeralLength(v, radix, 32);
  }
}
