/** Bytes and the NUL-terminated strings made of them. */
module Bytes {
  import opened Machine

  type Byte = b: int | 0 <= b < 256

  const NUL: Byte := 0
  const NEWLINE: Byte := 10
  const RETURN: Byte := 13
  const SPACE: Byte := 32

  ghost predicate Free(s: seq<Byte>, b: Byte) {
    forall i :: 0 <= i < |s| ==> s[i] != b
  }

  /** The C string at the start of s: what comes before the first NUL, or all of s. */
  function CString(s: seq<Byte>): (r: seq<Byte>)
    ensures |r| <= |s| && r == s[..|r|]
    ensures Free(r, NUL)
    ensures |r| < |s| ==> s[|r|] == NUL
  {
    if s == [] || s[0] == NUL then [] else [s[0]] + CString(s[1..])
  }

  lemma {:induction false} CStringIs(s: seq<Byte>, n: nat)
    requires n <= |s| && Free(s[..n], NUL)
    requires n < |s| ==> s[n] == NUL
    ensures CString(s) == s[..n]
  {
    if n > 0 {
      assert s[..n][0] == s[0] && s[1..][..n - 1] == s[..n][1..];
      CStringIs(s[1..], n - 1);
    }
  }

  /** n copies of b. */
  function Fill(n: nat, b: Byte): (r: seq<Byte>)
    ensures |r| == n && forall i :: 0 <= i < n ==> r[i] == b
  {
    seq(n, _ => b)
  }

  /** s followed by NULs up to n bytes. */
  function Padded(s: seq<Byte>, n: nat): (r: seq<Byte>)
    requires |s| <= n
    ensures |r| == n
  {
    s + Fill(n - |s|, NUL)
  }

  /** s without its NULs. */
  function NonNul(s: seq<Byte>): seq<Byte> {
    if s == [] then []
    else if s[|s| - 1] == NUL then NonNul(s[..|s| - 1])
    else NonNul(s[..|s| - 1]) + [s[|s| - 1]]
  }

  lemma {:induction false} NonNulJoins(a: seq<Byte>, b: seq<Byte>)
    ensures NonNul(a + b) == NonNul(a) + NonNul(b) && NonNul([0]) == []
    ensures |b| == 1 && b[0] != 0 ==> NonNul(b) == b
  {
    assert [NUL][..0] == [];
    if b == [] {
      assert a + b == a;
    } else {
      var n := |b| - 1;
      NonNulJoins(a, b[..n]);
      assert (a + b)[..|a + b| - 1] == a + b[..n];
      assert n == 0 ==> b[..n] == [] && b == [b[0]];
    }
  }

  function Min(a: int, b: int): int {
    if a <= b then a else b
  }

  /** The 32-bit little-endian word at address a. */
  function Word(m: seq<Byte>, a: nat): (w: nat)
    requires a + 4 <= |m|
    ensures w < 0x1_0000_0000
  {
    (m[a] as int) + 0x100 * (m[a + 1] as int) + 0x1_0000 * (m[a + 2] as int) + 0x100_0000 * (m[a + 3] as int)
  }

  /** The string that a comparison of at most n bytes sees at the start of s. */
  function Seen(s: seq<Byte>, n: nat): (r: seq<Byte>)
    ensures |r| <= n && |r| <= |s| && r == s[..|r|] && Free(r, NUL)
    ensures |r| < n && |r| < |s| ==> s[|r|] == NUL
  {
    CString(s[..Min(n, |s|)])
  }

  /** A comparison of n bytes stays inside s. */
  ghost predicate Readable(s: seq<Byte>, n: nat) {
    |s| >= n || |CString(s)| < |s|
  }

  /** A byte read through a signed char. */
  function Signed(b: Byte): (r: int) {
    if b < 128 then b else b - 256
  }

  /** An int32 as a uint32 comparison or parameter takes it. */
  function Unsigned(n: int): int {
    if n < 0 then n + WORD else n
  }

  /** strncmp of the kernel's library: zero exactly when the two strings agree. */
  method Strncmp(s1: seq<Byte>, s2: seq<Byte>, n: nat) returns (r: int)
    requires Readable(s1, n) && Readable(s2, n)
    ensures r == 0 <==> Seen(s1, n) == Seen(s2, n)
  {
    ghost var a, b := Seen(s1, n), Seen(s2, n);
    for i := 0 to n
      invariant i <= |s1| && i <= |s2| && s1[..i] == s2[..i]
      invariant i <= |a| && i <= |b|
    {
      SeenBounds(s1, n, i);
      SeenBounds(s2, n, i);
      if s1[i] != s2[i] || s1[i] == NUL {
        assert |a| > i ==> a[i] == s1[i];
        assert |b| > i ==> b[i] == s2[i];
        return Signed(s1[i]) - Signed(s2[i]);
      }
    }
    return 0;
  }

  lemma SeenBounds(s: seq<Byte>, n: nat, i: nat)
    requires Readable(s, n) && i < n && i <= |Seen(s, n)|
    ensures i < |s| && (i < |Seen(s, n)| <==> s[i] != NUL)
  {
    var a := Seen(s, n);
    if |s| < n {
      assert s[..Min(n, |s|)] == s;
    }
    if i < |a| {
      assert a[i] == s[i];
    }
  }
}
