/** Stock facts about sequences. */
module Sequences {
  lemma Regroup<T>(a: seq<T>, b: seq<T>, c: seq<T>)
    ensures a + (b + c) == (a + b) + c && a + [] == a && b + [] == b
  {
  }

  lemma FourJoin<T>(a: seq<T>, b: seq<T>, c: seq<T>, d: seq<T>)
    ensures a + b + c + d == a + (b + (c + d))
  {
  }

  lemma Behind<T>(x: T, s: seq<T>)
    ensures ([x] + s)[1..] == s && ([x] + s)[0] == x
  {
  }

  lemma FirstAndRest<T>(s: seq<T>)
    requires s != []
    ensures s == [s[0]] + s[1..]
  {
  }

  lemma HeadAndTail<T>(a: seq<T>, b: seq<T>)
    requires a != [] && b != []
    ensures var s := a + b; s[..|a|] == a && s[|a| + 1..] == b[1..] && s[0] == a[0] && s[0..] == s
  {
  }

  lemma NothingAhead<T>(s: seq<T>)
    ensures [] + s == s && s + [] == s
  {
  }

  lemma SumSlices<T>(a: seq<T>, b: seq<T>, n: nat)
    requires n < |a|
    ensures (a + b)[..n] == a[..n] && (a + b)[n] == a[n] && (a + b)[n + 1..] == a[n + 1..] + b
  {
  }

  /** n elements handed over from the front of rest to the end of done. */
  lemma HandedOver<T>(done: seq<T>, rest: seq<T>, n: nat)
    requires n <= |rest|
    ensures done + rest == (done + rest[..n]) + rest[n..]
  {
    assert rest == rest[..n] + rest[n..];
  }

  lemma TakenTwice<T>(s: seq<T>, a: nat, b: nat)
    requires a <= b <= |s|
    ensures s[..b] == s[..a] + s[a..b]
  {
  }

  lemma PrefixGrows<T>(s: seq<T>, n: nat)
    requires n < |s|
    ensures s[..n] + [s[n]] == s[..n + 1]
  {
  }

  lemma BehindCut<T>(s: seq<T>, a: nat, k: nat)
    requires a <= k < |s|
    ensures s[k] == s[a..][k - a]
  {
  }
}
