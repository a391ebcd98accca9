/** Facts about sequences that several modules need by name. */
module Sequences {
  lemma Regrouped<T>(a: seq<T>, b: seq<T>, c: seq<T>)
    ensures (a + b) + c == a + (b + c)
  {
  }

  lemma PrefixOfPrefix<T>(a: seq<T>, b: seq<T>, c: seq<T>)
    requires a <= b <= c
    ensures a <= c
  {
  }

  /** A list of which the first n elements are new and the others old, and one more made new. */
  lemma OneMoreNew<T>(news: seq<T>, olds: seq<T>, n: nat)
    requires |news| == |olds| && n < |olds|
    ensures (news[..n] + olds[n..])[n] == olds[n]
    ensures (news[..n] + olds[n..])[n := news[n]] == news[..n + 1] + olds[n + 1..]
  {
  }

  lemma SameShorterPrefix<T>(a: seq<T>, b: seq<T>, n: nat, m: nat)
    requires m <= n <= |a| && n <= |b| && a[..n] == b[..n]
    ensures a[..m] == b[..m]
  {
    assert a[..m] == a[..n][..m];
    assert b[..m] == b[..n][..m];
  }

  lemma SameShorterTail<T>(a: seq<T>, b: seq<T>, n: nat, m: nat)
    requires n <= m <= |a| && m <= |b| && a[n..] == b[n..]
    ensures a[m..] == b[m..]
  {
    assert a[m..] == a[n..][m - n..];
    assert b[m..] == b[n..][m - n..];
  }

  lemma OnePieceMore<T>(s: seq<T>, n: nat, m: nat)
    requires n + m <= |s|
    ensures s[..n] + s[n..n + m] == s[..n + m]
  {
  }
}
