/** How many processes are in one of some states. */
module Counting {
  function CountIn<T(==)>(s: seq<T>, xs: set<T>): nat {
    if s == [] then 0 else (if s[0] in xs then 1 else 0) + CountIn(s[1..], xs)
  }

  lemma {:induction false} CountUpdated<T>(s: seq<T>, i: nat, v: T, xs: set<T>)
    requires i < |s|
    ensures CountIn(s[i := v], xs) == CountIn(s, xs) - (if s[i] in xs then 1 else 0) + (if v in xs then 1 else 0)
  {
    if i > 0 {
      assert s[i := v][1..] == s[1..][i - 1 := v];
      CountUpdated(s[1..], i - 1, v, xs);
    } else {
      assert s[0 := v][1..] == s[1..];
    }
  }

  lemma {:induction false} CountNone<T>(s: seq<T>, xs: set<T>)
    ensures CountIn(s, xs) == 0 <==> forall i :: 0 <= i < |s| ==> s[i] !in xs
  {
    if s != [] {
      CountNone(s[1..], xs);
      assert forall i :: 1 <= i < |s| ==> s[i] == s[1..][i - 1];
      assert forall i :: 0 <= i < |s[1..]| ==> s[1..][i] == s[i + 1];
    }
  }

  /** One member counts at least one, two count at least two. */
  lemma CountMembers<T>(s: seq<T>, i: nat, j: nat, xs: set<T>)
    requires i < |s| && j < |s| && s[i] in xs && s[j] in xs
    ensures CountIn(s, xs) >= if i == j then 1 else 2
  {
    CountNone(s, xs);
    if i != j {
      CountOthers(s, i, j, xs);
    }
  }

  lemma {:induction false} CountOthers<T>(s: seq<T>, i: nat, j: nat, xs: set<T>)
    requires i < |s| && j < |s| && i != j && s[i] in xs && s[j] in xs
    ensures CountIn(s, xs) >= 2
  {
    if i > 0 && j > 0 {
      CountOthers(s[1..], i - 1, j - 1, xs);
    } else {
      CountNone(s[1..], xs);
      assert s[1..][i + j - 1] in xs;
    }
  }

  /** Members outside the counted states leave room. */
  lemma {:induction false} CountRoom<T>(s: seq<T>, i: nat, xs: set<T>)
    requires i < |s| && s[i] !in xs
    ensures CountIn(s, xs) <= |s| - 1
  {
    if i > 0 {
      CountRoom(s[1..], i - 1, xs);
    } else {
      CountBound(s[1..], xs);
    }
  }

  lemma {:induction false} CountBound<T>(s: seq<T>, xs: set<T>)
    ensures CountIn(s, xs) <= |s|
  {
    if s != [] {
      CountBound(s[1..], xs);
    }
  }
}
