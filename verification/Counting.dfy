/** Counting the entries of a sequence, and how a count moves when the sequence is updated. */
module Counting {
  /** How many entries of `s` are `x`. */
  function Count<T(==)>(s: seq<T>, x: T): nat {
    if s == [] then 0 else Count(s[..|s| - 1], x) + if s[|s| - 1] == x then 1 else 0
  }

  lemma {:induction false} CountMove<T>(s: seq<T>, i: nat, v: T, x: T)
    requires i < |s|
    ensures Count(s[i := v], x) + (if s[i] == x then 1 else 0) == Count(s, x) + if v == x then 1 else 0
  {
    var n := |s| - 1;
    if i == n {
      assert s[i := v][..n] == s[..n];
    } else {
      CountMove(s[..n], i, v, x);
      assert s[i := v][..n] == s[..n][i := v];
    }
  }

  lemma CountAppend<T>(s: seq<T>, v: T, x: T)
    ensures Count(s + [v], x) == Count(s, x) + if v == x then 1 else 0
  {
    assert (s + [v])[..|s|] == s;
  }

  lemma {:induction false} CountZero<T>(s: seq<T>, x: T)
    ensures Count(s, x) == 0 <==> x !in s
  {
    if s != [] {
      CountZero(s[..|s| - 1], x);
      assert s == s[..|s| - 1] + [s[|s| - 1]];
    }
  }
}
