/** Counting the threads of a state that satisfy a condition. */
module Counting {

  function Count<T>(s: seq<T>, f: T -> bool): nat {
    if s == [] then 0 else Count(s[..|s| - 1], f) + if f(s[|s| - 1]) then 1 else 0
  }

  /** One thread changes. */
  lemma {:induction false} CountUpdate<T>(s: seq<T>, i: nat, v: T, f: T -> bool)
    requires i < |s|
    ensures Count(s[i := v], f) == Count(s, f) - (if f(s[i]) then 1 else 0) + (if f(v) then 1 else 0)
  {
    var n := |s| - 1;
    if i < n {
      CountUpdate(s[..n], i, v, f);
      assert s[i := v][..n] == s[..n][i := v];
    } else {
      assert s[i := v][..n] == s[..n];
    }
  }

  /** Every thread keeps its answer. */
  lemma {:induction false} CountSame<T>(s: seq<T>, s': seq<T>, f: T -> bool)
    requires |s| == |s'| && forall i :: 0 <= i < |s| ==> f(s[i]) == f(s'[i])
    ensures Count(s, f) == Count(s', f)
  {
    if s != [] {
      CountSame(s[..|s| - 1], s'[..|s| - 1], f);
    }
  }

  lemma {:induction false} CountZero<T>(s: seq<T>, f: T -> bool)
    ensures Count(s, f) == 0 <==> forall i :: 0 <= i < |s| ==> !f(s[i])
  {
    if s != [] {
      CountZero(s[..|s| - 1], f);
      assert s == s[..|s| - 1] + [s[|s| - 1]];
    }
  }

  lemma {:induction false} CountSome<T>(s: seq<T>, i: nat, f: T -> bool)
    requires i < |s| && f(s[i])
    ensures Count(s, f) >= 1
  {
    CountZero(s, f);
  }

  /** At least two, when two different threads satisfy the condition. */
  lemma {:induction false} CountTwo<T>(s: seq<T>, i: nat, j: nat, f: T -> bool)
    requires i < j < |s| && f(s[i]) && f(s[j])
    ensures Count(s, f) >= 2
  {
    var n := |s| - 1;
    if j < n {
      CountTwo(s[..n], i, j, f);
    } else {
      CountSome(s[..n], i, f);
    }
  }

  lemma Find<T>(s: seq<T>, f: T -> bool) returns (i: nat)
    requires Count(s, f) > 0
    ensures i < |s| && f(s[i])
  {
    CountZero(s, f);
    i :| 0 <= i < |s| && f(s[i]);
  }

  /** A weight summed over all threads. */
  function Total<T>(s: seq<T>, f: T -> nat): nat {
    if s == [] then 0 else Total(s[..|s| - 1], f) + f(s[|s| - 1])
  }

  lemma {:induction false} TotalUpdate<T>(s: seq<T>, i: nat, v: T, f: T -> nat)
    requires i < |s|
    ensures Total(s[i := v], f) == Total(s, f) - f(s[i]) + f(v)
  {
    var n := |s| - 1;
    if i < n {
      TotalUpdate(s[..n], i, v, f);
      assert s[i := v][..n] == s[..n][i := v];
    } else {
      assert s[i := v][..n] == s[..n];
    }
  }

}
