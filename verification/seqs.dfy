/** Counting, filtering and summing over sequences, with the facts that turn
    "the count is at least one / two" into "there is one / there are two
    distinct positions". The validators' "exactly one match" rules are stated
    through these. */
module Seqs {

  /** The number of elements of `s` that satisfy `f`. */
  function Count<T>(s: seq<T>, f: T -> bool): nat
  {
    if |s| == 0 then 0 else (if f(s[0]) then 1 else 0) + Count(s[1..], f)
  }

  /** The elements of `s` that satisfy `f`, in order. */
  function Filter<T>(s: seq<T>, f: T -> bool): (r: seq<T>)
    ensures |r| == Count(s, f)
    ensures forall k :: 0 <= k < |r| ==> r[k] in s && f(r[k])
    ensures forall i :: 0 <= i < |s| && f(s[i]) ==> s[i] in r
  {
    if |s| == 0 then []
    else
      var rest := Filter(s[1..], f);
      assert forall i :: 0 < i < |s| ==> s[i] == s[1..][i - 1];
      (if f(s[0]) then [s[0]] else []) + rest
  }

  lemma {:induction false} CountPositive<T>(s: seq<T>, f: T -> bool)
    ensures Count(s, f) >= 1 <==> exists i :: 0 <= i < |s| && f(s[i])
  {
    if |s| > 0 {
      CountPositive(s[1..], f);
      if exists i :: 0 <= i < |s| && f(s[i]) {
        var i :| 0 <= i < |s| && f(s[i]);
        if i > 0 {
          assert f(s[1..][i - 1]);
        }
      }
      if exists i :: 0 <= i < |s[1..]| && f(s[1..][i]) {
        var i :| 0 <= i < |s[1..]| && f(s[1..][i]);
        assert f(s[i + 1]);
      }
    }
  }

  lemma {:induction false} CountAtLeastTwo<T>(s: seq<T>, f: T -> bool)
    ensures Count(s, f) >= 2 <==> exists i, j :: 0 <= i < j < |s| && f(s[i]) && f(s[j])
  {
    if |s| > 0 {
      var rest := s[1..];
      CountPositive(rest, f);
      CountAtLeastTwo(rest, f);
      if exists i, j :: 0 <= i < j < |s| && f(s[i]) && f(s[j]) {
        var i, j :| 0 <= i < j < |s| && f(s[i]) && f(s[j]);
        assert f(rest[j - 1]);
        if i > 0 {
          assert f(rest[i - 1]);
        }
      }
      if f(s[0]) && exists j :: 0 <= j < |rest| && f(rest[j]) {
        var j :| 0 <= j < |rest| && f(rest[j]);
        assert f(s[0]) && f(s[j + 1]);
      }
      if exists i, j :: 0 <= i < j < |rest| && f(rest[i]) && f(rest[j]) {
        var i, j :| 0 <= i < j < |rest| && f(rest[i]) && f(rest[j]);
        assert f(s[i + 1]) && f(s[j + 1]);
      }
    }
  }

  /** Two sequences whose elements agree position by position on their
      predicates have the same count. */
  lemma {:induction false} CountCorresponding<T, U>(s: seq<T>, f: T -> bool, u: seq<U>, g: U -> bool)
    requires |s| == |u|
    requires forall i :: 0 <= i < |s| ==> f(s[i]) == g(u[i])
    ensures Count(s, f) == Count(u, g)
  {
    if |s| > 0 {
      assert forall i :: 0 <= i < |s| - 1 ==> s[1..][i] == s[i + 1] && u[1..][i] == u[i + 1];
      CountCorresponding(s[1..], f, u[1..], g);
    }
  }

  /** Filtering by two predicates that agree on every element gives the
      same sequence. */
  lemma {:induction false} FilterAgreeing<T>(s: seq<T>, f: T -> bool, g: T -> bool)
    requires forall i :: 0 <= i < |s| ==> f(s[i]) == g(s[i])
    ensures Filter(s, f) == Filter(s, g)
  {
    if |s| > 0 {
      assert forall i :: 0 <= i < |s| - 1 ==> s[1..][i] == s[i + 1];
      FilterAgreeing(s[1..], f, g);
    }
  }

  /** Exactly one element satisfies `f`. */
  lemma CountOne<T>(s: seq<T>, f: T -> bool)
    ensures Count(s, f) == 1 <==>
      (exists i :: 0 <= i < |s| && f(s[i])) &&
      !(exists i, j :: 0 <= i < j < |s| && f(s[i]) && f(s[j]))
  {
    CountPositive(s, f);
    CountAtLeastTwo(s, f);
  }

  function Sum(xs: seq<nat>): nat
  {
    if |xs| == 0 then 0 else xs[0] + Sum(xs[1..])
  }

  lemma {:induction false} SumPositive(xs: seq<nat>)
    ensures Sum(xs) >= 1 <==> exists i :: 0 <= i < |xs| && xs[i] >= 1
  {
    if |xs| > 0 {
      SumPositive(xs[1..]);
      if exists i :: 0 <= i < |xs| && xs[i] >= 1 {
        var i :| 0 <= i < |xs| && xs[i] >= 1;
        if i > 0 {
          assert xs[1..][i - 1] >= 1;
        }
      }
      if exists i :: 0 <= i < |xs[1..]| && xs[1..][i] >= 1 {
        var i :| 0 <= i < |xs[1..]| && xs[1..][i] >= 1;
        assert xs[i + 1] >= 1;
      }
    }
  }

  /** A sum of naturals is at least any one of its terms. */
  lemma {:induction false} SumAtLeastTerm(xs: seq<nat>, i: int)
    requires 0 <= i < |xs|
    ensures Sum(xs) >= xs[i]
  {
    if i > 0 {
      SumAtLeastTerm(xs[1..], i - 1);
    }
  }

  /** ... and at least any two distinct terms together. */
  lemma {:induction false} SumAtLeastPair(xs: seq<nat>, i: int, j: int)
    requires 0 <= i < j < |xs|
    ensures Sum(xs) >= xs[i] + xs[j]
  {
    if i == 0 {
      SumAtLeastTerm(xs[1..], j - 1);
    } else {
      SumAtLeastPair(xs[1..], i - 1, j - 1);
    }
  }

  /** A sum of naturals exceeds one exactly when one term does, or two
      distinct terms are positive. */
  lemma {:induction false} SumAtLeastTwo(xs: seq<nat>)
    ensures Sum(xs) >= 2 <==>
      (exists i :: 0 <= i < |xs| && xs[i] >= 2) ||
      (exists i, j :: 0 <= i < j < |xs| && xs[i] >= 1 && xs[j] >= 1)
  {
    if |xs| > 0 {
      var rest := xs[1..];
      SumPositive(rest);
      SumAtLeastTwo(rest);
      if exists i :: 0 <= i < |xs| && xs[i] >= 2 {
        var i :| 0 <= i < |xs| && xs[i] >= 2;
        if i > 0 {
          assert rest[i - 1] >= 2;
        }
      }
      if exists i, j :: 0 <= i < j < |xs| && xs[i] >= 1 && xs[j] >= 1 {
        var i, j :| 0 <= i < j < |xs| && xs[i] >= 1 && xs[j] >= 1;
        assert rest[j - 1] >= 1;
        if i > 0 {
          assert rest[i - 1] >= 1;
        }
      }
      if exists i :: 0 <= i < |rest| && rest[i] >= 2 {
        var i :| 0 <= i < |rest| && rest[i] >= 2;
        assert xs[i + 1] >= 2;
      }
      if exists i, j :: 0 <= i < j < |rest| && rest[i] >= 1 && rest[j] >= 1 {
        var i, j :| 0 <= i < j < |rest| && rest[i] >= 1 && rest[j] >= 1;
        assert xs[i + 1] >= 1 && xs[j + 1] >= 1;
      }
      if xs[0] >= 1 && exists j :: 0 <= j < |rest| && rest[j] >= 1 {
        var j :| 0 <= j < |rest| && rest[j] >= 1;
        assert xs[j + 1] >= 1;
      }
    }
  }
}
