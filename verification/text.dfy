/** String operations the validators and the exception constructors rely on:
    digit tests, dash removal, Python's code-point ordering of strings with
    `sorted(set(...))`, `str.join`/`str.split` and `str.replace`. */
module Text {

  predicate IsDigit(c: char) {
    '0' <= c <= '9'
  }

  /** Python's `str.isdigit`, restricted to the ASCII digits: non-empty and
      made only of digits. */
  predicate IsDigits(s: string) {
    |s| > 0 && forall i :: 0 <= i < |s| ==> IsDigit(s[i])
  }

  // ---------------------------------------------------------------------
  // Removing one character everywhere (`re.sub(r"-", "", s)`)
  // ---------------------------------------------------------------------

  /** `s` with every occurrence of `c` deleted, the other characters kept in
      order. */
  function RemoveChar(s: string, c: char): (r: string)
    ensures c !in r
    ensures |r| <= |s|
    ensures forall x :: x in r ==> x in s
    ensures forall x :: x != c ==> multiset(r)[x] == multiset(s)[x]
  {
    if |s| == 0 then ""
    else
      assert s == [s[0]] + s[1..];
      if s[0] == c then RemoveChar(s[1..], c) else [s[0]] + RemoveChar(s[1..], c)
  }

  /** A string without `c` is left as it is. */
  lemma {:induction false} RemoveCharAbsent(s: string, c: char)
    requires c !in s
    ensures RemoveChar(s, c) == s
  {
    if |s| > 0 {
      assert s[0] != c;
      assert c !in s[1..];
      RemoveCharAbsent(s[1..], c);
      assert s == [s[0]] + s[1..];
    }
  }

  /** Removing `c` changes the string exactly when `c` occurs in it. */
  lemma RemoveCharChanges(s: string, c: char)
    ensures RemoveChar(s, c) == s <==> c !in s
  {
    if c !in s {
      RemoveCharAbsent(s, c);
    }
  }

  /** Removing twice is removing once. */
  lemma RemoveCharIdempotent(s: string, c: char)
    ensures RemoveChar(RemoveChar(s, c), c) == RemoveChar(s, c)
  {
    RemoveCharAbsent(RemoveChar(s, c), c);
  }

  /** Removal distributes over concatenation, so it keeps the order of the
      surviving characters. */
  lemma {:induction false} RemoveCharAppend(a: string, b: string, c: char)
    ensures RemoveChar(a + b, c) == RemoveChar(a, c) + RemoveChar(b, c)
  {
    if |a| > 0 {
      assert (a + b)[0] == a[0];
      assert (a + b)[1..] == a[1..] + b;
      RemoveCharAppend(a[1..], b, c);
    } else {
      assert a + b == b;
    }
  }

  // ---------------------------------------------------------------------
  // Python's string ordering and `sorted(set(xs))`
  // ---------------------------------------------------------------------

  /** Lexicographic order by code point, as Python compares `str` values. */
  predicate Less(a: string, b: string)
    decreases |a|
  {
    if |a| == 0 then |b| > 0
    else |b| > 0 && (a[0] < b[0] || (a[0] == b[0] && Less(a[1..], b[1..])))
  }

  lemma {:induction false} LessIrreflexive(a: string)
    ensures !Less(a, a)
  {
    if |a| > 0 {
      LessIrreflexive(a[1..]);
    }
  }

  lemma {:induction false} LessTransitive(a: string, b: string, c: string)
    requires Less(a, b) && Less(b, c)
    ensures Less(a, c)
  {
    if |a| > 0 && a[0] == b[0] && b[0] == c[0] {
      LessTransitive(a[1..], b[1..], c[1..]);
    }
  }

  lemma {:induction false} LessTotal(a: string, b: string)
    requires a != b
    ensures Less(a, b) || Less(b, a)
  {
    if |a| > 0 && |b| > 0 && a[0] == b[0] {
      assert a == [a[0]] + a[1..];
      assert b == [b[0]] + b[1..];
      LessTotal(a[1..], b[1..]);
    }
  }

  predicate StrictlySorted(s: seq<string>) {
    forall i, j :: 0 <= i < j < |s| ==> Less(s[i], s[j])
  }

  /** Everything after the head of a strictly sorted sequence is above any
      string below the head. */
  lemma AboveHead(x: string, s: seq<string>)
    requires StrictlySorted(s) && |s| > 0 && Less(x, s[0])
    ensures forall j :: 0 <= j < |s| ==> Less(x, s[j])
  {
    forall j | 0 < j < |s|
      ensures Less(x, s[j])
    {
      LessTransitive(x, s[0], s[j]);
    }
  }

  /** Insert `x` into a strictly sorted sequence, keeping it duplicate-free. */
  function Insert(x: string, s: seq<string>): (r: seq<string>)
    requires StrictlySorted(s)
    ensures StrictlySorted(r)
    ensures forall y :: y in r <==> y in s || y == x
  {
    if |s| == 0 then [x]
    else if x == s[0] then s
    else if Less(x, s[0]) then
      AboveHead(x, s);
      [x] + s
    else
      LessTotal(x, s[0]);
      var rest := Insert(x, s[1..]);
      assert forall y :: y in rest ==> Less(s[0], y) by {
        forall y | y in rest
          ensures Less(s[0], y)
        {
          if y != x {
            var k :| 0 <= k < |s[1..]| && s[1..][k] == y;
            assert s[k + 1] == y;
          }
        }
      }
      [s[0]] + rest
  }

  /** `sorted(set(xs))`: the distinct elements of `xs` in ascending order. */
  function SortedUnique(xs: seq<string>): (r: seq<string>)
    ensures StrictlySorted(r)
    ensures forall y :: y in r <==> y in xs
  {
    if |xs| == 0 then []
    else
      var rest := SortedUnique(xs[1..]);
      assert forall y :: y in xs <==> y == xs[0] || y in xs[1..] by {
        assert xs == [xs[0]] + xs[1..];
      }
      Insert(xs[0], rest)
  }

  lemma NonEmptyHasHead(s: seq<string>)
    ensures |s| > 0 ==> s[0] in s
  {
  }

  /** A strictly sorted sequence is determined by its elements. */
  lemma {:induction false} SortedCanonical(a: seq<string>, b: seq<string>)
    requires StrictlySorted(a) && StrictlySorted(b)
    requires forall y :: y in a <==> y in b
    ensures a == b
  {
    NonEmptyHasHead(a);
    NonEmptyHasHead(b);
    if |a| > 0 {
      assert a[0] in b;
      if a[0] != b[0] {
        assert b[0] in a;
        var i :| 0 <= i < |a| && a[i] == b[0];
        var j :| 0 <= j < |b| && b[j] == a[0];
        assert Less(a[0], b[0]);
        assert Less(b[0], a[0]);
        LessTransitive(a[0], b[0], a[0]);
        LessIrreflexive(a[0]);
        assert false;
      }
      forall y
        ensures y in a[1..] <==> y in b[1..]
      {
        if y in a[1..] {
          var i :| 0 <= i < |a[1..]| && a[1..][i] == y;
          assert Less(a[0], a[i + 1]);
          LessIrreflexive(y);
          assert y in b && y != b[0];
          var k :| 0 <= k < |b| && b[k] == y;
          assert k > 0;
          assert b[1..][k - 1] == y;
        }
        if y in b[1..] {
          var i :| 0 <= i < |b[1..]| && b[1..][i] == y;
          assert Less(b[0], b[i + 1]);
          LessIrreflexive(y);
          assert y in a && y != a[0];
          var k :| 0 <= k < |a| && a[k] == y;
          assert k > 0;
          assert a[1..][k - 1] == y;
        }
      }
      SortedCanonical(a[1..], b[1..]);
      assert a == [a[0]] + a[1..];
      assert b == [b[0]] + b[1..];
    }
  }

  /** `sorted(set(xs))` depends only on which strings occur in `xs`: neither
      their order nor their repetitions matter. */
  lemma SortedUniqueDependsOnElements(xs: seq<string>, ys: seq<string>)
    requires forall y :: y in xs <==> y in ys
    ensures SortedUnique(xs) == SortedUnique(ys)
  {
    SortedCanonical(SortedUnique(xs), SortedUnique(ys));
  }

  // ---------------------------------------------------------------------
  // `sep.join(parts)` and its inverse `s.split(d)`
  // ---------------------------------------------------------------------

  function Join(parts: seq<string>, sep: string): string
  {
    if |parts| == 0 then ""
    else if |parts| == 1 then parts[0]
    else parts[0] + sep + Join(parts[1..], sep)
  }

  /** Python's `s.split(d)` for a one-character separator. */
  function Split(s: string, d: char): (r: seq<string>)
    ensures |r| > 0
    ensures forall i :: 0 <= i < |r| ==> d !in r[i]
  {
    if |s| == 0 then [""]
    else
      var rest := Split(s[1..], d);
      if s[0] == d then [""] + rest
      else [[s[0]] + rest[0]] + rest[1..]
  }

  lemma {:induction false} SplitWithoutSeparator(a: string, d: char)
    requires d !in a
    ensures Split(a, d) == [a]
  {
    if |a| > 0 {
      assert d !in a[1..];
      SplitWithoutSeparator(a[1..], d);
      assert a == [a[0]] + a[1..];
    }
  }

  lemma {:induction false} SplitAtSeparator(a: string, t: string, d: char)
    requires d !in a
    ensures Split(a + [d] + t, d) == [a] + Split(t, d)
  {
    var s := a + [d] + t;
    if |a| == 0 {
      assert s[0] == d;
      assert s[1..] == t;
    } else {
      assert s[0] == a[0];
      assert s[1..] == a[1..] + [d] + t;
      assert d !in a[1..];
      SplitAtSeparator(a[1..], t, d);
      assert a == [a[0]] + a[1..];
    }
  }

  /** Joining with a one-character separator that no part contains and
      splitting on it again gives the parts back. */
  lemma {:induction false} SplitJoin(parts: seq<string>, d: char)
    requires |parts| > 0
    requires forall i :: 0 <= i < |parts| ==> d !in parts[i]
    ensures Split(Join(parts, [d]), d) == parts
  {
    if |parts| == 1 {
      SplitWithoutSeparator(parts[0], d);
    } else {
      SplitJoin(parts[1..], d);
      SplitAtSeparator(parts[0], Join(parts[1..], [d]), d);
      assert parts == [parts[0]] + parts[1..];
    }
  }

  // ---------------------------------------------------------------------
  // `s.replace(target, replacement)`
  // ---------------------------------------------------------------------

  predicate OccursAt(s: string, pat: string, i: int) {
    0 <= i && i + |pat| <= |s| && s[i..i + |pat|] == pat
  }

  predicate Contains(s: string, pat: string) {
    exists i | 0 <= i <= |s| :: OccursAt(s, pat, i)
  }

  /** Python's `str.replace`: scanning left to right, every non-overlapping
      occurrence of `target` is replaced by `replacement`. */
  function ReplaceAll(s: string, target: string, replacement: string): string
    requires |target| > 0
    decreases |s|
  {
    if |s| < |target| then s
    else if s[..|target|] == target then replacement + ReplaceAll(s[|target|..], target, replacement)
    else [s[0]] + ReplaceAll(s[1..], target, replacement)
  }

  /** Replacing a string by itself changes nothing. */
  lemma {:induction false} ReplaceBySelf(s: string, target: string)
    requires |target| > 0
    ensures ReplaceAll(s, target, target) == s
    decreases |s|
  {
    if |s| >= |target| {
      if s[..|target|] == target {
        ReplaceBySelf(s[|target|..], target);
        assert s == s[..|target|] + s[|target|..];
      } else {
        ReplaceBySelf(s[1..], target);
        assert s == [s[0]] + s[1..];
      }
    }
  }

  /** A string that does not contain `target` is left as it is. */
  lemma {:induction false} ReplaceAbsent(s: string, target: string, replacement: string)
    requires |target| > 0
    requires !Contains(s, target)
    ensures ReplaceAll(s, target, replacement) == s
    decreases |s|
  {
    if |s| >= |target| {
      assert !OccursAt(s, target, 0);
      assert s[..|target|] != target;
      assert !Contains(s[1..], target) by {
        forall i | OccursAt(s[1..], target, i)
          ensures false
        {
          assert s[1..][i..i + |target|] == s[i + 1..i + 1 + |target|];
          assert OccursAt(s, target, i + 1);
        }
      }
      ReplaceAbsent(s[1..], target, replacement);
      assert s == [s[0]] + s[1..];
    }
  }

  /** The leftmost occurrence is replaced and the scan resumes after it:
      with no occurrence of `target` starting inside `a`, replacing in
      `a + target + b` keeps `a`, replaces that occurrence and goes on in
      `b`. With `ReplaceAbsent` this pins down the scan completely. */
  lemma {:induction false} ReplaceFirst(a: string, target: string, replacement: string, b: string)
    requires |target| > 0
    requires forall i :: 0 <= i < |a| ==> !OccursAt(a + target, target, i)
    ensures ReplaceAll(a + target + b, target, replacement) == a + replacement + ReplaceAll(b, target, replacement)
    decreases |a|
  {
    var s := a + target + b;
    if |a| == 0 {
      assert s == target + b;
      assert s[..|target|] == target && s[|target|..] == b;
    } else {
      assert !OccursAt(a + target, target, 0);
      ConcatenationShape(a, target, b);
      ReplaceStep(s, target, replacement);
      NoOccurrenceInTail(a, target);
      ReplaceFirst(a[1..], target, replacement, b);
      var rest := replacement + ReplaceAll(b, target, replacement);
      assert a[1..] + replacement + ReplaceAll(b, target, replacement) == a[1..] + rest;
      ConsConcatenation(a, rest);
      assert a + rest == a + replacement + ReplaceAll(b, target, replacement);
    }
  }

  lemma ConsConcatenation(a: string, x: string)
    requires |a| > 0
    ensures [a[0]] + (a[1..] + x) == a + x
  {
  }

  lemma ConcatenationShape(a: string, target: string, b: string)
    requires |a| > 0
    ensures |a + target + b| >= |target|
    ensures (a + target + b)[..|target|] == (a + target)[..|target|]
    ensures (a + target + b)[0] == a[0] && (a + target + b)[1..] == a[1..] + target + b
  {
  }

  /** Where `target` does not start, the scan keeps one character and moves
      on. */
  lemma ReplaceStep(s: string, target: string, replacement: string)
    requires |target| > 0 && |s| >= |target| && s[..|target|] != target
    ensures ReplaceAll(s, target, replacement) == [s[0]] + ReplaceAll(s[1..], target, replacement)
  {
  }

  /** Dropping the first character of `a` keeps `target` from starting
      inside it. */
  lemma NoOccurrenceInTail(a: string, target: string)
    requires |a| > 0
    requires forall i :: 0 <= i < |a| ==> !OccursAt(a + target, target, i)
    ensures forall i :: 0 <= i < |a[1..]| ==> !OccursAt(a[1..] + target, target, i)
  {
    assert a[1..] + target == (a + target)[1..];
    forall i | 0 <= i < |a[1..]|
      ensures !OccursAt(a[1..] + target, target, i)
    {
      assert (a[1..] + target)[i..i + |target|] == (a + target)[i + 1..i + 1 + |target|];
      assert !OccursAt(a + target, target, i + 1);
    }
  }

  /** The first position of `c` in `t`. */
  function FirstIndexOf(t: string, c: char): (p: nat)
    requires c in t
    ensures p < |t| && t[p] == c
    ensures forall q :: 0 <= q < p ==> t[q] != c
  {
    if t[0] == c then 0 else 1 + FirstIndexOf(t[1..], c)
  }

  /** A `target` holding a character that `a` lacks cannot start inside
      `a`: that character would have to fall in `a`, or earlier in `target`
      than its first occurrence. */
  lemma NoOccurrenceBefore(a: string, target: string, c: char)
    requires c !in a && c in target
    ensures forall i :: 0 <= i < |a| ==> !OccursAt(a + target, target, i)
  {
    var p := FirstIndexOf(target, c);
    forall i | 0 <= i < |a|
      ensures !OccursAt(a + target, target, i)
    {
      assert (a + target)[i + p] != c;
      assert i + |target| <= |a + target| ==> (a + target)[i..i + |target|][p] == (a + target)[i + p];
    }
  }

  /** A string whose first character cannot start `target` keeps that
      character in front of the replacement of the rest. */
  lemma ReplaceKeepsHead(s: string, target: string, replacement: string)
    requires |target| > 0 && |s| > 0 && s[0] != target[0]
    ensures ReplaceAll(s, target, replacement) == [s[0]] + ReplaceAll(s[1..], target, replacement)
  {
    if |s| < |target| {
      assert s == [s[0]] + s[1..];
    } else {
      assert s[..|target|][0] == s[0];
    }
  }

  /** A prefix none of whose characters can start `target` is kept as it is
      in front of the replacement of the rest. */
  lemma {:induction false} ReplaceKeepsPrefix(p: string, s: string, target: string, replacement: string)
    requires |target| > 0 && target[0] !in p
    ensures ReplaceAll(p + s, target, replacement) == p + ReplaceAll(s, target, replacement)
  {
    if p == [] {
      assert p + s == s;
    } else {
      assert (p + s)[0] == p[0] && (p + s)[1..] == p[1..] + s;
      ReplaceKeepsHead(p + s, target, replacement);
      ReplaceKeepsPrefix(p[1..], s, target, replacement);
      assert p == [p[0]] + p[1..];
    }
  }

  /** A string occurring in `m` occurs in anything built around `m`. */
  lemma ContainsWithin(a: string, m: string, b: string, x: string)
    requires Contains(m, x)
    ensures Contains(a + m + b, x)
  {
    var i :| 0 <= i <= |m| && OccursAt(m, x, i);
    assert (a + m + b)[|a| + i..|a| + i + |x|] == m[i..i + |x|];
    assert OccursAt(a + m + b, x, |a| + i);
  }

  lemma ContainsSelf(x: string)
    ensures Contains(x, x)
  {
    assert x[0..|x|] == x;
    assert OccursAt(x, x, 0);
  }

  /** Each part of a join appears in it. */
  lemma {:induction false} JoinContains(parts: seq<string>, sep: string, k: int)
    requires 0 <= k < |parts|
    ensures Contains(Join(parts, sep), parts[k])
    decreases |parts|
  {
    ContainsSelf(parts[k]);
    if |parts| == 1 {
    } else if k == 0 {
      ContainsWithin("", parts[0], sep + Join(parts[1..], sep), parts[0]);
      assert "" + parts[0] + (sep + Join(parts[1..], sep)) == Join(parts, sep);
    } else {
      JoinContains(parts[1..], sep, k - 1);
      ContainsWithin(parts[0] + sep, Join(parts[1..], sep), "", parts[k]);
      assert parts[0] + sep + Join(parts[1..], sep) + "" == Join(parts, sep);
    }
  }
}
