/** Sequence helpers used by several modules: sums, counts, powers, distinctness. */
module Seqs {

  function Pow(b: int, n: nat): int
  {
    if n == 0 then 1 else b * Pow(b, n - 1)
  }

  lemma {:induction false} PowPositive(b: int, n: nat)
    requires b >= 1
    ensures Pow(b, n) >= 1
  {
    if n > 0 {
      PowPositive(b, n - 1);
      assert Pow(b, n) == b * Pow(b, n - 1);
    }
  }

  /** Sum of a sequence of reals, peeled from the back so that a left-to-right loop extends it. */
  function Sum(s: seq<real>): real
  {
    if s == [] then 0.0 else Sum(s[..|s| - 1]) + s[|s| - 1]
  }

  lemma {:induction false} SumUpdate(s: seq<real>, i: int, x: real)
    requires 0 <= i < |s|
    ensures Sum(s[i := x]) == Sum(s) - s[i] + x
  {
    var n := |s|;
    if i == n - 1 {
      assert s[i := x][..n - 1] == s[..n - 1];
    } else {
      assert s[i := x][..n - 1] == s[..n - 1][i := x];
      SumUpdate(s[..n - 1], i, x);
    }
  }

  lemma {:induction false} SumConstant(s: seq<real>, c: int)
    requires forall k :: 0 <= k < |s| ==> s[k] == c as real
    ensures Sum(s) == (|s| * c) as real
  {
    if s != [] {
      SumConstant(s[..|s| - 1], c);
      assert (|s| - 1) * c + c == |s| * c;
    }
  }

  lemma {:induction false} SumConcat(a: seq<real>, b: seq<real>)
    ensures Sum(a + b) == Sum(a) + Sum(b)
    decreases |b|
  {
    if b != [] {
      var c := a + b;
      assert c[..|c| - 1] == a + b[..|b| - 1];
      assert c[|c| - 1] == b[|b| - 1];
      SumConcat(a, b[..|b| - 1]);
      assert Sum(c) == Sum(c[..|c| - 1]) + c[|c| - 1];
      assert Sum(b) == Sum(b[..|b| - 1]) + b[|b| - 1];
    } else {
      assert a + b == a;
    }
  }

  lemma {:induction false} SumRemove(s: seq<real>, j: int)
    requires 0 <= j < |s|
    ensures Sum(s) == Sum(s[..j] + s[j + 1..]) + s[j]
  {
    var n := |s|;
    if j == n - 1 {
      assert s[..j] + s[j + 1..] == s[..n - 1];
    } else {
      var t := s[..j] + s[j + 1..];
      assert t[..|t| - 1] == s[..n - 1][..j] + s[..n - 1][j + 1..];
      assert t[|t| - 1] == s[n - 1];
      SumRemove(s[..n - 1], j);
    }
  }

  /** Summation does not depend on the order of the terms. */
  lemma {:induction false} SumOfPermutation(s: seq<real>, t: seq<real>)
    requires multiset(s) == multiset(t)
    ensures Sum(s) == Sum(t)
    decreases |s|
  {
    if s == [] {
      assert |t| == |multiset(t)| == 0;
    } else {
      var n := |s|;
      var x := s[n - 1];
      assert x in multiset(t);
      var j :| 0 <= j < |t| && t[j] == x;
      var t' := t[..j] + t[j + 1..];
      assert t == t[..j] + [t[j]] + t[j + 1..];
      assert s == s[..n - 1] + [x];
      assert multiset(t) == multiset(t[..j]) + multiset{x} + multiset(t[j + 1..]);
      assert multiset(t') == multiset(t[..j]) + multiset(t[j + 1..]);
      assert multiset(s) == multiset(s[..n - 1]) + multiset{x};
      assert multiset(s[..n - 1]) == multiset(s) - multiset{x};
      assert multiset(t') == multiset(t) - multiset{x};
      SumOfPermutation(s[..n - 1], t');
      SumRemove(t, j);
    }
  }

  /** n copies of x. */
  function Repeat<T>(x: T, n: nat): (r: seq<T>)
    ensures |r| == n && forall k :: 0 <= k < n ==> r[k] == x
  {
    seq(n, _ => x)
  }

  lemma RepeatSnoc<T>(x: T, n: nat)
    ensures Repeat(x, n) + [x] == Repeat(x, n + 1)
  {
    assert forall k :: 0 <= k < n + 1 ==> (Repeat(x, n) + [x])[k] == x;
  }

  predicate Distinct<T(==)>(s: seq<T>)
  {
    forall i, j :: 0 <= i < j < |s| ==> s[i] != s[j]
  }

  /** Number of occurrences of `x` in `s`. */
  function Count<T(==)>(s: seq<T>, x: T): nat
  {
    if s == [] then 0 else Count(s[..|s| - 1], x) + (if s[|s| - 1] == x then 1 else 0)
  }

  lemma {:induction false} CountMultiset<T>(s: seq<T>, x: T)
    ensures Count(s, x) == multiset(s)[x]
  {
    if s != [] {
      CountMultiset(s[..|s| - 1], x);
      assert s == s[..|s| - 1] + [s[|s| - 1]];
    }
  }

  lemma {:induction false} CountPositive<T>(s: seq<T>, x: T)
    ensures Count(s, x) > 0 <==> x in s
  {
    CountMultiset(s, x);
  }

  predicate StrictlyIncreasing(s: seq<real>)
  {
    forall i, j :: 0 <= i < j < |s| ==> s[i] < s[j]
  }

  lemma StrictlyIncreasingDistinct(s: seq<real>)
    requires StrictlyIncreasing(s)
    ensures Distinct(s)
  {
  }

  function Elements<T>(s: seq<T>): set<T>
  {
    set x | x in s
  }

  /** The integers 0, 1, ..., n-1 as a set. */
  function Range(n: nat): (r: set<int>)
    ensures forall k :: k in r <==> 0 <= k < n
    ensures |r| == n
  {
    if n == 0 then {} else Range(n - 1) + {n - 1}
  }

  lemma {:induction false} DistinctCardinality<T>(s: seq<T>)
    requires Distinct(s)
    ensures |Elements(s)| == |s|
  {
    if s != [] {
      var n := |s|;
      DistinctCardinality(s[..n - 1]);
      assert Elements(s) == Elements(s[..n - 1]) + {s[n - 1]};
      assert s[n - 1] !in Elements(s[..n - 1]);
    }
  }

  /** A repetition-free sequence of indices below n has at most n entries,
      and exactly n only when it lists every index. */
  lemma DistinctIndices(s: seq<int>, n: nat)
    requires Distinct(s)
    requires forall k :: 0 <= k < |s| ==> 0 <= s[k] < n
    ensures |s| <= n
    ensures |s| == n ==> forall j :: 0 <= j < n ==> j in s
  {
    var S := Elements(s);
    var R := Range(n);
    assert S <= R;
    DistinctCardinality(s);
    assert R == S + (R - S) && S * (R - S) == {};
    assert |R| == |S| + |R - S|;
    if |s| == n {
      assert S == R;
      forall j | 0 <= j < n ensures j in s {
        assert j in R;
      }
    }
  }

  /** Removing the entry at position i of a repetition-free sequence removes exactly that value. */
  lemma DistinctRemove<T>(s: seq<T>, i: int)
    requires Distinct(s) && 0 <= i < |s|
    ensures Distinct(s[..i] + s[i + 1..])
    ensures forall x :: x in s[..i] + s[i + 1..] <==> x in s && x != s[i]
  {
    var t := s[..i] + s[i + 1..];
    assert forall k :: 0 <= k < |t| ==> t[k] == if k < i then s[k] else s[k + 1];
    forall x ensures x in s && x != s[i] ==> x in t {
      if x in s && x != s[i] {
        var k :| 0 <= k < |s| && s[k] == x;
        assert k != i;
        if k < i { assert t[k] == x; } else { assert t[k - 1] == x; }
      }
    }
  }
}

/** Integer conversions of C++ that Dafny spells differently. */
module Numbers {

  /** static_cast<int> / int(x) of a double: truncation toward zero. */
  function Trunc(x: real): (r: int)
    ensures 0.0 <= x ==> r as real <= x < r as real + 1.0
    ensures x < 0.0 ==> r as real - 1.0 < x <= r as real
  {
    if x >= 0.0 then x.Floor else -((-x).Floor)
  }

  lemma TruncIntegral(k: int)
    ensures Trunc(k as real) == k
  {
  }

  /** How many iterations `for (int i = 0; i < x; ++i)` makes: the least n >= 0 with n >= x. */
  function LoopCount(x: real): (n: nat)
    ensures forall i: int {:trigger i as real} :: 0 <= i ==> (i as real < x <==> i < n)
  {
    if x <= 0.0 then 0 else -((-x).Floor)
  }

  /** The C++ remainder `a % b` for b > 0: it truncates toward zero, so a negative a gives a non-positive result. */
  function CppMod(a: int, b: int): (r: int)
    requires b > 0
    ensures a >= 0 ==> r == a % b
    ensures a < 0 ==> -b < r <= 0
    ensures -b < a < 0 ==> r == a
  {
    if a >= 0 then a % b else -((-a) % b)
  }
}
