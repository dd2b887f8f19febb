/** The enumeration of local tuples that the lattice and operator code obtain from
    netket::next_variation: starting from all zeros, every tuple of n digits in
    [0, base) exactly once. The operator code relies only on the properties of
    IsVariationOrder. The concrete order below (last digit fastest) is the one the
    lattice numbers its sites by; the only fact that depends on it is that a chain
    of one digit counts up, 0, 1, ..., base - 1, which any counting enumeration does. */
module Variations {
  import opened Seqs

  /** A tuple of n digits, each in [0, base). */
  predicate InBox(t: seq<int>, n: nat, base: nat)
  {
    |t| == n && forall k :: 0 <= k < n ==> 0 <= t[k] < base
  }

  function Zeros(n: nat): (z: seq<int>)
    ensures |z| == n && forall k :: 0 <= k < n ==> z[k] == 0
  {
    seq(n, _ => 0)
  }

  /** What the do/while over next_variation produces. */
  ghost predicate IsVariationOrder(e: seq<seq<int>>, n: nat, base: nat)
  {
    && |e| > 0 && e[0] == Zeros(n)
    && (forall k :: 0 <= k < |e| ==> InBox(e[k], n, base))
    && Distinct(e)
    && (forall t :: InBox(t, n, base) ==> t in e)
  }

  /** Every tuple of ts extended by one more digit in [0, base), tuple by tuple. */
  function Extend(ts: seq<seq<int>>, base: nat): (r: seq<seq<int>>)
  {
    if ts == [] then [] else Extend(ts[..|ts| - 1], base) + seq(base, d => ts[|ts| - 1] + [d])
  }

  /** One enumeration with the properties of IsVariationOrder: the last digit varies fastest. */
  function Tuples(n: nat, base: nat): seq<seq<int>>
  {
    if n == 0 then [[]] else Extend(Tuples(n - 1, base), base)
  }

  /** With one digit the enumeration counts up: [0], [1], ..., [base - 1]. */
  lemma TuplesOneDigit(base: nat)
    ensures Tuples(1, base) == seq(base, d => [d])
  {
    var ts: seq<seq<int>> := [[]];
    assert Tuples(1, base) == Extend(ts, base);
    assert ts[..0] == [] && ts[0] == [];
    assert Extend(ts, base) == seq(base, d => ts[0] + [d]);
    assert forall d :: 0 <= d < base ==> ts[0] + [d] == [d];
  }

  lemma {:induction false} ExtendLength(ts: seq<seq<int>>, base: nat)
    ensures |Extend(ts, base)| == |ts| * base
  {
    if ts != [] {
      ExtendLength(ts[..|ts| - 1], base);
      assert (|ts| - 1) * base + base == |ts| * base;
    }
  }

  lemma {:induction false} ExtendMembers(ts: seq<seq<int>>, base: nat, x: seq<int>)
    ensures x in Extend(ts, base) <==> |x| >= 1 && x[..|x| - 1] in ts && 0 <= x[|x| - 1] < base
  {
    if ts != [] {
      var ts' := ts[..|ts| - 1];
      var last := ts[|ts| - 1];
      var block := seq(base, d => last + [d]);
      ExtendMembers(ts', base, x);
      assert ts == ts' + [last];
      if |x| >= 1 && x[..|x| - 1] == last && 0 <= x[|x| - 1] < base {
        assert x == block[x[|x| - 1]];
      }
      if x in block {
        var d :| 0 <= d < base && block[d] == x;
        assert x[..|x| - 1] == last;
      }
    }
  }

  lemma DistinctConcat<T>(a: seq<T>, b: seq<T>)
    requires Distinct(a) && Distinct(b)
    requires forall x :: x in a ==> x !in b
    ensures Distinct(a + b)
  {
    var c := a + b;
    forall i, j | 0 <= i < j < |c| ensures c[i] != c[j] {
      if i < |a| && j >= |a| {
        assert c[i] in a && c[j] in b;
      }
    }
  }

  lemma {:induction false} ExtendDistinct(ts: seq<seq<int>>, base: nat)
    requires Distinct(ts)
    ensures Distinct(Extend(ts, base))
  {
    if ts != [] {
      var ts' := ts[..|ts| - 1];
      var last := ts[|ts| - 1];
      var block := seq(base, d => last + [d]);
      ExtendDistinct(ts', base);
      forall i, j | 0 <= i < j < |block| ensures block[i] != block[j] {
        assert block[i][|last|] != block[j][|last|];
      }
      assert last !in ts';
      forall x | x in Extend(ts', base) ensures x !in block {
        ExtendMembers(ts', base, x);
        forall d | 0 <= d < base ensures block[d] != x {
          assert block[d][..|block[d]| - 1] == last;
        }
      }
      DistinctConcat(Extend(ts', base), block);
    }
  }

  lemma {:induction false} ExtendFirst(ts: seq<seq<int>>, base: nat)
    requires |ts| > 0 && base >= 1
    ensures |Extend(ts, base)| > 0 && Extend(ts, base)[0] == ts[0] + [0]
  {
    ExtendLength(ts, base);
    if |ts| > 1 {
      ExtendFirst(ts[..|ts| - 1], base);
    }
  }

  lemma {:induction false} TuplesIsVariationOrder(n: nat, base: nat)
    requires base >= 1
    ensures IsVariationOrder(Tuples(n, base), n, base)
    ensures |Tuples(n, base)| == Pow(base, n)
  {
    var e := Tuples(n, base);
    if n == 0 {
      forall t | InBox(t, n, base) ensures t in e {
        assert t == [];
      }
    } else {
      var e' := Tuples(n - 1, base);
      TuplesIsVariationOrder(n - 1, base);
      ExtendLength(e', base);
      ExtendDistinct(e', base);
      ExtendFirst(e', base);
      assert Zeros(n - 1) + [0] == Zeros(n);
      ExtendInBox(e', n, base);
      ExtendCovers(e', n, base);
      PowStep(base, n, |e'|);
    }
  }

  lemma PowStep(base: nat, n: nat, m: int)
    requires n >= 1 && m == Pow(base, n - 1)
    ensures m * base == Pow(base, n)
  {
  }

  /** Extending tuples of n - 1 digits in [0, base) gives tuples of n such digits. */
  lemma ExtendInBox(ts: seq<seq<int>>, n: nat, base: nat)
    requires n >= 1 && forall k :: 0 <= k < |ts| ==> InBox(ts[k], n - 1, base)
    ensures forall k :: 0 <= k < |Extend(ts, base)| ==> InBox(Extend(ts, base)[k], n, base)
  {
    var e := Extend(ts, base);
    forall k | 0 <= k < |e| ensures InBox(e[k], n, base) {
      ExtendMembers(ts, base, e[k]);
      var p := e[k][..n - 1];
      var j :| 0 <= j < |ts| && ts[j] == p;
      assert e[k] == p + [e[k][n - 1]];
    }
  }

  /** Extending all tuples of n - 1 digits gives all tuples of n digits. */
  lemma ExtendCovers(ts: seq<seq<int>>, n: nat, base: nat)
    requires n >= 1 && forall t :: InBox(t, n - 1, base) ==> t in ts
    ensures forall t :: InBox(t, n, base) ==> t in Extend(ts, base)
  {
    forall t | InBox(t, n, base) ensures t in Extend(ts, base) {
      ExtendMembers(ts, base, t);
      assert InBox(t[..n - 1], n - 1, base);
    }
  }

  /** Any such enumeration has exactly base^n entries. */
  lemma VariationCount(e: seq<seq<int>>, n: nat, base: nat)
    requires base >= 1 && IsVariationOrder(e, n, base)
    ensures |e| == Pow(base, n)
  {
    var t := Tuples(n, base);
    TuplesIsVariationOrder(n, base);
    assert Elements(e) == Elements(t);
    DistinctCardinality(e);
    DistinctCardinality(t);
  }
}
