/** Hilbert space of integer or half-integer spins (class netket::Spin).
    Local quantum numbers are stored as twice the Sz eigenvalue, so spin S has
    the 2S+1 values -2S, -2S+2, ..., 2S. A configuration is a caller-owned
    buffer of one double per site. */
module Spins {
  import opened Wrappers
  import opened Seqs
  import opened Numbers
  import Random
  import Configurations

  // Error messages.
  const InvalidSpin := "Invalid spin value"
  const NotHalfInteger := "Spin value is neither integer nor half integer"
  const MagnetizationTooLarge := "Cannot fix the total magnetization: 2|M| cannot exceed Nspins."
  const MagnetizationParity := "Cannot fix the total magnetization: Nspins + totalSz must be even."

  /** floor(2S), the number of local states minus one. */
  function TwoS(S: real): int
  {
    (2.0 * S).Floor
  }

  /** The two checks of Spin::Init: S > 0 and 2S integral. */
  predicate IsSpinValue(S: real)
  {
    S > 0.0 && TwoS(S) as real == 2.0 * S
  }

  /** The table Init builds: -2S, -2S+2, ..., 2S. */
  function SpinLocalStates(twoS: nat): (r: seq<real>)
    ensures |r| == twoS + 1
    ensures r[0] == -(twoS as real) && r[twoS] == twoS as real
    ensures forall k :: 0 <= k < twoS ==> r[k + 1] == r[k] + 2.0
    ensures StrictlyIncreasing(r)
  {
    seq(twoS + 1, k => (2 * k - twoS) as real)
  }

  /** The S = 1/2 constrained fill before shuffling: nup entries +1 followed by ndown entries -1. */
  function UpDownFill(nup: nat, ndown: nat): seq<real>
  {
    seq(nup, _ => 1.0) + seq(ndown, _ => -1.0)
  }

  lemma UpDownFillCounts(nup: nat, ndown: nat)
    ensures multiset(UpDownFill(nup, ndown))[1.0] == nup
    ensures multiset(UpDownFill(nup, ndown))[-1.0] == ndown
    ensures Sum(UpDownFill(nup, ndown)) == (nup - ndown) as real
  {
    var f := UpDownFill(nup, ndown);
    var ups, downs := seq(nup, _ => 1.0), seq(ndown, _ => -1.0);
    ConstantMultiset(ups, 1.0);
    ConstantMultiset(downs, -1.0);
    assert multiset(f) == multiset(ups) + multiset(downs);
    SumConstant(ups, 1);
    SumConstant(downs, -1);
    SumConcat(ups, downs);
  }

  lemma {:induction false} ConstantMultiset(s: seq<real>, c: real)
    requires forall k :: 0 <= k < |s| ==> s[k] == c
    ensures multiset(s)[c] == |s|
    ensures forall x :: x != c ==> multiset(s)[x] == 0
  {
    if s != [] {
      ConstantMultiset(s[..|s| - 1], c);
      assert s == s[..|s| - 1] + [c];
    }
  }

  /** With every site at level[k] increments of 2 above -2S and no site above 2S,
      a sum below the all-maximal sum leaves some site below the maximum. */
  lemma {:induction false} SomeSiteBelowMax(state: seq<real>, level: seq<int>, twoS: int)
    requires |level| == |state|
    requires forall k :: 0 <= k < |state| ==> level[k] <= twoS && state[k] == (2 * level[k] - twoS) as real
    requires Sum(state) < (|state| * twoS) as real
    ensures exists k :: 0 <= k < |state| && level[k] < twoS
  {
    var n := |state| - 1;
    if level[n] < twoS {
      assert 0 <= n < |state| && level[n] < twoS;
    } else {
      assert (n + 1) * twoS == n * twoS + twoS;
      SomeSiteBelowMax(state[..n], level[..n], twoS);
      var k :| 0 <= k < n && level[..n][k] < twoS;
      assert level[k] < twoS;
    }
  }

  /** What the pool loop of the larger-S branch keeps: site k sits level[k] increments
      above -2S, and the pool lists without repetition exactly the sites below 2S. */
  ghost predicate PoolInv(st: seq<real>, level: seq<int>, sites: seq<int>, twoS: int)
  {
    && |level| == |st|
    && (forall k :: 0 <= k < |st| ==> 0 <= level[k] <= twoS && st[k] == (2 * level[k] - twoS) as real)
    && Distinct(sites)
    && (forall k :: 0 <= k < |sites| ==> 0 <= sites[k] < |st|)
    && (forall k :: 0 <= k < |st| ==> (k in sites <==> level[k] < twoS))
  }

  lemma DistinctRange(n: nat)
    ensures Distinct(seq(n, k => k))
  {
  }

  /** The start of the pool loop: every site at -2S, all sites in the pool. */
  lemma PoolStart(st: seq<real>, sites: seq<int>, twoS: int)
    requires twoS >= 1
    requires forall k :: 0 <= k < |st| ==> st[k] == (-twoS) as real
    requires sites == seq(|st|, k => k)
    ensures PoolInv(st, seq(|st|, _ => 0), sites, twoS)
    ensures Sum(st) == (2 * 0 - twoS * |st|) as real
  {
    SumConstant(st, -twoS);
    DistinctRange(|st|);
    forall k | 0 <= k < |st| ensures k in sites {
      assert sites[k] == k;
    }
  }

  /** The pool is non-empty while increments remain. */
  lemma PoolNonEmpty(state: seq<real>, level: seq<int>, twoS: int, sites: seq<int>, i: int)
    requires PoolInv(state, level, sites, twoS)
    requires Sum(state) == (2 * i - twoS * |state|) as real && i < twoS * |state|
    ensures |sites| > 0
  {
    SomeSiteBelowMax(state, level, twoS);
    var w :| 0 <= w < |state| && level[w] < twoS;
    assert w in sites;
  }

  /** The raised site leaves the pool (its value exceeds 2S - 1) exactly when it reaches the top level. */
  lemma PoolTopLevel(st: seq<real>, level: seq<int>, sites: seq<int>, twoS: int, s: int)
    requires PoolInv(st, level, sites, twoS) && 0 <= s < |sites|
    ensures 0 <= sites[s] < |st| && (st[sites[s]] + 2.0 > twoS as real - 1.0 <==> level[sites[s]] + 1 >= twoS)
  {
    assert st[sites[s]] == (2 * level[sites[s]] - twoS) as real;
  }

  /** One increment of the pool loop keeps PoolInv. */
  lemma PoolStep(st: seq<real>, level: seq<int>, sites: seq<int>, twoS: int, s: int)
    requires PoolInv(st, level, sites, twoS)
    requires 0 <= s < |sites|
    ensures var site := sites[s];
            var st' := st[site := st[site] + 2.0];
            var level' := level[site := level[site] + 1];
            var sites' := if st'[site] > twoS as real - 1.0 then sites[..s] + sites[s + 1..] else sites;
            PoolInv(st', level', sites', twoS)
  {
    var site := sites[s];
    assert site in sites;
    if level[site] + 1 >= twoS {
      PoolStepTop(st, level, sites, twoS, s);
    } else {
      PoolStepBelow(st, level, sites, twoS, s);
    }
  }

  /** The raised site reaches the top and leaves the pool. */
  lemma PoolStepTop(st: seq<real>, level: seq<int>, sites: seq<int>, twoS: int, s: int)
    requires PoolInv(st, level, sites, twoS)
    requires 0 <= s < |sites| && level[sites[s]] + 1 >= twoS
    ensures PoolInv(st[sites[s] := st[sites[s]] + 2.0], level[sites[s] := level[sites[s]] + 1],
                    sites[..s] + sites[s + 1..], twoS)
  {
    var site := sites[s];
    assert site in sites;
    PoolLevels(st, level, twoS, site);
    PoolLeaves(level, sites, twoS, s, sites[..s] + sites[s + 1..]);
  }

  /** The raised site stays below the top and in the pool. */
  lemma PoolStepBelow(st: seq<real>, level: seq<int>, sites: seq<int>, twoS: int, s: int)
    requires PoolInv(st, level, sites, twoS)
    requires 0 <= s < |sites| && level[sites[s]] + 1 < twoS
    ensures PoolInv(st[sites[s] := st[sites[s]] + 2.0], level[sites[s] := level[sites[s]] + 1],
                    sites, twoS)
  {
    var site := sites[s];
    assert site in sites;
    PoolLevels(st, level, twoS, site);
    PoolStays(level, sites, twoS, s);
  }

  /** Raising one site below the top by one level keeps states and levels in step. */
  lemma PoolLevels(st: seq<real>, level: seq<int>, twoS: int, site: int)
    requires |level| == |st| && 0 <= site < |st| && level[site] < twoS
    requires forall k :: 0 <= k < |st| ==> 0 <= level[k] <= twoS && st[k] == (2 * level[k] - twoS) as real
    ensures var st' := st[site := st[site] + 2.0];
            var level' := level[site := level[site] + 1];
            forall k :: 0 <= k < |st'| ==> 0 <= level'[k] <= twoS && st'[k] == (2 * level'[k] - twoS) as real
  {
  }

  /** Raising one site by two adds one increment to the total. */
  lemma PoolSum(st: seq<real>, site: int, twoS: int, i: int)
    requires 0 <= site < |st| && Sum(st) == (2 * i - twoS * |st|) as real
    ensures Sum(st[site := st[site] + 2.0]) == (2 * (i + 1) - twoS * |st[site := st[site] + 2.0]|) as real
  {
    SumUpdate(st, site, st[site] + 2.0);
  }

  /** The pool after an increment that takes its site to the top: that site leaves the pool. */
  lemma PoolLeaves(level: seq<int>, sites: seq<int>, twoS: int, s: int, rest: seq<int>)
    requires Distinct(sites) && 0 <= s < |sites|
    requires forall k :: 0 <= k < |sites| ==> 0 <= sites[k] < |level|
    requires level[sites[s]] + 1 >= twoS
    requires forall k :: 0 <= k < |level| ==> (k in sites <==> level[k] < twoS)
    requires rest == sites[..s] + sites[s + 1..]
    ensures Distinct(rest)
    ensures forall k :: 0 <= k < |rest| ==> 0 <= rest[k] < |level|
    ensures forall k :: 0 <= k < |level| ==> (k in rest <==> level[sites[s] := level[sites[s]] + 1][k] < twoS)
  {
    DistinctRemove(sites, s);
    forall k | 0 <= k < |rest| ensures 0 <= rest[k] < |level| {
      assert rest[k] in sites;
    }
  }

  /** The pool after an increment that leaves its site below the top is unchanged. */
  lemma PoolStays(level: seq<int>, sites: seq<int>, twoS: int, s: int)
    requires 0 <= s < |sites| && 0 <= sites[s] < |level| && level[sites[s]] + 1 < twoS
    requires forall k :: 0 <= k < |level| ==> (k in sites <==> level[k] < twoS)
    ensures forall k :: 0 <= k < |level| ==> (k in sites <==> level[sites[s] := level[sites[s]] + 1][k] < twoS)
  {
  }

  /** When S*N + totalSz is a non-negative integer, the larger-S branch reaches
      total magnetization exactly 2*totalSz. */
  lemma PoolSumIsTwiceTotal(S: real, n: nat, totalS: real)
    requires IsSpinValue(S)
    requires (S * (n as real) + totalS).Floor as real == S * (n as real) + totalS >= 0.0
    ensures (2 * LoopCount(S * (n as real) + totalS) - TwoS(S) * n) as real == 2.0 * totalS
  {
    var x := S * (n as real) + totalS;
    var q := x.Floor;
    assert LoopCount(x) == q by {
      assert q as real < x + 1.0 && !(q as real < x);
    }
    assert (TwoS(S) * n) as real == TwoS(S) as real * (n as real);
  }

  /** The pool of candidate sites, 0 .. n-1. */
  method SiteIndices(n: nat) returns (sites: seq<int>)
    ensures sites == seq(n, k => k)
  {
    sites := [];
    for i := 0 to n
      invariant sites == seq(i, k => k)
    {
      sites := sites + [i];
    }
  }

  class Spin {
    var S: real
    var totalS: real
    var constraintSz: bool
    var local: seq<real>
    var nstates: int
    var nspins: int

    /** The state after a successful Init. */
    ghost predicate Valid()
      reads this
    {
      IsSpinValue(S) && nstates == TwoS(S) + 1 && local == SpinLocalStates(TwoS(S))
    }

    /** An object whose Init has not run yet. */
    constructor Blank()
      ensures !constraintSz && local == [] && nstates == 0 && nspins == 0
    {
      S, totalS, constraintSz := 0.0, 0.0, false;
      local, nstates, nspins := [], 0, 0;
    }

    /** Spin(graph, pars): Init with the graph's site count and S, then the optional TotalSz. */
    static method New(nspins: int, S: real, totalSz: Option<real>) returns (r: Result<Spin>)
      ensures r.Ok? <==> IsSpinValue(S)
      ensures r.Ok? ==> fresh(r.value) && r.value.Valid()
      ensures r.Ok? ==> r.value.S == S && r.value.nspins == nspins
      ensures r.Ok? ==> r.value.constraintSz == totalSz.Some?
      ensures r.Ok? && totalSz.Some? ==> r.value.totalS == totalSz.value
    {
      var sp := new Spin.Blank();
      var o := sp.Init(nspins, S);
      if o.Fail? {
        return Err(o.error);
      }
      match totalSz {
        case Some(t) => sp.SetConstraint(t);
        case None => sp.constraintSz := false;
      }
      r := Ok(sp);
    }

    /** Stores S and the site count, rejects S <= 0 and non-integral 2S, then fills
        the local table -2S, -2S+2, ..., 2S. The site count is not checked. */
    method Init(nspins: int, S: real) returns (o: Outcome)
      modifies this
      ensures this.S == S && this.nspins == nspins
      ensures o.Pass? <==> IsSpinValue(S)
      ensures o.Pass? ==> Valid()
      ensures constraintSz == old(constraintSz) && totalS == old(totalS)
    {
      this.S := S;
      this.nspins := nspins;
      if S <= 0.0 {
        return Fail(InvalidInput(InvalidSpin));
      }
      if (2.0 * S).Floor as real != 2.0 * S {
        return Fail(InvalidInput(NotHalfInteger));
      }
      nstates := (2.0 * S).Floor + 1;
      var table := seq(nstates, _ => 0.0);
      var sp := -(2.0 * S).Floor;
      var i := 0;
      while i < nstates
        invariant 0 <= i <= nstates == |table|
        invariant sp == 2 * i - TwoS(S)
        invariant forall k :: 0 <= k < i ==> table[k] == (2 * k - TwoS(S)) as real
      {
        table := table[i := sp as real];
        sp := sp + 2;
        i := i + 1;
      }
      local := table;
      o := Pass;
    }

    /** Records the target total Sz and switches the constraint on. Nothing is checked here:
        feasibility is only examined when a constrained configuration is drawn. */
    method SetConstraint(totalS: real)
      modifies this
      ensures constraintSz && this.totalS == totalS
      ensures S == old(S) && local == old(local) && nstates == old(nstates) && nspins == old(nspins)
    {
      constraintSz := true;
      this.totalS := totalS;
    }

    predicate IsDiscrete()
    {
      true
    }

    function LocalSize(): (n: int)
      reads this
      requires Valid()
      ensures n == TwoS(S) + 1 == |LocalStates()|
    {
      nstates
    }

    function Size(): int
      reads this
    {
      nspins
    }

    function LocalStates(): (r: seq<real>)
      reads this
      requires Valid()
      ensures |r| == TwoS(S) + 1 >= 2
      ensures StrictlyIncreasing(r)
      ensures r[0] == -2.0 * S && r[|r| - 1] == 2.0 * S
      ensures forall k :: 0 <= k < |r| - 1 ==> r[k + 1] == r[k] + 2.0
    {
      local
    }

    /** 2*m, taken as static_cast<int>(2 * totalSz) in the S = 1/2 branch. */
    function Magnetization(): int
      reads this
    {
      Trunc(2.0 * totalS)
    }

    /** The two checks of the S = 1/2 branch: |m| <= N and N + m even. */
    predicate HalfSpinFeasible()
      reads this
    {
      var m := Magnetization();
      -nspins <= m <= nspins && (nspins + m) % 2 == 0
    }

    /** The number of +2 increments the general-spin branch makes:
        the iterations of `for (int i = 0; i < S * N + totalSz; ++i)`. */
    function Quanta(): nat
      reads this
    {
      LoopCount(S * (nspins as real) + totalS)
    }

    /** RandomVals, with the engine's draws standing for the library's distributions.
        Unconstrained: each site gets 2(d - S) for a draw d in [0, nstates-1].
        S = 1/2 constrained: checks feasibility, then a random arrangement of the
        exact numbers of up and down spins. Larger S constrained: every site starts at
        -2S and Quanta() increments of 2 go to sites drawn from the pool of sites
        still below 2S; a site leaves the pool when it reaches 2S. */
    method RandomVals(state: array<real>, rng: Random.Engine) returns (o: Outcome)
      requires Valid() && state.Length == nspins
      // With more increments than the sites can absorb the source draws from an empty pool (undefined behaviour).
      requires constraintSz && S != 0.5 ==> Quanta() <= TwoS(S) * nspins
      modifies state, rng
      ensures !constraintSz ==> o.Pass? && forall i :: 0 <= i < state.Length ==> state[i] in local
      ensures constraintSz && S == 0.5 ==> (o.Pass? <==> HalfSpinFeasible())
      ensures constraintSz && S == 0.5 && o.Fail? ==> state[..] == old(state[..])
      ensures constraintSz && S == 0.5 && o.Pass? ==>
                && multiset(state[..])[1.0] == (nspins + Magnetization()) / 2
                && multiset(state[..])[-1.0] == (nspins - Magnetization()) / 2
                && Sum(state[..]) == Magnetization() as real
      ensures constraintSz && S != 0.5 ==> o.Pass?
      ensures constraintSz && S != 0.5 ==> forall i :: 0 <= i < state.Length ==> state[i] in local
      ensures constraintSz && S != 0.5 ==> Sum(state[..]) == (2 * Quanta() - TwoS(S) * nspins) as real
    {
      if !constraintSz {
        RandomFree(state, rng);
        o := Pass;
      } else if S == 0.5 {
        o := RandomHalf(state, rng);
      } else {
        RandomPool(state, rng);
        o := Pass;
      }
    }

    /** Unconstrained branch: each site gets 2(d - S) for a draw d in [0, nstates-1]. */
    method RandomFree(state: array<real>, rng: Random.Engine)
      requires Valid()
      modifies state, rng
      ensures forall i :: 0 <= i < state.Length ==> state[i] in local
    {
      for i := 0 to state.Length
        invariant forall k :: 0 <= k < i ==> state[k] in local
      {
        var d := rng.Uniform(0, nstates - 1);
        state[i] := 2.0 * (d as real - S);
        assert state[i] == local[d];
      }
    }

    /** S = 1/2 constrained branch. */
    method RandomHalf(state: array<real>, rng: Random.Engine) returns (o: Outcome)
      requires Valid() && state.Length == nspins
      modifies state, rng
      ensures o.Pass? <==> HalfSpinFeasible()
      ensures o.Fail? ==> state[..] == old(state[..])
      ensures o.Pass? ==>
                && multiset(state[..])[1.0] == (nspins + Magnetization()) / 2
                && multiset(state[..])[-1.0] == (nspins - Magnetization()) / 2
                && Sum(state[..]) == Magnetization() as real
    {
      var m := Trunc(2.0 * totalS);
      if m < -nspins || m > nspins {
        return Fail(InvalidInput(MagnetizationTooLarge));
      }
      if (nspins + m) % 2 != 0 {
        return Fail(InvalidInput(MagnetizationParity));
      }
      var nup := (nspins + m) / 2;
      var ndown := (nspins - m) / 2;
      for i := 0 to nup
        invariant forall k :: 0 <= k < i ==> state[k] == 1.0
      {
        state[i] := 1.0;
      }
      for i := nup to nspins
        invariant forall k :: 0 <= k < nup ==> state[k] == 1.0
        invariant forall k :: nup <= k < i ==> state[k] == -1.0
      {
        state[i] := -1.0;
      }
      assert state[..] == UpDownFill(nup, ndown);
      Random.Shuffle(state, rng);
      UpDownFillCounts(nup, ndown);
      SumOfPermutation(state[..], UpDownFill(nup, ndown));
      o := Pass;
    }

    /** Larger-S constrained branch: the pool of sites still below 2S. */
    method RandomPool(state: array<real>, rng: Random.Engine)
      requires Valid() && state.Length == nspins
      requires Quanta() <= TwoS(S) * nspins
      modifies state, rng
      ensures forall i :: 0 <= i < state.Length ==> state[i] in local
      ensures Sum(state[..]) == (2 * Quanta() - TwoS(S) * nspins) as real
    {
      var twoS := TwoS(S);
      var sites := SiteIndices(nspins);
      FillMinimum(state);
      ghost var level := seq(nspins, _ => 0);
      PoolStart(state[..], sites, twoS);
      PoolIncrements(state, rng, sites, level);
    }

    /** All sites at the lowest level, -2S. */
    method FillMinimum(state: array<real>)
      requires Valid()
      modifies state
      ensures forall k :: 0 <= k < state.Length ==> state[k] == (-TwoS(S)) as real
    {
      for i := 0 to state.Length
        invariant forall k :: 0 <= k < i ==> state[k] == -2.0 * S
      {
        state[i] := -2.0 * S;
      }
    }

    /** The increment loop of the larger-S branch, from the all-minimal start. */
    method PoolIncrements(state: array<real>, rng: Random.Engine, sites0: seq<int>, ghost level0: seq<int>)
      requires Valid() && state.Length == nspins
      requires Quanta() <= TwoS(S) * nspins
      requires PoolInv(state[..], level0, sites0, TwoS(S))
      requires Sum(state[..]) == (2 * 0 - TwoS(S) * nspins) as real
      modifies state, rng
      ensures forall i :: 0 <= i < state.Length ==> state[i] in local
      ensures Sum(state[..]) == (2 * Quanta() - TwoS(S) * nspins) as real
    {
      var twoS := TwoS(S);
      var sites := sites0;
      ghost var level := level0;
      var ss := |sites|;
      var i := 0;
      while (i as real) < S * (nspins as real) + totalS
        invariant 0 <= i <= Quanta()
        invariant |sites| == ss
        invariant PoolInv(state[..], level, sites, twoS)
        invariant Sum(state[..]) == (2 * i - twoS * nspins) as real
        decreases Quanta() - i
      {
        assert i < Quanta();
        sites, ss, level := PoolDraw(state, rng, sites, ss, level, i);
        i := i + 1;
      }
      forall k | 0 <= k < state.Length ensures state[k] in local {
        assert state[k] == local[level[k]];
      }
    }

    /** One pass of the increment loop: a random site of the pool goes up by 2 and
        leaves the pool once it exceeds 2S - 1. */
    method PoolDraw(state: array<real>, rng: Random.Engine, sites: seq<int>, ss: int, ghost level: seq<int>, i: int)
      returns (sites': seq<int>, ss': int, ghost level': seq<int>)
      requires Valid() && state.Length == nspins && ss == |sites|
      requires PoolInv(state[..], level, sites, TwoS(S))
      requires Sum(state[..]) == (2 * i - TwoS(S) * nspins) as real && i < TwoS(S) * nspins
      modifies state, rng
      ensures ss' == |sites'|
      ensures PoolInv(state[..], level', sites', TwoS(S))
      ensures Sum(state[..]) == (2 * (i + 1) - TwoS(S) * nspins) as real
    {
      var twoS := TwoS(S);
      assert twoS as real == 2.0 * S;
      PoolNonEmpty(state[..], level, twoS, sites, i);
      var s := rng.Uniform(0, ss - 1);
      var site := sites[s];
      ghost var before := state[..];
      var raised := state[site] + 2.0;
      state[site] := raised;
      assert state[..] == before[site := raised];
      PoolSum(before, site, twoS, i);
      PoolTopLevel(before, level, sites, twoS, s);
      level' := level[site := level[site] + 1];
      sites', ss' := sites, ss;
      if raised > 2.0 * S - 1.0 {
        PoolStepTop(before, level, sites, twoS, s);
        sites' := sites[..s] + sites[s + 1..];
        ss' := ss - 1;
      } else {
        PoolStepBelow(before, level, sites, twoS, s);
      }
    }

    /** UpdateConf: writes newconf[k] at site tochange[k], in list order; no constraint is checked. */
    method UpdateConf(v: array<real>, tochange: seq<int>, newconf: seq<real>)
      requires Valid() && v.Length == nspins
      requires forall k :: 0 <= k < |tochange| ==> 0 <= tochange[k] < v.Length
      requires |tochange| <= |newconf|
      modifies v
      ensures v[..] == Configurations.Apply(old(v[..]), tochange, newconf)
    {
      Configurations.WriteSites(v, tochange, newconf);
    }
  }
}
