/** Hilbert space of bosons with a maximum local occupation (class netket::Boson).
    The local states are the occupation numbers 0, 1, ..., nmax; an optional
    constraint fixes the total number of bosons. */
module Bosons {
  import opened Wrappers
  import opened Seqs
  import opened Numbers
  import Random
  import Configurations

  // Error messages.
  const InvalidSites := "Invalid number of sites"
  const InvalidOccupation := "Invalid maximum occupation number"
  const BosonsInfeasible := "Cannot set the desired number of bosons"
  const BudgetExhausted := "draw budget exhausted"

  /** The table Init builds: 0, 1, ..., nmax. */
  function OccupationStates(nmax: nat): (r: seq<real>)
    ensures |r| == nmax + 1
    ensures forall k :: 0 <= k <= nmax ==> r[k] == k as real
    ensures StrictlyIncreasing(r)
  {
    seq(nmax + 1, k => k as real)
  }

  /** The total CheckConstraint computes: the sum of the entries truncated to int. */
  function SumTrunc(v: seq<real>): int
  {
    if v == [] then 0 else SumTrunc(v[..|v| - 1]) + Trunc(v[|v| - 1])
  }

  /** On integral entries the truncated sum is the sum. */
  lemma {:induction false} SumTruncIntegral(v: seq<real>)
    requires forall k :: 0 <= k < |v| ==> v[k].Floor as real == v[k]
    ensures SumTrunc(v) as real == Sum(v)
  {
    if v != [] {
      SumTruncIntegral(v[..|v| - 1]);
      TruncIntegral(v[|v| - 1].Floor);
    }
  }

  /** A configuration the constrained sampler may produce: integral occupations in [0, nmax]. */
  ghost predicate Occupations(v: seq<real>, nmax: int)
  {
    forall k :: 0 <= k < |v| ==> 0.0 <= v[k] <= nmax as real && v[k].Floor as real == v[k]
  }

  lemma ZeroOccupations(v: seq<real>, nmax: int)
    requires nmax >= 0
    requires forall k :: 0 <= k < |v| ==> v[k] == 0.0
    ensures Occupations(v, nmax) && Sum(v) == 0.0
  {
    SumConstant(v, 0);
  }

  /** One unit increment on a site below nmax keeps the occupations valid and adds one to the sum. */
  lemma IncrementStep(v: seq<real>, nmax: int, site: int)
    requires Occupations(v, nmax)
    requires 0 <= site < |v| && v[site] < nmax as real
    ensures Occupations(v[site := v[site] + 1.0], nmax)
    ensures Sum(v[site := v[site] + 1.0]) == Sum(v) + 1.0
  {
    SumUpdate(v, site, v[site] + 1.0);
    var n := v[site].Floor;
    assert v[site] + 1.0 == (n + 1) as real;
    assert n + 1 <= nmax;
    var w := v[site := v[site] + 1.0];
    forall k | 0 <= k < |w| ensures 0.0 <= w[k] <= nmax as real && w[k].Floor as real == w[k] {
      if k == site {
        assert w[k] == (n + 1) as real;
      }
    }
  }

  class Boson {
    var nsites: int
    var local: seq<real>
    var nbosons: int
    var constraintN: bool
    var nmax: int
    var nstates: int

    /** The state after a successful Init. */
    ghost predicate Valid()
      reads this
    {
      nsites > 0 && nmax > 0 && nstates == nmax + 1 && local == OccupationStates(nmax)
    }

    /** An object whose Init has not run yet. */
    constructor Blank(nsites: int, nmax: int)
      ensures this.nsites == nsites && this.nmax == nmax
      ensures !constraintN && local == [] && nstates == 0 && nbosons == 0
    {
      this.nsites, this.nmax := nsites, nmax;
      local, nbosons, constraintN, nstates := [], 0, false, 0;
    }

    /** Boson(graph, pars): site count from the graph, Nmax, Init, then the optional Nbosons. */
    static method New(nsites: int, nmax: int, nbosons: Option<int>) returns (r: Result<Boson>)
      ensures r.Ok? <==> nsites > 0 && nmax > 0 && (nbosons.Some? ==> nbosons.value <= nsites * nmax)
      ensures r.Ok? ==> fresh(r.value) && r.value.Valid()
      ensures r.Ok? ==> r.value.nsites == nsites && r.value.nmax == nmax
      ensures r.Ok? ==> r.value.constraintN == nbosons.Some?
      ensures r.Ok? && nbosons.Some? ==> r.value.nbosons == nbosons.value
    {
      var b := new Boson.Blank(nsites, nmax);
      var o := b.Init();
      if o.Fail? {
        return Err(o.error);
      }
      match nbosons {
        case Some(n) =>
          o := b.SetNbosons(n);
          if o.Fail? {
            return Err(o.error);
          }
        case None =>
          b.constraintN := false;
      }
      r := Ok(b);
    }

    /** Rejects a non-positive site count or maximum occupation, then fills the table 0..nmax. */
    method Init() returns (o: Outcome)
      modifies this
      ensures o.Pass? <==> old(nsites) > 0 && old(nmax) > 0
      ensures o.Pass? ==> Valid()
      ensures nsites == old(nsites) && nmax == old(nmax)
      ensures nbosons == old(nbosons) && constraintN == old(constraintN)
    {
      if nsites <= 0 {
        return Fail(InvalidInput(InvalidSites));
      }
      if nmax <= 0 {
        return Fail(InvalidInput(InvalidOccupation));
      }
      nstates := nmax + 1;
      var table := seq(nstates, _ => 0.0);
      for i := 0 to nstates
        invariant |table| == nstates
        invariant forall k :: 0 <= k < i ==> table[k] == k as real
      {
        table := table[i := i as real];
      }
      local := table;
      o := Pass;
    }

    /** Switches the constraint on and records the target before the feasibility check,
        so a rejected target still leaves the constraint on. */
    method SetNbosons(nbosons: int) returns (o: Outcome)
      modifies this
      ensures constraintN && this.nbosons == nbosons
      ensures o.Pass? <==> nbosons <= nsites * nmax
      ensures nsites == old(nsites) && nmax == old(nmax) && local == old(local) && nstates == old(nstates)
    {
      constraintN := true;
      this.nbosons := nbosons;
      if nbosons > nsites * nmax {
        return Fail(InvalidInput(BosonsInfeasible));
      }
      o := Pass;
    }

    predicate IsDiscrete()
    {
      true
    }

    function LocalSize(): (n: int)
      reads this
      requires Valid()
      ensures n == nmax + 1 == |LocalStates()|
    {
      nstates
    }

    function Size(): int
      reads this
    {
      nsites
    }

    function LocalStates(): (r: seq<real>)
      reads this
      requires Valid()
      ensures |r| == nmax + 1
      ensures forall k :: 0 <= k < |r| ==> r[k] == k as real
      ensures StrictlyIncreasing(r)
    {
      local
    }

    /** RandomVals. Unconstrained: each site gets a draw in [0, nmax]. Constrained: the
        buffer is zeroed and nbosons unit increments follow, each on a site redrawn until
        it is below nmax. The redrawing has no bound in the source; here it may use at most
        `fuel` draws in total, and running out is reported as a failure. */
    method RandomVals(state: array<real>, rng: Random.Engine, fuel: nat) returns (o: Outcome)
      requires Valid() && state.Length == nsites
      modifies state, rng
      ensures !constraintN ==> o.Pass?
      ensures !constraintN ==> forall i :: 0 <= i < state.Length ==> state[i] in local
      ensures constraintN && o.Pass? ==> Occupations(state[..], nmax)
      ensures constraintN && o.Pass? ==> Sum(state[..]) == (if nbosons < 0 then 0 else nbosons) as real
    {
      if !constraintN {
        RandomFree(state, rng);
        return Pass;
      }
      for i := 0 to state.Length
        invariant forall k :: 0 <= k < i ==> state[k] == 0.0
      {
        state[i] := 0.0;
      }
      ZeroOccupations(state[..], nmax);
      o := AddBosons(state, rng, fuel);
    }

    /** Unconstrained branch: each site gets a draw in [0, nstates-1]. */
    method RandomFree(state: array<real>, rng: Random.Engine)
      requires Valid()
      modifies state, rng
      ensures forall i :: 0 <= i < state.Length ==> state[i] in local
    {
      for i := 0 to state.Length
        invariant forall k :: 0 <= k < i ==> state[k] in local
      {
        var d := rng.Uniform(0, nstates - 1);
        state[i] := d as real;
        assert state[i] == local[d];
      }
    }

    /** Constrained branch after zeroing: nbosons unit increments on sites below nmax. */
    method AddBosons(state: array<real>, rng: Random.Engine, fuel: nat) returns (o: Outcome)
      requires Valid() && state.Length == nsites
      requires Occupations(state[..], nmax) && Sum(state[..]) == 0.0
      modifies state, rng
      ensures o.Pass? ==> Occupations(state[..], nmax)
      ensures o.Pass? ==> Sum(state[..]) == (if nbosons < 0 then 0 else nbosons) as real
    {
      var budget := fuel;
      var i := 0;
      while i < nbosons
        invariant 0 <= i <= (if nbosons < 0 then 0 else nbosons)
        invariant Occupations(state[..], nmax)
        invariant Sum(state[..]) == i as real
        decreases nbosons - i
      {
        if budget == 0 {
          return Fail(OutOfRange(BudgetExhausted));
        }
        var rsite := rng.Uniform(0, nsites - 1);
        budget := budget - 1;
        while state[rsite] >= nmax as real
          invariant 0 <= rsite < nsites
          invariant Occupations(state[..], nmax) && Sum(state[..]) == i as real
          modifies rng
          decreases budget
        {
          if budget == 0 {
            return Fail(OutOfRange(BudgetExhausted));
          }
          rsite := rng.Uniform(0, nsites - 1);
          budget := budget - 1;
        }
        ghost var before := state[..];
        state[rsite] := state[rsite] + 1.0;
        assert state[..] == before[rsite := before[rsite] + 1.0];
        IncrementStep(before, nmax, rsite);
        i := i + 1;
      }
      o := Pass;
    }

    /** True iff the int-truncated entries of v add up to nbosons. */
    method CheckConstraint(v: seq<real>) returns (b: bool)
      ensures b <==> SumTrunc(v) == nbosons
    {
      var tot := 0;
      for i := 0 to |v|
        invariant tot == SumTrunc(v[..i])
      {
        assert v[..i + 1][..i] == v[..i];
        tot := tot + Trunc(v[i]);
      }
      assert v[..|v|] == v;
      b := tot == nbosons;
    }

    /** UpdateConf: writes newconf[k] at site tochange[k], in list order. The source's debug
        checks (every written value at most nmax, the constraint holding afterwards when it
        is on) are preconditions. */
    method UpdateConf(v: array<real>, tochange: seq<int>, newconf: seq<real>)
      requires Valid() && v.Length == nsites
      requires forall k :: 0 <= k < |tochange| ==> 0 <= tochange[k] < v.Length
      requires |tochange| <= |newconf|
      requires forall k :: 0 <= k < |tochange| ==> newconf[k] <= nmax as real
      requires constraintN ==> SumTrunc(Configurations.Apply(v[..], tochange, newconf)) == nbosons
      modifies v
      ensures v[..] == Configurations.Apply(old(v[..]), tochange, newconf)
      ensures constraintN ==> SumTrunc(v[..]) == nbosons
    {
      Configurations.WriteSites(v, tochange, newconf);
    }
  }
}
