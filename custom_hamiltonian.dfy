/** A Hamiltonian given as a list of local operators (class netket::CustomHamiltonian).
    FindConn aggregates the connections of all operators: their diagonal elements are
    summed into entry 0, and the off-diagonal entries follow, operator by operator.
    The aggregate functions below describe the first n operators of a list. */
module CustomHamiltonians {
  import opened Wrappers
  import opened Complexes
  import opened Hilbert
  import opened LocalOperators
  import opened Seqs

  // Error messages.
  const MissingActingOn := "The custom Hamiltonian definition is inconsistent: Check that ActingOn is defined"

  /** Operator i finds the local tuple of v among its numbered states. */
  ghost predicate Finds(op: LocalOperator, v: seq<real>)
  {
    op.Shaped() && |v| == op.hilbert.size && op.Gather(v) in op.states
  }

  /** Each of the first n operators finds the local tuple of v. */
  ghost predicate AllFound(ops: seq<LocalOperator>, n: int, v: seq<real>)
  {
    0 <= n <= |ops| && forall i :: 0 <= i < n ==> Finds(ops[i], v)
  }

  /** The sum of the diagonal elements of the first n operators. */
  ghost function DiagonalSum(ops: seq<LocalOperator>, n: int, v: seq<real>): Complex
    requires AllFound(ops, n, v)
    decreases n
  {
    if n == 0 then Zero
    else
      var st := ops[n - 1].StateIndex(v);
      Add(DiagonalSum(ops, n - 1, v), ops[n - 1].mat[st][st])
  }

  /** The off-diagonal matrix elements of the first n operators, grouped by operator in order. */
  ghost function OffDiagonalMels(ops: seq<LocalOperator>, n: int, v: seq<real>): seq<Complex>
    requires AllFound(ops, n, v)
    decreases n
  {
    if n == 0 then [] else OffDiagonalMels(ops, n - 1, v) + ops[n - 1].ConnMels(ops[n - 1].StateIndex(v))
  }

  /** The connectors that go with OffDiagonalMels: each operator's site list. */
  ghost function OffDiagonalSites(ops: seq<LocalOperator>, n: int, v: seq<real>): seq<seq<int>>
    requires AllFound(ops, n, v)
    decreases n
  {
    if n == 0 then []
    else
      var op := ops[n - 1];
      OffDiagonalSites(ops, n - 1, v) + Repeat(op.sites, |op.connected[op.StateIndex(v)]|)
  }

  /** The new local configurations that go with OffDiagonalMels. */
  ghost function OffDiagonalConfs(ops: seq<LocalOperator>, n: int, v: seq<real>): seq<seq<real>>
    requires AllFound(ops, n, v)
    decreases n
  {
    if n == 0 then [] else OffDiagonalConfs(ops, n - 1, v) + ops[n - 1].ConnConfs(ops[n - 1].StateIndex(v))
  }

  /** The number of off-diagonal connections of the first n operators. */
  ghost function ConnectionCount(ops: seq<LocalOperator>, n: int, v: seq<real>): nat
    requires AllFound(ops, n, v)
    decreases n
  {
    if n == 0 then 0 else ConnectionCount(ops, n - 1, v) + |ops[n - 1].connected[ops[n - 1].StateIndex(v)]|
  }

  /** The three aggregated lists are aligned, with one entry per connection. */
  lemma {:induction false} AggregateLengths(ops: seq<LocalOperator>, n: int, v: seq<real>)
    requires AllFound(ops, n, v)
    ensures |OffDiagonalMels(ops, n, v)| == |OffDiagonalSites(ops, n, v)| == |OffDiagonalConfs(ops, n, v)| == ConnectionCount(ops, n, v)
    decreases n
  {
    if n > 0 {
      AggregateLengths(ops, n - 1, v);
    }
  }

  /** What the three vectors hold once the first n operators have added their
      connections to initially empty vectors. */
  ghost predicate IsAggregate(mel: seq<Complex>, connectors: seq<seq<int>>, newconfs: seq<seq<real>>,
                              ops: seq<LocalOperator>, n: int, v: seq<real>)
  {
    && AllFound(ops, n, v)
    && (n == 0 ==> mel == [] && connectors == [] && newconfs == [])
    && (n > 0 ==>
          && mel == [DiagonalSum(ops, n, v)] + OffDiagonalMels(ops, n, v)
          && connectors == [[]] + OffDiagonalSites(ops, n, v)
          && newconfs == [[]] + OffDiagonalConfs(ops, n, v))
  }

  /** The aggregate is aligned and has 1 + (number of connections) entries, or none at all. */
  lemma AggregateAligned(mel: seq<Complex>, connectors: seq<seq<int>>, newconfs: seq<seq<real>>,
                         ops: seq<LocalOperator>, n: int, v: seq<real>)
    requires IsAggregate(mel, connectors, newconfs, ops, n, v)
    ensures |mel| == |connectors| == |newconfs|
    ensures n > 0 ==> |mel| == 1 + ConnectionCount(ops, n, v)
  {
    AggregateLengths(ops, n, v);
  }

  /** AddConn of operator i on the aggregate of the operators before it gives the
      aggregate of the first i + 1 operators. */
  lemma AggregateExtend(mel0: seq<Complex>, conn0: seq<seq<int>>, confs0: seq<seq<real>>,
                        ops: seq<LocalOperator>, i: int, v: seq<real>,
                        mel: seq<Complex>, conn: seq<seq<int>>, confs: seq<seq<real>>)
    requires IsAggregate(mel0, conn0, confs0, ops, i, v)
    requires i < |ops| && Finds(ops[i], v)
    requires var op := ops[i];
             var st := op.StateIndex(v);
             var m0 := if |mel0| == 0 then [Zero] else mel0;
             var c0 := if |mel0| == 0 then [[]] else conn0;
             var n0 := if |mel0| == 0 then [[]] else confs0;
             && mel == [Add(m0[0], op.mat[st][st])] + m0[1..] + op.ConnMels(st)
             && conn == c0 + Repeat(op.sites, |op.connected[st]|)
             && confs == n0 + op.ConnConfs(st)
    ensures IsAggregate(mel, conn, confs, ops, i + 1, v)
  {
    var op := ops[i];
    var st := op.StateIndex(v);
    var d := op.mat[st][st];
    var sites := Repeat(op.sites, |op.connected[st]|);
    AggregateUnfold(ops, i, v);
    if i == 0 {
      ReplaceHead([Zero], Add(Zero, d), Zero, [], op.ConnMels(st));
    } else {
      ReplaceHead(mel0, Add(mel0[0], d), DiagonalSum(ops, i, v), OffDiagonalMels(ops, i, v), op.ConnMels(st));
      AppendAssoc([[]], OffDiagonalSites(ops, i, v), sites);
      AppendAssoc([[]], OffDiagonalConfs(ops, i, v), op.ConnConfs(st));
    }
  }

  lemma ReplaceHead<T>(m0: seq<T>, a: T, h: T, rest: seq<T>, tail: seq<T>)
    requires m0 == [h] + rest
    ensures [a] + m0[1..] + tail == [a] + (rest + tail)
  {
    assert m0[1..] == rest;
  }

  lemma AppendAssoc<T>(a: seq<T>, b: seq<T>, c: seq<T>)
    ensures a + b + c == a + (b + c)
  {
  }

  /** One more operator: each aggregated quantity of the first i + 1 operators in terms of the first i. */
  lemma AggregateUnfold(ops: seq<LocalOperator>, i: int, v: seq<real>)
    requires AllFound(ops, i, v) && i < |ops| && Finds(ops[i], v)
    ensures AllFound(ops, i + 1, v)
    ensures var op := ops[i];
            var st := op.StateIndex(v);
            && DiagonalSum(ops, i + 1, v) == Add(DiagonalSum(ops, i, v), op.mat[st][st])
            && OffDiagonalMels(ops, i + 1, v) == OffDiagonalMels(ops, i, v) + op.ConnMels(st)
            && OffDiagonalSites(ops, i + 1, v) == OffDiagonalSites(ops, i, v) + Repeat(op.sites, |op.connected[st]|)
            && OffDiagonalConfs(ops, i + 1, v) == OffDiagonalConfs(ops, i, v) + op.ConnConfs(st)
  {
    assert AllFound(ops, i + 1, v);
  }

  class CustomHamiltonian {
    const hilbert: Interface
    const operators: seq<LocalOperator>

    ghost predicate Valid()
    {
      forall i :: 0 <= i < |operators| ==> operators[i].Valid() && operators[i].hilbert == hilbert
    }

    /** What FindConn needs of the operators; implied by Valid. */
    ghost predicate Queryable()
    {
      forall i :: 0 <= i < |operators| ==> operators[i].Shaped() && operators[i].hilbert == hilbert
    }

    constructor Make(hilbert: Interface, operators: seq<LocalOperator>)
      ensures this.hilbert == hilbert && this.operators == operators
    {
      this.hilbert, this.operators := hilbert, operators;
    }

    /** CustomHamiltonian(hilbert, pars): one LocalOperator per (Operators[i], ActingOn[i])
        pair, in input order; the two lists must have the same length. */
    static method New(hilbert: Interface, jop: seq<Matrix>, sites: seq<seq<int>>) returns (r: Result<CustomHamiltonian>)
      requires |hilbert.localStates| >= 1
      // As for a single operator, an empty site list is undefined behaviour in the source, but only
      // once construction reaches it: a length mismatch or an earlier rejected pair comes first.
      requires forall i :: 0 <= i < |sites| && |sites[i]| == 0 ==>
                 |sites| != |jop| || exists k :: 0 <= k < i && !Accepts(hilbert, jop[k], sites[k])
      ensures r.Ok? <==> |sites| == |jop| && forall i :: 0 <= i < |jop| ==> Accepts(hilbert, jop[i], sites[i])
      ensures r.Ok? ==> r.value.Valid() && r.value.hilbert == hilbert && |r.value.operators| == |jop|
      ensures r.Ok? ==> forall i :: 0 <= i < |jop| ==> r.value.operators[i].mat == jop[i] && r.value.operators[i].sites == sites[i]
    {
      if |sites| != |jop| {
        return Err(InvalidInput(MissingActingOn));
      }
      var ops: seq<LocalOperator> := [];
      for i := 0 to |jop|
        invariant |ops| == i
        invariant forall k :: 0 <= k < i ==> Accepts(hilbert, jop[k], sites[k])
        invariant forall k :: 0 <= k < i ==> ops[k].Valid() && ops[k].hilbert == hilbert && ops[k].mat == jop[k] && ops[k].sites == sites[k]
      {
        var op := LocalOperator.New(hilbert, jop[i], sites[i]);
        if op.Err? {
          return Err(op.error);
        }
        ops := ops + [op.value];
      }
      var h := new CustomHamiltonian.Make(hilbert, ops);
      return Ok(h);
    }

    /** FindConn: clears the three vectors, then lets every operator add its connections.
        An operator that does not find the local tuple of v ends the loop, as its exception does. */
    method FindConn(v: seq<real>, buf: ConnBuffers) returns (o: Outcome)
      requires Queryable() && |v| == hilbert.size
      modifies buf
      ensures buf.Aligned()
      ensures o.Pass? <==> AllFound(operators, |operators|, v)
      ensures o.Pass? ==> IsAggregate(buf.mel, buf.connectors, buf.newconfs, operators, |operators|, v)
    {
      buf.connectors := [];
      buf.newconfs := [];
      buf.mel := [];
      o := Pass;
      for i := 0 to |operators|
        invariant IsAggregate(buf.mel, buf.connectors, buf.newconfs, operators, i, v)
        invariant buf.Aligned() && o.Pass?
      {
        o := AddOperator(i, v, buf);
        if o.Fail? {
          assert !Finds(operators[i], v);
          return;
        }
      }
    }

    /** One iteration of FindConn: operator i adds its connections to the aggregate of the
        operators before it. */
    method AddOperator(i: int, v: seq<real>, buf: ConnBuffers) returns (o: Outcome)
      requires Queryable() && |v| == hilbert.size && 0 <= i < |operators|
      requires IsAggregate(buf.mel, buf.connectors, buf.newconfs, operators, i, v)
      modifies buf
      ensures buf.Aligned()
      ensures o.Pass? <==> Finds(operators[i], v)
      ensures o.Pass? ==> IsAggregate(buf.mel, buf.connectors, buf.newconfs, operators, i + 1, v)
    {
      AggregateLengths(operators, i, v);
      ghost var mel0, conn0, confs0 := buf.mel, buf.connectors, buf.newconfs;
      var op := operators[i];
      o := op.AddConn(v, buf);
      if o.Pass? {
        AggregateExtend(mel0, conn0, confs0, operators, i, v, buf.mel, buf.connectors, buf.newconfs);
      }
    }
  }
}
