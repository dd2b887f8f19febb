/** A local operator (class netket::LocalOperator): a square matrix acting on the
    tensor product of the local spaces of a list of sites. Construction validates
    the sites and the matrix shape, numbers the local tuples, and records the
    non-zero off-diagonal columns of each row; FindConn and AddConn list the
    configurations a basis state is connected to, with the matrix elements. */
module LocalOperators {
  import opened Wrappers
  import opened Seqs
  import opened Complexes
  import opened Hilbert
  import opened Variations

  // Error messages.
  const InconsistentSize := "Matrix size in operator is inconsistent with Hilbert space"
  const InfiniteLocalSpace := "Cannot construct operators on infinite local hilbert spaces"
  const InvalidSiteList := "Operator acts on an invalid set of sites"
  const MissingState := "map::at"

  type Matrix = seq<seq<Complex>>

  /** What construction demands of the matrix: every row as long as the matrix is tall. */
  predicate SquareRows(mat: Matrix)
  {
    forall i :: 0 <= i < |mat| ==> |mat[i]| == |mat|
  }

  /** What the shape check in the source actually enforces: an empty row is never compared. */
  predicate SquareOrEmptyRows(mat: Matrix)
  {
    forall i :: 0 <= i < |mat| ==> |mat[i]| == 0 || |mat[i]| == |mat|
  }

  predicate IncreasingInts(s: seq<int>)
  {
    forall i, j :: 0 <= i < j < |s| ==> s[i] < s[j]
  }

  /** c lists, in increasing order, exactly the columns j != i of row i whose entry is non-zero. */
  predicate IsConnectedRow(row: seq<Complex>, i: int, c: seq<int>)
  {
    && IncreasingInts(c)
    && (forall k :: 0 <= k < |c| ==> 0 <= c[k] < |row| && c[k] != i && IsNonZero(row[c[k]]))
    && (forall j :: 0 <= j < |row| && j != i && IsNonZero(row[j]) ==> j in c)
  }

  /** The shape check as the source writes it: the length comparison sits inside the
      loop over the entries of a row, so an empty row is never compared. */
  method ShapeCheckAsWritten(mat: Matrix) returns (ok: bool)
    ensures ok <==> SquareOrEmptyRows(mat)
  {
    for i := 0 to |mat|
      invariant forall k :: 0 <= k < i ==> |mat[k]| == 0 || |mat[k]| == |mat|
    {
      for j := 0 to |mat[i]|
        invariant j > 0 ==> |mat[i]| == |mat|
      {
        if |mat| != |mat[i]| {
          return false;
        }
      }
    }
    return true;
  }

  /** The smallest input on which the two checks differ: one spin-1/2 site, so two
      local states and a 2 x 2 matrix expected, with an empty first row. The source
      accepts it, and AddConn on the first local state then reads mat[0][0]. */
  lemma EmptyRowPassesShapeCheck()
    ensures var mat: Matrix := [[], [Zero, Zero]];
            |mat| == Pow(2, 1) && SquareOrEmptyRows(mat) && !SquareRows(mat) && |mat[0]| == 0
  {
    var mat: Matrix := [[], [Zero, Zero]];
    assert |mat[1]| == |mat|;
    assert |mat[0]| != |mat|;
  }

  /** The corrected shape check together with the search for connected columns:
      every row, empty or not, must be as long as the matrix is tall. */
  method ConnectedColumns(mat: Matrix) returns (r: Result<seq<seq<int>>>)
    ensures r.Ok? <==> SquareRows(mat)
    ensures r.Ok? ==> |r.value| == |mat|
    ensures r.Ok? ==> forall i :: 0 <= i < |mat| ==> IsConnectedRow(mat[i], i, r.value[i])
  {
    var connected: seq<seq<int>> := [];
    for i := 0 to |mat|
      invariant |connected| == i
      invariant forall k :: 0 <= k < i ==> |mat[k]| == |mat|
      invariant forall k :: 0 <= k < i ==> IsConnectedRow(mat[k], k, connected[k])
    {
      if |mat[i]| != |mat| {
        return Err(InvalidInput(InconsistentSize));
      }
      var row: seq<int> := [];
      for j := 0 to |mat[i]|
        invariant forall k :: 0 <= k < |row| ==> 0 <= row[k] < j && row[k] != i && IsNonZero(mat[i][row[k]])
        invariant IncreasingInts(row)
        invariant forall c :: 0 <= c < j && c != i && IsNonZero(mat[i][c]) ==> c in row
      {
        if i != j && IsNonZero(mat[i][j]) {
          row := row + [j];
        }
      }
      connected := connected + [row];
    }
    return Ok(connected);
  }

  /** The tuple of local states selected by a tuple of indices into the local table. */
  function Lookup(localStates: seq<real>, t: seq<int>): (r: seq<real>)
    requires forall k :: 0 <= k < |t| ==> 0 <= t[k] < |localStates|
    ensures |r| == |t|
    ensures forall k :: 0 <= k < |t| ==> r[k] == localStates[t[k]]
  {
    seq(|t|, k requires 0 <= k < |t| => localStates[t[k]])
  }

  /** The second pass over states_: each index tuple replaced by the local states it selects. */
  method StatesFromIndices(tuples: seq<seq<int>>, n: nat, localStates: seq<real>) returns (states: seq<seq<real>>)
    requires forall i :: 0 <= i < |tuples| ==> InBox(tuples[i], n, |localStates|)
    ensures |states| == |tuples|
    ensures forall i :: 0 <= i < |tuples| ==> forall k :: 0 <= k < |tuples[i]| ==> 0 <= tuples[i][k] < |localStates|
    ensures forall i :: 0 <= i < |tuples| ==> states[i] == Lookup(localStates, tuples[i])
  {
    states := [];
    for i := 0 to |tuples|
      invariant |states| == i
      invariant forall k :: 0 <= k < i ==> states[k] == Lookup(localStates, tuples[k])
    {
      var st := tuples[i];
      var mapped: seq<real> := [];
      for k := 0 to |st|
        invariant |mapped| == k
        invariant forall m :: 0 <= m < k ==> mapped[m] == localStates[st[m]]
      {
        mapped := mapped + [localStates[st[k]]];
      }
      states := states + [mapped];
    }
  }

  /** Distinct local states give distinct tuples of local states. */
  lemma LookupDistinct(localStates: seq<real>, t1: seq<int>, t2: seq<int>)
    requires Distinct(localStates) && t1 != t2 && |t1| == |t2|
    requires forall k :: 0 <= k < |t1| ==> 0 <= t1[k] < |localStates| && 0 <= t2[k] < |localStates|
    ensures Lookup(localStates, t1) != Lookup(localStates, t2)
  {
    assert exists k :: 0 <= k < |t1| && t1[k] != t2[k];
    var k :| 0 <= k < |t1| && t1[k] != t2[k];
    assert Lookup(localStates, t1)[k] != Lookup(localStates, t2)[k];
  }

  /** inv maps every listed state back to a position holding it. */
  ghost predicate IsInverse(inv: map<seq<real>, int>, states: seq<seq<real>>)
  {
    && (forall s :: s in inv <==> s in states)
    && (forall s :: s in inv ==> 0 <= inv[s] < |states| && states[inv[s]] == s)
  }

  /** invstate_: state k is entered under position k, a later position overwriting an earlier one. */
  method InverseMap(states: seq<seq<real>>) returns (inv: map<seq<real>, int>)
    ensures IsInverse(inv, states)
    ensures Distinct(states) ==> forall k :: 0 <= k < |states| ==> inv[states[k]] == k
  {
    inv := map[];
    for k := 0 to |states|
      invariant forall s :: s in inv <==> s in states[..k]
      invariant forall s :: s in inv ==> 0 <= inv[s] < k && states[inv[s]] == s
    {
      inv := inv[states[k] := k];
    }
    assert states[..|states|] == states;
  }

  /** The conditions under which construction succeeds. */
  predicate Accepts(hilbert: Interface, mat: Matrix, sites: seq<int>)
  {
    && hilbert.isDiscrete
    && (forall k :: 0 <= k < |sites| ==> 0 <= sites[k] < hilbert.size)
    && |mat| == Pow(|hilbert.localStates|, |sites|)
    && SquareRows(mat)
  }

  /** The three output vectors of FindConn and AddConn, owned by the caller. */
  class ConnBuffers {
    var mel: seq<Complex>
    var connectors: seq<seq<int>>
    var newconfs: seq<seq<real>>

    constructor ()
      ensures mel == [] && connectors == [] && newconfs == []
    {
      mel, connectors, newconfs := [], [], [];
    }

    /** The three vectors have one entry per connection. */
    predicate Aligned()
      reads this
    {
      |mel| == |connectors| == |newconfs|
    }
  }

  class LocalOperator {
    const hilbert: Interface
    const mat: Matrix
    const sites: seq<int>
    const invstate: map<seq<real>, int>
    const localsize: int
    const states: seq<seq<real>>
    const connected: seq<seq<int>>
    /** The index tuples in the order the enumeration produced them, before each index
        is replaced by its local state. */
    ghost const order: seq<seq<int>>

    /** Everything construction establishes. */
    ghost predicate Valid()
    {
      Shaped() && Numbered()
    }

    /** The local states are numbered by the enumeration of index tuples. */
    ghost predicate Numbered()
    {
      && localsize == |hilbert.localStates|
      && IsVariationOrder(order, |sites|, localsize)
      && |states| == |order|
      && (forall i :: 0 <= i < |states| ==> states[i] == Lookup(hilbert.localStates, order[i]))
    }

    /** The checks of construction, the connected columns and the inverse numbering:
        what the connection queries rely on. */
    ghost predicate Shaped()
    {
      && hilbert.isDiscrete
      && |sites| > 0
      && (forall k :: 0 <= k < |sites| ==> 0 <= sites[k] < hilbert.size)
      && localsize == |hilbert.localStates| >= 1
      && |mat| == Pow(localsize, |sites|)
      && SquareRows(mat)
      && |connected| == |mat|
      && (forall i :: 0 <= i < |mat| ==> IsConnectedRow(mat[i], i, connected[i]))
      && |states| == |mat|
      && IsInverse(invstate, states)
    }

    constructor Make(hilbert: Interface, mat: Matrix, sites: seq<int>, invstate: map<seq<real>, int>,
                     states: seq<seq<real>>, connected: seq<seq<int>>, ghost order: seq<seq<int>>)
      ensures this.hilbert == hilbert && this.mat == mat && this.sites == sites
      ensures this.invstate == invstate && this.localsize == |hilbert.localStates|
      ensures this.states == states && this.connected == connected && this.order == order
    {
      this.order := order;
      this.hilbert, this.mat, this.sites := hilbert, mat, sites;
      this.invstate, this.localsize := invstate, |hilbert.localStates|;
      this.states, this.connected := states, connected;
    }

    /** LocalOperator(hilbert, mat, sites) and Init. It rejects a continuous space,
        a site outside [0, Size()), a matrix whose height is not LocalSize^|sites|, and a
        row whose length differs from the height (empty rows included). */
    static method New(hilbert: Interface, mat: Matrix, sites: seq<int>) returns (r: Result<LocalOperator>)
      // max_element of an empty site list is undefined behaviour in the source.
      requires |sites| > 0
      // Every local space of the model has at least one local state.
      requires |hilbert.localStates| >= 1
      ensures r.Ok? <==> Accepts(hilbert, mat, sites)
      ensures r.Ok? ==> r.value.Valid() && r.value.hilbert == hilbert && r.value.mat == mat && r.value.sites == sites
    {
      if !hilbert.isDiscrete {
        return Err(InvalidInput(InfiniteLocalSpace));
      }
      var lo, hi := MinMax(sites);
      if hi >= hilbert.size || lo < 0 {
        return Err(InvalidInput(InvalidSiteList));
      }
      var localStates := hilbert.localStates;
      var localsize := |localStates|;
      if |mat| != Pow(localsize, |sites|) {
        return Err(InvalidInput(InconsistentSize));
      }
      var conn := ConnectedColumns(mat);
      if conn.Err? {
        return Err(conn.error);
      }
      var tuples := Tuples(|sites|, localsize);
      TuplesIsVariationOrder(|sites|, localsize);
      var states := StatesFromIndices(tuples, |sites|, localStates);
      var inv := InverseMap(states);
      var op := new LocalOperator.Make(hilbert, mat, sites, inv, states, conn.value, tuples);
      return Ok(op);
    }

    /** The local tuple of v at the acting sites, in site-list order. */
    function Gather(v: seq<real>): (t: seq<real>)
      requires Shaped() && |v| == hilbert.size
      ensures |t| == |sites| && forall k :: 0 <= k < |sites| ==> t[k] == v[sites[k]]
    {
      seq(|sites|, k requires 0 <= k < |sites| => v[sites[k]])
    }

    /** StateNumber: gathers v at the acting sites and looks the tuple up; the lookup
        fails (std::map::at) when the tuple is not one of the local states. */
    method StateNumber(v: seq<real>) returns (r: Result<int>)
      requires Shaped() && |v| == hilbert.size
      ensures r.Ok? <==> Gather(v) in states
      ensures r.Ok? ==> 0 <= r.value < |states| && states[r.value] == Gather(v)
      ensures r.Ok? ==> r.value == invstate[Gather(v)]
    {
      var state: seq<real> := [];
      for i := 0 to |sites|
        invariant |state| == i && forall k :: 0 <= k < i ==> state[k] == v[sites[k]]
      {
        state := state + [v[sites[i]]];
      }
      assert state == Gather(v);
      if state !in invstate {
        return Err(OutOfRange(MissingState));
      }
      return Ok(invstate[state]);
    }

    /** The basis-state number of v, when its local tuple is one of the local states. */
    function StateIndex(v: seq<real>): (st: int)
      requires Shaped() && |v| == hilbert.size && Gather(v) in states
      ensures 0 <= st < |states| && states[st] == Gather(v)
    {
      invstate[Gather(v)]
    }

    /** The matrix elements AddConn appends for basis state st: one per connected column. */
    function ConnMels(st: int): (r: seq<Complex>)
      requires Shaped() && 0 <= st < |mat|
      ensures |r| == |connected[st]|
      ensures forall k :: 0 <= k < |r| ==> r[k] == mat[st][connected[st][k]] && IsNonZero(r[k])
    {
      seq(|connected[st]|, k requires 0 <= k < |connected[st]| => mat[st][connected[st][k]])
    }

    /** The new local configurations AddConn appends for basis state st. */
    function ConnConfs(st: int): (r: seq<seq<real>>)
      requires Shaped() && 0 <= st < |mat|
      ensures |r| == |connected[st]|
      ensures forall k :: 0 <= k < |r| ==> r[k] == states[connected[st][k]]
    {
      seq(|connected[st]|, k requires 0 <= k < |connected[st]| => states[connected[st][k]])
    }

    /** The off-diagonal loop of AddConn: one entry per connected column of row st. */
    method AppendConnections(st: int, buf: ConnBuffers)
      requires Shaped() && 0 <= st < |mat|
      modifies buf
      ensures buf.mel == old(buf.mel) + ConnMels(st)
      ensures buf.connectors == old(buf.connectors) + Repeat(sites, |connected[st]|)
      ensures buf.newconfs == old(buf.newconfs) + ConnConfs(st)
    {
      var cs := connected[st];
      for k := 0 to |cs|
        invariant buf.mel == old(buf.mel) + ConnMels(st)[..k]
        invariant buf.connectors == old(buf.connectors) + Repeat(sites, k)
        invariant buf.newconfs == old(buf.newconfs) + ConnConfs(st)[..k]
      {
        RepeatSnoc(sites, k);
        buf.connectors := buf.connectors + [sites];
        buf.newconfs := buf.newconfs + [states[cs[k]]];
        buf.mel := buf.mel + [mat[st][cs[k]]];
      }
      assert ConnMels(st)[..|cs|] == ConnMels(st) && ConnConfs(st)[..|cs|] == ConnConfs(st);
    }

    /** AddConn: makes sure entry 0 exists (an empty mel becomes [0] with an empty
        connector and configuration), adds the diagonal element into mel[0], then appends
        one entry per connected column. A tuple that is not a local state fails after the
        first step, as the exception from StateNumber does. */
    method AddConn(v: seq<real>, buf: ConnBuffers) returns (o: Outcome)
      requires Shaped() && |v| == hilbert.size
      modifies buf
      ensures var m0 := if |old(buf.mel)| == 0 then [Zero] else old(buf.mel);
              var c0 := if |old(buf.mel)| == 0 then [[]] else old(buf.connectors);
              var n0 := if |old(buf.mel)| == 0 then [[]] else old(buf.newconfs);
              && (o.Pass? <==> Gather(v) in states)
              && (o.Fail? ==> buf.mel == m0 && buf.connectors == c0 && buf.newconfs == n0)
              && (o.Pass? ==>
                    var st := StateIndex(v);
                    && buf.mel == [Add(m0[0], mat[st][st])] + m0[1..] + ConnMels(st)
                    && buf.connectors == c0 + Repeat(sites, |connected[st]|)
                    && buf.newconfs == n0 + ConnConfs(st))
    {
      ghost var m0 := if |buf.mel| == 0 then [Zero] else buf.mel;
      ghost var c0 := if |buf.mel| == 0 then [[]] else buf.connectors;
      ghost var n0 := if |buf.mel| == 0 then [[]] else buf.newconfs;
      if |buf.mel| == 0 {
        buf.connectors := [[]];
        buf.newconfs := [[]];
        buf.mel := [Zero];
      }
      assert buf.mel == m0 && buf.connectors == c0 && buf.newconfs == n0;
      var st1 := StateNumber(v);
      if st1.Err? {
        return Fail(st1.error);
      }
      var st := st1.value;
      assert states[invstate[Gather(v)]] == Gather(v);
      buf.mel := [Add(buf.mel[0], mat[st][st])] + buf.mel[1..];
      AppendConnections(st, buf);
      o := Pass;
    }

    /** FindConn: clears the three vectors, then AddConn. Entry 0 is the diagonal element
        with an empty connector; one entry per connected column follows. */
    method FindConn(v: seq<real>, buf: ConnBuffers) returns (o: Outcome)
      requires Shaped() && |v| == hilbert.size
      modifies buf
      ensures buf.Aligned()
      ensures o.Pass? <==> Gather(v) in states
      ensures o.Fail? ==> buf.mel == [Zero] && buf.connectors == [[]] && buf.newconfs == [[]]
      ensures o.Pass? ==>
                var st := StateIndex(v);
                && buf.mel == [mat[st][st]] + ConnMels(st)
                && buf.connectors == [[]] + Repeat(sites, |connected[st]|)
                && buf.newconfs == [[]] + ConnConfs(st)
    {
      buf.connectors := [];
      buf.newconfs := [];
      buf.mel := [];
      o := AddConn(v, buf);
      if o.Pass? {
        AddZero(mat[invstate[Gather(v)]][invstate[Gather(v)]]);
      }
    }
  }

  /** With distinct local states the numbering is a bijection: invstate undoes states. */
  lemma NumberingIsBijective(op: LocalOperator)
    requires op.Valid() && Distinct(op.hilbert.localStates)
    ensures Distinct(op.states)
    ensures forall k :: 0 <= k < |op.states| ==> op.invstate[op.states[k]] == k
    ensures forall s :: s in op.invstate ==> op.states[op.invstate[s]] == s
  {
    forall i, j | 0 <= i < j < |op.states| ensures op.states[i] != op.states[j] {
      LookupDistinct(op.hilbert.localStates, op.order[i], op.order[j]);
    }
    forall k | 0 <= k < |op.states| ensures op.invstate[op.states[k]] == k {
      assert op.states[op.invstate[op.states[k]]] == op.states[k];
    }
  }

  /** Every numbered state is a tuple of local states of the Hilbert space, and there are
      LocalSize^|sites| of them. */
  lemma StatesAreLocal(op: LocalOperator)
    requires op.Valid()
    ensures |op.states| == Pow(op.localsize, |op.sites|)
    ensures forall i, k :: 0 <= i < |op.states| && 0 <= k < |op.states[i]| ==> op.states[i][k] in op.hilbert.localStates
    ensures forall i :: 0 <= i < |op.states| ==> |op.states[i]| == |op.sites|
  {
  }

  /** The smallest and largest entry of a non-empty list, as min_element and max_element find them. */
  method MinMax(s: seq<int>) returns (lo: int, hi: int)
    requires |s| > 0
    ensures lo in s && hi in s
    ensures forall k :: 0 <= k < |s| ==> lo <= s[k] <= hi
  {
    lo, hi := s[0], s[0];
    for i := 1 to |s|
      invariant lo in s[..i] && hi in s[..i]
      invariant forall k :: 0 <= k < i ==> lo <= s[k] <= hi
    {
      if s[i] < lo {
        lo := s[i];
      }
      if s[i] > hi {
        hi := s[i];
      }
    }
  }
}
