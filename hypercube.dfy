/** The hypercubic lattice (class netket::Hypercube): L^ndim sites, with edges between
    sites one step apart along one axis, wrapping around when boundaries are periodic. */
module Hypercubes {
  import opened Wrappers
  import opened Seqs
  import opened Numbers
  import opened Variations
  import opened GraphFunctions

  // Error messages.
  const SideTooSmall := "Side length must be at least 1"
  const DimensionTooSmall := "Dimension must be at least 1"
  const PbcTooSmall := "L<=2 hypercubes cannot have periodic boundary conditions"
  const NoTranslations := "Cannot generate translation symmetries in the hypercube without PBC"
  const MissingCoordinate := "map::at"

  /** CheckArgs: a side of at least 1, at least one dimension, and no periodic side of 2 or less. */
  function CheckArgs(L: int, ndim: int, pbc: bool): (o: Outcome)
    ensures o.Pass? <==> L >= 1 && ndim >= 1 && !(pbc && L <= 2)
    ensures o.Fail? ==> o.error.InvalidInput?
  {
    if L <= 0 then Fail(InvalidInput(SideTooSmall))
    else if ndim <= 0 then Fail(InvalidInput(DimensionTooSmall))
    else if pbc && L <= 2 then Fail(InvalidInput(PbcTooSmall))
    else Pass
  }

  // ------------------------------------------------------------------------
  // Coordinates.

  /** The +1 neighbour along axis d with periodic wrap: (x + 1) % L. */
  function Up(a: seq<int>, d: int, L: int): seq<int>
    requires 0 <= d < |a| && L >= 1
  {
    a[d := (a[d] + 1) % L]
  }

  /** The -1 neighbour along axis d with periodic wrap, written as the source does: ((x - 1) % L + L) % L. */
  function Down(a: seq<int>, d: int, L: int): seq<int>
    requires 0 <= d < |a| && L >= 1
  {
    a[d := CppMod(CppMod(a[d] - 1, L) + L, L)]
  }

  /** The +1 neighbour along axis d without wrap. */
  function Step(a: seq<int>, d: int): seq<int>
    requires 0 <= d < |a|
  {
    a[d := a[d] + 1]
  }

  /** Entry k of a periodic adjacency row: for axis k / 2, first the +1 and then the -1 neighbour. */
  function PbcNeighbour(a: seq<int>, k: int, L: int): seq<int>
    requires 0 <= k < 2 * |a| && L >= 1
  {
    if k % 2 == 0 then Up(a, k / 2, L) else Down(a, k / 2, L)
  }

  lemma MulAtLeast(m: int, L: int)
    requires m >= 1 && L >= 1
    ensures m * L >= L
  {
  }

  lemma MulZero(m: int, L: int)
    requires L >= 1 && -L < m * L < L
    ensures m == 0
  {
    if m >= 1 {
      MulAtLeast(m, L);
    } else if m <= -1 {
      MulAtLeast(-m, L);
    }
  }

  /** The remainder is the r of any decomposition a == q * L + r with 0 <= r < L. */
  lemma ModUnique(a: int, L: int, q: int, r: int)
    requires L >= 1 && 0 <= r < L && a == q * L + r
    ensures a % L == r
  {
    var q', r' := a / L, a % L;
    assert a == q' * L + r';
    assert (q' - q) * L == r - r';
    MulZero(q' - q, L);
  }

  /** The two periodic steps of a coordinate x in [0, L). */
  lemma PeriodicSteps(x: int, L: int)
    requires L >= 1 && 0 <= x < L
    ensures (x + 1) % L == (if x + 1 < L then x + 1 else 0)
    ensures CppMod(CppMod(x - 1, L) + L, L) == (if x >= 1 then x - 1 else L - 1)
  {
    if x + 1 < L {
      ModUnique(x + 1, L, 0, x + 1);
    } else {
      ModUnique(x + 1, L, 1, 0);
    }
    if x >= 1 {
      ModUnique(x - 1, L, 0, x - 1);
      ModUnique(x - 1 + L, L, 1, x - 1);
    } else if L >= 2 {
      ModUnique(L - 1, L, 0, L - 1);
    } else {
      assert CppMod(-1, L) == 0;
      ModUnique(1, 1, 1, 0);
    }
  }

  lemma WrapInBox(a: seq<int>, d: int, n: nat, L: nat)
    requires InBox(a, n, L) && 0 <= d < n && L >= 1
    ensures InBox(Up(a, d, L), n, L) && InBox(Down(a, d, L), n, L)
    ensures Up(a, d, L) == (if a[d] + 1 < L then Step(a, d) else a[d := 0])
    ensures Down(a, d, L) == (if a[d] >= 1 then a[d := a[d] - 1] else a[d := L - 1])
    ensures Down(Up(a, d, L), d, L) == a && Up(Down(a, d, L), d, L) == a
  {
    PeriodicSteps(a[d], L);
    var u, w := Up(a, d, L), Down(a, d, L);
    PeriodicSteps(u[d], L);
    PeriodicSteps(w[d], L);
    assert Down(u, d, L) == a;
    assert Up(w, d, L) == a;
  }

  /** (a + b) % L along every axis. */
  function Translate(a: seq<int>, b: seq<int>, L: int): (t: seq<int>)
    requires |a| == |b| && L >= 1
    ensures |t| == |a| && forall d :: 0 <= d < |a| ==> t[d] == (a[d] + b[d]) % L
  {
    seq(|a|, d requires 0 <= d < |a| => (a[d] + b[d]) % L)
  }

  lemma ModAddInjective(a: int, x: int, y: int, L: int)
    requires L >= 1 && 0 <= x < L && 0 <= y < L
    requires (a + x) % L == (a + y) % L
    ensures x == y
  {
    var qx, qy := (a + x) / L, (a + y) / L;
    assert a + x == qx * L + (a + x) % L;
    assert a + y == qy * L + (a + y) % L;
    assert (qx - qy) * L == x - y;
    MulZero(qx - qy, L);
  }

  // ------------------------------------------------------------------------
  // Lattice points and their numbering.

  /** sites and coord2sites number the lattice: sites is the enumeration, coord2sites its inverse. */
  ghost predicate Lattice(sites: seq<seq<int>>, c2s: map<seq<int>, int>, ndim: nat, L: nat)
  {
    && IsVariationOrder(sites, ndim, L)
    && (forall c :: c in c2s <==> InBox(c, ndim, L))
    && (forall k :: 0 <= k < |sites| ==> sites[k] in c2s && c2s[sites[k]] == k)
    && Numbering(sites, c2s, ndim, L)
  }

  /** Every point of the box has a number, and it is the point's position in sites. */
  ghost predicate Numbering(sites: seq<seq<int>>, c2s: map<seq<int>, int>, ndim: nat, L: nat)
  {
    forall c :: InBox(c, ndim, L) ==> c in c2s && 0 <= c2s[c] < |sites| && sites[c2s[c]] == c
  }

  /**
   * GenerateLatticePoints: the do/while over next_variation. e holds the
   * successive values of the coordinate vector; next_variation returns false
   * once the last one is reached.
   */
  method GenerateLatticePoints(ndim: nat, L: nat, e: seq<seq<int>>)
    returns (sites: seq<seq<int>>, c2s: map<seq<int>, int>, nsites: int)
    requires L >= 1 && IsVariationOrder(e, ndim, L)
    ensures Lattice(sites, c2s, ndim, L)
    ensures nsites == |sites| == Pow(L, ndim) && sites[0] == Zeros(ndim)
    ensures sites == e
  {
    sites, c2s, nsites := [], map[], 0;
    var k := 0;
    var more := true;
    while more
      invariant 0 <= k <= |e| && (more <==> k < |e|)
      invariant nsites == k && sites == e[..k]
      invariant forall c :: c in c2s <==> c in e[..k]
      invariant forall j :: 0 <= j < k ==> e[j] in c2s && c2s[e[j]] == j
      decreases |e| - k
    {
      var coord := e[k];
      sites := sites + [coord];
      c2s := c2s[coord := nsites];
      nsites := nsites + 1;
      k := k + 1;
      more := k < |e|;
    }
    assert e[..|e|] == e;
    VariationCount(e, ndim, L);
  }

  // ------------------------------------------------------------------------
  // Adjacency.

  /** Row i of the periodic adjacency list: 2 ndim entries, the +1 and -1 neighbours axis by axis. */
  ghost predicate PbcRow(row: seq<int>, sites: seq<seq<int>>, i: int, ndim: nat, L: nat)
    requires 0 <= i < |sites| && |sites[i]| == ndim && L >= 1
  {
    |row| == 2 * ndim &&
    forall k :: 0 <= k < |row| ==> 0 <= row[k] < |sites| && sites[row[k]] == PbcNeighbour(sites[i], k, L)
  }

  /** Two coordinates one step apart along one axis, without wrap. */
  ghost predicate OpenAdjacent(a: seq<int>, b: seq<int>)
  {
    |a| == |b| && exists d :: 0 <= d < |a| && (b == Step(a, d) || a == Step(b, d))
  }

  /** The adjacency list GenerateAdjacencyList builds. */
  ghost predicate AdjacencyOf(adj: seq<seq<int>>, sites: seq<seq<int>>, ndim: nat, L: nat, pbc: bool)
    requires L >= 1 && forall k :: 0 <= k < |sites| ==> |sites[k]| == ndim
  {
    |adj| == |sites| &&
    (pbc ==> forall i :: 0 <= i < |sites| ==> PbcRow(adj[i], sites, i, ndim, L)) &&
    (!pbc ==> forall i :: 0 <= i < |sites| ==> OpenRow(adj[i], sites, i))
  }

  /** Row i of the open adjacency list holds exactly the sites one unit away from site i, each once. */
  ghost predicate OpenRow(row: seq<int>, sites: seq<seq<int>>, i: int)
    requires 0 <= i < |sites|
  {
    Distinct(row) &&
    forall z :: z in row <==> 0 <= z < |sites| && OpenAdjacent(sites[i], sites[z])
  }

  /** No row of the list repeats a site. */
  ghost predicate RowsDistinct(adj: seq<seq<int>>)
  {
    forall x :: 0 <= x < |adj| ==> Distinct(adj[x])
  }

  /** The open edges added so far: those pushed while visiting sites before i, and axes before dd of site i. */
  ghost predicate OpenSoFar(adj: seq<seq<int>>, sites: seq<seq<int>>, ndim: nat, i: int, dd: int)
    requires forall k :: 0 <= k < |sites| ==> |sites[k]| == ndim
  {
    |adj| == |sites| &&
    forall x, z :: 0 <= x < |sites| ==>
      (z in adj[x] <==> 0 <= z < |sites| && OpenLinked(sites, ndim, x, z, i, dd))
  }

  ghost predicate OpenLinked(sites: seq<seq<int>>, ndim: nat, x: int, z: int, i: int, dd: int)
    requires 0 <= x < |sites| && 0 <= z < |sites| && |sites[x]| == ndim && |sites[z]| == ndim
  {
    exists d :: 0 <= d < ndim &&
      (((x < i || (x == i && d < dd)) && sites[z] == Step(sites[x], d)) ||
       ((z < i || (z == i && d < dd)) && sites[x] == Step(sites[z], d)))
  }

  /** The periodic branch of the loop for site i: the +1 and -1 neighbours, axis by axis. */
  method PbcNeighbours(L: nat, ndim: nat, sites: seq<seq<int>>, c2s: map<seq<int>, int>, i: int)
    returns (row: seq<int>)
    requires L >= 1 && Numbering(sites, c2s, ndim, L) && 0 <= i < |sites| && InBox(sites[i], ndim, L)
    ensures PbcRow(row, sites, i, ndim, L)
  {
    var neigh, neigh2 := sites[i], sites[i];
    row := [];
    for d := 0 to ndim
      invariant neigh == sites[i] && neigh2 == sites[i] && |row| == 2 * d
      invariant forall k :: 0 <= k < |row| ==>
                  0 <= row[k] < |sites| && sites[row[k]] == PbcNeighbour(sites[i], k, L)
    {
      neigh := neigh[d := (sites[i][d] + 1) % L];
      neigh2 := neigh2[d := CppMod(CppMod(sites[i][d] - 1, L) + L, L)];
      WrapInBox(sites[i], d, ndim, L);
      assert neigh == PbcNeighbour(sites[i], 2 * d, L);
      assert neigh2 == PbcNeighbour(sites[i], 2 * d + 1, L);
      var site, site2 := c2s[neigh], c2s[neigh2];
      row := row + [site, site2];
      neigh := neigh[d := sites[i][d]];
      neigh2 := neigh2[d := sites[i][d]];
    }
  }

  /** Adding the open edge between site i and its +1 neighbour ns along axis dd. */
  lemma OpenEdgeStep(adj: seq<seq<int>>, sites: seq<seq<int>>, ndim: nat, L: nat, i: int, dd: int, ns: int)
    requires IsVariationOrder(sites, ndim, L) && 0 <= i < |sites| && 0 <= dd < ndim
    requires OpenSoFar(adj, sites, ndim, i, dd)
    requires 0 <= ns < |sites| && sites[ns] == Step(sites[i], dd)
    ensures OpenSoFar(adj[i := adj[i] + [ns]][ns := adj[ns] + [i]], sites, ndim, i, dd + 1)
  {
    assert ns != i by {
      assert sites[ns][dd] != sites[i][dd];
    }
    var adj' := adj[i := adj[i] + [ns]][ns := adj[ns] + [i]];
    forall x, z | 0 <= x < |sites|
      ensures z in adj'[x] <==> 0 <= z < |sites| && OpenLinked(sites, ndim, x, z, i, dd + 1)
    {
      assert InBox(sites[x], ndim, L);
      if 0 <= z < |sites| {
        assert InBox(sites[z], ndim, L);
        if OpenLinked(sites, ndim, x, z, i, dd + 1) && !OpenLinked(sites, ndim, x, z, i, dd) {
          var d :| 0 <= d < ndim &&
            (((x < i || (x == i && d < dd + 1)) && sites[z] == Step(sites[x], d)) ||
             ((z < i || (z == i && d < dd + 1)) && sites[x] == Step(sites[z], d)));
          assert d == dd;
          if x == i && sites[z] == Step(sites[x], d) {
            assert sites[z] == sites[ns];
          } else {
            assert z == i && sites[x] == sites[ns];
          }
        }
        if x == i && z == ns {
          assert OpenLinked(sites, ndim, x, z, i, dd + 1) by {
            assert sites[z] == Step(sites[x], dd);
          }
        }
        if x == ns && z == i {
          assert OpenLinked(sites, ndim, x, z, i, dd + 1) by {
            assert sites[x] == Step(sites[z], dd);
          }
        }
        if OpenLinked(sites, ndim, x, z, i, dd) {
          var d :| 0 <= d < ndim &&
            (((x < i || (x == i && d < dd)) && sites[z] == Step(sites[x], d)) ||
             ((z < i || (z == i && d < dd)) && sites[x] == Step(sites[z], d)));
          assert OpenLinked(sites, ndim, x, z, i, dd + 1);
        }
      }
    }
  }

  /** The open edge between site i and its +1 neighbour ns along axis dd has not been pushed yet,
      in either direction: it is the first time the loop meets that pair. */
  lemma OpenEdgeFresh(adj: seq<seq<int>>, sites: seq<seq<int>>, ndim: nat, L: nat, i: int, dd: int, ns: int)
    requires IsVariationOrder(sites, ndim, L) && 0 <= i < |sites| && 0 <= dd < ndim
    requires OpenSoFar(adj, sites, ndim, i, dd)
    requires 0 <= ns < |sites| && sites[ns] == Step(sites[i], dd)
    ensures ns != i && ns !in adj[i] && i !in adj[ns]
  {
    assert InBox(sites[i], ndim, L) && InBox(sites[ns], ndim, L);
    assert ns != i by {
      assert sites[ns][dd] != sites[i][dd];
    }
    forall d | 0 <= d < ndim
      ensures sites[i] != Step(sites[ns], d)
      ensures d != dd ==> sites[ns] != Step(sites[i], d)
    {
      assert sites[ns][dd] == sites[i][dd] + 1;
      if d != dd {
        assert Step(sites[i], d)[dd] == sites[i][dd];
      } else {
        assert Step(sites[ns], d)[dd] == sites[i][dd] + 2;
      }
    }
    assert !OpenLinked(sites, ndim, i, ns, i, dd);
    assert !OpenLinked(sites, ndim, ns, i, i, dd);
  }

  /** Appending a new element keeps a sequence free of repeats. */
  lemma DistinctAppend(s: seq<int>, x: int)
    requires Distinct(s) && x !in s
    ensures Distinct(s + [x])
  {
  }

  /** Site i at the top along axis dd has no +1 neighbour, so nothing is added. */
  lemma OpenNoEdgeStep(adj: seq<seq<int>>, sites: seq<seq<int>>, ndim: nat, L: nat, i: int, dd: int)
    requires IsVariationOrder(sites, ndim, L) && 0 <= i < |sites| && 0 <= dd < ndim
    requires OpenSoFar(adj, sites, ndim, i, dd)
    requires sites[i][dd] + 1 >= L
    ensures OpenSoFar(adj, sites, ndim, i, dd + 1)
  {
    forall x, z | 0 <= x < |sites| && 0 <= z < |sites| && OpenLinked(sites, ndim, x, z, i, dd + 1)
      ensures OpenLinked(sites, ndim, x, z, i, dd)
    {
      assert InBox(sites[x], ndim, L) && InBox(sites[z], ndim, L);
      var d :| 0 <= d < ndim &&
        (((x < i || (x == i && d < dd + 1)) && sites[z] == Step(sites[x], d)) ||
         ((z < i || (z == i && d < dd + 1)) && sites[x] == Step(sites[z], d)));
      assert sites[z] != Step(sites[i], dd) by {
        assert sites[z][dd] < L;
      }
      assert sites[x] != Step(sites[i], dd) by {
        assert sites[x][dd] < L;
      }
    }
  }

  /** The open branch of the loop for site i: an edge, in both directions, to every +1 neighbour inside the box. */
  method OpenNeighbours(L: nat, ndim: nat, sites: seq<seq<int>>, c2s: map<seq<int>, int>, i: int,
                        adj0: seq<seq<int>>)
    returns (adj: seq<seq<int>>)
    requires L >= 1 && Lattice(sites, c2s, ndim, L) && 0 <= i < |sites|
    requires OpenSoFar(adj0, sites, ndim, i, 0) && RowsDistinct(adj0)
    ensures OpenSoFar(adj, sites, ndim, i, ndim) && RowsDistinct(adj)
  {
    assert InBox(sites[i], ndim, L);
    adj := adj0;
    var neigh := sites[i];
    for d := 0 to ndim
      invariant neigh == sites[i]
      invariant OpenSoFar(adj, sites, ndim, i, d) && RowsDistinct(adj)
    {
      if sites[i][d] + 1 < L {
        neigh := neigh[d := sites[i][d] + 1];
        assert InBox(neigh, ndim, L);
        var site := c2s[neigh];
        OpenEdgeStep(adj, sites, ndim, L, i, d, site);
        OpenEdgeFresh(adj, sites, ndim, L, i, d, site);
        DistinctAppend(adj[i], site);
        DistinctAppend(adj[site], i);
        adj := adj[i := adj[i] + [site]];
        adj := adj[site := adj[site] + [i]];
      } else {
        OpenNoEdgeStep(adj, sites, ndim, L, i, d);
      }
      neigh := neigh[d := sites[i][d]];
    }
  }

  lemma OpenNextSite(adj: seq<seq<int>>, sites: seq<seq<int>>, ndim: nat, i: int)
    requires forall k :: 0 <= k < |sites| ==> |sites[k]| == ndim
    requires OpenSoFar(adj, sites, ndim, i, ndim)
    ensures OpenSoFar(adj, sites, ndim, i + 1, 0)
  {
    forall x, z | 0 <= x < |sites| && 0 <= z < |sites|
      ensures OpenLinked(sites, ndim, x, z, i, ndim) <==> OpenLinked(sites, ndim, x, z, i + 1, 0)
    {
      if OpenLinked(sites, ndim, x, z, i + 1, 0) {
        var d :| 0 <= d < ndim &&
          (((x < i + 1 || (x == i + 1 && d < 0)) && sites[z] == Step(sites[x], d)) ||
           ((z < i + 1 || (z == i + 1 && d < 0)) && sites[x] == Step(sites[z], d)));
        assert OpenLinked(sites, ndim, x, z, i, ndim);
      }
      if OpenLinked(sites, ndim, x, z, i, ndim) {
        var d :| 0 <= d < ndim &&
          (((x < i || (x == i && d < ndim)) && sites[z] == Step(sites[x], d)) ||
           ((z < i || (z == i && d < ndim)) && sites[x] == Step(sites[z], d)));
        assert OpenLinked(sites, ndim, x, z, i + 1, 0);
      }
    }
  }

  lemma OpenAll(adj: seq<seq<int>>, sites: seq<seq<int>>, ndim: nat, L: nat)
    requires L >= 1 && forall k :: 0 <= k < |sites| ==> |sites[k]| == ndim
    requires OpenSoFar(adj, sites, ndim, |sites|, 0) && RowsDistinct(adj)
    ensures AdjacencyOf(adj, sites, ndim, L, false)
  {
    forall i, z | 0 <= i < |sites| && 0 <= z < |sites|
      ensures OpenLinked(sites, ndim, i, z, |sites|, 0) <==> OpenAdjacent(sites[i], sites[z])
    {
      if OpenAdjacent(sites[i], sites[z]) {
        var d :| 0 <= d < ndim && (sites[z] == Step(sites[i], d) || sites[i] == Step(sites[z], d));
        assert OpenLinked(sites, ndim, i, z, |sites|, 0);
      }
    }
    forall i | 0 <= i < |sites|
      ensures OpenRow(adj[i], sites, i)
    {
    }
  }

  /** GenerateAdjacencyList: one pass over the sites, periodic or open. */
  method GenerateAdjacencyList(L: nat, ndim: nat, pbc: bool, sites: seq<seq<int>>, c2s: map<seq<int>, int>)
    returns (adj: seq<seq<int>>)
    requires L >= 1 && Lattice(sites, c2s, ndim, L)
    ensures AdjacencyOf(adj, sites, ndim, L, pbc)
  {
    assert forall k :: 0 <= k < |sites| ==> InBox(sites[k], ndim, L);
    adj := seq(|sites|, _ => []);
    for i := 0 to |sites|
      invariant |adj| == |sites|
      invariant pbc ==> forall j :: 0 <= j < i ==> PbcRow(adj[j], sites, j, ndim, L)
      invariant pbc ==> forall j :: i <= j < |sites| ==> adj[j] == []
      invariant !pbc ==> OpenSoFar(adj, sites, ndim, i, 0) && RowsDistinct(adj)
    {
      if pbc {
        assert InBox(sites[i], ndim, L);
        var row := PbcNeighbours(L, ndim, sites, c2s, i);
        adj := adj[i := adj[i] + row];
      } else {
        adj := OpenNeighbours(L, ndim, sites, c2s, i, adj);
        OpenNextSite(adj, sites, ndim, i);
      }
    }
    if !pbc {
      OpenAll(adj, sites, ndim, L);
    }
  }

  // ------------------------------------------------------------------------
  // Translation symmetry.

  /** The permutation table: row i sends site p to the site at coordinates (sites[i] + sites[p]) mod L. */
  ghost predicate IsTranslationTable(t: seq<seq<int>>, sites: seq<seq<int>>, L: nat)
    requires L >= 1 && forall k :: 0 <= k < |sites| ==> |sites[k]| == |sites[0]|
  {
    |t| == |sites| &&
    forall i :: 0 <= i < |sites| ==>
      |t[i]| == |sites| &&
      forall p :: 0 <= p < |sites| ==>
        0 <= t[i][p] < |sites| && sites[t[i][p]] == Translate(sites[i], sites[p], L)
  }

  /** Row i of the translation table: entry p is the site at sites[i] + sites[p], modulo L in every coordinate.
      The two buffers are reused from row to row, as in the source. */
  method TranslationRow(L: nat, ndim: nat, sites: seq<seq<int>>, c2s: map<seq<int>, int>, i: int,
                        transl0: seq<int>, ts0: seq<int>)
    returns (transl: seq<int>, ts: seq<int>)
    requires L >= 1 && Lattice(sites, c2s, ndim, L) && 0 <= i < |sites|
    requires |transl0| == |sites| && |ts0| == ndim
    ensures |transl| == |sites| && |ts| == ndim
    ensures forall p :: 0 <= p < |sites| ==>
              0 <= transl[p] < |sites| && sites[transl[p]] == Translate(sites[i], sites[p], L)
  {
    assert forall k :: 0 <= k < |sites| ==> InBox(sites[k], ndim, L);
    var n := |sites|;
    transl, ts := transl0, ts0;
    for p := 0 to n
      invariant |transl| == n && |ts| == ndim
      invariant forall q :: 0 <= q < p ==>
                  0 <= transl[q] < n && sites[transl[q]] == Translate(sites[i], sites[q], L)
    {
      ts := TranslatePoint(sites[i], sites[p], L, ts);
      assert InBox(ts, ndim, L);
      transl := transl[p := c2s[ts]];
    }
  }

  /** The innermost loop: ts[d] := (a[d] + b[d]) % L for every axis d. */
  method TranslatePoint(a: seq<int>, b: seq<int>, L: nat, ts0: seq<int>) returns (ts: seq<int>)
    requires |a| == |b| == |ts0| && L >= 1
    ensures ts == Translate(a, b, L)
  {
    ts := ts0;
    for d := 0 to |a|
      invariant |ts| == |a|
      invariant forall e :: 0 <= e < d ==> ts[e] == (a[e] + b[e]) % L
      invariant forall e :: d <= e < |a| ==> ts[e] == ts0[e]
    {
      ts := ts[d := (a[d] + b[d]) % L];
    }
  }

  /** SymmetryTable: refused without periodic boundaries, otherwise the translation table. */
  method SymmetryTable(L: nat, ndim: nat, pbc: bool, sites: seq<seq<int>>, c2s: map<seq<int>, int>)
    returns (r: Result<seq<seq<int>>>)
    requires L >= 1 && Lattice(sites, c2s, ndim, L)
    ensures r.Ok? <==> pbc
    ensures r.Err? ==> r.error.InvalidInput?
    ensures r.Ok? ==> IsTranslationTable(r.value, sites, L)
  {
    if !pbc {
      return Err(InvalidInput(NoTranslations));
    }
    var n := |sites|;
    var permtable: seq<seq<int>> := [];
    var transl: seq<int> := seq(n, _ => 0);
    var ts: seq<int> := seq(ndim, _ => 0);
    for i := 0 to n
      invariant |transl| == n && |ts| == ndim && |permtable| == i
      invariant forall j :: 0 <= j < i ==>
                  |permtable[j]| == n &&
                  forall p :: 0 <= p < n ==>
                    0 <= permtable[j][p] < n && sites[permtable[j][p]] == Translate(sites[j], sites[p], L)
    {
      transl, ts := TranslationRow(L, ndim, sites, c2s, i, transl, ts);
      permtable := permtable + [transl];
    }
    return Ok(permtable);
  }

  /** Translating by the origin changes nothing. */
  lemma TranslateByOrigin(b: seq<int>, n: nat, L: nat)
    requires L >= 1 && InBox(b, n, L)
    ensures Translate(Zeros(n), b, L) == b
  {
    forall d | 0 <= d < n
      ensures Translate(Zeros(n), b, L)[d] == b[d]
    {
      ModUnique(b[d], L, 0, b[d]);
    }
  }

  /** Row 0 of the table is the identity, because site 0 is the origin. */
  lemma TranslationRowZero(t: seq<seq<int>>, sites: seq<seq<int>>, ndim: nat, L: nat)
    requires L >= 1 && IsVariationOrder(sites, ndim, L)
    requires IsTranslationTable(t, sites, L)
    ensures forall p :: 0 <= p < |sites| ==> t[0][p] == p
  {
    forall p | 0 <= p < |sites|
      ensures t[0][p] == p
    {
      TranslateByOrigin(sites[p], ndim, L);
      assert sites[t[0][p]] == sites[p];
    }
  }

  /** Every row of the table is a permutation of the sites. */
  lemma TranslationRowsArePermutations(t: seq<seq<int>>, sites: seq<seq<int>>, ndim: nat, L: nat)
    requires L >= 1 && IsVariationOrder(sites, ndim, L)
    requires IsTranslationTable(t, sites, L)
    ensures forall i :: 0 <= i < |sites| ==> Distinct(t[i])
    ensures forall i, s :: 0 <= i < |sites| && 0 <= s < |sites| ==> s in t[i]
  {
    forall i | 0 <= i < |sites|
      ensures Distinct(t[i]) && forall s :: 0 <= s < |sites| ==> s in t[i]
    {
      forall p, q | 0 <= p < q < |sites|
        ensures t[i][p] != t[i][q]
      {
        assert Distinct(sites);
        assert sites[p] != sites[q];
        assert InBox(sites[p], ndim, L) && InBox(sites[q], ndim, L);
        var d :| 0 <= d < ndim && sites[p][d] != sites[q][d];
        if t[i][p] == t[i][q] {
          assert Translate(sites[i], sites[p], L)[d] == Translate(sites[i], sites[q], L)[d];
          ModAddInjective(sites[i][d], sites[p][d], sites[q][d], L);
        }
      }
      DistinctIndices(t[i], |sites|);
    }
  }

  // ------------------------------------------------------------------------
  // The graph object.

  class Hypercube {
    const L: int
    const ndim: int
    const pbc: bool
    const sites: seq<seq<int>>
    const coord2sites: map<seq<int>, int>
    const adjlist: seq<seq<int>>
    const nsites: int

    /** What construction establishes. */
    ghost predicate Valid()
    {
      && CheckArgs(L, ndim, pbc).Pass?
      && Lattice(sites, coord2sites, ndim, L)
      && nsites == |sites|
      && AdjacencyOf(adjlist, sites, ndim, L, pbc)
    }

    /** The sites are numbered in the order of the enumeration Tuples (last coordinate fastest). */
    ghost predicate Ordered()
    {
      ndim >= 0 && L >= 0 && sites == Tuples(ndim, L)
    }

    constructor Make(L: int, ndim: int, pbc: bool, sites: seq<seq<int>>, coord2sites: map<seq<int>, int>,
                     adjlist: seq<seq<int>>, nsites: int)
      ensures this.L == L && this.ndim == ndim && this.pbc == pbc && this.sites == sites
      ensures this.coord2sites == coord2sites && this.adjlist == adjlist && this.nsites == nsites
    {
      this.L, this.ndim, this.pbc := L, ndim, pbc;
      this.sites, this.coord2sites, this.adjlist, this.nsites := sites, coord2sites, adjlist, nsites;
    }

    /** Hypercube(L, ndim, pbc): CheckArgs, then the lattice points and the adjacency list.
        The enumeration is Tuples(ndim, L); apart from the chain numbering, only its
        IsVariationOrder properties are used. */
    static method New(L: int, ndim: int, pbc: bool) returns (r: Result<Hypercube>)
      ensures r.Ok? <==> CheckArgs(L, ndim, pbc).Pass?
      ensures r.Err? ==> r.error.InvalidInput?
      ensures r.Ok? ==> r.value.Valid() && r.value.L == L && r.value.ndim == ndim && r.value.pbc == pbc
      ensures r.Ok? ==> r.value.Ordered()
    {
      var check := CheckArgs(L, ndim, pbc);
      if check.Fail? {
        return Err(check.error);
      }
      var e := Tuples(ndim, L);
      TuplesIsVariationOrder(ndim, L);
      var sites, c2s, nsites := GenerateLatticePoints(ndim, L, e);
      var adj := GenerateAdjacencyList(L, ndim, pbc, sites, c2s);
      var h := new Hypercube.Make(L, ndim, pbc, sites, c2s, adj, nsites);
      return Ok(h);
    }

    /** Nsites(): the number of generated coordinates, L^ndim. */
    function Nsites(): (n: int)
      requires Valid()
      ensures n == |sites| == Pow(L, ndim)
    {
      VariationCount(sites, ndim, L);
      nsites
    }

    /** Length(): the side, at least 3 when the boundaries are periodic. */
    function Length(): (r: int)
      requires Valid()
      ensures r >= 1 && (pbc ==> r >= 3) && Pow(r, ndim) == nsites
    {
      VariationCount(sites, ndim, L);
      L
    }

    /** Ndim(): the dimension, at least 1. */
    function Ndim(): (r: int)
      requires Valid()
      ensures r >= 1 && Pow(L, r) == nsites
    {
      VariationCount(sites, ndim, L);
      ndim
    }

    /** AdjacencyList(): neighbour lists that are in range and symmetric. */
    function AdjacencyList(): (adj: seq<seq<int>>)
      requires Valid()
      ensures |adj| == nsites && ValidAdjacency(adj) && Symmetric(adj)
    {
      LatticeSymmetric(this);
      adjlist
    }

    /** SiteCoord(i): the coordinates of site i, which Coord2Site maps back to i. */
    function SiteCoord(i: int): (c: seq<int>)
      requires Valid() && 0 <= i < nsites
      ensures InBox(c, ndim, L) && c in coord2sites && coord2sites[c] == i
    {
      sites[i]
    }

    /** Coord2Site(coord): std::map::at, which throws for a coordinate outside the lattice. */
    function Coord2Site(coord: seq<int>): (r: Result<int>)
      requires Valid()
      ensures r.Ok? <==> InBox(coord, ndim, L)
      ensures r.Ok? ==> 0 <= r.value < nsites && sites[r.value] == coord
      ensures r.Err? ==> r.error.OutOfRange?
    {
      if coord in coord2sites then Ok(coord2sites[coord]) else Err(OutOfRange(MissingCoordinate))
    }

    /** SymmetryTable() on this lattice. */
    method Symmetries() returns (r: Result<seq<seq<int>>>)
      requires Valid()
      ensures r.Ok? <==> pbc
      ensures r.Ok? ==> IsTranslationTable(r.value, sites, L)
      ensures r.Ok? ==> forall p :: 0 <= p < nsites ==> r.value[0][p] == p
      ensures r.Ok? ==> forall i :: 0 <= i < nsites ==> Distinct(r.value[i])
    {
      r := SymmetryTable(L, ndim, pbc, sites, coord2sites);
      if r.Ok? {
        TranslationRowZero(r.value, sites, ndim, L);
        TranslationRowsArePermutations(r.value, sites, ndim, L);
      }
    }

    /** IsBipartite() as written: true for every lattice. */
    function IsBipartite(): (b: bool)
      requires Valid()
      ensures b
    {
      true
    }

    /** The intended answer: a lattice is two-colourable unless it has periodic boundaries and an odd side. */
    function Bipartite(): (b: bool)
      requires Valid()
      ensures b <==> IsBipartiteGraph(adjlist)
    {
      BipartiteExactly(this);
      !pbc || L % 2 == 0
    }

    /** IsConnected() returns true, and every site can indeed reach every other. */
    function IsConnected(): (b: bool)
      requires Valid()
      ensures b && forall i, j :: 0 <= i < nsites && 0 <= j < nsites ==> Reachable(adjlist, i, j)
    {
      AllReachable(this);
      true
    }
  }

  // ------------------------------------------------------------------------
  // Paths on the lattice.

  function Abs(x: int): nat
  {
    if x < 0 then -x else x
  }

  /** The number of unit steps, axis by axis, between two coordinate vectors. */
  function Manhattan(a: seq<int>, b: seq<int>): nat
    requires |a| == |b|
  {
    if |a| == 0 then 0 else Manhattan(a[..|a| - 1], b[..|b| - 1]) + Abs(a[|a| - 1] - b[|b| - 1])
  }

  lemma {:induction false} ManhattanUpdate(a: seq<int>, b: seq<int>, d: int, v: int)
    requires |a| == |b| && 0 <= d < |a|
    ensures Manhattan(a[d := v], b) + Abs(a[d] - b[d]) == Manhattan(a, b) + Abs(v - b[d])
    decreases |a|
  {
    var n := |a|;
    if d < n - 1 {
      assert a[d := v][..n - 1] == a[..n - 1][d := v];
      ManhattanUpdate(a[..n - 1], b[..n - 1], d, v);
    } else {
      assert a[d := v][..n - 1] == a[..n - 1];
    }
  }

  lemma {:induction false} ManhattanZero(a: seq<int>, b: seq<int>)
    requires |a| == |b| && Manhattan(a, b) == 0
    ensures a == b
    decreases |a|
  {
    if |a| > 0 {
      ManhattanZero(a[..|a| - 1], b[..|b| - 1]);
      assert a == a[..|a| - 1] + [a[|a| - 1]];
      assert b == b[..|b| - 1] + [b[|b| - 1]];
    }
  }

  /** Two coordinates one unit apart along axis d. */
  predicate UnitApart(a: seq<int>, b: seq<int>, d: int)
  {
    0 <= d < |a| && 0 <= d < |b| && (b == Step(a, d) || a == Step(b, d))
  }

  /** With periodic boundaries a unit move is one of the 2 ndim entries of the row. */
  lemma PbcUnitEdge(adj: seq<seq<int>>, sites: seq<seq<int>>, ndim: nat, L: nat, x: int, y: int, d: int)
    requires L >= 1 && 0 <= x < |sites| && 0 <= y < |sites| && |adj| == |sites| && Distinct(sites)
    requires InBox(sites[x], ndim, L) && InBox(sites[y], ndim, L)
    requires PbcRow(adj[x], sites, x, ndim, L) && UnitApart(sites[x], sites[y], d)
    ensures y in adj[x]
  {
    var a, b := sites[x], sites[y];
    WrapInBox(a, d, ndim, L);
    var k := if b == Step(a, d) then 2 * d else 2 * d + 1;
    if b == Step(a, d) {
      assert b[d] < L;
      assert PbcNeighbour(a, k, L) == b;
    } else {
      assert PbcNeighbour(a, k, L) == b;
    }
    assert sites[adj[x][k]] == sites[y];
    assert adj[x][k] == y;
  }

  /** Without periodic boundaries a unit move is an edge by construction. */
  lemma OpenUnitEdge(adj: seq<seq<int>>, sites: seq<seq<int>>, x: int, y: int, d: int)
    requires 0 <= x < |sites| && 0 <= y < |sites| && |adj| == |sites|
    requires OpenRow(adj[x], sites, x)
    requires UnitApart(sites[x], sites[y], d) && |sites[x]| == |sites[y]|
    ensures y in adj[x]
  {
  }

  /** A unit move inside the box is an edge of the lattice. */
  lemma UnitMoveIsEdge(h: Hypercube, x: int, y: int, d: int)
    requires h.Valid() && 0 <= x < h.nsites && 0 <= y < h.nsites
    requires UnitApart(h.sites[x], h.sites[y], d)
    ensures y in h.adjlist[x]
  {
    assert InBox(h.sites[x], h.ndim, h.L) && InBox(h.sites[y], h.ndim, h.L);
    if h.pbc {
      assert PbcRow(h.adjlist[x], h.sites, x, h.ndim, h.L);
      PbcUnitEdge(h.adjlist, h.sites, h.ndim, h.L, x, y, d);
    } else {
      assert OpenRow(h.adjlist[x], h.sites, x);
      OpenUnitEdge(h.adjlist, h.sites, x, y, d);
    }
  }

  /** One unit move from a toward b along an axis where they differ, still inside the box. */
  lemma MoveToward(a: seq<int>, b: seq<int>, n: nat, L: nat) returns (d: int, a': seq<int>)
    requires InBox(a, n, L) && InBox(b, n, L) && Manhattan(a, b) > 0
    ensures InBox(a', n, L) && UnitApart(a, a', d)
    ensures Manhattan(a', b) + 1 == Manhattan(a, b)
  {
    d := Differ(a, b);
    a' := a[d := if a[d] < b[d] then a[d] + 1 else a[d] - 1];
    ManhattanUpdate(a, b, d, a'[d]);
    if a[d] >= b[d] {
      assert a == Step(a', d);
    }
  }

  /** An axis where two vectors at positive distance differ. */
  lemma {:induction false} Differ(a: seq<int>, b: seq<int>) returns (d: int)
    requires |a| == |b| && Manhattan(a, b) > 0
    ensures 0 <= d < |a| && a[d] != b[d]
    decreases |a|
  {
    var n := |a|;
    if a[n - 1] != b[n - 1] {
      d := n - 1;
    } else {
      d := Differ(a[..n - 1], b[..n - 1]);
    }
  }

  /** A path from site x to site y with one edge per unit of Manhattan distance. */
  lemma {:induction false} PathBetween(h: Hypercube, x: int, y: int) returns (p: seq<int>)
    requires h.Valid() && 0 <= x < h.nsites && 0 <= y < h.nsites
    ensures IsPath(h.adjlist, p, x, y)
    ensures InBox(h.sites[x], h.ndim, h.L) && InBox(h.sites[y], h.ndim, h.L)
    ensures |p| == Manhattan(h.sites[x], h.sites[y]) + 1
    decreases Manhattan(h.sites[x], h.sites[y])
  {
    var a, b := h.sites[x], h.sites[y];
    assert InBox(a, h.ndim, h.L) && InBox(b, h.ndim, h.L);
    if Manhattan(a, b) == 0 {
      ManhattanZero(a, b);
      assert Distinct(h.sites);
      p := [x];
    } else {
      var d, a' := MoveToward(a, b, h.ndim, h.L);
      assert Numbering(h.sites, h.coord2sites, h.ndim, h.L);
      var x' := h.coord2sites[a'];
      UnitMoveIsEdge(h, x, x', d);
      var q := PathBetween(h, x', y);
      p := [x] + q;
    }
  }

  lemma {:induction false} ManhattanSame(a: seq<int>)
    ensures Manhattan(a, a) == 0
    decreases |a|
  {
    if |a| > 0 {
      ManhattanSame(a[..|a| - 1]);
    }
  }

  lemma AllReachable(h: Hypercube)
    requires h.Valid()
    ensures forall i, j :: 0 <= i < h.nsites && 0 <= j < h.nsites ==> Reachable(h.adjlist, i, j)
  {
    forall i, j | 0 <= i < h.nsites && 0 <= j < h.nsites
      ensures Reachable(h.adjlist, i, j)
    {
      var p := PathBetween(h, i, j);
    }
  }

  /** Without periodic boundaries each edge joins sites one unit apart. */
  lemma OpenEdgeIsUnit(h: Hypercube, u: int, v: int) returns (d: int)
    requires h.Valid() && !h.pbc && 0 <= u < h.nsites && v in h.adjlist[u]
    ensures 0 <= v < h.nsites && InBox(h.sites[u], h.ndim, h.L) && InBox(h.sites[v], h.ndim, h.L)
    ensures UnitApart(h.sites[u], h.sites[v], d)
  {
    assert OpenRow(h.adjlist[u], h.sites, u);
    assert 0 <= v < h.nsites && OpenAdjacent(h.sites[u], h.sites[v]);
    d :| 0 <= d < |h.sites[u]| && (h.sites[v] == Step(h.sites[u], d) || h.sites[u] == Step(h.sites[v], d));
  }

  /** A unit move changes the Manhattan distance to any fixed point by at most one. */
  lemma ManhattanUnit(a: seq<int>, b: seq<int>, c: seq<int>, d: int)
    requires |a| == |b| == |c| && UnitApart(b, c, d)
    ensures Manhattan(a, c) <= Manhattan(a, b) + 1
  {
    ManhattanSymmetric(a, b);
    ManhattanSymmetric(a, c);
    ManhattanUpdate(b, a, d, c[d]);
    assert c == b[d := c[d]];
  }

  /** Without periodic boundaries a path needs at least one edge per unit of Manhattan distance. */
  lemma {:induction false} OpenPathIsLong(h: Hypercube, p: seq<int>, x: int, y: int, k: int)
    requires h.Valid() && !h.pbc
    requires IsPath(h.adjlist, p, x, y) && 0 <= k < |p|
    ensures InBox(h.sites[p[k]], h.ndim, h.L) && InBox(h.sites[x], h.ndim, h.L)
    ensures Manhattan(h.sites[x], h.sites[p[k]]) <= k
    decreases k
  {
    assert InBox(h.sites[p[k]], h.ndim, h.L) && InBox(h.sites[x], h.ndim, h.L);
    if k == 0 {
      ManhattanSame(h.sites[x]);
    } else {
      OpenPathIsLong(h, p, x, y, k - 1);
      var d := OpenEdgeIsUnit(h, p[k - 1], p[k]);
      ManhattanUnit(h.sites[x], h.sites[p[k - 1]], h.sites[p[k]], d);
    }
  }

  lemma {:induction false} ManhattanSymmetric(a: seq<int>, b: seq<int>)
    requires |a| == |b|
    ensures Manhattan(a, b) == Manhattan(b, a)
    decreases |a|
  {
    if |a| > 0 {
      ManhattanSymmetric(a[..|a| - 1], b[..|b| - 1]);
    }
  }

  /** Without periodic boundaries the graph distance between two sites is their Manhattan distance. */
  lemma OpenDistance(h: Hypercube, i: int, j: int)
    requires h.Valid() && !h.pbc && 0 <= i < h.nsites && 0 <= j < h.nsites
    ensures InBox(h.sites[i], h.ndim, h.L) && InBox(h.sites[j], h.ndim, h.L)
    ensures IsDistance(h.adjlist, i, j, Manhattan(h.sites[i], h.sites[j]))
  {
    var p := PathBetween(h, i, j);
    forall q | IsPath(h.adjlist, q, i, j)
      ensures Manhattan(h.sites[i], h.sites[j]) + 1 <= |q|
    {
      OpenPathIsLong(h, q, i, j, |q| - 1);
    }
  }

  /** On an open chain (one dimension) site i sits at coordinate i, so the distance between
      sites i and j is |i - j|. */
  lemma ChainDistance(h: Hypercube, i: int, j: int)
    requires h.Valid() && h.Ordered() && !h.pbc && h.ndim == 1 && 0 <= i < h.nsites && 0 <= j < h.nsites
    ensures IsDistance(h.adjlist, i, j, Abs(i - j))
  {
    OpenDistance(h, i, j);
    TuplesOneDigit(h.L);
    assert h.sites[i] == [i] && h.sites[j] == [j];
    assert Manhattan(h.sites[i], h.sites[j]) == Abs(i - j);
  }

  // ------------------------------------------------------------------------
  // Symmetry and two-colourability of the adjacency list.

  /** Every edge of the lattice is listed from both ends. */
  lemma LatticeSymmetric(h: Hypercube)
    requires h.Valid()
    ensures ValidAdjacency(h.adjlist) && Symmetric(h.adjlist)
  {
    forall x, z | 0 <= x < |h.adjlist| && z in h.adjlist[x]
      ensures 0 <= z < |h.adjlist| && x in h.adjlist[z]
    {
      EdgeReversed(h, x, z);
    }
    forall i, k | 0 <= i < |h.adjlist| && 0 <= k < |h.adjlist[i]|
      ensures 0 <= h.adjlist[i][k] < |h.adjlist|
    {
      EdgeReversed(h, i, h.adjlist[i][k]);
    }
  }

  lemma EdgeReversed(h: Hypercube, x: int, z: int)
    requires h.Valid() && 0 <= x < h.nsites && z in h.adjlist[x]
    ensures 0 <= z < h.nsites && x in h.adjlist[z]
  {
    assert InBox(h.sites[x], h.ndim, h.L);
    if h.pbc {
      assert PbcRow(h.adjlist[x], h.sites, x, h.ndim, h.L);
      var k :| 0 <= k < |h.adjlist[x]| && h.adjlist[x][k] == z;
      assert PbcRow(h.adjlist[z], h.sites, z, h.ndim, h.L);
      PbcReversed(h.adjlist, h.sites, h.ndim, h.L, x, z, k);
    } else {
      assert OpenRow(h.adjlist[x], h.sites, x);
      assert 0 <= z < h.nsites && OpenAdjacent(h.sites[x], h.sites[z]);
      assert OpenRow(h.adjlist[z], h.sites, z);
    }
  }

  /** Entry k of row x is z, and then x is entry k with its parity flipped of row z. */
  lemma PbcReversed(adj: seq<seq<int>>, sites: seq<seq<int>>, ndim: nat, L: nat, x: int, z: int, k: int)
    requires L >= 1 && 0 <= x < |sites| && |adj| == |sites| && Distinct(sites) && InBox(sites[x], ndim, L)
    requires PbcRow(adj[x], sites, x, ndim, L) && 0 <= k < |adj[x]| && adj[x][k] == z
    requires PbcRow(adj[z], sites, z, ndim, L)
    ensures x in adj[z]
  {
    var d := k / 2;
    WrapInBox(sites[x], d, ndim, L);
    var k' := if k % 2 == 0 then k + 1 else k - 1;
    assert PbcNeighbour(sites[z], k', L) == sites[x];
    assert sites[adj[z][k']] == sites[x];
    assert adj[z][k'] == x;
  }

  function CoordSum(a: seq<int>): int
  {
    if |a| == 0 then 0 else CoordSum(a[..|a| - 1]) + a[|a| - 1]
  }

  lemma {:induction false} CoordSumUpdate(a: seq<int>, d: int, v: int)
    requires 0 <= d < |a|
    ensures CoordSum(a[d := v]) == CoordSum(a) - a[d] + v
    decreases |a|
  {
    var n := |a|;
    if d < n - 1 {
      assert a[d := v][..n - 1] == a[..n - 1][d := v];
      CoordSumUpdate(a[..n - 1], d, v);
    } else {
      assert a[d := v][..n - 1] == a[..n - 1];
    }
  }

  /** The colouring by the parity of the coordinate sum. */
  function ParityColouring(sites: seq<seq<int>>): (c: seq<bool>)
    ensures |c| == |sites|
  {
    seq(|sites|, x requires 0 <= x < |sites| => CoordSum(sites[x]) % 2 == 0)
  }

  /** Changing one coordinate by an odd amount flips the parity of the sum. */
  lemma ParityFlip(a: seq<int>, d: int, v: int)
    requires 0 <= d < |a| && (v - a[d]) % 2 == 1
    ensures (CoordSum(a[d := v]) % 2 == 0) != (CoordSum(a) % 2 == 0)
  {
    CoordSumUpdate(a, d, v);
  }

  /** A periodic step along an axis of even side changes that coordinate by an odd amount. */
  lemma PbcStepIsOdd(a: seq<int>, n: nat, L: nat, k: int)
    requires L >= 1 && L % 2 == 0 && InBox(a, n, L) && 0 <= k < 2 * n
    ensures PbcNeighbour(a, k, L) == a[k / 2 := PbcNeighbour(a, k, L)[k / 2]]
    ensures (PbcNeighbour(a, k, L)[k / 2] - a[k / 2]) % 2 == 1
  {
    WrapInBox(a, k / 2, n, L);
  }

  /** Every edge of an open lattice, or of a periodic one with an even side, changes the parity. */
  lemma EdgeFlipsParity(h: Hypercube, x: int, z: int)
    requires h.Valid() && (!h.pbc || h.L % 2 == 0) && 0 <= x < h.nsites && z in h.adjlist[x]
    ensures 0 <= z < h.nsites && (CoordSum(h.sites[x]) % 2 == 0) != (CoordSum(h.sites[z]) % 2 == 0)
  {
    if h.pbc {
      var k := PbcEdgeStep(h, x, z);
      PbcStepIsOdd(h.sites[x], h.ndim, h.L, k);
      ParityFlip(h.sites[x], k / 2, h.sites[z][k / 2]);
    } else {
      var d := OpenEdgeIsUnit(h, x, z);
      UnitApartFlips(h.sites[x], h.sites[z], d);
    }
  }

  /** Two points one unit apart have coordinate sums of different parity. */
  lemma UnitApartFlips(a: seq<int>, b: seq<int>, d: int)
    requires UnitApart(a, b, d)
    ensures (CoordSum(a) % 2 == 0) != (CoordSum(b) % 2 == 0)
  {
    if b == Step(a, d) {
      ParityFlip(a, d, a[d] + 1);
    } else {
      ParityFlip(b, d, b[d] + 1);
    }
  }

  /** An edge of a periodic lattice is one of the 2 * ndim periodic steps. */
  lemma PbcEdgeStep(h: Hypercube, x: int, z: int) returns (k: int)
    requires h.Valid() && h.pbc && 0 <= x < h.nsites && z in h.adjlist[x]
    ensures 0 <= z < h.nsites && InBox(h.sites[x], h.ndim, h.L) && 0 <= k < 2 * h.ndim
    ensures h.sites[z] == PbcNeighbour(h.sites[x], k, h.L)
  {
    assert InBox(h.sites[x], h.ndim, h.L);
    assert PbcRow(h.adjlist[x], h.sites, x, h.ndim, h.L);
    k :| 0 <= k < |h.adjlist[x]| && h.adjlist[x][k] == z;
  }

  lemma ParityIsProper(h: Hypercube)
    requires h.Valid() && (!h.pbc || h.L % 2 == 0)
    ensures ProperColouring(h.adjlist, ParityColouring(h.sites))
  {
    forall x, z | 0 <= x < |h.adjlist| && z in h.adjlist[x] && 0 <= z < |h.adjlist|
      ensures ParityColouring(h.sites)[x] != ParityColouring(h.sites)[z]
    {
      EdgeFlipsParity(h, x, z);
    }
  }

  /** The point k steps from the origin along axis 0. */
  function AxisPoint(n: nat, k: int): seq<int>
    requires n >= 1
  {
    Zeros(n)[0 := k]
  }

  /** The walk from the origin along axis 0 to the point at k. */
  lemma {:induction false} AxisWalk(h: Hypercube, k: int) returns (p: seq<int>)
    requires h.Valid() && 0 <= k < h.L
    ensures InBox(AxisPoint(h.ndim, k), h.ndim, h.L)
    ensures IsPath(h.adjlist, p, 0, h.coord2sites[AxisPoint(h.ndim, k)]) && |p| == k + 1
    decreases k
  {
    var n := h.ndim;
    assert InBox(AxisPoint(n, k), n, h.L);
    if k == 0 {
      assert Numbering(h.sites, h.coord2sites, n, h.L);
      assert AxisPoint(n, 0) == Zeros(n) == h.sites[0];
      p := [0];
    } else {
      var q := AxisWalk(h, k - 1);
      p := AxisStep(h, k, q);
    }
  }

  /** A walk to the point at k - 1 on axis 0 extends by one edge to the point at k. */
  lemma AxisStep(h: Hypercube, k: int, q: seq<int>) returns (p: seq<int>)
    requires h.Valid() && 0 < k < h.L
    requires InBox(AxisPoint(h.ndim, k - 1), h.ndim, h.L) && InBox(AxisPoint(h.ndim, k), h.ndim, h.L)
    requires IsPath(h.adjlist, q, 0, h.coord2sites[AxisPoint(h.ndim, k - 1)])
    ensures IsPath(h.adjlist, p, 0, h.coord2sites[AxisPoint(h.ndim, k)]) && |p| == |q| + 1
  {
    var n := h.ndim;
    assert Numbering(h.sites, h.coord2sites, n, h.L);
    var x, y := h.coord2sites[AxisPoint(n, k - 1)], h.coord2sites[AxisPoint(n, k)];
    assert AxisPoint(n, k) == Step(AxisPoint(n, k - 1), 0);
    UnitMoveIsEdge(h, x, y, 0);
    p := q + [y];
  }

  /** With periodic boundaries and an odd side, the ring along axis 0 is a closed walk of odd length. */
  lemma OddRing(h: Hypercube) returns (p: seq<int>)
    requires h.Valid() && h.pbc && h.L % 2 == 1
    ensures IsPath(h.adjlist, p, 0, 0) && |p| == h.L + 1
  {
    var q := AxisWalk(h, h.L - 1);
    var x := h.coord2sites[AxisPoint(h.ndim, h.L - 1)];
    RingCloses(h, x);
    p := q + [0];
  }

  /** The first periodic neighbour of the last point on axis 0 is the origin, site 0. */
  lemma RingCloses(h: Hypercube, x: int)
    requires h.Valid() && h.pbc
    requires InBox(AxisPoint(h.ndim, h.L - 1), h.ndim, h.L) && x == h.coord2sites[AxisPoint(h.ndim, h.L - 1)]
    ensures 0 <= x < |h.adjlist| && |h.adjlist[x]| > 0 && h.adjlist[x][0] == 0
  {
    var n := h.ndim;
    assert Numbering(h.sites, h.coord2sites, n, h.L);
    var a := h.sites[x];
    WrapInBox(a, 0, n, h.L);
    assert PbcRow(h.adjlist[x], h.sites, x, n, h.L);
    assert h.sites[h.adjlist[x][0]] == Up(a, 0, h.L) == h.sites[0];
    assert Distinct(h.sites);
  }

  lemma BipartiteExactly(h: Hypercube)
    requires h.Valid()
    ensures (!h.pbc || h.L % 2 == 0) <==> IsBipartiteGraph(h.adjlist)
  {
    if !h.pbc || h.L % 2 == 0 {
      ParityIsProper(h);
    } else {
      var p := OddRing(h);
      OddClosedWalk(h.adjlist, p, 0);
    }
  }

  /** IsBipartite() answers true for a periodic lattice of odd side, which has an odd cycle. */
  lemma IsBipartiteOddRing(h: Hypercube)
    requires h.Valid() && h.pbc && h.L % 2 == 1
    ensures h.IsBipartite() && !IsBipartiteGraph(h.adjlist)
  {
    BipartiteExactly(h);
  }
}
