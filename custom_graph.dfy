/** User-defined graphs (class netket::CustomGraph): an adjacency list given directly,
    built from an edge list, or a number of isolated nodes; validated on construction. */
module CustomGraphs {
  import opened Wrappers
  import opened Seqs
  import opened GraphFunctions

  // Error messages.
  const EdgeNotPair := "The edge list is invalid (edges need to connect exactly two sites)"
  const InvalidEdgeList := "The edge list is invalid"
  const InvalidGraph := "The graph is invalid"
  const NotSymmetric := "The graph adjacencylist is not symmetric"
  const InvalidAutomorphisms := "The automorphism list is invalid"
  const SizeTooSmall := "Size must be at least 1"
  const TooManyOptions := "Custom graph specification may contain only one of 'AdjacencyList', 'Edges', and 'Size'"
  const NoOption := "Custom graph specification must contain one of 'AdjacencyList', 'Edges', and 'Size'"

  // ------------------------------------------------------------------------
  // Edge lists.

  /** An edge names exactly two sites, neither negative. */
  predicate WellFormedEdge(e: seq<int>)
  {
    |e| == 2 && e[0] >= 0 && e[1] >= 0
  }

  /** The entries edge e appends to the list of site x: the other end, once per matching end. */
  function Contribution(e: seq<int>, x: int): seq<int>
  {
    if |e| == 2 then (if e[0] == x then [e[1]] else []) + (if e[1] == x then [e[0]] else []) else []
  }

  /** Reference definition of the neighbour list of x: the contributions of the edges, in edge order. */
  function Incident(edges: seq<seq<int>>, x: int): seq<int>
  {
    if edges == [] then [] else Incident(edges[..|edges| - 1], x) + Contribution(edges[|edges| - 1], x)
  }

  /** Edge e joins x and z, in either direction. */
  predicate Joins(e: seq<int>, x: int, z: int)
  {
    |e| == 2 && ((e[0] == x && e[1] == z) || (e[1] == x && e[0] == z))
  }

  /** The total number of entries of an adjacency list. */
  function TotalLength(adj: seq<seq<int>>): nat
  {
    if adj == [] then 0 else TotalLength(adj[..|adj| - 1]) + |adj[|adj| - 1]|
  }

  lemma {:induction false} TotalLengthAppend(adj: seq<seq<int>>, i: int, v: int)
    requires 0 <= i < |adj|
    ensures TotalLength(adj[i := adj[i] + [v]]) == TotalLength(adj) + 1
    decreases |adj|
  {
    var n := |adj|;
    if i < n - 1 {
      assert adj[i := adj[i] + [v]][..n - 1] == adj[..n - 1][i := adj[i] + [v]];
      TotalLengthAppend(adj[..n - 1], i, v);
    } else {
      assert adj[i := adj[i] + [v]][..n - 1] == adj[..n - 1];
    }
  }

  /** n isolated nodes. */
  function EmptyLists(n: nat): (adj: seq<seq<int>>)
    ensures |adj| == n && forall x :: 0 <= x < n ==> adj[x] == []
  {
    seq(n, _ => [])
  }

  /** The graph of Size n has no edges: from site i, Distances gives 0 at i and -1 at every other site. */
  lemma EmptyGraphDistances(n: nat, i: int)
    requires 0 <= i < n
    ensures IsDistanceRow(EmptyLists(n), i, seq(n, j => if j == i then 0 else -1))
  {
    var adj := EmptyLists(n);
    var dists := seq(n, j => if j == i then 0 else -1);
    forall x | 0 <= x < n
      ensures (dists[x] == -1 <==> !Reachable(adj, i, x))
      ensures dists[x] != -1 ==> IsDistance(adj, i, x, dists[x])
    {
      if x == i {
        assert IsPath(adj, [i], i, i);
      } else {
        forall p: seq<int>
          ensures !IsPath(adj, p, i, x)
        {
          if |p| >= 2 && 0 <= p[0] < n {
            assert adj[p[0]] == [] && p[1] !in adj[p[0]];
          } else if |p| == 1 {
            assert p[0] == p[|p| - 1];
          }
        }
      }
    }
  }

  lemma {:induction false} TotalLengthEmpty(n: nat)
    ensures TotalLength(EmptyLists(n)) == 0
  {
    if n > 0 {
      assert EmptyLists(n)[..n - 1] == EmptyLists(n - 1);
      TotalLengthEmpty(n - 1);
    }
  }

  lemma EdgeStepIncident(edges: seq<seq<int>>, k: int, x: int)
    requires 0 <= k < |edges|
    ensures Incident(edges[..k + 1], x) == Incident(edges[..k], x) + Contribution(edges[k], x)
  {
    assert edges[..k + 1][..k] == edges[..k];
  }

  /** The endpoints of well-formed edges are all at most m, and m is one of them (or 0 without edges). */
  predicate LargestEndpoint(edges: seq<seq<int>>, m: int)
  {
    (forall k :: 0 <= k < |edges| ==> WellFormedEdge(edges[k]) && edges[k][0] <= m && edges[k][1] <= m) &&
    (edges == [] ==> m == 0) &&
    (edges != [] ==> exists k :: 0 <= k < |edges| && (edges[k][0] == m || edges[k][1] == m))
  }

  /** The largest end of any two-ended edge, 0 for no edges: the site count of the edge list, less one. */
  function Largest(edges: seq<seq<int>>): (m: int)
  {
    if edges == [] then 0
    else
      var e := edges[|edges| - 1];
      var top := if |e| == 2 then (if e[0] > e[1] then e[0] else e[1]) else 0;
      var rest := Largest(edges[..|edges| - 1]);
      if top > rest then top else rest
  }

  /** The largest endpoint that AdjacencyListFromEdges finds is Largest(edges). */
  lemma {:induction false} LargestUnique(edges: seq<seq<int>>, m: int)
    requires LargestEndpoint(edges, m)
    ensures m == Largest(edges)
  {
    LargestBounds(edges);
    if edges != [] {
      var k :| 0 <= k < |edges| && WellFormedEdge(edges[k]) && (edges[k][0] == Largest(edges) || edges[k][1] == Largest(edges));
      var j :| 0 <= j < |edges| && (edges[j][0] == m || edges[j][1] == m);
    }
  }

  /** On well-formed edges Largest bounds every end and is one of them. */
  lemma {:induction false} LargestBounds(edges: seq<seq<int>>)
    requires forall k :: 0 <= k < |edges| ==> WellFormedEdge(edges[k])
    ensures forall k :: 0 <= k < |edges| ==>
              WellFormedEdge(edges[k]) && edges[k][0] <= Largest(edges) && edges[k][1] <= Largest(edges)
    ensures edges != [] ==>
              exists k :: 0 <= k < |edges| && WellFormedEdge(edges[k]) &&
                          (edges[k][0] == Largest(edges) || edges[k][1] == Largest(edges))
    decreases |edges|
  {
    if edges != [] {
      var front := edges[..|edges| - 1];
      LargestBounds(front);
      var n := |edges|;
      if Largest(edges) != Largest(front) || front == [] {
        assert edges[n - 1][0] == Largest(edges) || edges[n - 1][1] == Largest(edges);
      } else {
        var k :| 0 <= k < |front| && WellFormedEdge(front[k]) && (front[k][0] == Largest(front) || front[k][1] == Largest(front));
        assert edges[k] == front[k];
      }
      forall k | 0 <= k < n
        ensures WellFormedEdge(edges[k]) && edges[k][0] <= Largest(edges) && edges[k][1] <= Largest(edges)
      {
        if k < n - 1 {
          assert edges[k] == front[k];
        }
      }
    }
  }

  /** Reference definition of the adjacency list of an edge list: one list per site up to the largest end. */
  function EdgesList(edges: seq<seq<int>>): (adj: seq<seq<int>>)
  {
    seq(if Largest(edges) >= 0 then Largest(edges) + 1 else 0, x => Incident(edges, x))
  }

  /** Appending edge k to both of its ends extends every list by that edge's contribution. */
  lemma AddEdgeStep(adj: seq<seq<int>>, edges: seq<seq<int>>, k: int)
    requires 0 <= k < |edges| && WellFormedEdge(edges[k]) && edges[k][0] < |adj| && edges[k][1] < |adj|
    requires forall x :: 0 <= x < |adj| ==> adj[x] == Incident(edges[..k], x)
    ensures var e := edges[k];
            var adj' := adj[e[0] := adj[e[0]] + [e[1]]][e[1] := adj[e[0] := adj[e[0]] + [e[1]]][e[1]] + [e[0]]];
            forall x :: 0 <= x < |adj| ==> adj'[x] == Incident(edges[..k + 1], x)
  {
    var e := edges[k];
    var adj1 := adj[e[0] := adj[e[0]] + [e[1]]];
    var adj' := adj1[e[1] := adj1[e[1]] + [e[0]]];
    forall x | 0 <= x < |adj|
      ensures adj'[x] == Incident(edges[..k + 1], x)
    {
      EdgeStepIncident(edges, k, x);
    }
  }

  /** The first loop of AdjacencyListFromEdges: check every edge and find the largest site. */
  method ScanEdges(edges: seq<seq<int>>) returns (r: Result<int>)
    ensures r.Err? <==> exists k :: 0 <= k < |edges| && !WellFormedEdge(edges[k])
    ensures r.Err? ==> r.error.InvalidInput?
    ensures r.Ok? ==> r.value >= 0 && LargestEndpoint(edges, r.value)
  {
    var nsites := 0;
    for k := 0 to |edges|
      invariant nsites >= 0 && (k == 0 ==> nsites == 0)
      invariant forall j :: 0 <= j < k ==> WellFormedEdge(edges[j]) && edges[j][0] <= nsites && edges[j][1] <= nsites
      invariant k > 0 ==> exists j :: 0 <= j < k && (edges[j][0] == nsites || edges[j][1] == nsites)
    {
      var edge := edges[k];
      if |edge| != 2 {
        return Err(InvalidInput(EdgeNotPair));
      }
      if edge[0] < 0 || edge[1] < 0 {
        return Err(InvalidInput(InvalidEdgeList));
      }
      var m := if edge[0] > edge[1] then edge[0] else edge[1];
      ghost var before := nsites;
      nsites := if m > nsites then m else nsites;
      if m >= before {
        assert edges[k][0] == nsites || edges[k][1] == nsites;
      } else {
        var j :| 0 <= j < k && (edges[j][0] == before || edges[j][1] == before);
        assert edges[j][0] == nsites || edges[j][1] == nsites;
      }
    }
    assert edges[..|edges|] == edges;
    return Ok(nsites);
  }

  /**
   * AdjacencyListFromEdges: check every edge and find the largest site, then
   * append b to the list of a and a to the list of b for each edge (a, b).
   */
  method AdjacencyListFromEdges(edges: seq<seq<int>>) returns (r: Result<seq<seq<int>>>)
    ensures r.Err? <==> exists k :: 0 <= k < |edges| && !WellFormedEdge(edges[k])
    ensures r.Err? ==> r.error.InvalidInput?
    ensures r.Ok? ==> LargestEndpoint(edges, |r.value| - 1)
    ensures r.Ok? ==> forall x :: 0 <= x < |r.value| ==> r.value[x] == Incident(edges, x)
    ensures r.Ok? ==> TotalLength(r.value) == 2 * |edges|
  {
    var scan := ScanEdges(edges);
    if scan.Err? {
      return Err(scan.error);
    }
    var nsites := scan.value;
    nsites := nsites + 1;
    var adjlist := EmptyLists(nsites);
    TotalLengthEmpty(nsites);
    for k := 0 to |edges|
      invariant |adjlist| == nsites
      invariant forall x :: 0 <= x < nsites ==> adjlist[x] == Incident(edges[..k], x)
      invariant TotalLength(adjlist) == 2 * k
    {
      var edge := edges[k];
      AddEdgeStep(adjlist, edges, k);
      TotalLengthAppend(adjlist, edge[0], edge[1]);
      adjlist := adjlist[edge[0] := adjlist[edge[0]] + [edge[1]]];
      TotalLengthAppend(adjlist, edge[1], edge[0]);
      adjlist := adjlist[edge[1] := adjlist[edge[1]] + [edge[0]]];
    }
    assert edges[..|edges|] == edges;
    return Ok(adjlist);
  }

  lemma ContributionMembers(e: seq<int>, x: int, z: int)
    ensures z in Contribution(e, x) <==> Joins(e, x, z)
  {
  }

  lemma {:induction false} IncidentMembers(edges: seq<seq<int>>, x: int, z: int)
    ensures z in Incident(edges, x) <==> exists k :: 0 <= k < |edges| && Joins(edges[k], x, z)
    decreases |edges|
  {
    if edges != [] {
      var n := |edges|;
      var front := edges[..n - 1];
      IncidentMembers(front, x, z);
      ContributionMembers(edges[n - 1], x, z);
      assert Incident(edges, x) == Incident(front, x) + Contribution(edges[n - 1], x);
      if z in Incident(front, x) {
        var k :| 0 <= k < n - 1 && Joins(front[k], x, z);
        assert edges[k] == front[k];
      }
      if exists k :: 0 <= k < n && Joins(edges[k], x, z) {
        var k :| 0 <= k < n && Joins(edges[k], x, z);
        if k < n - 1 {
          assert front[k] == edges[k];
        }
      }
    }
  }

  /** One neighbour z of x, read back from the edge that put it there: z is in range and x is a neighbour of z. */
  lemma NeighbourReversed(edges: seq<seq<int>>, adj: seq<seq<int>>, x: int, z: int)
    requires forall k :: 0 <= k < |edges| ==> WellFormedEdge(edges[k]) && edges[k][0] < |adj| && edges[k][1] < |adj|
    requires forall y :: 0 <= y < |adj| ==> adj[y] == Incident(edges, y)
    requires 0 <= x < |adj| && z in adj[x]
    ensures 0 <= z < |adj| && x in adj[z]
  {
    IncidentMembers(edges, x, z);
    var k :| 0 <= k < |edges| && Joins(edges[k], x, z);
    assert Joins(edges[k], z, x);
    assert 0 <= z < |adj|;
    IncidentMembers(edges, z, x);
  }

  /** The list built from edges is undirected: z is a neighbour of x exactly when some edge joins them. */
  lemma EdgesAdjacencySymmetric(edges: seq<seq<int>>, adj: seq<seq<int>>)
    requires forall k :: 0 <= k < |edges| ==> WellFormedEdge(edges[k]) && edges[k][0] < |adj| && edges[k][1] < |adj|
    requires forall x :: 0 <= x < |adj| ==> adj[x] == Incident(edges, x)
    ensures ValidAdjacency(adj) && Symmetric(adj)
    ensures forall x, z :: 0 <= x < |adj| ==> (z in adj[x] <==> exists k :: 0 <= k < |edges| && Joins(edges[k], x, z))
  {
    forall x, z | 0 <= x < |adj|
      ensures z in adj[x] <==> exists k :: 0 <= k < |edges| && Joins(edges[k], x, z)
    {
      IncidentMembers(edges, x, z);
    }
    forall x, z | 0 <= x < |adj| && z in adj[x]
      ensures 0 <= z < |adj| && x in adj[z]
    {
      NeighbourReversed(edges, adj, x, z);
    }
    forall i, k | 0 <= i < |adj| && 0 <= k < |adj[i]|
      ensures 0 <= adj[i][k] < |adj|
    {
      NeighbourReversed(edges, adj, i, adj[i][k]);
    }
  }

  lemma {:induction false} CountConcat<T>(a: seq<T>, b: seq<T>, x: T)
    ensures Count(a + b, x) == Count(a, x) + Count(b, x)
  {
    CountMultiset(a + b, x);
    CountMultiset(a, x);
    CountMultiset(b, x);
  }

  lemma {:induction false} IncidentConcat(a: seq<seq<int>>, b: seq<seq<int>>, x: int)
    ensures Incident(a + b, x) == Incident(a, x) + Incident(b, x)
    decreases |b|
  {
    if b != [] {
      var n := |b|;
      assert (a + b)[..|a + b| - 1] == a + b[..n - 1];
      assert (a + b)[|a + b| - 1] == b[n - 1];
      IncidentConcat(a, b[..n - 1], x);
    } else {
      assert a + b == a;
    }
  }

  /** Two edges joining the same pair of sites, or one edge from a site to itself, give a count of at least 2. */
  lemma RepeatedEdgeCounted(edges: seq<seq<int>>, j: int, k: int, x: int, z: int)
    requires 0 <= j < |edges| && 0 <= k < |edges| && Joins(edges[j], x, z) && Joins(edges[k], x, z)
    requires j != k || x == z
    ensures Count(Incident(edges, x), z) >= 2
  {
    if j == k {
      SplitAt(edges, k, x, z);
      assert Contribution(edges[k], x) == [z, z];
      CountMultiset([z, z], z);
    } else {
      var lo, hi := if j < k then j else k, if j < k then k else j;
      var a, b := edges[..hi], edges[hi..];
      assert edges == a + b;
      IncidentConcat(a, b, x);
      CountConcat(Incident(a, x), Incident(b, x), z);
      assert a[lo] == edges[lo] && b[0] == edges[hi];
      SplitAt(a, lo, x, z);
      SplitAt(b, 0, x, z);
    }
  }

  /** The list of x counts z at least once per occurrence in the contribution of edge k. */
  lemma SplitAt(edges: seq<seq<int>>, k: int, x: int, z: int)
    requires 0 <= k < |edges|
    ensures Count(Incident(edges, x), z) >= Count(Contribution(edges[k], x), z)
  {
    var a, b, c := edges[..k], [edges[k]], edges[k + 1..];
    assert edges == a + b + c;
    IncidentConcat(a + b, c, x);
    IncidentConcat(a, b, x);
    assert Incident(b, x) == Contribution(edges[k], x) by {
      assert b[..0] == [];
    }
    CountConcat(Incident(a, x) + Incident(b, x), Incident(c, x), z);
    CountConcat(Incident(a, x), Incident(b, x), z);
  }

  // ------------------------------------------------------------------------
  // Validation.

  /** What CheckGraph accepts. */
  ghost predicate GraphOk(adj: seq<seq<int>>, automorphisms: seq<seq<int>>)
  {
    (forall i, k :: 0 <= i < |adj| && 0 <= k < |adj[i]| ==>
       0 <= adj[i][k] < |adj| && Count(adj[adj[i][k]], i) == 1) &&
    (forall a :: 0 <= a < |automorphisms| ==> |automorphisms[a]| == |adj|)
  }

  /** CheckGraph: every neighbour in range and listing its site back exactly once; every automorphism of length nsites. */
  method CheckGraph(adj: seq<seq<int>>, nsites: int, automorphisms: seq<seq<int>>) returns (o: Outcome)
    requires nsites == |adj|
    ensures o.Pass? <==> GraphOk(adj, automorphisms)
    ensures o.Fail? ==> o.error.InvalidInput?
  {
    for i := 0 to nsites
      invariant forall i', k :: 0 <= i' < i && 0 <= k < |adj[i']| ==>
                  0 <= adj[i'][k] < nsites && Count(adj[adj[i'][k]], i') == 1
    {
      for k := 0 to |adj[i]|
        invariant forall i', k' :: 0 <= i' < i && 0 <= k' < |adj[i']| ==>
                    0 <= adj[i'][k'] < nsites && Count(adj[adj[i'][k']], i') == 1
        invariant forall k' :: 0 <= k' < k ==> 0 <= adj[i][k'] < nsites && Count(adj[adj[i][k']], i) == 1
      {
        var s := adj[i][k];
        if s >= nsites || s < 0 {
          return Fail(InvalidInput(InvalidGraph));
        }
        if Count(adj[s], i) != 1 {
          return Fail(InvalidInput(NotSymmetric));
        }
      }
    }
    for a := 0 to |automorphisms|
      invariant forall a' :: 0 <= a' < a ==> |automorphisms[a']| == nsites
    {
      if |automorphisms[a]| != nsites {
        return Fail(InvalidInput(InvalidAutomorphisms));
      }
    }
    return Pass;
  }

  /** A graph CheckGraph accepts is undirected with every neighbour in range. */
  lemma GraphOkSymmetric(adj: seq<seq<int>>, automorphisms: seq<seq<int>>)
    requires GraphOk(adj, automorphisms)
    ensures ValidAdjacency(adj) && Symmetric(adj)
  {
    forall x, z | 0 <= x < |adj| && z in adj[x]
      ensures 0 <= z < |adj| && x in adj[z]
    {
      var k :| 0 <= k < |adj[x]| && adj[x][k] == z;
      CountPositive(adj[z], x);
    }
  }

  /** A repeated edge, or a self-loop, makes CheckGraph refuse the list AdjacencyListFromEdges builds. */
  lemma RepeatedEdgeRejected(edges: seq<seq<int>>, adj: seq<seq<int>>, automorphisms: seq<seq<int>>,
                             j: int, k: int, x: int, z: int)
    requires forall e :: 0 <= e < |edges| ==> WellFormedEdge(edges[e]) && edges[e][0] < |adj| && edges[e][1] < |adj|
    requires forall y :: 0 <= y < |adj| ==> adj[y] == Incident(edges, y)
    requires 0 <= j < |edges| && 0 <= k < |edges| && Joins(edges[j], x, z) && Joins(edges[k], x, z)
    requires j != k || x == z
    ensures !GraphOk(adj, automorphisms)
  {
    RepeatedEdgeCounted(edges, j, k, x, z);
    RepeatedEdgeCounted(edges, k, j, z, x) by {
      assert Joins(edges[j], z, x) && Joins(edges[k], z, x);
    }
    assert 0 <= x < |adj| && 0 <= z < |adj|;
    IncidentMembers(edges, z, x);
    var m :| 0 <= m < |adj[z]| && adj[z][m] == x;
    assert Count(adj[adj[z][m]], z) >= 2;
  }

  // ------------------------------------------------------------------------
  // Automorphisms and connectivity.

  /** DefaultAutomorphisms: the single identity permutation 0, 1, ..., size - 1. */
  function DefaultAutomorphisms(size: nat): (t: seq<seq<int>>)
    ensures |t| == 1 && |t[0]| == size && Distinct(t[0])
    ensures forall k :: 0 <= k < size ==> t[0][k] == k
  {
    [seq(size, k => k)]
  }

  /** ComputeConnected: a breadth-first search from node 0 that counts the nodes it visits. */
  method ComputeConnected(adj: seq<seq<int>>) returns (connected: bool)
    requires ValidAdjacency(adj) && |adj| >= 1
    ensures connected <==> ConnectedFromZero(adj)
  {
    var visits := BreadthFirstSearch(adj, 0);
    var nvisited := 0;
    for k := 0 to |visits|
      invariant nvisited == k
    {
      nvisited := nvisited + 1;
    }
    VisitCount(adj, visits);
    connected := nvisited == |adj|;
  }

  /** A search that visits each node at most once, and exactly the reachable ones, visits all nodes iff all are reachable. */
  lemma VisitCount(adj: seq<seq<int>>, visits: seq<Visit>)
    requires forall i, j :: 0 <= i < j < |visits| ==> visits[i].node != visits[j].node
    requires forall k :: 0 <= k < |visits| ==> 0 <= visits[k].node < |adj|
    requires forall x :: 0 <= x < |adj| ==> (Visited(visits, x) <==> Reachable(adj, 0, x))
    ensures |visits| == |adj| <==> ConnectedFromZero(adj)
  {
    var nodes := Nodes(visits);
    assert Distinct(nodes);
    DistinctIndices(nodes, |adj|);
    if |visits| == |adj| {
      forall x | 0 <= x < |adj|
        ensures Reachable(adj, 0, x)
      {
        assert x in nodes;
        var k :| 0 <= k < |nodes| && nodes[k] == x;
        assert Visited(visits, x);
      }
    }
    if ConnectedFromZero(adj) {
      forall x | 0 <= x < |adj|
        ensures x in Elements(nodes)
      {
        assert Reachable(adj, 0, x);
        assert Visited(visits, x);
        var k :| 0 <= k < |visits| && visits[k].node == x;
        assert nodes[k] == x;
      }
      assert Elements(nodes) == Range(|adj|);
      DistinctCardinality(nodes);
    }
  }

  /** Every node can be reached from node 0. */
  ghost predicate ConnectedFromZero(adj: seq<seq<int>>)
  {
    forall x :: 0 <= x < |adj| ==> Reachable(adj, 0, x)
  }

  // ------------------------------------------------------------------------
  // The graph object.

  class CustomGraph {
    const adjlist: seq<seq<int>>
    const nsites: int
    const automorphisms: seq<seq<int>>
    const isbipartite: bool
    const is_connected: bool

    /** What Init establishes. */
    ghost predicate Valid()
    {
      && nsites == |adjlist|
      && GraphOk(adjlist, automorphisms)
      && (nsites >= 1 ==> (is_connected <==> ConnectedFromZero(adjlist)))
    }

    constructor Make(adjlist: seq<seq<int>>, nsites: int, automorphisms: seq<seq<int>>,
                     isbipartite: bool, is_connected: bool)
      ensures this.adjlist == adjlist && this.nsites == nsites && this.automorphisms == automorphisms
      ensures this.isbipartite == isbipartite && this.is_connected == is_connected
    {
      this.adjlist, this.nsites, this.automorphisms := adjlist, nsites, automorphisms;
      this.isbipartite, this.is_connected := isbipartite, is_connected;
    }

    /**
     * Init: the adjacency list if one is given, otherwise size isolated nodes
     * (size below 1 is refused); connectivity; the automorphisms or the identity;
     * the bipartite flag as given; then CheckGraph.
     */
    static method Init(adjacency: Option<seq<seq<int>>>, size: int,
                       automorphisms: Option<seq<seq<int>>>, isBipartite: bool)
      returns (r: Result<CustomGraph>)
      ensures adjacency.None? && size < 1 ==> r.Err?
      ensures r.Err? ==> r.error.InvalidInput?
      ensures r.Ok? ==> r.value.Valid() && r.value.isbipartite == isBipartite
      ensures r.Ok? ==> r.value.adjlist == (if adjacency.Some? then adjacency.value else EmptyLists(size))
      ensures r.Ok? ==> r.value.automorphisms ==
                        (if automorphisms.Some? then automorphisms.value else DefaultAutomorphisms(r.value.nsites))
      ensures adjacency.Some? || size >= 1 ==>
                var adj := if adjacency.Some? then adjacency.value else EmptyLists(size);
                (r.Ok? <==> GraphOk(adj, if automorphisms.Some? then automorphisms.value else DefaultAutomorphisms(|adj|)))
    {
      var adj: seq<seq<int>>;
      var n: int;
      if adjacency.Some? {
        adj := adjacency.value;
        n := |adj|;
      } else {
        if size < 1 {
          return Err(InvalidInput(SizeTooSmall));
        }
        adj := EmptyLists(size);
        n := size;
      }
      var connected := false;
      if ValidAdjacency(adj) && n >= 1 {
        connected := ComputeConnected(adj);
      }
      var aut := if automorphisms.Some? then automorphisms.value else DefaultAutomorphisms(n);
      var check := CheckGraph(adj, n, aut);
      if check.Fail? {
        return Err(check.error);
      }
      GraphOkSymmetric(adj, aut);
      var g := new CustomGraph.Make(adj, n, aut, isBipartite, connected);
      return Ok(g);
    }

    /** SymmetryTable(): the stored automorphisms, each of length nsites. */
    function SymmetryTable(): (t: seq<seq<int>>)
      requires Valid()
      ensures forall a :: 0 <= a < |t| ==> |t[a]| == Nsites()
    {
      automorphisms
    }

    /** Nsites(): the number of adjacency lists. */
    function Nsites(): (n: int)
      requires Valid()
      ensures n == |adjlist|
    {
      nsites
    }

    /** AdjacencyList(): an undirected list with every neighbour in range. */
    function AdjacencyList(): (adj: seq<seq<int>>)
      requires Valid()
      ensures |adj| == Nsites() && ValidAdjacency(adj) && Symmetric(adj)
    {
      GraphOkSymmetric(adjlist, automorphisms);
      adjlist
    }

    /** IsBipartite(): the flag given at construction. */
    function IsBipartite(): bool
      reads this
    {
      isbipartite
    }

    /** IsConnected(): whether the search from node 0 reached every node. */
    function IsConnected(): (b: bool)
      requires Valid() && Nsites() >= 1
      ensures b <==> forall i, j :: 0 <= i < Nsites() && 0 <= j < Nsites() ==> Reachable(adjlist, i, j)
    {
      GraphOkSymmetric(adjlist, automorphisms);
      ConnectedBothWays(adjlist);
      is_connected
    }
  }

  /** In an undirected graph, reaching every node from node 0 connects every pair. */
  lemma ConnectedBothWays(adj: seq<seq<int>>)
    requires ValidAdjacency(adj) && Symmetric(adj) && |adj| >= 1
    ensures ConnectedFromZero(adj) <==> forall i, j :: 0 <= i < |adj| && 0 <= j < |adj| ==> Reachable(adj, i, j)
  {
    if ConnectedFromZero(adj) {
      forall i, j | 0 <= i < |adj| && 0 <= j < |adj|
        ensures Reachable(adj, i, j)
      {
        assert Reachable(adj, 0, i) && Reachable(adj, 0, j);
        var p :| IsPath(adj, p, 0, i);
        var q :| IsPath(adj, q, 0, j);
        var r := ReversePath(adj, p, 0, i);
        PathConcat(adj, r, q, i, 0, j);
      }
    }
  }

  /** In an undirected graph a path can be walked backwards. */
  lemma ReversePath(adj: seq<seq<int>>, p: seq<int>, from: int, to: int) returns (r: seq<int>)
    requires Symmetric(adj) && IsPath(adj, p, from, to)
    ensures IsPath(adj, r, to, from) && |r| == |p|
  {
    r := seq(|p|, k requires 0 <= k < |p| => p[|p| - 1 - k]);
    forall k | 0 < k < |r|
      ensures r[k] in adj[r[k - 1]]
    {
      assert p[|p| - k] in adj[p[|p| - k - 1]];
    }
  }

  // ------------------------------------------------------------------------
  // make_custom_graph.

  /** The options of a custom graph description; edge colours are not part of this model. */
  datatype GraphParameters = GraphParameters(
    adjacencyList: Option<seq<seq<int>>>,
    edges: Option<seq<seq<int>>>,
    size: Option<int>,
    isBipartite: Option<bool>,
    automorphisms: Option<seq<seq<int>>>)

  /** How many of AdjacencyList, Edges and Size are present. */
  function GraphOptionCount(p: GraphParameters): (n: nat)
    ensures n <= 3
  {
    (if p.adjacencyList.Some? then 1 else 0) + (if p.edges.Some? then 1 else 0) + (if p.size.Some? then 1 else 0)
  }

  /** The automorphisms given, or the identity on n sites. */
  function AutomorphismsOr(given: Option<seq<seq<int>>>, n: nat): seq<seq<int>>
  {
    if given.Some? then given.value else DefaultAutomorphisms(n)
  }

  /** make_custom_graph: exactly one of AdjacencyList, Edges and Size; IsBipartite false by default. */
  method MakeCustomGraph(p: GraphParameters) returns (r: Result<CustomGraph>)
    ensures GraphOptionCount(p) != 1 ==> r.Err?
    ensures p.size.Some? && p.size.value < 1 ==> r.Err?
    ensures r.Err? ==> r.error.InvalidInput?
    ensures r.Ok? ==> GraphOptionCount(p) == 1 && r.value.Valid()
    ensures r.Ok? ==> r.value.isbipartite == (if p.isBipartite.Some? then p.isBipartite.value else false)
    ensures r.Ok? && p.adjacencyList.Some? ==> r.value.adjlist == p.adjacencyList.value
    ensures r.Ok? && p.size.Some? ==> r.value.adjlist == EmptyLists(p.size.value)
    ensures r.Ok? && p.edges.Some? ==>
              forall x :: 0 <= x < r.value.nsites ==> r.value.adjlist[x] == Incident(p.edges.value, x)
    ensures r.Ok? ==> r.value.automorphisms ==
                      (if p.automorphisms.Some? then p.automorphisms.value else DefaultAutomorphisms(r.value.nsites))
    ensures r.Ok? && p.edges.Some? ==> LargestEndpoint(p.edges.value, r.value.nsites - 1)
    // With exactly one option, the graph is built exactly when the source's checks all pass.
    ensures GraphOptionCount(p) == 1 && p.adjacencyList.Some? ==>
              var adj := p.adjacencyList.value;
              (r.Ok? <==> GraphOk(adj, AutomorphismsOr(p.automorphisms, |adj|)))
    ensures GraphOptionCount(p) == 1 && p.size.Some? ==>
              (r.Ok? <==> p.size.value >= 1 && GraphOk(EmptyLists(p.size.value), AutomorphismsOr(p.automorphisms, p.size.value)))
    ensures GraphOptionCount(p) == 1 && p.edges.Some? ==>
              var edges := p.edges.value;
              (r.Ok? <==> (forall k :: 0 <= k < |edges| ==> WellFormedEdge(edges[k])) &&
                          GraphOk(EdgesList(edges), AutomorphismsOr(p.automorphisms, |EdgesList(edges)|)))
  {
    var count := GraphOptionCount(p);
    if count > 1 {
      return Err(InvalidInput(TooManyOptions));
    } else if count < 1 {
      return Err(InvalidInput(NoOption));
    }
    var isBipartite := if p.isBipartite.Some? then p.isBipartite.value else false;
    var adjlist: seq<seq<int>>;
    if p.adjacencyList.Some? {
      adjlist := p.adjacencyList.value;
    } else if p.edges.Some? {
      var built := AdjacencyListFromEdges(p.edges.value);
      if built.Err? {
        return Err(built.error);
      }
      adjlist := built.value;
      LargestUnique(p.edges.value, |adjlist| - 1);
      assert adjlist == EdgesList(p.edges.value);
    } else {
      var size := p.size.value;
      if size < 1 {
        return Err(InvalidInput(SizeTooSmall));
      }
      adjlist := EmptyLists(size);
    }
    r := CustomGraph.Init(Some(adjlist), |adjlist|, p.automorphisms, isBipartite);
  }
}
