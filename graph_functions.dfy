// Breadth-first search over an adjacency list, and the distance tables built
// on it. A visitor callback is modelled by the sequence of calls it receives.
module GraphFunctions {
  import opened Seqs

  /** One call of the visitor: the node reached and its depth in the search. */
  datatype Visit = Visit(node: int, depth: int)

  /** One call of the whole-graph visitor: it also names the node whose search reached it. */
  datatype ComponentVisit = ComponentVisit(node: int, depth: int, component: int)

  /** Every neighbour named in the adjacency list is a node of the graph. */
  predicate ValidAdjacency(adj: seq<seq<int>>)
  {
    forall i, k :: 0 <= i < |adj| && 0 <= k < |adj[i]| ==> 0 <= adj[i][k] < |adj|
  }

  /** The graph is undirected: whenever z is a neighbour of x, x is a neighbour of z. */
  predicate Symmetric(adj: seq<seq<int>>)
  {
    forall x, z :: 0 <= x < |adj| && z in adj[x] ==> 0 <= z < |adj| && x in adj[z]
  }

  /** p walks from `from` to `to` along edges of the graph, in |p| - 1 steps. */
  ghost predicate IsPath(adj: seq<seq<int>>, p: seq<int>, from: int, to: int)
  {
    |p| >= 1 && p[0] == from && p[|p| - 1] == to &&
    (forall i :: 0 <= i < |p| ==> 0 <= p[i] < |adj|) &&
    (forall i :: 0 < i < |p| ==> p[i] in adj[p[i - 1]])
  }

  ghost predicate Reachable(adj: seq<seq<int>>, from: int, to: int)
  {
    exists p :: IsPath(adj, p, from, to)
  }

  /** d is the number of steps of a shortest path from `from` to `to`. */
  ghost predicate IsDistance(adj: seq<seq<int>>, from: int, to: int, d: int)
  {
    (exists p :: IsPath(adj, p, from, to) && |p| == d + 1) &&
    (forall p :: IsPath(adj, p, from, to) ==> d + 1 <= |p|)
  }

  ghost predicate Visited(visits: seq<Visit>, x: int)
  {
    exists k :: 0 <= k < |visits| && visits[k].node == x
  }

  /** The row Distances(root) returns: -1 exactly for the nodes root cannot reach, the distance otherwise. */
  ghost predicate IsDistanceRow(adj: seq<seq<int>>, root: int, dists: seq<int>)
  {
    |dists| == |adj| &&
    forall x :: 0 <= x < |adj| ==>
      (dists[x] == -1 <==> !Reachable(adj, root, x)) &&
      (dists[x] != -1 ==> IsDistance(adj, root, x, dists[x]))
  }

  function Nodes(all: seq<Visit>): (r: seq<int>)
    ensures |r| == |all|
  {
    seq(|all|, k requires 0 <= k < |all| => all[k].node)
  }

  function Depths(all: seq<Visit>): (r: seq<int>)
    ensures |r| == |all|
  {
    seq(|all|, k requires 0 <= k < |all| => all[k].depth)
  }

  // ------------------------------------------------------------------------
  // What the search keeps true. `all` holds every entry ever pushed on the
  // queue, in push order; the queue itself is all[head..]. seen0 is the seen
  // vector the search was handed, seen the current one.

  ghost predicate Pushed(adj: seq<seq<int>>, start: int, maxDepth: int, seen0: seq<bool>, seen: seq<bool>,
                         all: seq<Visit>, parent: seq<int>)
  {
    Entries(adj, start, seen0, seen, all, parent) && DistinctNodes(all) &&
    SeenMatches(adj, seen0, seen, all) && DepthOrder(all) && Parents(adj, maxDepth, all, parent)
  }

  /** The queue started with (start, 0) and holds only nodes that were unseen beforehand. */
  ghost predicate Entries(adj: seq<seq<int>>, start: int, seen0: seq<bool>, seen: seq<bool>,
                          all: seq<Visit>, parent: seq<int>)
  {
    |seen0| == |adj| && |seen| == |adj| && |all| >= 1 && |parent| == |all| &&
    all[0] == Visit(start, 0) &&
    (forall k :: 0 <= k < |all| ==> 0 <= all[k].node < |adj| && !seen0[all[k].node])
  }

  ghost predicate DistinctNodes(all: seq<Visit>)
  {
    Distinct(Nodes(all))
  }

  /** A node is marked seen iff it was seen beforehand or has been pushed. */
  ghost predicate SeenMatches(adj: seq<seq<int>>, seen0: seq<bool>, seen: seq<bool>, all: seq<Visit>)
    requires |seen0| == |adj| && |seen| == |adj|
  {
    forall x :: 0 <= x < |adj| ==> (seen[x] <==> seen0[x] || Visited(all, x))
  }

  /** Depths never decrease along the queue, and entry k is at most k deep. */
  ghost predicate DepthOrder(all: seq<Visit>)
  {
    (forall i, j :: 0 <= i < j < |all| ==> Depths(all)[i] <= Depths(all)[j]) &&
    (forall k :: 0 <= k < |all| ==> Depths(all)[k] <= k)
  }

  /** Every entry but the first was pushed while expanding an earlier, shallow enough neighbour. */
  ghost predicate Parents(adj: seq<seq<int>>, maxDepth: int, all: seq<Visit>, parent: seq<int>)
    requires |parent| == |all| && forall k :: 0 <= k < |all| ==> 0 <= all[k].node < |adj|
  {
    forall k {:trigger parent[k]} :: 0 < k < |all| ==>
      0 <= parent[k] < k && all[parent[k]].depth <= maxDepth &&
      all[k].node in adj[all[parent[k]].node] && all[k].depth == all[parent[k]].depth + 1
  }

  /** Every neighbour in zs was seen beforehand or was pushed with depth at most d + 1. */
  ghost predicate ClosedAt(seen0: seq<bool>, all: seq<Visit>, d: int, zs: seq<int>)
  {
    forall z :: z in zs ==>
      0 <= z < |seen0| &&
      (seen0[z] || exists k :: 0 <= k < |all| && all[k].node == z && all[k].depth <= d + 1)
  }

  /** The entries before h that were expanded have had all their neighbours handled. */
  ghost predicate Closed(adj: seq<seq<int>>, maxDepth: int, seen0: seq<bool>, all: seq<Visit>, h: int)
    requires h <= |all| && forall k :: 0 <= k < |all| ==> 0 <= all[k].node < |adj|
  {
    forall j :: 0 <= j < h && all[j].depth <= maxDepth ==> ClosedAt(seen0, all, all[j].depth, adj[all[j].node])
  }

  /** The visitor has been called, in order, on exactly the popped entries no deeper than maxDepth. */
  ghost predicate VisitsSoFar(maxDepth: int, all: seq<Visit>, h: int, visits: seq<Visit>)
  {
    |visits| <= h <= |all| && visits == all[..|visits|] &&
    (forall j :: 0 <= j < |visits| ==> all[j].depth <= maxDepth) &&
    (forall j :: |visits| <= j < h ==> all[j].depth > maxDepth)
  }

  ghost predicate Searching(adj: seq<seq<int>>, start: int, maxDepth: int, seen0: seq<bool>, seen: seq<bool>,
                            all: seq<Visit>, parent: seq<int>, h: int, visits: seq<Visit>)
  {
    Pushed(adj, start, maxDepth, seen0, seen, all, parent) &&
    0 <= h <= |all| <= |adj| &&
    Closed(adj, maxDepth, seen0, all, h) &&
    (h < |all| ==> all[|all| - 1].depth <= all[h].depth + 1) &&
    VisitsSoFar(maxDepth, all, h, visits)
  }

  /** The state when the queue has run empty. */
  ghost predicate Searched(adj: seq<seq<int>>, start: int, maxDepth: int, seen0: seq<bool>, seen: seq<bool>,
                           all: seq<Visit>, parent: seq<int>, visits: seq<Visit>)
  {
    Searching(adj, start, maxDepth, seen0, seen, all, parent, |all|, visits)
  }

  lemma PushedBound(adj: seq<seq<int>>, start: int, maxDepth: int, seen0: seq<bool>, seen: seq<bool>,
                    all: seq<Visit>, parent: seq<int>)
    requires Pushed(adj, start, maxDepth, seen0, seen, all, parent)
    ensures |all| <= |adj|
  {
    DistinctIndices(Nodes(all), |adj|);
  }

  lemma ClosedAtGrow(seen0: seq<bool>, all: seq<Visit>, e: Visit, d: int, zs: seq<int>)
    requires ClosedAt(seen0, all, d, zs)
    ensures ClosedAt(seen0, all + [e], d, zs)
  {
    forall z | z in zs
      ensures seen0[z] || exists k :: 0 <= k < |all + [e]| && (all + [e])[k].node == z && (all + [e])[k].depth <= d + 1
    {
      if !seen0[z] {
        var k :| 0 <= k < |all| && all[k].node == z && all[k].depth <= d + 1;
        assert (all + [e])[k] == all[k];
      }
    }
  }

  lemma ClosedGrow(adj: seq<seq<int>>, maxDepth: int, seen0: seq<bool>, all: seq<Visit>, e: Visit, h: int)
    requires h <= |all| && forall k :: 0 <= k < |all| ==> 0 <= all[k].node < |adj|
    requires 0 <= e.node < |adj|
    requires Closed(adj, maxDepth, seen0, all, h)
    ensures Closed(adj, maxDepth, seen0, all + [e], h)
  {
    forall j | 0 <= j < h && (all + [e])[j].depth <= maxDepth
      ensures ClosedAt(seen0, all + [e], (all + [e])[j].depth, adj[(all + [e])[j].node])
    {
      assert (all + [e])[j] == all[j];
      ClosedAtGrow(seen0, all, e, all[j].depth, adj[all[j].node]);
    }
  }

  /** Pushing an unseen neighbour z of the entry being expanded keeps Pushed. */
  lemma PushStep(adj: seq<seq<int>>, start: int, maxDepth: int, seen0: seq<bool>, seen: seq<bool>,
                 all: seq<Visit>, parent: seq<int>, h: int, z: int)
    requires ValidAdjacency(adj)
    requires Pushed(adj, start, maxDepth, seen0, seen, all, parent)
    requires 0 <= h < |all| && all[h].depth <= maxDepth && all[|all| - 1].depth <= all[h].depth + 1
    requires z in adj[all[h].node] && !seen[z]
    ensures Pushed(adj, start, maxDepth, seen0, seen[z := true], all + [Visit(z, all[h].depth + 1)],
                   parent + [h])
  {
    var e := Visit(z, all[h].depth + 1);
    assert 0 <= z < |adj| by {
      var k :| 0 <= k < |adj[all[h].node]| && adj[all[h].node][k] == z;
    }
    assert !Visited(all, z);
    PushSeen(adj, seen0, seen, all, e);
    PushOrder(all, h, e);
    PushParents(adj, maxDepth, all, parent, h, e);
    PushDistinct(all, e);
  }

  lemma PushSeen(adj: seq<seq<int>>, seen0: seq<bool>, seen: seq<bool>, all: seq<Visit>, e: Visit)
    requires |seen0| == |adj| && |seen| == |adj| && 0 <= e.node < |adj|
    requires SeenMatches(adj, seen0, seen, all)
    ensures SeenMatches(adj, seen0, seen[e.node := true], all + [e])
  {
    var all' := all + [e];
    var seen' := seen[e.node := true];
    forall x | 0 <= x < |adj|
      ensures seen'[x] <==> seen0[x] || Visited(all', x)
    {
      if Visited(all, x) {
        var k :| 0 <= k < |all| && all[k].node == x;
        assert all'[k] == all[k];
      }
      if Visited(all', x) && x != e.node {
        var k :| 0 <= k < |all'| && all'[k].node == x;
        assert k < |all| && all[k].node == x;
      }
      assert all'[|all|].node == e.node;
    }
  }

  /** The two facts DepthOrder keeps, for one pair of entries. */
  lemma DepthsOrdered(all: seq<Visit>, i: int, j: int)
    requires DepthOrder(all) && 0 <= i <= j < |all|
    ensures all[i].depth <= all[j].depth <= j
  {
    assert Depths(all)[i] == all[i].depth && Depths(all)[j] == all[j].depth;
  }

  lemma NodesApart(all: seq<Visit>, i: int, j: int)
    requires DistinctNodes(all) && 0 <= i < j < |all|
    ensures all[i].node != all[j].node
  {
    assert Nodes(all)[i] == all[i].node && Nodes(all)[j] == all[j].node;
  }

  lemma PushOrder(all: seq<Visit>, h: int, e: Visit)
    requires DepthOrder(all) && 0 <= h < |all|
    requires all[|all| - 1].depth <= all[h].depth + 1 && e.depth == all[h].depth + 1
    ensures DepthOrder(all + [e])
  {
    var all' := all + [e];
    DepthsOrdered(all, h, |all| - 1);
    forall i, j | 0 <= i < j < |all'|
      ensures Depths(all')[i] <= Depths(all')[j]
    {
      assert all'[i] == all[i];
      if j < |all| {
        assert all'[j] == all[j];
        DepthsOrdered(all, i, j);
      } else {
        DepthsOrdered(all, i, |all| - 1);
      }
    }
    forall k | 0 <= k < |all'|
      ensures Depths(all')[k] <= k
    {
      if k < |all| {
        assert all'[k] == all[k];
        DepthsOrdered(all, k, k);
      }
    }
  }

  lemma PushParents(adj: seq<seq<int>>, maxDepth: int, all: seq<Visit>, parent: seq<int>, h: int, e: Visit)
    requires |parent| == |all| && forall k :: 0 <= k < |all| ==> 0 <= all[k].node < |adj|
    requires Parents(adj, maxDepth, all, parent)
    requires 0 <= h < |all| && all[h].depth <= maxDepth && 0 <= e.node < |adj|
    requires e.node in adj[all[h].node] && e.depth == all[h].depth + 1
    ensures Parents(adj, maxDepth, all + [e], parent + [h])
  {
    var all' := all + [e];
    var parent' := parent + [h];
    forall k | 0 < k < |all'|
      ensures 0 <= parent'[k] < k && all'[parent'[k]].depth <= maxDepth &&
              all'[k].node in adj[all'[parent'[k]].node] && all'[k].depth == all'[parent'[k]].depth + 1
    {
      if k < |all| {
        assert all'[k] == all[k] && parent'[k] == parent[k] && all'[parent[k]] == all[parent[k]];
      } else {
        assert parent'[k] == h && all'[h] == all[h];
      }
    }
  }

  lemma PushDistinct(all: seq<Visit>, e: Visit)
    requires DistinctNodes(all) && !Visited(all, e.node)
    ensures DistinctNodes(all + [e])
  {
    var all' := all + [e];
    forall i, j | 0 <= i < j < |all'|
      ensures Nodes(all')[i] != Nodes(all')[j]
    {
      assert all'[i] == all[i];
      if j < |all| {
        assert all'[j] == all[j];
        NodesApart(all, i, j);
      }
    }
  }

  // ------------------------------------------------------------------------
  // BreadthFirstSearch_Impl.

  /**
   * Searches from start, marking every node it pushes in seen, and returns the
   * visitor calls. The ghost results are the pushed entries and, for each, the
   * entry whose expansion pushed it.
   */
  method SearchFrom(adj: seq<seq<int>>, start: int, maxDepth: int, seen: array<bool>)
    returns (visits: seq<Visit>, ghost all: seq<Visit>, ghost parent: seq<int>)
    requires ValidAdjacency(adj)
    requires 0 <= start < |adj| && maxDepth > 0
    requires seen.Length == |adj| && !seen[start]
    modifies seen
    ensures Searched(adj, start, maxDepth, old(seen[..]), seen[..], all, parent, visits)
  {
    ghost var seen0 := seen[..];
    var queue := [Visit(start, 0)];
    parent := [0];
    seen[start] := true;
    var head := 0;
    visits := [];
    StartSearch(adj, start, maxDepth, seen0, seen[..]);
    while head < |queue|
      invariant Searching(adj, start, maxDepth, seen0, seen[..], queue, parent, head, visits)
      decreases |adj| - |queue|, |queue| - head
    {
      var elem := queue[head];
      head := head + 1;
      if elem.depth <= maxDepth {
        visits, queue, parent := VisitEntry(adj, start, maxDepth, seen0, seen, queue, parent, head, visits);
      } else {
        SkipStep(adj, start, maxDepth, seen0, seen[..], queue, parent, head - 1, visits);
      }
    }
    all := queue;
  }

  /** The visitor call on the entry just popped, followed by the expansion of its neighbours. */
  method VisitEntry(adj: seq<seq<int>>, start: int, maxDepth: int, ghost seen0: seq<bool>, seen: array<bool>,
                    queue0: seq<Visit>, ghost parent0: seq<int>, head: int, visits0: seq<Visit>)
    returns (visits: seq<Visit>, queue: seq<Visit>, ghost parent: seq<int>)
    requires ValidAdjacency(adj) && seen.Length == |adj|
    requires Searching(adj, start, maxDepth, seen0, seen[..], queue0, parent0, head - 1, visits0)
    requires 1 <= head <= |queue0| && queue0[head - 1].depth <= maxDepth
    modifies seen
    ensures Searching(adj, start, maxDepth, seen0, seen[..], queue, parent, head, visits)
    ensures |queue0| <= |queue|
  {
    visits := visits0 + [queue0[head - 1]];
    ExpandStart(adj, start, maxDepth, seen0, seen[..], queue0, parent0, head);
    queue, parent := Expand(adj, start, maxDepth, seen0, seen, queue0, parent0, head);
    ExpandDone(adj, start, maxDepth, seen0, seen[..], queue0, queue, parent, head, adj[queue0[head - 1].node]);
    PushedBound(adj, start, maxDepth, seen0, seen[..], queue, parent);
    AfterExpand(adj, start, maxDepth, seen0, seen[..], queue0, queue, parent, head, visits0);
  }

  lemma StartSearch(adj: seq<seq<int>>, start: int, maxDepth: int, seen0: seq<bool>, seen: seq<bool>)
    requires 0 <= start < |adj| && |seen0| == |adj| && !seen0[start] && seen == seen0[start := true]
    ensures Searching(adj, start, maxDepth, seen0, seen, [Visit(start, 0)], [0], 0, [])
  {
    var all := [Visit(start, 0)];
    assert forall x :: 0 <= x < |adj| ==> (seen[x] <==> seen0[x] || Visited(all, x)) by {
      assert all[0].node == start;
    }
    assert Pushed(adj, start, maxDepth, seen0, seen, all, [0]);
  }

  /** An entry deeper than maxDepth is popped without calling the visitor or expanding it. */
  lemma SkipStep(adj: seq<seq<int>>, start: int, maxDepth: int, seen0: seq<bool>, seen: seq<bool>,
                 all: seq<Visit>, parent: seq<int>, h: int, visits: seq<Visit>)
    requires Searching(adj, start, maxDepth, seen0, seen, all, parent, h, visits)
    requires h < |all| && all[h].depth > maxDepth
    ensures Searching(adj, start, maxDepth, seen0, seen, all, parent, h + 1, visits)
  {
    if h + 1 < |all| {
      DepthsOrdered(all, h, h + 1);
    }
  }

  /** After the visitor call on all0[h - 1] and its expansion, the search invariant holds at h. */
  lemma AfterExpand(adj: seq<seq<int>>, start: int, maxDepth: int, seen0: seq<bool>, seen: seq<bool>,
                    all0: seq<Visit>, all: seq<Visit>, parent: seq<int>, h: int, visits: seq<Visit>)
    requires 1 <= h <= |all0| && all0[h - 1].depth <= maxDepth
    requires VisitsSoFar(maxDepth, all0, h - 1, visits)
    requires DepthOrder(all0)
    requires Pushed(adj, start, maxDepth, seen0, seen, all, parent) && |all| <= |adj|
    requires |all0| <= |all| && all[..|all0|] == all0
    requires Closed(adj, maxDepth, seen0, all, h)
    requires all[|all| - 1].depth <= all0[h - 1].depth + 1
    ensures Searching(adj, start, maxDepth, seen0, seen, all, parent, h, visits + [all0[h - 1]])
  {
    DepthsOrdered(all0, |visits|, h - 1);
    assert |visits| == h - 1;
    assert all[h - 1] == all0[h - 1];
    assert all[..h] == all0[..h];
    if h < |all| {
      DepthsOrdered(all, h - 1, h);
    }
  }

  /** A neighbour that is already seen was seen beforehand or pushed no deeper than d + 1. */
  lemma HandleSeen(adj: seq<seq<int>>, start: int, maxDepth: int, seen0: seq<bool>, seen: seq<bool>,
                   all: seq<Visit>, parent: seq<int>, d: int, zs: seq<int>, z: int)
    requires Pushed(adj, start, maxDepth, seen0, seen, all, parent)
    requires ClosedAt(seen0, all, d, zs) && 0 <= z < |adj| && seen[z]
    requires all[|all| - 1].depth <= d + 1
    ensures ClosedAt(seen0, all, d, zs + [z])
  {
    if !seen0[z] {
      var k :| 0 <= k < |all| && all[k].node == z;
      DepthsOrdered(all, k, |all| - 1);
    }
  }

  /** A neighbour pushed at depth d + 1 is handled. */
  lemma HandlePushed(seen0: seq<bool>, all: seq<Visit>, d: int, zs: seq<int>, z: int)
    requires ClosedAt(seen0, all, d, zs) && 0 <= z < |seen0|
    ensures ClosedAt(seen0, all + [Visit(z, d + 1)], d, zs + [z])
  {
    ClosedAtGrow(seen0, all, Visit(z, d + 1), d, zs);
    assert (all + [Visit(z, d + 1)])[|all|] == Visit(z, d + 1);
  }

  lemma TakeOneMore(s: seq<int>, i: int)
    requires 0 <= i < |s|
    ensures s[..i + 1] == s[..i] + [s[i]]
  {
  }

  /** The state of the neighbour loop once the neighbours zs of queue0[head - 1] are handled. */
  ghost predicate Expanding(adj: seq<seq<int>>, start: int, maxDepth: int, seen0: seq<bool>, seen: seq<bool>,
                            queue0: seq<Visit>, queue: seq<Visit>, parent: seq<int>, head: int, zs: seq<int>)
  {
    Pushed(adj, start, maxDepth, seen0, seen, queue, parent) &&
    1 <= head <= |queue0| <= |queue| && queue[..|queue0|] == queue0 &&
    queue[head - 1] == queue0[head - 1] && queue[head - 1].depth <= maxDepth &&
    Closed(adj, maxDepth, seen0, queue, head - 1) &&
    ClosedAt(seen0, queue, queue[head - 1].depth, zs) &&
    queue[|queue| - 1].depth <= queue[head - 1].depth + 1
  }

  lemma ExpandStart(adj: seq<seq<int>>, start: int, maxDepth: int, seen0: seq<bool>, seen: seq<bool>,
                    queue0: seq<Visit>, parent0: seq<int>, head: int)
    requires Pushed(adj, start, maxDepth, seen0, seen, queue0, parent0)
    requires 1 <= head <= |queue0| && queue0[head - 1].depth <= maxDepth
    requires Closed(adj, maxDepth, seen0, queue0, head - 1)
    requires queue0[|queue0| - 1].depth <= queue0[head - 1].depth + 1
    ensures Expanding(adj, start, maxDepth, seen0, seen, queue0, queue0, parent0, head, [])
  {
    assert queue0[..|queue0|] == queue0;
  }

  lemma SeenKeeps(adj: seq<seq<int>>, start: int, maxDepth: int, seen0: seq<bool>, seen: seq<bool>,
                  queue0: seq<Visit>, queue: seq<Visit>, parent: seq<int>, head: int, zs: seq<int>, z: int)
    requires Expanding(adj, start, maxDepth, seen0, seen, queue0, queue, parent, head, zs)
    requires 0 <= z < |adj| && seen[z]
    ensures Expanding(adj, start, maxDepth, seen0, seen, queue0, queue, parent, head, zs + [z])
  {
    HandleSeen(adj, start, maxDepth, seen0, seen, queue, parent, queue[head - 1].depth, zs, z);
  }

  lemma ExpandDone(adj: seq<seq<int>>, start: int, maxDepth: int, seen0: seq<bool>, seen: seq<bool>,
                   queue0: seq<Visit>, queue: seq<Visit>, parent: seq<int>, head: int, zs: seq<int>)
    requires Expanding(adj, start, maxDepth, seen0, seen, queue0, queue, parent, head, zs)
    requires zs == adj[queue[head - 1].node]
    ensures Pushed(adj, start, maxDepth, seen0, seen, queue, parent)
    ensures |queue0| <= |queue| && queue[..|queue0|] == queue0
    ensures Closed(adj, maxDepth, seen0, queue, head)
    ensures queue[|queue| - 1].depth <= queue0[head - 1].depth + 1
  {
    assert queue[head - 1] == queue0[head - 1];
  }

  lemma PushKeeps(adj: seq<seq<int>>, start: int, maxDepth: int, seen0: seq<bool>, seen: seq<bool>,
                  queue0: seq<Visit>, queue: seq<Visit>, parent: seq<int>, head: int, zs: seq<int>, z: int)
    requires ValidAdjacency(adj)
    requires Expanding(adj, start, maxDepth, seen0, seen, queue0, queue, parent, head, zs)
    requires z in adj[queue[head - 1].node] && !seen[z]
    ensures Expanding(adj, start, maxDepth, seen0, seen[z := true], queue0,
                      queue + [Visit(z, queue[head - 1].depth + 1)], parent + [head - 1], head, zs + [z])
  {
    var d := queue[head - 1].depth;
    var e := Visit(z, d + 1);
    PushStep(adj, start, maxDepth, seen0, seen, queue, parent, head - 1, z);
    ClosedGrow(adj, maxDepth, seen0, queue, e, head - 1);
    HandlePushed(seen0, queue, d, zs, z);
    assert (queue + [e])[..|queue0|] == queue[..|queue0|];
    assert (queue + [e])[head - 1] == queue[head - 1];
  }

  /** One neighbour z of the entry being expanded: pushed one level deeper unless it is already seen. */
  method VisitNeighbour(adj: seq<seq<int>>, start: int, maxDepth: int, ghost seen0: seq<bool>, seen: array<bool>,
                        ghost queue0: seq<Visit>, queue: seq<Visit>, ghost parent: seq<int>, head: int,
                        ghost done: seq<int>, z: int)
    returns (queue': seq<Visit>, ghost parent': seq<int>)
    requires ValidAdjacency(adj) && seen.Length == |adj|
    requires Expanding(adj, start, maxDepth, seen0, seen[..], queue0, queue, parent, head, done)
    requires 0 <= z < |adj| && z in adj[queue[head - 1].node]
    modifies seen
    ensures Expanding(adj, start, maxDepth, seen0, seen[..], queue0, queue', parent', head, done + [z])
  {
    ghost var sv := seen[..];
    if !seen[z] {
      PushKeeps(adj, start, maxDepth, seen0, sv, queue0, queue, parent, head, done, z);
      seen[z] := true;
      assert seen[..] == sv[z := true];
      queue' := queue + [Visit(z, queue[head - 1].depth + 1)];
      parent' := parent + [head - 1];
    } else {
      SeenKeeps(adj, start, maxDepth, seen0, sv, queue0, queue, parent, head, done, z);
      queue', parent' := queue, parent;
    }
  }

  /** The neighbour loop of the search: pushes the unseen neighbours of queue[head - 1], one level deeper. */
  method Expand(adj: seq<seq<int>>, start: int, maxDepth: int, ghost seen0: seq<bool>, seen: array<bool>,
                queue0: seq<Visit>, ghost parent0: seq<int>, head: int)
    returns (queue: seq<Visit>, ghost parent: seq<int>)
    requires ValidAdjacency(adj) && seen.Length == |adj|
    requires Expanding(adj, start, maxDepth, seen0, seen[..], queue0, queue0, parent0, head, [])
    modifies seen
    ensures Expanding(adj, start, maxDepth, seen0, seen[..], queue0, queue, parent, head, adj[queue0[head - 1].node])
  {
    queue, parent := queue0, parent0;
    var elem := queue0[head - 1];
    var nbrs := adj[elem.node];
    var i := 0;
    assert nbrs[..0] == [];
    while i < |nbrs|
      invariant 0 <= i <= |nbrs|
      invariant Expanding(adj, start, maxDepth, seen0, seen[..], queue0, queue, parent, head, nbrs[..i])
    {
      TakeOneMore(nbrs, i);
      queue, parent := VisitNeighbour(adj, start, maxDepth, seen0, seen, queue0, queue, parent, head, nbrs[..i], nbrs[i]);
      i := i + 1;
    }
    assert nbrs[..i] == nbrs;
  }

  // ------------------------------------------------------------------------
  // What a finished search establishes.

  /** Each pushed entry lies at the end of a path from start with as many steps as its depth. */
  lemma {:induction false} PathToEntry(adj: seq<seq<int>>, start: int, maxDepth: int, seen0: seq<bool>,
                                       seen: seq<bool>, all: seq<Visit>, parent: seq<int>, k: int)
    returns (p: seq<int>)
    requires Pushed(adj, start, maxDepth, seen0, seen, all, parent)
    requires 0 <= k < |all|
    ensures IsPath(adj, p, start, all[k].node) && |p| == all[k].depth + 1
    decreases k
  {
    if k == 0 {
      p := [start];
    } else {
      var q := PathToEntry(adj, start, maxDepth, seen0, seen, all, parent, parent[k]);
      p := q + [all[k].node];
      assert forall i :: 0 <= i < |q| ==> p[i] == q[i];
    }
  }

  /** With maxDepth at least the number of nodes no entry is too deep to be expanded. */
  lemma AllShallow(adj: seq<seq<int>>, start: int, maxDepth: int, seen0: seq<bool>,
                   seen: seq<bool>, all: seq<Visit>, parent: seq<int>)
    requires Pushed(adj, start, maxDepth, seen0, seen, all, parent)
    requires maxDepth >= |adj|
    ensures forall k :: 0 <= k < |all| ==> all[k].depth < maxDepth
  {
    PushedBound(adj, start, maxDepth, seen0, seen, all, parent);
    forall k | 0 <= k < |all|
      ensures all[k].depth < maxDepth
    {
      DepthsOrdered(all, k, k);
    }
  }

  /**
   * Along a path from start that avoids the nodes seen beforehand, the i-th
   * node was pushed with depth at most i (while the nodes before it could be expanded).
   */
  lemma {:induction false} ReachedAlongPath(adj: seq<seq<int>>, start: int, maxDepth: int, seen0: seq<bool>,
                                            seen: seq<bool>, all: seq<Visit>, parent: seq<int>,
                                            visits: seq<Visit>, p: seq<int>, x: int, i: int)
    requires Searched(adj, start, maxDepth, seen0, seen, all, parent, visits)
    requires IsPath(adj, p, start, x) && 0 <= i < |p|
    requires forall j :: 0 <= j < |p| ==> !seen0[p[j]]
    requires i <= maxDepth + 1 || forall k :: 0 <= k < |all| ==> all[k].depth <= maxDepth
    ensures exists k :: 0 <= k < |all| && all[k].node == p[i] && all[k].depth <= i
    decreases i
  {
    if i == 0 {
      assert all[0].node == p[0];
    } else {
      ReachedAlongPath(adj, start, maxDepth, seen0, seen, all, parent, visits, p, x, i - 1);
      var k :| 0 <= k < |all| && all[k].node == p[i - 1] && all[k].depth <= i - 1;
      assert all[k].depth <= maxDepth;
      assert ClosedAt(seen0, all, all[k].depth, adj[all[k].node]);
      assert p[i] in adj[p[i - 1]];
      assert !seen0[p[i]];
    }
  }

  /** The entries the visitor saw carry their shortest-path distance from start. */
  lemma VisitsAreDistances(adj: seq<seq<int>>, start: int, maxDepth: int, seen0: seq<bool>,
                           seen: seq<bool>, all: seq<Visit>, parent: seq<int>, visits: seq<Visit>)
    requires Searched(adj, start, maxDepth, seen0, seen, all, parent, visits)
    requires forall x :: 0 <= x < |adj| && Reachable(adj, start, x) ==> !seen0[x]
    ensures forall k :: 0 <= k < |visits| ==> IsDistance(adj, start, visits[k].node, visits[k].depth)
  {
    forall k | 0 <= k < |visits|
      ensures IsDistance(adj, start, visits[k].node, visits[k].depth)
    {
      assert visits[k] == all[k];
      var p0 := PathToEntry(adj, start, maxDepth, seen0, seen, all, parent, k);
      forall p | IsPath(adj, p, start, visits[k].node)
        ensures visits[k].depth + 1 <= |p|
      {
        if |p| - 1 <= maxDepth + 1 {
          forall j | 0 <= j < |p|
            ensures !seen0[p[j]]
          {
            PathPrefix(adj, p, start, visits[k].node, j);
          }
          ReachedAlongPath(adj, start, maxDepth, seen0, seen, all, parent, visits, p, visits[k].node, |p| - 1);
          var k' :| 0 <= k' < |all| && all[k'].node == visits[k].node && all[k'].depth <= |p| - 1;
          if k' < k {
            NodesApart(all, k', k);
          } else if k < k' {
            NodesApart(all, k, k');
          }
        }
      }
    }
  }

  /** Every node within maxDepth steps of start (through unseen nodes) was visited. */
  lemma NearNodesVisited(adj: seq<seq<int>>, start: int, maxDepth: int, seen0: seq<bool>,
                         seen: seq<bool>, all: seq<Visit>, parent: seq<int>, visits: seq<Visit>,
                         p: seq<int>, x: int)
    requires Searched(adj, start, maxDepth, seen0, seen, all, parent, visits)
    requires IsPath(adj, p, start, x)
    requires forall j :: 0 <= j < |p| ==> !seen0[p[j]]
    requires |p| <= maxDepth + 1 || forall k :: 0 <= k < |all| ==> all[k].depth <= maxDepth
    ensures Visited(visits, x)
  {
    ReachedAlongPath(adj, start, maxDepth, seen0, seen, all, parent, visits, p, x, |p| - 1);
    var k :| 0 <= k < |all| && all[k].node == x && all[k].depth <= |p| - 1;
    assert all[k].depth <= maxDepth;
    assert k < |visits| && visits[k] == all[k];
  }

  lemma PathPrefix(adj: seq<seq<int>>, p: seq<int>, from: int, to: int, j: int)
    requires IsPath(adj, p, from, to) && 0 <= j < |p|
    ensures IsPath(adj, p[..j + 1], from, p[j])
  {
  }

  // ------------------------------------------------------------------------
  // The public searches.

  /**
   * BreadthFirstSearch(start, max_depth, visitor): a search from start with a
   * fresh seen vector. The visitor is called once per node within max_depth
   * steps of start, in order of depth, with the node's distance from start.
   */
  method BreadthFirstSearchFrom(adj: seq<seq<int>>, start: int, maxDepth: int) returns (visits: seq<Visit>)
    requires ValidAdjacency(adj)
    requires 0 <= start < |adj| && maxDepth > 0
    ensures |visits| >= 1 && visits[0] == Visit(start, 0)
    ensures forall i, j :: 0 <= i < j < |visits| ==> visits[i].node != visits[j].node
    ensures forall i, j :: 0 <= i < j < |visits| ==> visits[i].depth <= visits[j].depth
    ensures forall k :: 0 <= k < |visits| ==>
              0 <= visits[k].node < |adj| && visits[k].depth <= maxDepth &&
              IsDistance(adj, start, visits[k].node, visits[k].depth)
    ensures forall x, p :: IsPath(adj, p, start, x) && |p| <= maxDepth + 1 ==> Visited(visits, x)
    ensures maxDepth >= |adj| ==> forall x :: Reachable(adj, start, x) ==> Visited(visits, x)
  {
    var seen := new bool[|adj|](_ => false);
    ghost var seen0 := seen[..];
    ghost var all, parent;
    visits, all, parent := SearchFrom(adj, start, maxDepth, seen);
    forall i, j | 0 <= i < j < |visits|
      ensures visits[i].node != visits[j].node && visits[i].depth <= visits[j].depth
    {
      assert visits[i] == all[i] && visits[j] == all[j];
      NodesApart(all, i, j);
      DepthsOrdered(all, i, j);
    }
    VisitsAreDistances(adj, start, maxDepth, seen0, seen[..], all, parent, visits);
    forall x, p | IsPath(adj, p, start, x) && |p| <= maxDepth + 1
      ensures Visited(visits, x)
    {
      NearNodesVisited(adj, start, maxDepth, seen0, seen[..], all, parent, visits, p, x);
    }
    if maxDepth >= |adj| {
      AllShallow(adj, start, maxDepth, seen0, seen[..], all, parent);
      forall x | Reachable(adj, start, x)
        ensures Visited(visits, x)
      {
        var p :| IsPath(adj, p, start, x);
        NearNodesVisited(adj, start, maxDepth, seen0, seen[..], all, parent, visits, p, x);
      }
    }
    assert visits[0] == all[0];
  }

  /** BreadthFirstSearch(start, visitor): the depth bound defaults to the number of sites. */
  method BreadthFirstSearch(adj: seq<seq<int>>, start: int) returns (visits: seq<Visit>)
    requires ValidAdjacency(adj)
    requires 0 <= start < |adj|
    ensures |visits| >= 1 && visits[0] == Visit(start, 0)
    ensures forall i, j :: 0 <= i < j < |visits| ==> visits[i].node != visits[j].node
    ensures forall k :: 0 <= k < |visits| ==>
              0 <= visits[k].node < |adj| && IsDistance(adj, start, visits[k].node, visits[k].depth)
    ensures forall x :: 0 <= x < |adj| ==> (Visited(visits, x) <==> Reachable(adj, start, x))
  {
    visits := BreadthFirstSearchFrom(adj, start, |adj|);
    forall x | 0 <= x < |adj| && Visited(visits, x)
      ensures Reachable(adj, start, x)
    {
      var k :| 0 <= k < |visits| && visits[k].node == x;
      assert IsDistance(adj, start, x, visits[k].depth);
    }
  }

  /** The whole-graph visitor calls: the calls of one search, each tagged with the search's start. */
  function Label(found: seq<Visit>, v: int): (r: seq<ComponentVisit>)
    ensures |r| == |found|
    ensures forall k :: 0 <= k < |found| ==> r[k] == ComponentVisit(found[k].node, found[k].depth, v)
  {
    seq(|found|, k requires 0 <= k < |found| => ComponentVisit(found[k].node, found[k].depth, v))
  }

  ghost predicate ComponentVisited(visits: seq<ComponentVisit>, x: int)
  {
    exists k :: 0 <= k < |visits| && visits[k].node == x
  }

  /** A set of nodes (as a seen vector) that contains every neighbour of each of its nodes. */
  ghost predicate SeenClosed(adj: seq<seq<int>>, seen: seq<bool>)
  {
    |seen| == |adj| &&
    forall x, z :: 0 <= x < |adj| && seen[x] && z in adj[x] ==> 0 <= z < |adj| && seen[z]
  }

  /** What the whole-graph search promises about each of its visitor calls. */
  ghost predicate Labelled(adj: seq<seq<int>>, visits: seq<ComponentVisit>)
  {
    (forall i, j :: 0 <= i < j < |visits| ==> visits[i].node != visits[j].node) &&
    Rooted(adj, visits) &&
    (Symmetric(adj) ==> Smallest(adj, visits))
  }

  /** Each call's node lies at the end of a path from its label, as long as its depth; the label is no larger. */
  ghost predicate Rooted(adj: seq<seq<int>>, visits: seq<ComponentVisit>)
  {
    forall k :: 0 <= k < |visits| ==>
      0 <= visits[k].component <= visits[k].node < |adj| &&
      exists p :: IsPath(adj, p, visits[k].component, visits[k].node) && |p| == visits[k].depth + 1
  }

  /** Each call carries its distance from its label, and nothing reachable from it is below the label. */
  ghost predicate Smallest(adj: seq<seq<int>>, visits: seq<ComponentVisit>)
  {
    forall k :: 0 <= k < |visits| ==>
      IsDistance(adj, visits[k].component, visits[k].node, visits[k].depth) &&
      forall y :: Reachable(adj, visits[k].node, y) ==> visits[k].component <= y
  }

  lemma PathConcat(adj: seq<seq<int>>, p: seq<int>, q: seq<int>, a: int, b: int, c: int)
    requires IsPath(adj, p, a, b) && IsPath(adj, q, b, c)
    ensures IsPath(adj, p + q[1..], a, c)
  {
    var r := p + q[1..];
    forall i | 0 < i < |r|
      ensures r[i] in adj[r[i - 1]]
    {
      if i >= |p| {
        assert r[i] == q[i - |p| + 1];
        assert r[i - 1] == q[i - |p|];
      }
    }
  }

  /** In an undirected graph a closed set that contains the end of a path contains its start. */
  lemma {:induction false} ClosedBackward(adj: seq<seq<int>>, seen: seq<bool>, p: seq<int>, a: int, b: int, i: int)
    requires Symmetric(adj) && SeenClosed(adj, seen)
    requires IsPath(adj, p, a, b) && 0 <= i < |p|
    ensures seen[p[i]] ==> seen[a]
    decreases i
  {
    if i > 0 {
      assert p[i] in adj[p[i - 1]];
      assert p[i - 1] in adj[p[i]];
      ClosedBackward(adj, seen, p, a, b, i - 1);
    }
  }

  /** With the depth bound at the number of sites, the search calls the visitor on every entry it pushes. */
  lemma FoundAll(adj: seq<seq<int>>, v: int, seen0: seq<bool>, seen: seq<bool>,
                 all: seq<Visit>, parent: seq<int>, found: seq<Visit>)
    requires Searched(adj, v, |adj|, seen0, seen, all, parent, found)
    ensures found == all
  {
    AllShallow(adj, v, |adj|, seen0, seen, all, parent);
    assert all[|all| - 1].depth < |adj|;
    assert |found| == |all|;
  }

  lemma CoveredAfter(adj: seq<seq<int>>, v: int, seen0: seq<bool>, seen: seq<bool>,
                     all: seq<Visit>, parent: seq<int>, visits: seq<ComponentVisit>)
    requires Pushed(adj, v, |adj|, seen0, seen, all, parent)
    requires forall x :: 0 <= x < |adj| ==> (seen0[x] <==> ComponentVisited(visits, x))
    ensures forall x :: 0 <= x < |adj| ==> (seen[x] <==> ComponentVisited(visits + Label(all, v), x))
  {
    var r := visits + Label(all, v);
    forall x | 0 <= x < |adj|
      ensures seen[x] <==> ComponentVisited(r, x)
    {
      if seen0[x] {
        var k :| 0 <= k < |visits| && visits[k].node == x;
        assert r[k] == visits[k];
      } else if Visited(all, x) {
        var k :| 0 <= k < |all| && all[k].node == x;
        assert r[|visits| + k].node == x;
      }
      if ComponentVisited(r, x) {
        var k :| 0 <= k < |r| && r[k].node == x;
        if k < |visits| {
          assert visits[k] == r[k];
        } else {
          assert all[k - |visits|].node == x;
        }
      }
    }
  }

  lemma ClosedAfter(adj: seq<seq<int>>, v: int, seen0: seq<bool>, seen: seq<bool>,
                    all: seq<Visit>, parent: seq<int>)
    requires ValidAdjacency(adj)
    requires Searched(adj, v, |adj|, seen0, seen, all, parent, all)
    requires SeenClosed(adj, seen0)
    ensures SeenClosed(adj, seen)
  {
    forall x, z | 0 <= x < |adj| && seen[x] && z in adj[x]
      ensures 0 <= z < |adj| && seen[z]
    {
      if !seen0[x] {
        var j :| 0 <= j < |all| && all[j].node == x;
        assert all[j].depth <= |adj| by {
          AllShallow(adj, v, |adj|, seen0, seen, all, parent);
        }
        assert ClosedAt(seen0, all, all[j].depth, adj[all[j].node]);
        if !seen0[z] {
          var k :| 0 <= k < |all| && all[k].node == z && all[k].depth <= all[j].depth + 1;
          assert Visited(all, z);
        }
      }
    }
  }

  /** Every node one more search finds is at least v and lies at the end of a path from v as long as its depth. */
  lemma LabelPaths(adj: seq<seq<int>>, v: int, seen0: seq<bool>, seen: seq<bool>, all: seq<Visit>, parent: seq<int>)
    requires Pushed(adj, v, |adj|, seen0, seen, all, parent)
    requires forall y :: 0 <= y < v ==> seen0[y]
    ensures forall k :: 0 <= k < |all| ==>
              v <= all[k].node && exists p :: IsPath(adj, p, v, all[k].node) && |p| == all[k].depth + 1
  {
    forall k | 0 <= k < |all|
      ensures v <= all[k].node
      ensures exists p :: IsPath(adj, p, v, all[k].node) && |p| == all[k].depth + 1
    {
      var p := PathToEntry(adj, v, |adj|, seen0, seen, all, parent, k);
    }
  }

  /** The nodes of one more search are new, so the calls stay repetition-free. */
  lemma LabelDistinct(visits: seq<ComponentVisit>, all: seq<Visit>, v: int, seen0: seq<bool>, n: int)
    requires DistinctNodes(all)
    requires |seen0| == n && forall k :: 0 <= k < |all| ==> 0 <= all[k].node < n && !seen0[all[k].node]
    requires forall x :: 0 <= x < n ==> (seen0[x] <==> ComponentVisited(visits, x))
    requires forall i, j :: 0 <= i < j < |visits| ==> visits[i].node != visits[j].node
    ensures forall i, j :: 0 <= i < j < |visits + Label(all, v)| ==>
              (visits + Label(all, v))[i].node != (visits + Label(all, v))[j].node
  {
    var r := visits + Label(all, v);
    forall i, j | 0 <= i < j < |r|
      ensures r[i].node != r[j].node
    {
      if j >= |visits| && i < |visits| {
        assert r[j].node == all[j - |visits|].node && !seen0[all[j - |visits|].node];
        assert ComponentVisited(visits, r[i].node);
      } else if i >= |visits| {
        assert r[i].node == all[i - |visits|].node && r[j].node == all[j - |visits|].node;
        NodesApart(all, i - |visits|, j - |visits|);
      }
    }
  }

  /** The calls of one more search keep the nodes distinct and are labelled by a path from v. */
  lemma LabelledAfter(adj: seq<seq<int>>, v: int, seen0: seq<bool>, seen: seq<bool>,
                      all: seq<Visit>, parent: seq<int>, visits: seq<ComponentVisit>)
    requires Searched(adj, v, |adj|, seen0, seen, all, parent, all)
    requires forall y :: 0 <= y < v ==> seen0[y]
    requires forall x :: 0 <= x < |adj| ==> (seen0[x] <==> ComponentVisited(visits, x))
    requires Labelled(adj, visits)
    requires Symmetric(adj) ==>
               forall k :: 0 <= k < |all| ==>
                 IsDistance(adj, v, all[k].node, all[k].depth) &&
                 forall y :: Reachable(adj, all[k].node, y) ==> v <= y
    ensures Labelled(adj, visits + Label(all, v))
  {
    LabelDistinct(visits, all, v, seen0, |adj|);
    LabelPaths(adj, v, seen0, seen, all, parent);
    RootedAfter(adj, visits, all, v);
    if Symmetric(adj) {
      SmallestAfter(adj, visits, all, v);
    }
  }

  lemma RootedAfter(adj: seq<seq<int>>, visits: seq<ComponentVisit>, all: seq<Visit>, v: int)
    requires Rooted(adj, visits) && 0 <= v
    requires forall k :: 0 <= k < |all| ==> v <= all[k].node < |adj|
    requires forall k :: 0 <= k < |all| ==> exists p :: IsPath(adj, p, v, all[k].node) && |p| == all[k].depth + 1
    ensures Rooted(adj, visits + Label(all, v))
  {
    var r := visits + Label(all, v);
    forall k | 0 <= k < |r|
      ensures 0 <= r[k].component <= r[k].node < |adj|
      ensures exists p :: IsPath(adj, p, r[k].component, r[k].node) && |p| == r[k].depth + 1
    {
      if k < |visits| {
        assert r[k] == visits[k];
      } else {
        assert r[k] == ComponentVisit(all[k - |visits|].node, all[k - |visits|].depth, v);
      }
    }
  }

  lemma SmallestAfter(adj: seq<seq<int>>, visits: seq<ComponentVisit>, all: seq<Visit>, v: int)
    requires Smallest(adj, visits)
    requires forall k :: 0 <= k < |all| ==>
               IsDistance(adj, v, all[k].node, all[k].depth) &&
               forall y :: Reachable(adj, all[k].node, y) ==> v <= y
    ensures Smallest(adj, visits + Label(all, v))
  {
    var r := visits + Label(all, v);
    forall k | 0 <= k < |r|
      ensures IsDistance(adj, r[k].component, r[k].node, r[k].depth)
      ensures forall y :: Reachable(adj, r[k].node, y) ==> r[k].component <= y
    {
      if k < |visits| {
        assert r[k] == visits[k];
      } else {
        assert r[k] == ComponentVisit(all[k - |visits|].node, all[k - |visits|].depth, v);
      }
    }
  }

  /** In an undirected graph the search from v stays inside v's component, all of whose nodes are at least v. */
  lemma SymmetricAfter(adj: seq<seq<int>>, v: int, seen0: seq<bool>, seen: seq<bool>,
                       all: seq<Visit>, parent: seq<int>)
    requires Symmetric(adj)
    requires Searched(adj, v, |adj|, seen0, seen, all, parent, all)
    requires SeenClosed(adj, seen0) && !seen0[v] && forall y :: 0 <= y < v ==> seen0[y]
    ensures forall k :: 0 <= k < |all| ==>
              IsDistance(adj, v, all[k].node, all[k].depth) &&
              forall y :: Reachable(adj, all[k].node, y) ==> v <= y
  {
    forall x | 0 <= x < |adj| && Reachable(adj, v, x)
      ensures !seen0[x]
    {
      var p :| IsPath(adj, p, v, x);
      ClosedBackward(adj, seen0, p, v, x, |p| - 1);
    }
    VisitsAreDistances(adj, v, |adj|, seen0, seen, all, parent, all);
    forall k, y | 0 <= k < |all| && Reachable(adj, all[k].node, y)
      ensures v <= y
    {
      var p := PathToEntry(adj, v, |adj|, seen0, seen, all, parent, k);
      var q :| IsPath(adj, q, all[k].node, y);
      PathConcat(adj, p, q, v, all[k].node, y);
      assert Reachable(adj, v, y);
      assert !seen0[y];
    }
  }

  /**
   * The state between two starts of the whole-graph search: the nodes below v
   * are seen, the seen nodes are exactly the visited ones and are closed under
   * neighbours, and the calls so far are labelled.
   */
  ghost predicate Covering(adj: seq<seq<int>>, seen: seq<bool>, visits: seq<ComponentVisit>, v: int)
  {
    0 <= v <= |adj| && SeenClosed(adj, seen) &&
    (forall y :: 0 <= y < v ==> seen[y]) &&
    (forall x :: 0 <= x < |adj| ==> (seen[x] <==> ComponentVisited(visits, x))) &&
    Labelled(adj, visits)
  }

  /** One more search, from the unseen node v, moves the whole-graph search on to v + 1. */
  lemma ComponentStep(adj: seq<seq<int>>, v: int, seen0: seq<bool>, seen: seq<bool>,
                      all: seq<Visit>, parent: seq<int>, visits: seq<ComponentVisit>)
    requires ValidAdjacency(adj)
    requires Covering(adj, seen0, visits, v) && v < |adj| && !seen0[v]
    requires Searched(adj, v, |adj|, seen0, seen, all, parent, all)
    ensures Covering(adj, seen, visits + Label(all, v), v + 1)
  {
    CoveredAfter(adj, v, seen0, seen, all, parent, visits);
    ClosedAfter(adj, v, seen0, seen, all, parent);
    if Symmetric(adj) {
      SymmetricAfter(adj, v, seen0, seen, all, parent);
    }
    LabelledAfter(adj, v, seen0, seen, all, parent, visits);
    assert all[0].node == v;
    assert forall y :: 0 <= y < |adj| && seen0[y] ==> seen[y];
  }

  /**
   * BreadthFirstSearch(visitor): one search from each node not yet seen, in
   * increasing order, sharing one seen vector. Every node is visited exactly
   * once; in an undirected graph each is labelled with the smallest node of
   * its connected component, and carries its distance from that node.
   */
  method BreadthFirstSearchAll(adj: seq<seq<int>>) returns (visits: seq<ComponentVisit>)
    requires ValidAdjacency(adj)
    ensures forall x :: 0 <= x < |adj| ==> ComponentVisited(visits, x)
    ensures Labelled(adj, visits)
  {
    var seen := new bool[|adj|](_ => false);
    visits := [];
    var v := 0;
    while v < |adj|
      invariant Covering(adj, seen[..], visits, v)
    {
      if !seen[v] {
        ghost var seen0 := seen[..];
        var found;
        ghost var all, parent;
        found, all, parent := SearchFrom(adj, v, |adj|, seen);
        FoundAll(adj, v, seen0, seen[..], all, parent, found);
        ComponentStep(adj, v, seen0, seen[..], all, parent, visits);
        visits := visits + Label(found, v);
      }
      v := v + 1;
    }
  }

  /** Distances(root): -1 for the nodes root cannot reach, the shortest-path distance for the others. */
  method Distances(adj: seq<seq<int>>, root: int) returns (dists: seq<int>)
    requires ValidAdjacency(adj)
    requires 0 <= root < |adj|
    ensures IsDistanceRow(adj, root, dists) && dists[root] == 0
  {
    var visits := BreadthFirstSearch(adj, root);
    dists := seq(|adj|, _ => -1);
    var k := 0;
    while k < |visits|
      invariant 0 <= k <= |visits| && |dists| == |adj|
      invariant forall j :: 0 <= j < k ==> dists[visits[j].node] == visits[j].depth
      invariant forall x :: 0 <= x < |adj| && (forall j :: 0 <= j < k ==> visits[j].node != x) ==> dists[x] == -1
    {
      dists := dists[visits[k].node := visits[k].depth];
      k := k + 1;
    }
    forall x | 0 <= x < |adj|
      ensures (dists[x] == -1 <==> !Reachable(adj, root, x)) &&
              (dists[x] != -1 ==> IsDistance(adj, root, x, dists[x]))
    {
      if Visited(visits, x) {
        var j :| 0 <= j < |visits| && visits[j].node == x;
        assert IsDistance(adj, root, x, visits[j].depth);
        var p :| IsPath(adj, p, root, x) && |p| == visits[j].depth + 1;
      }
    }
    assert dists[visits[0].node] == visits[0].depth;
  }

  /** AllDistances(): row i is Distances(i). */
  method AllDistances(adj: seq<seq<int>>) returns (table: seq<seq<int>>)
    requires ValidAdjacency(adj)
    ensures |table| == |adj|
    ensures forall i :: 0 <= i < |adj| ==> IsDistanceRow(adj, i, table[i])
  {
    table := [];
    var i := 0;
    while i < |adj|
      invariant 0 <= i <= |adj| && |table| == i
      invariant forall j :: 0 <= j < i ==> IsDistanceRow(adj, j, table[j])
    {
      var row := Distances(adj, i);
      table := table + [row];
      i := i + 1;
    }
  }

  // ------------------------------------------------------------------------
  // Two-colourings.

  /** colour gives the two ends of every edge different colours. */
  ghost predicate ProperColouring(adj: seq<seq<int>>, colour: seq<bool>)
  {
    |colour| == |adj| &&
    forall x, z :: 0 <= x < |adj| && z in adj[x] && 0 <= z < |adj| ==> colour[x] != colour[z]
  }

  /** What IsBipartite() answers: whether a proper two-colouring exists. */
  ghost predicate IsBipartiteGraph(adj: seq<seq<int>>)
  {
    exists colour :: ProperColouring(adj, colour)
  }

  /** Along a walk, either some edge has both ends of one colour or the colours alternate. */
  lemma {:induction false} Alternation(adj: seq<seq<int>>, p: seq<int>, colour: seq<bool>, k: int)
    requires |colour| == |adj| && 0 <= k < |p| && forall i :: 0 <= i < |p| ==> 0 <= p[i] < |adj|
    ensures (exists i :: 0 < i <= k && colour[p[i - 1]] == colour[p[i]]) ||
            colour[p[k]] == (if k % 2 == 0 then colour[p[0]] else !colour[p[0]])
    decreases k
  {
    if k > 0 {
      Alternation(adj, p, colour, k - 1);
      if colour[p[k - 1]] == colour[p[k]] {
        assert 0 < k <= k && colour[p[k - 1]] == colour[p[k]];
      }
    }
  }

  /** A closed walk with an odd number of edges has an edge whose ends share a colour. */
  lemma OddWalkClash(adj: seq<seq<int>>, p: seq<int>, x: int, colour: seq<bool>)
    requires IsPath(adj, p, x, x) && |p| % 2 == 0 && |colour| == |adj|
    ensures !ProperColouring(adj, colour)
  {
    var k := |p| - 1;
    assert k % 2 == 1;
    Alternation(adj, p, colour, k);
    assert p[k] == p[0];
    var i :| 0 < i <= k && colour[p[i - 1]] == colour[p[i]];
    assert p[i] in adj[p[i - 1]];
  }

  /** A closed walk with an odd number of edges rules out every two-colouring. */
  lemma OddClosedWalk(adj: seq<seq<int>>, p: seq<int>, x: int)
    requires IsPath(adj, p, x, x) && |p| % 2 == 0
    ensures !IsBipartiteGraph(adj)
  {
    forall colour | |colour| == |adj|
      ensures !ProperColouring(adj, colour)
    {
      OddWalkClash(adj, p, x, colour);
    }
  }
}
