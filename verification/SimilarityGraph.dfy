/** The similarity graph itself. */
module SimilarityGraph {
  import opened Prelude
  import opened Hamming
  import opened GraphValues
  import opened GraphQuery

  method ComputeEdgeWeight(hash1: seq<bool>, hash2: seq<bool>) returns (weight: nat)
    requires |hash1| == |hash2|
    ensures weight == Distance(hash1, hash2)
  {
    weight := 0;
    for i := 0 to |hash1|
      invariant weight == Distance(hash1[..i], hash2[..i])
    {
      assert hash1[..i + 1][..i] == hash1[..i] && hash2[..i + 1][..i] == hash2[..i];
      if hash1[i] != hash2[i] {
        weight := weight + 1;
      }
    }
    assert hash1[..|hash1|] == hash1 && hash2[..|hash2|] == hash2;
  }

  ghost predicate Fits(d: nat, w: nat, upTo: bool) {
    if upTo then d <= w else d == w
  }

  /** The positions before n of the nodes at distance w, or up to w. */
  ghost predicate ListsThose(nodes: seq<Node>, hash: seq<bool>, n: nat, targets: seq<nat>, w: nat, upTo: bool)
    requires SameWidth(nodes, hash) && n <= |nodes|
  {
    && Positions(targets, n)
    && forall k :: 0 <= k < n ==> (k in targets <==> Fits(D(nodes, hash, k), w, upTo))
  }

  ghost predicate AllAtLeast(nodes: seq<Node>, hash: seq<bool>, n: nat, w: nat)
    requires SameWidth(nodes, hash) && n <= |nodes|
  {
    forall k :: 0 <= k < n ==> D(nodes, hash, k) >= w
  }

  lemma ListNext(nodes: seq<Node>, hash: seq<bool>, n: nat, targets: seq<nat>, w: nat, upTo: bool)
    requires SameWidth(nodes, hash) && n < |nodes| && ListsThose(nodes, hash, n, targets, w, upTo)
    ensures ListsThose(nodes, hash, n + 1, if Fits(D(nodes, hash, n), w, upTo) then targets + [n] else targets, w, upTo)
  {
    assert forall k :: 0 <= k < n + 1 ==> (k in targets + [n] <==> k in targets || k == n);
  }

  lemma ListFresh(nodes: seq<Node>, hash: seq<bool>, n: nat, minWeight: nat)
    requires SameWidth(nodes, hash) && n < |nodes| && AllAtLeast(nodes, hash, n, minWeight)
    requires D(nodes, hash, n) < minWeight
    ensures ListsThose(nodes, hash, n + 1, [n], D(nodes, hash, n), false)
    ensures AllAtLeast(nodes, hash, n + 1, D(nodes, hash, n))
  {}

  /** The nearest of the first n nodes, all of them. */
  ghost predicate Nearest(nodes: seq<Node>, hash: seq<bool>, n: nat, minWeight: nat, nearest: seq<nat>)
    requires SameWidth(nodes, hash) && n <= |nodes|
  {
    && ListsThose(nodes, hash, n, nearest, minWeight, false) && AllAtLeast(nodes, hash, n, minWeight)
    && if n == 0 then minWeight == USIZE_MAX else |nearest| > 0
  }

  lemma NearestNext(nodes: seq<Node>, hash: seq<bool>, n: nat, minWeight: nat, nearest: seq<nat>)
    requires SameWidth(nodes, hash) && n < |nodes| && |hash| < USIZE_MAX && Nearest(nodes, hash, n, minWeight, nearest)
    ensures var w := D(nodes, hash, n);
      Nearest(nodes, hash, n + 1, if w < minWeight then w else minWeight,
              if w < minWeight then [n] else if w == minWeight then nearest + [n] else nearest)
  {
    if D(nodes, hash, n) < minWeight {
      ListFresh(nodes, hash, n, minWeight);
    } else {
      ListNext(nodes, hash, n, nearest, minWeight, false);
    }
  }

  ghost predicate Weighed(nodes: seq<Node>, hash: seq<bool>, targets: seq<nat>, weights: seq<nat>)
    requires SameWidth(nodes, hash)
  {
    && |weights| == |targets|
    && forall t :: 0 <= t < |targets| ==> targets[t] < |nodes| && weights[t] == D(nodes, hash, targets[t])
  }

  lemma NearestWeighed(nodes: seq<Node>, hash: seq<bool>, minWeight: nat, nearest: seq<nat>)
    requires SameWidth(nodes, hash) && Nearest(nodes, hash, |nodes|, minWeight, nearest)
    ensures Weighed(nodes, hash, nearest, seq(|nearest|, t => minWeight))
  {
    forall t | 0 <= t < |nearest| ensures D(nodes, hash, nearest[t]) == minWeight { assert nearest[t] in nearest; }
  }

  ghost predicate IsChoice(nodes: seq<Node>, hash: seq<bool>, targets: seq<nat>, weights: seq<nat>)
    requires SameWidth(nodes, hash)
  {
    && Positions(targets, |nodes|) && Weighed(nodes, hash, targets, weights)
    && (forall k: nat :: k in targets <==> Chosen(nodes, hash, k))
  }

  lemma GatheredChoice(nodes: seq<Node>, hash: seq<bool>, minWeight: nat, nearest: seq<nat>, close: seq<nat>)
    requires SameWidth(nodes, hash) && Nearest(nodes, hash, |nodes|, minWeight, nearest)
    requires ListsThose(nodes, hash, |nodes|, close, 2, true)
    ensures forall k: nat :: Chosen(nodes, hash, k) <==> k in (if minWeight < 2 then close else nearest)
  {
    if |nodes| > 0 {
      assert nearest[0] in nearest;
      assert D(nodes, hash, nearest[0]) == minWeight;
    }
  }

  /** The map without the id, positions behind the removed one moved up. */
  method ShiftIndex(index: Index, id: nat, at: nat) returns (index': map<nat, nat>)
    ensures index' == Reindexed(index, id, at)
  {
    index' := index - {id};
    var keys := index'.Keys;
    while keys != {}
      invariant index'.Keys == index.Keys - {id} && keys <= index'.Keys
      invariant forall k :: k in index' ==>
        index'[k] == if k !in keys && index[k] > at then index[k] - 1 else index[k]
      decreases |keys|
    {
      var k :| k in keys;
      if index'[k] > at {
        index' := index'[k := index'[k] - 1];
      }
      keys := keys - {k};
    }
  }

  class Graph {
    ghost const width: nat
    var nodes: seq<Node>
    var index: map<nat, nat>
    var currMaxNodeId: nat

    ghost predicate Valid()
      reads this
    {
      && GraphOk(nodes, index, width) && width < USIZE_MAX
      && forall id :: id in index ==> id <= currMaxNodeId
    }

    constructor (ghost width: nat)
      requires width < USIZE_MAX
      ensures Valid() && this.width == width && nodes == []
    {
      this.width := width;
      nodes, index, currMaxNodeId := [], map[], 0;
    }

    method ContainsNodeHash(hash: seq<bool>) returns (r: Option<nat>)
      ensures r.Some? ==> r.value < |nodes| && nodes[r.value].nodeHash == hash
      ensures r.None? ==> forall k :: 0 <= k < |nodes| ==> nodes[k].nodeHash != hash
    {
      for i := 0 to |nodes|
        invariant forall k :: 0 <= k < i ==> nodes[k].nodeHash != hash
      {
        if hash == nodes[i].nodeHash {
          return Some(i);
        }
      }
      r := None;
    }

    /** One scan: the nearest nodes, and those within 2. */
    method ScanNodes(hash: seq<bool>)
        returns (minWeight: nat, nearest: seq<nat>, close: seq<nat>, weights: seq<nat>)
      requires SameWidth(nodes, hash) && |hash| < USIZE_MAX
      ensures Nearest(nodes, hash, |nodes|, minWeight, nearest)
      ensures ListsThose(nodes, hash, |nodes|, close, 2, true) && Weighed(nodes, hash, close, weights)
    {
      minWeight, nearest, close, weights := USIZE_MAX, [], [], [];
      for i := 0 to |nodes|
        invariant Nearest(nodes, hash, i, minWeight, nearest)
        invariant ListsThose(nodes, hash, i, close, 2, true) && Weighed(nodes, hash, close, weights)
      {
        var weight := ComputeEdgeWeight(hash, nodes[i].nodeHash);
        minWeight, nearest := NoteNearest(i, hash, weight, minWeight, nearest);
        close, weights := NoteClose(i, hash, weight, close, weights);
      }
    }

    method NoteNearest(i: nat, ghost hash: seq<bool>, weight: nat, minWeight0: nat, nearest0: seq<nat>)
        returns (minWeight: nat, nearest: seq<nat>)
      requires SameWidth(nodes, hash) && i < |nodes| && |hash| < USIZE_MAX && weight == D(nodes, hash, i)
      requires Nearest(nodes, hash, i, minWeight0, nearest0)
      ensures Nearest(nodes, hash, i + 1, minWeight, nearest)
    {
      NearestNext(nodes, hash, i, minWeight0, nearest0);
      minWeight, nearest := minWeight0, nearest0;
      if weight < minWeight {
        minWeight := weight;
        nearest := [i];
      } else if weight == minWeight {
        nearest := nearest + [i];
      }
    }

    method NoteClose(i: nat, ghost hash: seq<bool>, weight: nat, close0: seq<nat>, weights0: seq<nat>)
        returns (close: seq<nat>, weights: seq<nat>)
      requires SameWidth(nodes, hash) && i < |nodes| && weight == D(nodes, hash, i)
      requires ListsThose(nodes, hash, i, close0, 2, true) && Weighed(nodes, hash, close0, weights0)
      ensures ListsThose(nodes, hash, i + 1, close, 2, true) && Weighed(nodes, hash, close, weights)
    {
      ListNext(nodes, hash, i, close0, 2, true);
      close, weights := close0, weights0;
      if weight <= 2 {
        close := close + [i];
        weights := weights + [weight];
      }
    }

    /** The nodes a new hash is linked to, and how far off they are. */
    method ChooseTargets(hash: seq<bool>) returns (targets: seq<nat>, weights: seq<nat>)
      requires SameWidth(nodes, hash) && |hash| < USIZE_MAX
      ensures IsChoice(nodes, hash, targets, weights)
    {
      var minWeight, nearest, close, closeWeights := ScanNodes(hash);
      GatheredChoice(nodes, hash, minWeight, nearest, close);
      if minWeight < 2 {
        targets, weights := close, closeWeights;
      } else {
        targets, weights := nearest, seq(|nearest|, t => minWeight);
        NearestWeighed(nodes, hash, minWeight, nearest);
      }
    }

    /** Links the new node and its targets, both ways. */
    method LinkTargets(id: nat, ino: nat, hash: seq<bool>, targets: seq<nat>, weights: seq<nat>) returns (node: Node)
      requires SameWidth(nodes, hash) && IsChoice(nodes, hash, targets, weights)
      modifies this`nodes
      ensures nodes == Linked(old(nodes), hash, id, targets)
      ensures node == Node(id, [ino], hash, OutEdges(old(nodes), hash, targets))
    {
      ghost var was := nodes;
      node := Node(id, [ino], hash, []);
      for t := 0 to |targets|
        invariant |nodes| == |was| && node == Node(id, [ino], hash, OutEdges(was, hash, targets[..t]))
        invariant nodes == Linked(was, hash, id, targets[..t])
      {
        LinkOne(was, hash, id, targets, t);
        var k := targets[t];
        node := node.(edges := node.edges + [Edge(nodes[k].nodeId, weights[t])]);
        nodes := nodes[k := nodes[k].(edges := nodes[k].edges + [Edge(id, weights[t])])];
      }
      assert targets[..|targets|] == targets;
    }

    /**
     Inserts a node under a new id, or adds the inode to the node that has the hash.  A new node is linked, both
     ways, to exactly the nodes it should be.
     */
    method InsertNode(nodeId: nat, nodeIno: nat, hash: seq<bool>) returns (ghost targets: seq<nat>)
      requires Valid() && |hash| == width && nodeId <= currMaxNodeId
      requires (forall k :: 0 <= k < |nodes| ==> nodes[k].nodeHash != hash) ==> nodeId !in index
      modifies this`nodes, this`index
      ensures Valid() && SameWidth(old(nodes), hash)
      ensures Known(old(nodes), hash) ==>
        index == old(index) && exists k :: 0 <= k < |old(nodes)| && old(nodes)[k].nodeHash == hash
                                           && nodes == WithIno(old(nodes), k, nodeIno)
      ensures !Known(old(nodes), hash) ==>
        && Positions(targets, |old(nodes)|) && (forall k: nat :: k in targets <==> Chosen(old(nodes), hash, k))
        && nodes == Inserted(old(nodes), hash, nodeId, nodeIno, targets)
        && index == old(index)[nodeId := |old(nodes)|]
    {
      targets := [];
      var found := ContainsNodeHash(hash);
      if found.Some? {
        var k := found.value;
        InoKeeps(nodes, index, width, k, nodeIno);
        if nodeIno !in nodes[k].nodeIno {
          nodes := nodes[k := nodes[k].(nodeIno := nodes[k].nodeIno + [nodeIno])];
        }
        return;
      }
      ghost var was := nodes;
      var targets', weights := ChooseTargets(hash);
      targets := targets';
      InsertKeeps(nodes, index, width, hash, nodeId, nodeIno, targets');
      var node := LinkTargets(nodeId, nodeIno, hash, targets', weights);
      index := index[nodeId := |nodes|];
      nodes := nodes + [node];
    }

    method AddNode(nodeIno: nat, hash: seq<bool>)
      requires Valid() && |hash| == width
      modifies this
      ensures Valid()
      ensures Known(old(nodes), hash) ==> index == old(index) && |nodes| == |old(nodes)|
      ensures !Known(old(nodes), hash) ==>
        && |nodes| == |old(nodes)| + 1 && currMaxNodeId == old(currMaxNodeId) + 1
        && nodes[|old(nodes)|].nodeHash == hash && nodes[|old(nodes)|].nodeIno == [nodeIno]
        && nodes[|old(nodes)|].nodeId == currMaxNodeId
    {
      var found := ContainsNodeHash(hash);
      if found.None? {
        currMaxNodeId := currMaxNodeId + 1;
      }
      ghost var targets := InsertNode(currMaxNodeId, nodeIno, hash);
    }

    /** Deletes a node: the others keep their order and all their edges but those to it. */
    method DeleteNode(at: nat)
      requires Valid() && at < |nodes|
      modifies this`nodes, this`index
      ensures Valid() && nodes == Deleted(old(nodes), at)
      ensures index == Reindexed(old(index), old(nodes)[at].nodeId, at)
    {
      ghost var was, index0 := nodes, index;
      var node := nodes[at];
      DeleteKeeps(was, index0, width, at);
      nodes := RemoveAt(nodes, at);
      index := ShiftIndex(index, node.nodeId, at);
      Unlink(node, was, index0, at);
    }

    /** Takes the edges back to a deleted node out of the nodes it was linked to. */
    method Unlink(node: Node, ghost was: seq<Node>, ghost index0: Index, ghost at: nat)
      requires GraphOk(was, index0, width) && at < |was| && node == was[at]
      requires nodes == RemoveAt(was, at) && index == Reindexed(index0, node.nodeId, at)
      modifies this`nodes
      ensures nodes == Deleted(was, at)
    {
      UnlinkedNone(was, index0, at);
      for i := 0 to |node.edges|
        invariant nodes == Unlinked(was, index0, at, i)
      {
        UnlinkNext(was, index0, width, at, i);
        var k := index[node.edges[i].endNodeId];
        var edges := RemoveEdge(nodes[k].edges, node.nodeId);
        nodes := nodes[k := nodes[k].(edges := edges)];
      }
      UnlinkedAll(was, index0, width, at);
    }

    method DeleteNodeByHash(hash: seq<bool>)
      requires Valid()
      modifies this`nodes, this`index
      ensures Valid() && !Known(nodes, hash)
    {
      var found := ContainsNodeHash(hash);
      if found.Some? {
        ghost var was := nodes;
        DeleteNode(found.value);
        forall k | 0 <= k < |nodes| ensures nodes[k].nodeHash != hash {
          DeletedAt(was, found.value, k);
        }
      }
    }

    // ----- the radius query

    method PushFirst(start: nat, radii: nat) returns (queue: seq<Entry>)
      requires Valid() && start < |nodes|
      ensures AllReached(nodes, index, start, radii, queue) && FirstKept(nodes, start, radii, queue, {})
    {
      queue := [];
      for i := 0 to |nodes[start].edges|
        invariant AllReached(nodes, index, start, radii, queue)
        invariant forall j :: 0 <= j < i && nodes[start].edges[j].weight <= radii ==>
          (nodes[start].edges[j].endNodeId, nodes[start].edges[j].weight) in queue
      {
        var e := nodes[start].edges[i];
        if e.weight <= radii {
          ReachFirst(nodes, index, width, start, radii, e);
          queue := queue + [(e.endNodeId, e.weight)];
        }
      }
    }

    method PushNext(start: nat, radii: nat, top: Entry, rest: seq<Entry>, visited: set<nat>, ghost base: nat,
                    ghost found: set<nat>)
        returns (queue: seq<Entry>, ghost pushed: nat)
      requires Valid() && start < |nodes| && nodes[start].nodeId in visited && VisitedAre(index, start, visited, found)
      requires Reached(nodes, index, start, radii, top) && AllReached(nodes, index, start, radii, rest) && base >= 1
      ensures AllReached(nodes, index, start, radii, queue) && |rest| <= |queue| && rest == queue[..|rest|]
      ensures Expanded(nodes, index, start, radii, top, queue, found)
      ensures pushed <= |nodes[index[top.0]].edges|
      ensures PushBound(queue, rest, radii, base, top.1, pushed)
    {
      queue, pushed := rest, 0;
      var k := index[top.0];
      for i := 0 to |nodes[k].edges|
        invariant AllReached(nodes, index, start, radii, queue) && |rest| <= |queue| && rest == queue[..|rest|]
        invariant pushed <= i
        invariant PushBound(queue, rest, radii, base, top.1, pushed)
        invariant ExpandedTo(nodes, index, start, radii, k, top.1, i, queue, found)
      {
        var e := nodes[k].edges[i];
        ghost var was := queue;
        if e.weight + top.1 <= radii && e.endNodeId !in visited {
          ReachNext(nodes, index, width, start, radii, top, e);
          var next: Entry := (e.endNodeId, e.weight + top.1);
          PushHeavier(queue, rest, next, radii, base, top.1, pushed);
          queue := queue + [next];
          pushed := pushed + 1;
        }
        ExpandedOne(nodes, index, start, radii, k, top.1, i, was, queue, found);
      }
    }

    /**
     The nodes found from the start within the radius: never the start itself, each at the end of a walk no
     longer than the radius and so within that distance.  Every neighbour within the radius is found, and every node
     at the end of two edges that together stay within it; and from every node found the search has gone on with the
     length of some walk to it, so that its edges that stay within the radius lead to nodes found.
     */
    method QueryNode(start: nat, radii: nat) returns (r: Option<set<nat>>)
      requires Valid() && start < |nodes|
      ensures r.Some? ==> r.value != {} && forall k :: k in r.value ==>
        && InRange(nodes, index, start, radii, k)
        && Distance(nodes[start].nodeHash, nodes[k].nodeHash) <= radii
        && WentOn(nodes, index, start, radii, k, r.value)
      ensures forall e :: e in nodes[start].edges && e.weight <= radii ==>
        && e.endNodeId in index && r.Some? && index[e.endNodeId] in r.value
        && LeadsOn(nodes, index, start, radii, index[e.endNodeId], e.weight, r.value)
    {
      var queue := PushFirst(start, radii);
      var found: set<nat> := {};
      var visited := {nodes[start].nodeId};
      ghost var base := EdgeCount(nodes) + 1;
      ghost var passed: set<Entry> := {};
      while |queue| > 0
        invariant AllReached(nodes, index, start, radii, queue) && nodes[start].nodeId in visited
        invariant VisitedAre(index, start, visited, found)
        invariant Passed(nodes, index, start, radii, queue, found, passed)
        invariant FirstKept(nodes, start, radii, queue, passed)
        decreases Measure(queue, radii, base)
      {
        var top, rest; ghost var at, pushed;
        ghost var before := queue;
        top, rest, at := PopMax(queue);
        queue, pushed := PushNext(start, radii, top, rest, visited, base, found);
        var k := index[top.0];
        EdgeCountBounds(nodes, k);
        RoundLighter(before, at, rest, queue, radii, base, top, pushed, |nodes[k].edges|);
        PassedRound(nodes, index, start, radii, before, at, rest, queue, found, passed);
        FirstRound(nodes, index, start, radii, before, at, rest, queue, passed);
        found := found + {k};
        visited := visited + {nodes[k].nodeId};
        passed := passed + {top};
      }
      AllWentOn(nodes, index, start, radii, found, passed);
      FirstWentOn(nodes, index, start, radii, found, passed);
      forall k | k in found
        ensures InRange(nodes, index, start, radii, k)
        ensures Distance(nodes[start].nodeHash, nodes[k].nodeHash) <= radii
      {
        FoundInRange(nodes, index, width, start, radii, found, passed, k);
        InRangeClose(nodes, index, width, start, radii, k);
      }
      r := if found != {} then Some(found) else None;
    }
  }

  ghost predicate Known(nodes: seq<Node>, hash: seq<bool>) {
    exists k :: 0 <= k < |nodes| && nodes[k].nodeHash == hash
  }

  /** One more entry that is farther than the one popped. */
  function WithIno(nodes: seq<Node>, k: nat, ino: nat): seq<Node>
    requires k < |nodes|
  {
    if ino in nodes[k].nodeIno then nodes else nodes[k := nodes[k].(nodeIno := nodes[k].nodeIno + [ino])]
  }

  /** The nodes differ in nothing but their inodes. */
  ghost predicate AlikeButInodes(nodes: seq<Node>, nodes': seq<Node>) {
    |nodes'| == |nodes| && forall k :: 0 <= k < |nodes| ==> nodes'[k] == nodes[k].(nodeIno := nodes'[k].nodeIno)
  }

  /** Another inode for a node changes nothing about the graph. */
  lemma InoKeeps(nodes: seq<Node>, index: Index, width: nat, k: nat, ino: nat)
    requires GraphOk(nodes, index, width) && k < |nodes|
    ensures GraphOk(WithIno(nodes, k, ino), index, width)
  {
    assert AlikeButInodes(nodes, WithIno(nodes, k, ino));
    AlikeGraph(nodes, WithIno(nodes, k, ino), index, width);
  }

  lemma AlikeGraph(nodes: seq<Node>, nodes': seq<Node>, index: Index, width: nat)
    requires GraphOk(nodes, index, width) && AlikeButInodes(nodes, nodes')
    ensures GraphOk(nodes', index, width)
  {
    AlikeIndexed(nodes, nodes', index, width);
    forall l | 0 <= l < |nodes'| ensures NodeOk(nodes', index, width, l) {
      assert NodeOk(nodes, index, width, l);
      forall e | e in nodes'[l].edges ensures EdgeOk(nodes', index, width, l, e) {
        AlikeEdge(nodes, nodes', index, width, l, e);
      }
    }
  }

  lemma AlikeIndexed(nodes: seq<Node>, nodes': seq<Node>, index: Index, width: nat)
    requires Indexed(nodes, index) && DistinctHashes(nodes, width) && AlikeButInodes(nodes, nodes')
    ensures Indexed(nodes', index) && DistinctHashes(nodes', width)
  {}

  lemma AlikeEdge(nodes: seq<Node>, nodes': seq<Node>, index: Index, width: nat, l: nat, e: Edge)
    requires Indexed(nodes, index) && DistinctHashes(nodes, width) && AlikeButInodes(nodes, nodes') && l < |nodes|
    requires Indexed(nodes', index) && DistinctHashes(nodes', width) && EdgeOk(nodes, index, width, l, e)
    ensures EdgeOk(nodes', index, width, l, e)
  {
    var m := index[e.endNodeId];
    var i :| 0 <= i < |nodes[m].edges| && nodes[m].edges[i].endNodeId == nodes[l].nodeId;
    assert nodes'[m].edges[i].endNodeId == nodes'[l].nodeId;
  }

  lemma LinkOne(nodes: seq<Node>, hash: seq<bool>, id: nat, targets: seq<nat>, t: nat)
    requires SameWidth(nodes, hash) && Positions(targets, |nodes|) && t < |targets|
    ensures Positions(targets[..t], |nodes|) && Positions(targets[..t + 1], |nodes|)
    ensures var was := Linked(nodes, hash, id, targets[..t]); var k := targets[t];
      && was[k] == nodes[k]
      && Linked(nodes, hash, id, targets[..t + 1]) ==
          was[k := nodes[k].(edges := nodes[k].edges + [Edge(id, D(nodes, hash, k))])]
    ensures OutEdges(nodes, hash, targets[..t + 1]) ==
      OutEdges(nodes, hash, targets[..t]) + [Edge(nodes[targets[t]].nodeId, D(nodes, hash, targets[t]))]
  {
    assert targets[..t + 1] == targets[..t] + [targets[t]];
    assert targets[t] !in targets[..t];
  }

  /** Removes the first edge that leads to id. */
  method RemoveEdge(es: seq<Edge>, id: nat) returns (r: seq<Edge>)
    ensures r == Without(es, id)
  {
    for i := 0 to |es|
      invariant forall j :: 0 <= j < i ==> es[j].endNodeId != id
    {
      if id == es[i].endNodeId {
        WithoutAt(es, id, i);
        return RemoveAt(es, i);
      }
    }
    WithoutNone(es, id);
    r := es;
  }

  lemma {:induction false} WithoutAt(es: seq<Edge>, id: nat, i: nat)
    requires i < |es| && es[i].endNodeId == id && forall j :: 0 <= j < i ==> es[j].endNodeId != id
    ensures Without(es, id) == RemoveAt(es, i)
  {
    if i != 0 {
      WithoutAt(es[1..], id, i - 1);
    }
  }

  // ----- unlinking the deleted node, edge by edge

  /** One of the first i edges of the deleted node leads to the node at position p. */
  ghost predicate Visited(nodes: seq<Node>, index: Index, at: nat, i: nat, p: nat)
    requires at < |nodes|
  {
    exists j :: 0 <= j < i && j < |nodes[at].edges| && nodes[at].edges[j].endNodeId in index
                && index[nodes[at].edges[j].endNodeId] == p
  }

  /** The nodes without the deleted one, those visited so far no longer linking to it. */
  ghost function Unlinked(nodes: seq<Node>, index: Index, at: nat, i: nat): seq<Node>
    requires at < |nodes|
  {
    seq(|nodes| - 1, k requires 0 <= k < |nodes| - 1 =>
      var n := nodes[Place(at, k)];
      if Visited(nodes, index, at, i, Place(at, k)) then n.(edges := Without(n.edges, nodes[at].nodeId)) else n)
  }

  lemma EdgeLeads(nodes: seq<Node>, index: Index, width: nat, at: nat, e: Edge)
    requires GraphOk(nodes, index, width) && at < |nodes| && e in nodes[at].edges
    ensures e.endNodeId in index && e.endNodeId in Reindexed(index, nodes[at].nodeId, at)
    ensures var k := Reindexed(index, nodes[at].nodeId, at)[e.endNodeId];
      k < |nodes| - 1 && Place(at, k) == index[e.endNodeId]
  {
    EdgeWeighs(nodes, index, width, at, e);
  }

  lemma UnlinkedNone(nodes: seq<Node>, index: Index, at: nat)
    requires at < |nodes|
    ensures Unlinked(nodes, index, at, 0) == RemoveAt(nodes, at)
  {
    assert forall k :: 0 <= k < |nodes| - 1 ==> Unlinked(nodes, index, at, 0)[k] == nodes[Place(at, k)];
  }

  lemma VisitedNext(nodes: seq<Node>, index: Index, at: nat, i: nat, p: nat)
    requires at < |nodes| && i < |nodes[at].edges| && nodes[at].edges[i].endNodeId in index
    ensures Visited(nodes, index, at, i + 1, p) <==>
      Visited(nodes, index, at, i, p) || p == index[nodes[at].edges[i].endNodeId]
  {
    if Visited(nodes, index, at, i, p) {
      var j :| 0 <= j < i && j < |nodes[at].edges| && nodes[at].edges[j].endNodeId in index
        && index[nodes[at].edges[j].endNodeId] == p;
      assert 0 <= j < i + 1;
    }
  }

  /** The next edge leads to a node not visited before. */
  lemma NotVisited(nodes: seq<Node>, index: Index, width: nat, at: nat, i: nat)
    requires GraphOk(nodes, index, width) && at < |nodes| && i < |nodes[at].edges|
    ensures nodes[at].edges[i].endNodeId in index
    ensures !Visited(nodes, index, at, i, index[nodes[at].edges[i].endNodeId])
  {
    assert NodeOk(nodes, index, width, at) && EdgeOk(nodes, index, width, at, nodes[at].edges[i]);
    forall j | 0 <= j < i && nodes[at].edges[j].endNodeId in index
      ensures index[nodes[at].edges[j].endNodeId] != index[nodes[at].edges[i].endNodeId]
    {
      assert nodes[index[nodes[at].edges[j].endNodeId]].nodeId == nodes[at].edges[j].endNodeId;
    }
  }

  lemma UnlinkNext(nodes: seq<Node>, index: Index, width: nat, at: nat, i: nat)
    requires GraphOk(nodes, index, width) && at < |nodes| && i < |nodes[at].edges|
    ensures nodes[at].edges[i].endNodeId in Reindexed(index, nodes[at].nodeId, at)
    ensures var k := Reindexed(index, nodes[at].nodeId, at)[nodes[at].edges[i].endNodeId];
      var was := Unlinked(nodes, index, at, i);
      && k < |was|
      && Unlinked(nodes, index, at, i + 1) == was[k := was[k].(edges := Without(was[k].edges, nodes[at].nodeId))]
  {
    var e := nodes[at].edges[i];
    EdgeLeads(nodes, index, width, at, e);
    NotVisited(nodes, index, width, at, i);
    var k := Reindexed(index, nodes[at].nodeId, at)[e.endNodeId];
    var was, now := Unlinked(nodes, index, at, i), Unlinked(nodes, index, at, i + 1);
    forall l | 0 <= l < |now|
      ensures now[l] == if l == k then was[l].(edges := Without(was[l].edges, nodes[at].nodeId)) else was[l]
    {
      VisitedNext(nodes, index, at, i, Place(at, l));
      assert l != k ==> Place(at, l) != Place(at, k);
    }
  }

  /** Nodes that the deleted one does not link to do not link to it either. */
  lemma UnlinkedAll(nodes: seq<Node>, index: Index, width: nat, at: nat)
    requires GraphOk(nodes, index, width) && at < |nodes|
    ensures Unlinked(nodes, index, at, |nodes[at].edges|) == Deleted(nodes, at)
  {
    var n := |nodes[at].edges|;
    forall k | 0 <= k < |nodes| - 1 ensures Unlinked(nodes, index, at, n)[k] == Deleted(nodes, at)[k] {
      var p := Place(at, k);
      if !Visited(nodes, index, at, n, p) {
        forall i | 0 <= i < |nodes[p].edges| ensures nodes[p].edges[i].endNodeId != nodes[at].nodeId {
          BackEdge(nodes, index, width, at, p, nodes[p].edges[i]);
        }
        WithoutNone(nodes[p].edges, nodes[at].nodeId);
      }
    }
  }

  lemma BackEdge(nodes: seq<Node>, index: Index, width: nat, at: nat, p: nat, e: Edge)
    requires GraphOk(nodes, index, width) && at < |nodes| && p < |nodes| && e in nodes[p].edges
    ensures e.endNodeId == nodes[at].nodeId ==> Visited(nodes, index, at, |nodes[at].edges|, p)
  {
    assert NodeOk(nodes, index, width, p) && EdgeOk(nodes, index, width, p, e);
    if e.endNodeId == nodes[at].nodeId {
      var j :| 0 <= j < |nodes[at].edges| && nodes[at].edges[j].endNodeId == nodes[p].nodeId;
      assert index[nodes[at].edges[j].endNodeId] == p;
    }
  }
}
