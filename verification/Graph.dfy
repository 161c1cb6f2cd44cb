/** Hamming distance of hashes of one length: the metric behind the similarity graph. */
module Hamming {

  ghost function Distance(a: seq<bool>, b: seq<bool>): (d: nat)
    requires |a| == |b|
    ensures d <= |a|
  {
    if |a| == 0 then 0
    else Distance(a[..|a| - 1], b[..|b| - 1]) + if a[|a| - 1] != b[|b| - 1] then 1 else 0
  }

  lemma {:induction false} Symmetric(a: seq<bool>, b: seq<bool>)
    requires |a| == |b|
    ensures Distance(a, b) == Distance(b, a)
  {
    if |a| != 0 {
      Symmetric(a[..|a| - 1], b[..|b| - 1]);
    }
  }

  lemma {:induction false} ZeroIsEqual(a: seq<bool>, b: seq<bool>)
    requires |a| == |b|
    ensures Distance(a, b) == 0 <==> a == b
  {
    if |a| != 0 {
      var n := |a| - 1;
      ZeroIsEqual(a[..n], b[..n]);
      assert a == a[..n] + [a[n]] && b == b[..n] + [b[n]];
    }
  }

  lemma {:induction false} Triangle(a: seq<bool>, b: seq<bool>, c: seq<bool>)
    requires |a| == |b| == |c|
    ensures Distance(a, c) <= Distance(a, b) + Distance(b, c)
  {
    if |a| != 0 {
      Triangle(a[..|a| - 1], b[..|b| - 1], c[..|c| - 1]);
    }
  }
}

/**
 The similarity graph's nodes and edges as values: what keeps the index, the hashes and the edges in agreement,
 and what insertion and deletion do to it.
 */
module GraphValues {
  import opened Hamming

  datatype Edge = Edge(endNodeId: nat, weight: nat)

  datatype Node = Node(nodeId: nat, nodeIno: seq<nat>, nodeHash: seq<bool>, edges: seq<Edge>)

  type Index = map<nat, nat>

  /** The map takes every node id to the position of its node, and holds nothing else. */
  ghost predicate Indexed(nodes: seq<Node>, index: Index) {
    && (forall k :: 0 <= k < |nodes| ==> nodes[k].nodeId in index && index[nodes[k].nodeId] == k)
    && (forall id :: id in index ==> index[id] < |nodes| && nodes[index[id]].nodeId == id)
  }

  ghost predicate DistinctHashes(nodes: seq<Node>, width: nat) {
    && (forall k :: 0 <= k < |nodes| ==> |nodes[k].nodeHash| == width)
    && (forall k, l :: 0 <= k < l < |nodes| ==> nodes[k].nodeHash != nodes[l].nodeHash)
  }

  ghost predicate LinksTo(n: Node, id: nat) {
    exists i :: 0 <= i < |n.edges| && n.edges[i].endNodeId == id
  }

  ghost predicate EdgesOnce(n: Node) {
    forall i, j :: 0 <= i < j < |n.edges| ==> n.edges[i].endNodeId != n.edges[j].endNodeId
  }

  /** The edge leads to another live node, weighs their distance, and is answered by an edge back. */
  ghost predicate EdgeOk(nodes: seq<Node>, index: Index, width: nat, k: nat, e: Edge)
    requires Indexed(nodes, index) && DistinctHashes(nodes, width) && k < |nodes|
  {
    && e.endNodeId in index && index[e.endNodeId] != k
    && e.weight == Distance(nodes[k].nodeHash, nodes[index[e.endNodeId]].nodeHash)
    && LinksTo(nodes[index[e.endNodeId]], nodes[k].nodeId)
  }

  ghost predicate NodeOk(nodes: seq<Node>, index: Index, width: nat, k: nat)
    requires Indexed(nodes, index) && DistinctHashes(nodes, width) && k < |nodes|
  {
    EdgesOnce(nodes[k]) && forall e :: e in nodes[k].edges ==> EdgeOk(nodes, index, width, k, e)
  }

  /** Index and nodes agree, hashes differ, and edges are symmetric, at most one per pair, weighted by distance. */
  ghost predicate GraphOk(nodes: seq<Node>, index: Index, width: nat) {
    && Indexed(nodes, index) && DistinctHashes(nodes, width)
    && forall k :: 0 <= k < |nodes| ==> NodeOk(nodes, index, width, k)
  }

  // ----- insertion

  ghost function D(nodes: seq<Node>, hash: seq<bool>, k: nat): nat
    requires k < |nodes| && |nodes[k].nodeHash| == |hash|
  {
    Distance(hash, nodes[k].nodeHash)
  }

  ghost predicate SameWidth(nodes: seq<Node>, hash: seq<bool>) {
    forall k :: 0 <= k < |nodes| ==> |nodes[k].nodeHash| == |hash|
  }

  /** The nodes a new one is linked to: all within 2 if one is closer than 2, otherwise all of the nearest. */
  ghost predicate Chosen(nodes: seq<Node>, hash: seq<bool>, k: nat)
    requires SameWidth(nodes, hash)
  {
    && k < |nodes|
    && if exists l :: 0 <= l < |nodes| && D(nodes, hash, l) < 2 then D(nodes, hash, k) <= 2
       else forall l :: 0 <= l < |nodes| ==> D(nodes, hash, k) <= D(nodes, hash, l)
  }

  /** A list of positions, in order. */
  ghost predicate Positions(targets: seq<nat>, n: nat) {
    && (forall t :: 0 <= t < |targets| ==> targets[t] < n)
    && (forall t, u :: 0 <= t < u < |targets| ==> targets[t] < targets[u])
  }

  /** The edges of the new node. */
  ghost function OutEdges(nodes: seq<Node>, hash: seq<bool>, targets: seq<nat>): seq<Edge>
    requires SameWidth(nodes, hash) && Positions(targets, |nodes|)
  {
    seq(|targets|, t requires 0 <= t < |targets| => Edge(nodes[targets[t]].nodeId, D(nodes, hash, targets[t])))
  }

  /** The old nodes, each target with an edge to the new node. */
  ghost function Linked(nodes: seq<Node>, hash: seq<bool>, id: nat, targets: seq<nat>): seq<Node>
    requires SameWidth(nodes, hash) && Positions(targets, |nodes|)
  {
    seq(|nodes|, k requires 0 <= k < |nodes| =>
      if k in targets then nodes[k].(edges := nodes[k].edges + [Edge(id, D(nodes, hash, k))]) else nodes[k])
  }

  ghost function Inserted(nodes: seq<Node>, hash: seq<bool>, id: nat, ino: nat, targets: seq<nat>): seq<Node>
    requires SameWidth(nodes, hash) && Positions(targets, |nodes|)
  {
    Linked(nodes, hash, id, targets) + [Node(id, [ino], hash, OutEdges(nodes, hash, targets))]
  }

  lemma InsertIndexed(nodes: seq<Node>, index: Index, width: nat, hash: seq<bool>, id: nat, ino: nat, targets: seq<nat>)
    requires GraphOk(nodes, index, width) && |hash| == width && id !in index && Positions(targets, |nodes|)
    requires forall k :: 0 <= k < |nodes| ==> nodes[k].nodeHash != hash
    ensures var nodes' := Inserted(nodes, hash, id, ino, targets);
      Indexed(nodes', index[id := |nodes|]) && DistinctHashes(nodes', width)
  {}

  lemma OldEdgeOk(nodes: seq<Node>, index: Index, width: nat, hash: seq<bool>, id: nat, ino: nat, targets: seq<nat>,
                  k: nat, e: Edge)
    requires GraphOk(nodes, index, width) && |hash| == width && id !in index && Positions(targets, |nodes|)
    requires forall l :: 0 <= l < |nodes| ==> nodes[l].nodeHash != hash
    requires k < |nodes| && e in nodes[k].edges
    ensures var nodes' := Inserted(nodes, hash, id, ino, targets);
      && Indexed(nodes', index[id := |nodes|]) && DistinctHashes(nodes', width)
      && EdgeOk(nodes', index[id := |nodes|], width, k, e)
  {
    InsertIndexed(nodes, index, width, hash, id, ino, targets);
    var nodes' := Inserted(nodes, hash, id, ino, targets);
    assert NodeOk(nodes, index, width, k) && EdgeOk(nodes, index, width, k, e);
    var l := index[e.endNodeId];
    var i :| 0 <= i < |nodes[l].edges| && nodes[l].edges[i].endNodeId == nodes[k].nodeId;
    assert nodes'[l].edges[i].endNodeId == nodes[k].nodeId;
  }

  lemma NewEdgeOk(nodes: seq<Node>, index: Index, width: nat, hash: seq<bool>, id: nat, ino: nat, targets: seq<nat>,
                  k: nat)
    requires GraphOk(nodes, index, width) && |hash| == width && id !in index && Positions(targets, |nodes|)
    requires forall l :: 0 <= l < |nodes| ==> nodes[l].nodeHash != hash
    requires k < |nodes| && k in targets
    ensures var nodes' := Inserted(nodes, hash, id, ino, targets);
      && Indexed(nodes', index[id := |nodes|]) && DistinctHashes(nodes', width)
      && EdgeOk(nodes', index[id := |nodes|], width, k, Edge(id, D(nodes, hash, k)))
      && EdgeOk(nodes', index[id := |nodes|], width, |nodes|, Edge(nodes[k].nodeId, D(nodes, hash, k)))
  {
    InsertIndexed(nodes, index, width, hash, id, ino, targets);
    Symmetric(hash, nodes[k].nodeHash);
    var nodes' := Inserted(nodes, hash, id, ino, targets);
    var t :| 0 <= t < |targets| && targets[t] == k;
    assert nodes'[|nodes|].edges[t].endNodeId == nodes[k].nodeId;
    assert nodes'[k].edges[|nodes[k].edges|].endNodeId == id;
  }

  lemma InsertedOnce(nodes: seq<Node>, index: Index, width: nat, hash: seq<bool>, id: nat, ino: nat,
                     targets: seq<nat>, k: nat)
    requires GraphOk(nodes, index, width) && |hash| == width && id !in index && Positions(targets, |nodes|)
    requires k <= |nodes|
    ensures EdgesOnce(Inserted(nodes, hash, id, ino, targets)[k])
  {
    var n := Inserted(nodes, hash, id, ino, targets)[k];
    if k < |nodes| {
      assert NodeOk(nodes, index, width, k);
      forall i | 0 <= i < |nodes[k].edges| ensures n.edges[i].endNodeId != id {
        assert EdgeOk(nodes, index, width, k, nodes[k].edges[i]);
      }
    } else {
      forall i, j | 0 <= i < j < |n.edges| ensures n.edges[i].endNodeId != n.edges[j].endNodeId {
        assert index[nodes[targets[i]].nodeId] == targets[i] && index[nodes[targets[j]].nodeId] == targets[j];
      }
    }
  }

  /** Insertion keeps the graph in order, whichever nodes are linked. */
  lemma InsertKeeps(nodes: seq<Node>, index: Index, width: nat, hash: seq<bool>, id: nat, ino: nat, targets: seq<nat>)
    requires GraphOk(nodes, index, width) && |hash| == width && id !in index && Positions(targets, |nodes|)
    requires forall k :: 0 <= k < |nodes| ==> nodes[k].nodeHash != hash
    ensures GraphOk(Inserted(nodes, hash, id, ino, targets), index[id := |nodes|], width)
  {
    InsertIndexed(nodes, index, width, hash, id, ino, targets);
    var nodes', index' := Inserted(nodes, hash, id, ino, targets), index[id := |nodes|];
    forall k | 0 <= k < |nodes'| ensures NodeOk(nodes', index', width, k) {
      InsertedOnce(nodes, index, width, hash, id, ino, targets, k);
      forall e | e in nodes'[k].edges ensures EdgeOk(nodes', index', width, k, e) {
        if k < |nodes| && e in nodes[k].edges {
          OldEdgeOk(nodes, index, width, hash, id, ino, targets, k, e);
        } else if k < |nodes| {
          NewEdgeOk(nodes, index, width, hash, id, ino, targets, k);
        } else {
          var t :| 0 <= t < |targets| && nodes'[k].edges[t] == e;
          NewEdgeOk(nodes, index, width, hash, id, ino, targets, targets[t]);
        }
      }
    }
  }

  // ----- deletion

  /** The edges without the first one to id, if there is one. */
  function Without(es: seq<Edge>, id: nat): seq<Edge> {
    if |es| == 0 then []
    else if es[0].endNodeId == id then es[1..]
    else [es[0]] + Without(es[1..], id)
  }

  /** The nodes behind the deleted one move up by one place. */
  ghost function Reindexed(index: Index, id: nat, at: nat): Index {
    map k | k in index && k != id :: if index[k] > at then index[k] - 1 else index[k]
  }

  ghost function Place(at: nat, k: nat): nat {
    if k < at then k else k + 1
  }

  ghost function Deleted(nodes: seq<Node>, at: nat): seq<Node>
    requires at < |nodes|
  {
    seq(|nodes| - 1, k requires 0 <= k < |nodes| - 1 =>
      var n := nodes[Place(at, k)]; n.(edges := Without(n.edges, nodes[at].nodeId)))
  }

  lemma {:induction false} WithoutEdges(es: seq<Edge>, id: nat)
    requires forall i, j :: 0 <= i < j < |es| ==> es[i].endNodeId != es[j].endNodeId
    ensures forall e :: e in Without(es, id) <==> e in es && e.endNodeId != id
    ensures forall i, j :: 0 <= i < j < |Without(es, id)| ==>
        Without(es, id)[i].endNodeId != Without(es, id)[j].endNodeId
  {
    if |es| != 0 {
      assert es == [es[0]] + es[1..];
      if es[0].endNodeId == id {
        forall e | e in es[1..] ensures e.endNodeId != id {
          var i :| 0 <= i < |es[1..]| && es[1..][i] == e;
          assert es[0].endNodeId != es[i + 1].endNodeId;
        }
      } else {
        WithoutEdges(es[1..], id);
        forall e | e in Without(es[1..], id) ensures e.endNodeId != es[0].endNodeId {
          var i :| 0 <= i < |es[1..]| && es[1..][i] == e;
          assert es[0].endNodeId != es[i + 1].endNodeId;
        }
      }
    }
  }

  /** A node that does not link to id keeps its edges. */
  lemma {:induction false} WithoutNone(es: seq<Edge>, id: nat)
    requires forall i :: 0 <= i < |es| ==> es[i].endNodeId != id
    ensures Without(es, id) == es
  {
    if |es| != 0 {
      WithoutNone(es[1..], id);
    }
  }

  lemma DeletedAt(nodes: seq<Node>, at: nat, k: nat)
    requires at < |nodes| && k < |nodes| - 1
    ensures Place(at, k) < |nodes| && Place(at, k) != at
    ensures var n := Deleted(nodes, at)[k];
      n.nodeId == nodes[Place(at, k)].nodeId && n.nodeHash == nodes[Place(at, k)].nodeHash
  {}

  lemma DeletedHashes(nodes: seq<Node>, width: nat, at: nat)
    requires DistinctHashes(nodes, width) && at < |nodes|
    ensures DistinctHashes(Deleted(nodes, at), width)
  {
    var nodes' := Deleted(nodes, at);
    forall k | 0 <= k < |nodes'| ensures |nodes'[k].nodeHash| == width {
      DeletedAt(nodes, at, k);
    }
    forall k, l | 0 <= k < l < |nodes'| ensures nodes'[k].nodeHash != nodes'[l].nodeHash {
      DeletedAt(nodes, at, k);
      DeletedAt(nodes, at, l);
    }
  }

  lemma DeletedIds(nodes: seq<Node>, index: Index, at: nat)
    requires Indexed(nodes, index) && at < |nodes|
    ensures Indexed(Deleted(nodes, at), Reindexed(index, nodes[at].nodeId, at))
  {
    var id := nodes[at].nodeId;
    var nodes', index' := Deleted(nodes, at), Reindexed(index, id, at);
    forall k | 0 <= k < |nodes'| ensures nodes'[k].nodeId in index' && index'[nodes'[k].nodeId] == k {
      DeletedAt(nodes, at, k);
      assert index[nodes[Place(at, k)].nodeId] == Place(at, k);
    }
    forall i | i in index' ensures index'[i] < |nodes'| && nodes'[index'[i]].nodeId == i {
      assert index[i] != at;
      DeletedAt(nodes, at, index'[i]);
    }
  }

  lemma DeleteIndexed(nodes: seq<Node>, index: Index, width: nat, at: nat)
    requires GraphOk(nodes, index, width) && at < |nodes|
    ensures Indexed(Deleted(nodes, at), Reindexed(index, nodes[at].nodeId, at))
    ensures DistinctHashes(Deleted(nodes, at), width)
  {
    DeletedIds(nodes, index, at);
    DeletedHashes(nodes, width, at);
  }

  lemma LeftEdgeOk(nodes: seq<Node>, index: Index, width: nat, at: nat, k: nat, e: Edge)
    requires GraphOk(nodes, index, width) && at < |nodes| && k < |nodes| - 1
    requires e in nodes[Place(at, k)].edges && e.endNodeId != nodes[at].nodeId
    ensures var nodes', index' := Deleted(nodes, at), Reindexed(index, nodes[at].nodeId, at);
      Indexed(nodes', index') && DistinctHashes(nodes', width) && EdgeOk(nodes', index', width, k, e)
  {
    DeleteIndexed(nodes, index, width, at);
    var p, id := Place(at, k), nodes[at].nodeId;
    var nodes', index' := Deleted(nodes, at), Reindexed(index, id, at);
    assert NodeOk(nodes, index, width, p) && EdgeOk(nodes, index, width, p, e);
    var l := index[e.endNodeId];
    assert l != at && nodes[p].nodeId != id;
    assert index'[e.endNodeId] == if l > at then l - 1 else l;
    assert nodes'[index'[e.endNodeId]].edges == Without(nodes[l].edges, id);
    assert NodeOk(nodes, index, width, l);
    WithoutEdges(nodes[l].edges, id);
    var i :| 0 <= i < |nodes[l].edges| && nodes[l].edges[i].endNodeId == nodes[p].nodeId;
    assert nodes[l].edges[i] in Without(nodes[l].edges, id);
  }

  /** Deletion keeps the graph in order. */
  lemma DeleteKeeps(nodes: seq<Node>, index: Index, width: nat, at: nat)
    requires GraphOk(nodes, index, width) && at < |nodes|
    ensures GraphOk(Deleted(nodes, at), Reindexed(index, nodes[at].nodeId, at), width)
  {
    DeleteIndexed(nodes, index, width, at);
    var id := nodes[at].nodeId;
    var nodes', index' := Deleted(nodes, at), Reindexed(index, id, at);
    forall k | 0 <= k < |nodes'| ensures NodeOk(nodes', index', width, k) {
      assert NodeOk(nodes, index, width, Place(at, k));
      WithoutEdges(nodes[Place(at, k)].edges, id);
      forall e | e in nodes'[k].edges ensures EdgeOk(nodes', index', width, k, e) {
        LeftEdgeOk(nodes, index, width, at, k, e);
      }
    }
  }

  // ----- walks

  /** There is a walk of the given total weight and number of edges from node s to node k. */
  ghost predicate Walk(nodes: seq<Node>, index: Index, s: nat, k: nat, weight: nat, steps: nat)
    decreases steps
  {
    if steps == 0 then s == k && weight == 0
    else exists l, e ::
      && 0 <= l < |nodes| && e in nodes[l].edges && e.endNodeId in index && index[e.endNodeId] == k
      && e.weight <= weight
      && Walk(nodes, index, s, l, weight - e.weight, steps - 1)
  }

  lemma StepOn(nodes: seq<Node>, index: Index, s: nat, l: nat, weight: nat, steps: nat, e: Edge)
    requires l < |nodes| && Walk(nodes, index, s, l, weight, steps) && e in nodes[l].edges && e.endNodeId in index
    ensures Walk(nodes, index, s, index[e.endNodeId], weight + e.weight, steps + 1)
  {
    assert Walk(nodes, index, s, l, weight + e.weight - e.weight, steps + 1 - 1);
  }

  lemma LastEdge(nodes: seq<Node>, index: Index, s: nat, k: nat, weight: nat, steps: nat) returns (l: nat, e: Edge)
    requires steps > 0 && Walk(nodes, index, s, k, weight, steps)
    ensures l < |nodes| && e in nodes[l].edges && e.endNodeId in index && index[e.endNodeId] == k && e.weight <= weight
    ensures Walk(nodes, index, s, l, weight - e.weight, steps - 1)
  {
    l, e :| 0 <= l < |nodes| && e in nodes[l].edges && e.endNodeId in index && index[e.endNodeId] == k
      && e.weight <= weight && Walk(nodes, index, s, l, weight - e.weight, steps - 1);
  }

  /** One more edge reaches no farther than it weighs. */
  ghost predicate StepBounded(nodes: seq<Node>, s: nat, l: nat, k: nat, w: nat) {
    && s < |nodes| && l < |nodes| && k < |nodes|
    && |nodes[s].nodeHash| == |nodes[l].nodeHash| == |nodes[k].nodeHash|
    && Distance(nodes[s].nodeHash, nodes[k].nodeHash) <= Distance(nodes[s].nodeHash, nodes[l].nodeHash) + w
  }

  ghost predicate AllStepsBounded(nodes: seq<Node>, index: Index, s: nat) {
    forall l, e :: 0 <= l < |nodes| && e in nodes[l].edges && e.endNodeId in index ==>
      StepBounded(nodes, s, l, index[e.endNodeId], e.weight)
  }

  lemma StepsBounded(nodes: seq<Node>, index: Index, width: nat, s: nat)
    requires GraphOk(nodes, index, width) && s < |nodes|
    ensures AllStepsBounded(nodes, index, s)
  {
    forall l, e | 0 <= l < |nodes| && e in nodes[l].edges && e.endNodeId in index
      ensures StepBounded(nodes, s, l, index[e.endNodeId], e.weight)
    {
      assert NodeOk(nodes, index, width, l) && EdgeOk(nodes, index, width, l, e);
      Triangle(nodes[s].nodeHash, nodes[l].nodeHash, nodes[index[e.endNodeId]].nodeHash);
    }
  }

  lemma {:induction false} WalkCovers(nodes: seq<Node>, index: Index, s: nat, k: nat, weight: nat, steps: nat)
    requires s < |nodes| && AllStepsBounded(nodes, index, s) && Walk(nodes, index, s, k, weight, steps)
    ensures StepBounded(nodes, s, s, k, weight)
    decreases steps
  {
    ZeroIsEqual(nodes[s].nodeHash, nodes[s].nodeHash);
    if steps != 0 {
      var l, e := LastEdge(nodes, index, s, k, weight, steps);
      WalkCovers(nodes, index, s, l, weight - e.weight, steps - 1);
      assert StepBounded(nodes, s, l, k, e.weight);
    }
  }

  /** A walk is at least as long as the distance it covers. */
  lemma WalkBounds(nodes: seq<Node>, index: Index, width: nat, s: nat, k: nat, weight: nat, steps: nat)
    requires GraphOk(nodes, index, width) && s < |nodes| && k < |nodes| && Walk(nodes, index, s, k, weight, steps)
    ensures Distance(nodes[s].nodeHash, nodes[k].nodeHash) <= weight
  {
    StepsBounded(nodes, index, width, s);
    WalkCovers(nodes, index, s, k, weight, steps);
    ZeroIsEqual(nodes[s].nodeHash, nodes[s].nodeHash);
  }

  /** Edges weigh at least 1. */
  lemma EdgeWeighs(nodes: seq<Node>, index: Index, width: nat, k: nat, e: Edge)
    requires GraphOk(nodes, index, width) && k < |nodes| && e in nodes[k].edges
    ensures e.endNodeId in index && index[e.endNodeId] < |nodes| && index[e.endNodeId] != k && e.weight >= 1
  {
    assert NodeOk(nodes, index, width, k) && EdgeOk(nodes, index, width, k, e);
    ZeroIsEqual(nodes[k].nodeHash, nodes[index[e.endNodeId]].nodeHash);
  }
}
