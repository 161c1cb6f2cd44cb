/** The worklist of the radius query: what it holds, and why it runs empty. */
module GraphQuery {
  import opened Prelude
  import opened Hamming
  import opened GraphValues

  /** A node id and the length of the walk it was reached by. */
  type Entry = (nat, nat)

  predicate LexLe(a: Entry, b: Entry) {
    a.0 < b.0 || (a.0 == b.0 && a.1 <= b.1)
  }

  /** The largest entry, and the others. */
  method PopMax(queue: seq<Entry>) returns (top: Entry, rest: seq<Entry>, ghost at: nat)
    requires |queue| > 0
    ensures at < |queue| && top == queue[at] && rest == RemoveAt(queue, at)
    ensures forall q :: q in queue ==> LexLe(q, top)
  {
    var best := 0;
    for i := 0 to |queue|
      invariant best < |queue| && forall j :: 0 <= j < i ==> LexLe(queue[j], queue[best])
    {
      if LexLe(queue[best], queue[i]) {
        best := i;
      }
    }
    top, rest, at := queue[best], RemoveAt(queue, best), best;
  }

  ghost function Power(base: nat, n: nat): nat {
    if n == 0 then 1 else base * Power(base, n - 1)
  }

  lemma {:induction false} PowerMonotone(base: nat, m: nat, n: nat)
    requires base >= 1 && m <= n
    ensures 1 <= Power(base, m) <= Power(base, n)
  {
    if n > m {
      PowerMonotone(base, m, n - 1);
      assert Power(base, n - 1) <= base * Power(base, n - 1);
    } else if n != 0 {
      PowerMonotone(base, m - 1, n - 1);
      assert base * Power(base, n - 1) >= 1;
    }
  }

  /** An entry weighs the more the farther its walk may still go. */
  ghost function Rank(q: Entry, radii: nat, base: nat): nat {
    if q.1 <= radii then Power(base, radii - q.1) else 0
  }

  ghost function Measure(queue: seq<Entry>, radii: nat, base: nat): nat {
    if |queue| == 0 then 0
    else Measure(queue[..|queue| - 1], radii, base) + Rank(queue[|queue| - 1], radii, base)
  }

  lemma MeasurePush(queue: seq<Entry>, q: Entry, radii: nat, base: nat)
    ensures Measure(queue + [q], radii, base) == Measure(queue, radii, base) + Rank(q, radii, base)
  {
    assert (queue + [q])[..|queue|] == queue;
  }

  lemma {:induction false} MeasurePop(queue: seq<Entry>, at: nat, radii: nat, base: nat)
    requires at < |queue|
    ensures Measure(RemoveAt(queue, at), radii, base) == Measure(queue, radii, base) - Rank(queue[at], radii, base)
  {
    var n := |queue| - 1;
    if at == n {
      assert RemoveAt(queue, at) == queue[..n];
    } else {
      MeasurePop(queue[..n], at, radii, base);
      assert RemoveAt(queue, at) == RemoveAt(queue[..n], at) + [queue[n]];
      MeasurePush(RemoveAt(queue[..n], at), queue[n], radii, base);
    }
  }

  /** A bound on the number of edges of any node. */
  ghost function EdgeCount(nodes: seq<Node>): nat {
    if |nodes| == 0 then 0 else EdgeCount(nodes[..|nodes| - 1]) + |nodes[|nodes| - 1].edges|
  }

  lemma {:induction false} EdgeCountBounds(nodes: seq<Node>, k: nat)
    requires k < |nodes|
    ensures |nodes[k].edges| <= EdgeCount(nodes)
  {
    if k < |nodes| - 1 {
      EdgeCountBounds(nodes[..|nodes| - 1], k);
    }
  }

  lemma MoreTimes(a: nat, b: nat, x: nat)
    requires a < b && x >= 1
    ensures a * x < b * x
  {}

  lemma MoreByOne(n: nat, x: nat)
    ensures (n + 1) * x == n * x + x
  {}

  /** Each entry pushed onto rest weighs at most a base-th of what the one popped before, of that distance, did. */
  ghost predicate PushBound(queue: seq<Entry>, rest: seq<Entry>, radii: nat, base: nat, popped: nat, pushed: nat) {
    if popped < radii
    then Measure(queue, radii, base) <= Measure(rest, radii, base) + pushed * Power(base, radii - popped - 1)
    else pushed == 0 && Measure(queue, radii, base) == Measure(rest, radii, base)
  }

  lemma PushHeavier(queue: seq<Entry>, rest: seq<Entry>, q: Entry, radii: nat, base: nat, popped: nat, pushed: nat)
    requires base >= 1 && popped < q.1 <= radii && PushBound(queue, rest, radii, base, popped, pushed)
    ensures PushBound(queue + [q], rest, radii, base, popped, pushed + 1)
  {
    MeasurePush(queue, q, radii, base);
    PowerMonotone(base, radii - q.1, radii - popped - 1);
    MoreByOne(pushed, Power(base, radii - popped - 1));
  }

  /** Pushing at most one entry per edge, each farther than the one popped, makes the worklist lighter. */
  lemma RoundLighter(before: seq<Entry>, at: nat, rest: seq<Entry>, after: seq<Entry>, radii: nat, base: nat,
                     top: Entry,
                     pushed: nat, edges: nat)
    requires at < |before| && top == before[at] && rest == RemoveAt(before, at) && top.1 <= radii
    requires PushBound(after, rest, radii, base, top.1, pushed) && pushed <= edges < base
    ensures Measure(after, radii, base) < Measure(before, radii, base)
  {
    MeasurePop(before, at, radii, base);
    if top.1 < radii {
      PowerMonotone(base, 0, radii - top.1 - 1);
      MoreTimes(pushed, base, Power(base, radii - top.1 - 1));
    }
  }

  /** The node was reached from the start by a walk of that length, within the radius. */
  ghost predicate Reached(nodes: seq<Node>, index: Index, start: nat, radii: nat, q: Entry) {
    && q.0 in index && index[q.0] != start && q.1 <= radii
    && exists steps :: Walk(nodes, index, start, index[q.0], q.1, steps)
  }

  ghost predicate AllReached(nodes: seq<Node>, index: Index, start: nat, radii: nat, queue: seq<Entry>) {
    forall q :: q in queue ==> Reached(nodes, index, start, radii, q)
  }

  /** The node lies at the end of a walk no longer than the radius. */
  ghost predicate InRange(nodes: seq<Node>, index: Index, start: nat, radii: nat, k: nat) {
    && k < |nodes| && k != start
    && exists weight: nat, steps: nat :: weight <= radii && Walk(nodes, index, start, k, weight, steps)
  }

  lemma ReachedInRange(nodes: seq<Node>, index: Index, width: nat, start: nat, radii: nat, q: Entry)
    requires GraphOk(nodes, index, width) && Reached(nodes, index, start, radii, q)
    ensures InRange(nodes, index, start, radii, index[q.0])
  {}

  lemma InRangeClose(nodes: seq<Node>, index: Index, width: nat, start: nat, radii: nat, k: nat)
    requires GraphOk(nodes, index, width) && start < |nodes| && InRange(nodes, index, start, radii, k)
    ensures Distance(nodes[start].nodeHash, nodes[k].nodeHash) <= radii
  {
    var weight: nat, steps: nat :| weight <= radii && Walk(nodes, index, start, k, weight, steps);
    WalkBounds(nodes, index, width, start, k, weight, steps);
  }

  /** A neighbour of the start is reached over its edge. */
  lemma ReachFirst(nodes: seq<Node>, index: Index, width: nat, start: nat, radii: nat, e: Edge)
    requires GraphOk(nodes, index, width) && start < |nodes| && e in nodes[start].edges && e.weight <= radii
    ensures Reached(nodes, index, start, radii, (e.endNodeId, e.weight))
  {
    EdgeWeighs(nodes, index, width, start, e);
    assert Walk(nodes, index, start, start, 0, 0);
    StepOn(nodes, index, start, start, 0, 0, e);
  }

  /** A neighbour of a reached node is reached by a longer walk. */
  lemma ReachNext(nodes: seq<Node>, index: Index, width: nat, start: nat, radii: nat, q: Entry, e: Edge)
    requires GraphOk(nodes, index, width) && start < |nodes| && Reached(nodes, index, start, radii, q)
    requires e in nodes[index[q.0]].edges && e.weight + q.1 <= radii && e.endNodeId != nodes[start].nodeId
    ensures e.weight >= 1 && Reached(nodes, index, start, radii, (e.endNodeId, e.weight + q.1))
  {
    EdgeWeighs(nodes, index, width, index[q.0], e);
    WalkOn(nodes, index, start, radii, q, e);
  }

  lemma WalkOn(nodes: seq<Node>, index: Index, start: nat, radii: nat, q: Entry, e: Edge)
    requires Reached(nodes, index, start, radii, q) && index[q.0] < |nodes| && e in nodes[index[q.0]].edges
    requires e.endNodeId in index && index[e.endNodeId] != start && e.weight + q.1 <= radii
    ensures Reached(nodes, index, start, radii, (e.endNodeId, e.weight + q.1))
  {
    var steps :| Walk(nodes, index, start, index[q.0], q.1, steps);
    StepOn(nodes, index, start, index[q.0], q.1, steps, e);
  }

  /** The node with that id is the start, has been found, or is still in the worklist. */
  ghost predicate Pending(index: Index, start: nat, id: nat, queue: seq<Entry>, found: set<nat>) {
    id in index && (index[id] == start || index[id] in found || exists j :: 0 <= j < |queue| && queue[j].0 == id)
  }

  /** The search went on from the node: its edges that stay within the radius lead to such nodes. */
  ghost predicate Expanded(nodes: seq<Node>, index: Index, start: nat, radii: nat, q: Entry, queue: seq<Entry>,
                           found: set<nat>)
  {
    && q.0 in index && index[q.0] < |nodes|
    && forall e :: e in nodes[index[q.0]].edges && e.weight + q.1 <= radii ==>
         Pending(index, start, e.endNodeId, queue, found)
  }

  /** Every neighbour of the start within the radius is in the worklist, or the search went on from it, by its edge. */
  ghost predicate FirstKept(nodes: seq<Node>, start: nat, radii: nat, queue: seq<Entry>, passed: set<Entry>)
    requires start < |nodes|
  {
    forall e :: e in nodes[start].edges && e.weight <= radii ==>
      (e.endNodeId, e.weight) in queue || (e.endNodeId, e.weight) in passed
  }

  /** passed are the entries taken out so far; the nodes found are theirs, and the search went on from each. */
  ghost predicate Passed(nodes: seq<Node>, index: Index, start: nat, radii: nat, queue: seq<Entry>, found: set<nat>,
                         passed: set<Entry>)
  {
    && (forall q :: q in passed ==>
          Reached(nodes, index, start, radii, q) && index[q.0] in found
          && Expanded(nodes, index, start, radii, q, queue, found))
    && (forall k :: k in found ==> exists q :: q in passed && q.0 in index && index[q.0] == k)
  }

  /** Visited are the start and the nodes found. */
  ghost predicate VisitedAre(index: Index, start: nat, visited: set<nat>, found: set<nat>) {
    forall id :: id in visited ==> id in index && (index[id] == start || index[id] in found)
  }

  lemma PendingPush(index: Index, start: nat, id: nat, queue: seq<Entry>, queue': seq<Entry>, found: set<nat>)
    requires Pending(index, start, id, queue, found) && |queue| <= |queue'| && queue == queue'[..|queue|]
    ensures Pending(index, start, id, queue', found)
  {
    if index[id] !in found && index[id] != start {
      var j :| 0 <= j < |queue| && queue[j].0 == id;
      assert queue'[j] == queue[j];
    }
  }

  lemma PendingPop(index: Index, start: nat, id: nat, queue: seq<Entry>, at: nat, found: set<nat>)
    requires Pending(index, start, id, queue, found) && at < |queue| && queue[at].0 in index
    ensures Pending(index, start, id, RemoveAt(queue, at), found + {index[queue[at].0]})
  {
    if index[id] !in found && index[id] != start {
      var j :| 0 <= j < |queue| && queue[j].0 == id;
      if j != at {
        assert RemoveAt(queue, at)[if j < at then j else j - 1].0 == id;
      }
    }
  }

  /** An entry is taken out and its node found, and others are put behind the rest. */
  ghost predicate Round(index: Index, before: seq<Entry>, at: nat, rest: seq<Entry>, after: seq<Entry>) {
    && at < |before| && before[at].0 in index && rest == RemoveAt(before, at)
    && |rest| <= |after| && rest == after[..|rest|]
  }

  lemma ExpandedKept(nodes: seq<Node>, index: Index, start: nat, radii: nat, q: Entry, before: seq<Entry>, at: nat,
                     rest: seq<Entry>, after: seq<Entry>, found: set<nat>)
    requires Round(index, before, at, rest, after) && Expanded(nodes, index, start, radii, q, before, found)
    ensures Expanded(nodes, index, start, radii, q, after, found + {index[before[at].0]})
  {
    forall e | e in nodes[index[q.0]].edges && e.weight + q.1 <= radii
      ensures Pending(index, start, e.endNodeId, after, found + {index[before[at].0]})
    {
      PendingPop(index, start, e.endNodeId, before, at, found);
      PendingPush(index, start, e.endNodeId, rest, after, found + {index[before[at].0]});
    }
  }

  lemma ExpandedMore(nodes: seq<Node>, index: Index, start: nat, radii: nat, q: Entry, queue: seq<Entry>,
                     found: set<nat>, k: nat)
    requires Expanded(nodes, index, start, radii, q, queue, found)
    ensures Expanded(nodes, index, start, radii, q, queue, found + {k})
  {
    forall e | e in nodes[index[q.0]].edges && e.weight + q.1 <= radii
      ensures Pending(index, start, e.endNodeId, queue, found + {k})
    {
      assert Pending(index, start, e.endNodeId, queue, found);
    }
  }

  /** One round: the entry taken out is passed. */
  lemma PassedRound(nodes: seq<Node>, index: Index, start: nat, radii: nat, before: seq<Entry>, at: nat,
                    rest: seq<Entry>, after: seq<Entry>, found: set<nat>, passed: set<Entry>)
    requires Round(index, before, at, rest, after) && Reached(nodes, index, start, radii, before[at])
    requires Passed(nodes, index, start, radii, before, found, passed)
    requires Expanded(nodes, index, start, radii, before[at], after, found)
    ensures Passed(nodes, index, start, radii, after, found + {index[before[at].0]}, passed + {before[at]})
  {
    var top := before[at];
    var found', passed' := found + {index[top.0]}, passed + {top};
    forall q | q in passed'
      ensures Reached(nodes, index, start, radii, q) && index[q.0] in found'
      ensures Expanded(nodes, index, start, radii, q, after, found')
    {
      if q in passed {
        ExpandedKept(nodes, index, start, radii, q, before, at, rest, after, found);
      } else {
        ExpandedMore(nodes, index, start, radii, q, after, found, index[top.0]);
      }
    }
    forall k | k in found' ensures exists q :: q in passed' && q.0 in index && index[q.0] == k {
      if k in found {
        var q :| q in passed && q.0 in index && index[q.0] == k;
        assert q in passed';
      } else {
        assert top in passed' && index[top.0] == k;
      }
    }
  }

  lemma FirstRound(nodes: seq<Node>, index: Index, start: nat, radii: nat, before: seq<Entry>, at: nat,
                   rest: seq<Entry>, after: seq<Entry>, passed: set<Entry>)
    requires start < |nodes| && Round(index, before, at, rest, after)
    requires FirstKept(nodes, start, radii, before, passed)
    ensures FirstKept(nodes, start, radii, after, passed + {before[at]})
  {
    forall q | q in before && q != before[at] ensures q in after {
      var j :| 0 <= j < |before| && before[j] == q;
      var i := if j < at then j else j - 1;
      assert rest[i] == q && after[i] == rest[i];
    }
  }

  /** The first i edges of the node lead to such nodes. */
  ghost predicate ExpandedTo(nodes: seq<Node>, index: Index, start: nat, radii: nat, k: nat, d: nat, i: nat,
                             queue: seq<Entry>, found: set<nat>)
  {
    && k < |nodes| && i <= |nodes[k].edges|
    && forall j :: 0 <= j < i && nodes[k].edges[j].weight + d <= radii ==>
         Pending(index, start, nodes[k].edges[j].endNodeId, queue, found)
  }

  lemma ExpandedOne(nodes: seq<Node>, index: Index, start: nat, radii: nat, k: nat, d: nat, i: nat,
                    queue: seq<Entry>, queue': seq<Entry>, found: set<nat>)
    requires ExpandedTo(nodes, index, start, radii, k, d, i, queue, found) && i < |nodes[k].edges|
    requires |queue| <= |queue'| && queue == queue'[..|queue|]
    requires nodes[k].edges[i].weight + d <= radii ==>
      Pending(index, start, nodes[k].edges[i].endNodeId, queue', found)
    ensures ExpandedTo(nodes, index, start, radii, k, d, i + 1, queue', found)
  {
    forall j | 0 <= j < i && nodes[k].edges[j].weight + d <= radii
      ensures Pending(index, start, nodes[k].edges[j].endNodeId, queue', found)
    {
      PendingPush(index, start, nodes[k].edges[j].endNodeId, queue, queue', found);
    }
  }

  // ----- what is found

  lemma FoundInRange(nodes: seq<Node>, index: Index, width: nat, start: nat, radii: nat, found: set<nat>,
                     passed: set<Entry>, k: nat)
    requires GraphOk(nodes, index, width) && Passed(nodes, index, start, radii, [], found, passed) && k in found
    ensures InRange(nodes, index, start, radii, k)
  {
    var q :| q in passed && q.0 in index && index[q.0] == k;
    ReachedInRange(nodes, index, width, start, radii, q);
  }

  /** The search has gone on from the node at the end of some walk of a length within the radius. */
  ghost predicate WentOn(nodes: seq<Node>, index: Index, start: nat, radii: nat, k: nat, found: set<nat>) {
    exists d: nat, steps: nat ::
      d <= radii && Walk(nodes, index, start, k, d, steps) && LeadsOn(nodes, index, start, radii, k, d, found)
  }

  /** Every edge that stays within the radius leads to the start or to a node found. */
  ghost predicate LeadsOn(nodes: seq<Node>, index: Index, start: nat, radii: nat, k: nat, d: nat, found: set<nat>) {
    && k < |nodes|
    && forall e :: e in nodes[k].edges && d + e.weight <= radii ==>
         e.endNodeId in index && (index[e.endNodeId] == start || index[e.endNodeId] in found)
  }

  /** Behind the last round. */
  lemma AllWentOn(nodes: seq<Node>, index: Index, start: nat, radii: nat, found: set<nat>, passed: set<Entry>)
    requires Passed(nodes, index, start, radii, [], found, passed)
    ensures forall k :: k in found ==> WentOn(nodes, index, start, radii, k, found)
  {
    forall k | k in found ensures WentOn(nodes, index, start, radii, k, found) {
      var q :| q in passed && q.0 in index && index[q.0] == k;
      PassedLeads(nodes, index, start, radii, found, passed, q);
      var steps :| Walk(nodes, index, start, index[q.0], q.1, steps);
      assert LeadsOn(nodes, index, start, radii, k, q.1, found);
    }
  }

  lemma PassedLeads(nodes: seq<Node>, index: Index, start: nat, radii: nat, found: set<nat>, passed: set<Entry>,
                    q: Entry)
    requires Passed(nodes, index, start, radii, [], found, passed) && q in passed
    ensures q.0 in index && index[q.0] in found && LeadsOn(nodes, index, start, radii, index[q.0], q.1, found)
  {
    forall e | e in nodes[index[q.0]].edges && q.1 + e.weight <= radii
      ensures e.endNodeId in index && (index[e.endNodeId] == start || index[e.endNodeId] in found)
    {
      assert Pending(index, start, e.endNodeId, [], found);
    }
  }

  /** The neighbours of the start are found, and the search has gone on from each with the length of its edge. */
  lemma FirstWentOn(nodes: seq<Node>, index: Index, start: nat, radii: nat, found: set<nat>, passed: set<Entry>)
    requires start < |nodes| && FirstKept(nodes, start, radii, [], passed)
    requires Passed(nodes, index, start, radii, [], found, passed)
    ensures forall e :: e in nodes[start].edges && e.weight <= radii ==>
      && e.endNodeId in index && index[e.endNodeId] in found
      && LeadsOn(nodes, index, start, radii, index[e.endNodeId], e.weight, found)
  {
    forall e | e in nodes[start].edges && e.weight <= radii
      ensures e.endNodeId in index && index[e.endNodeId] in found
      ensures LeadsOn(nodes, index, start, radii, index[e.endNodeId], e.weight, found)
    {
      PassedLeads(nodes, index, start, radii, found, passed, (e.endNodeId, e.weight));
    }
  }
}
