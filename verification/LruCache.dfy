/**
 The LRU cache: a doubly linked list of heap nodes, a hash map from keys to nodes, and a size counter.
 Recency is the value it stands for: pairs of key and element, most recently used first.
 */
module Recency {
  import opened Prelude

  type Pairs<T> = seq<(nat, T)>

  ghost predicate Holds<T>(s: Pairs<T>, key: nat) {
    exists i :: 0 <= i < |s| && s[i].0 == key
  }

  ghost predicate UniqueKeys<T>(s: Pairs<T>) {
    forall i, j :: 0 <= i < j < |s| ==> s[i].0 != s[j].0
  }

  ghost function Find<T>(s: Pairs<T>, key: nat): (r: Option<T>)
    ensures r.Some? <==> Holds(s, key)
    ensures forall i :: 0 <= i < |s| && s[i].0 == key && UniqueKeys(s) ==> r == Some(s[i].1)
  {
    if |s| == 0 then None
    else if s[0].0 == key then Some(s[0].1)
    else
      assert forall i :: 0 < i < |s| ==> s[i] == s[1..][i - 1];
      assert forall i :: 0 <= i < |s[1..]| ==> s[1..][i] == s[i + 1];
      Find(s[1..], key)
  }

  /** The pairs without the one for key. */
  ghost function Drop<T>(s: Pairs<T>, key: nat): Pairs<T> {
    if |s| == 0 then []
    else if s[0].0 == key then s[1..]
    else [s[0]] + Drop(s[1..], key)
  }

  ghost function Got<T>(s: Pairs<T>, key: nat): Pairs<T> {
    match Find(s, key)
    case None => s
    case Some(v) => [(key, v)] + Drop(s, key)
  }

  /** A new key on a full cache pushes the last pair out (an empty cache has none to push out). */
  ghost function Put<T>(s: Pairs<T>, capacity: nat, key: nat, value: T): Pairs<T> {
    if Holds(s, key) then [(key, value)] + Drop(s, key)
    else [(key, value)] + if |s| == capacity then WithoutLast(s) else s
  }

  ghost function WithoutLast<T>(s: Pairs<T>): Pairs<T> {
    if |s| == 0 then s else s[..|s| - 1]
  }

  ghost function LastValue<T>(s: Pairs<T>): Option<T> {
    if |s| == 0 then None else Some(s[|s| - 1].1)
  }

  lemma GotFound<T>(s: Pairs<T>, i: nat)
    requires UniqueKeys(s) && i < |s|
    ensures Find(s, s[i].0) == Some(s[i].1) && Got(s, s[i].0) == [s[i]] + Drop(s, s[i].0)
  {}

  lemma GotAbsent<T>(s: Pairs<T>, key: nat)
    requires !Holds(s, key)
    ensures Find(s, key) == None && Got(s, key) == s
  {}

  lemma {:induction false} DropAt<T>(s: Pairs<T>, i: nat)
    requires UniqueKeys(s) && i < |s|
    ensures Drop(s, s[i].0) == s[..i] + s[i + 1..]
  {
    if i != 0 {
      assert s[0].0 != s[i].0;
      DropAt(s[1..], i - 1);
      FrontOne(s, i);
    }
  }

  lemma FrontOne<T>(s: Pairs<T>, i: nat)
    requires 0 < i < |s|
    ensures s[..i] + s[i + 1..] == [s[0]] + (s[1..][..i - 1] + s[1..][i..])
  {}

  lemma {:induction false} DropAbsent<T>(s: Pairs<T>, key: nat)
    requires !Holds(s, key)
    ensures Drop(s, key) == s
  {
    if |s| != 0 {
      assert s[0].0 != key;
      forall i | 0 <= i < |s[1..]| ensures s[1..][i].0 != key { assert s[1..][i] == s[i + 1]; }
      DropAbsent(s[1..], key);
    }
  }

  // ----- whole runs

  datatype Op<T> = Get(key: nat) | PutOp(key: nat, value: T) | Remove(key: nat)

  ghost function Step<T>(s: Pairs<T>, capacity: nat, op: Op<T>): Pairs<T> {
    match op
    case Get(k) => Got(s, k)
    case PutOp(k, v) => Put(s, capacity, k, v)
    case Remove(k) => Drop(s, k)
  }

  ghost function Run<T>(ops: seq<Op<T>>, capacity: nat): Pairs<T> {
    if |ops| == 0 then [] else Step(Run(ops[..|ops| - 1], capacity), capacity, ops[|ops| - 1])
  }

  /** The value the run last put for key, unless the key was removed since. */
  ghost function LastPut<T>(ops: seq<Op<T>>, key: nat): Option<T> {
    if |ops| == 0 then None
    else match ops[|ops| - 1]
      case PutOp(k, v) => if k == key then Some(v) else LastPut(ops[..|ops| - 1], key)
      case Remove(k) => if k == key then None else LastPut(ops[..|ops| - 1], key)
      case Get(_) => LastPut(ops[..|ops| - 1], key)
  }

  /** The time of the last get or put of key, counted from 1; 0 if there was none. */
  ghost function LastUse<T>(ops: seq<Op<T>>, key: nat): (t: nat)
    ensures t <= |ops|
  {
    if |ops| == 0 then 0
    else if !ops[|ops| - 1].Remove? && ops[|ops| - 1].key == key then |ops|
    else LastUse(ops[..|ops| - 1], key)
  }

  /** d is s without its pair at i, or all of s. */
  ghost predicate IsWithout<T>(d: Pairs<T>, s: Pairs<T>, i: nat) {
    i <= |s| && d == if i == |s| then s else s[..i] + s[i + 1..]
  }

  /** The pairs of s other than the one for key, in their order. */
  lemma DropKeeps<T>(s: Pairs<T>, key: nat)
    requires UniqueKeys(s)
    ensures UniqueKeys(Drop(s, key)) && !Holds(Drop(s, key), key)
    ensures exists i: nat :: IsWithout(Drop(s, key), s, i)
  {
    if Holds(s, key) {
      var i :| 0 <= i < |s| && s[i].0 == key;
      DropAt(s, i);
      assert IsWithout(Drop(s, key), s, i);
      WithoutAt(s, Drop(s, key), i);
    } else {
      DropAbsent(s, key);
      assert IsWithout(s, s, |s|);
    }
  }

  lemma WithoutAt<T>(s: Pairs<T>, d: Pairs<T>, i: nat)
    requires UniqueKeys(s) && i < |s| && IsWithout(d, s, i)
    ensures UniqueKeys(d) && !Holds(d, s[i].0)
  {
    assert forall j :: 0 <= j < |d| ==> d[j] == s[if j < i then j else j + 1];
  }

  lemma HoldsNotLast<T>(s: Pairs<T>, key: nat)
    requires !Holds(s, key)
    ensures !Holds(WithoutLast(s), key)
  {
    assert forall j :: 0 <= j < |WithoutLast(s)| ==> WithoutLast(s)[j] == s[j];
  }

  /** Most recently used first. */
  ghost predicate ByRecency<T>(s: Pairs<T>, ops: seq<Op<T>>) {
    forall i, j :: 0 <= i < j < |s| ==> LastUse(ops, s[i].0) > LastUse(ops, s[j].0)
  }

  ghost predicate RunInvariant<T>(s: Pairs<T>, ops: seq<Op<T>>, capacity: nat) {
    && UniqueKeys(s)
    && (capacity >= 1 ==> |s| <= capacity)
    && (forall k :: Holds(s, k) ==> Find(s, k) == LastPut(ops, k))
    && ByRecency(s, ops)
  }

  lemma InFront<T>(s: Pairs<T>, ops: seq<Op<T>>, op: Op<T>, key: nat, value: T)
    requires UniqueKeys(s) && !Holds(s, key) && ByRecency(s, ops)
    requires !op.Remove? && op.key == key
    requires forall k :: Holds(s, k) ==> Find(s, k) == LastPut(ops, k)
    requires LastPut(ops + [op], key) == Some(value)
    ensures UniqueKeys([(key, value)] + s) && ByRecency([(key, value)] + s, ops + [op])
    ensures forall k :: Holds([(key, value)] + s, k) ==> Find([(key, value)] + s, k) == LastPut(ops + [op], k)
  {
    var t := [(key, value)] + s;
    assert (ops + [op])[..|ops|] == ops;
    assert forall i :: 0 < i < |t| ==> t[i] == s[i - 1];
    assert t[1..] == s;
    forall k | Holds(t, k) ensures Find(t, k) == LastPut(ops + [op], k) {
      if k != key {
        var i :| 0 <= i < |t| && t[i].0 == k;
        assert s[i - 1].0 == k;
      }
    }
  }

  lemma Shortened<T>(s: Pairs<T>, d: Pairs<T>, i: nat, ops: seq<Op<T>>)
    requires UniqueKeys(s) && ByRecency(s, ops) && IsWithout(d, s, i)
    requires forall k :: Holds(s, k) ==> Find(s, k) == LastPut(ops, k)
    ensures UniqueKeys(d) && ByRecency(d, ops)
    ensures forall k :: Holds(d, k) ==> Find(d, k) == LastPut(ops, k)
  {
    assert forall j :: 0 <= j < |d| ==> d[j] == s[if j < i then j else j + 1];
    assert UniqueKeys(d);
    forall k | Holds(d, k) ensures Find(d, k) == LastPut(ops, k) {
      var j :| 0 <= j < |d| && d[j].0 == k;
      FindAt(d, j);
      FindAt(s, if j < i then j else j + 1);
    }
  }

  lemma FindAt<T>(s: Pairs<T>, i: nat)
    requires UniqueKeys(s) && i < |s|
    ensures Holds(s, s[i].0) && Find(s, s[i].0) == Some(s[i].1)
  {}

  lemma StepKeeps<T>(s: Pairs<T>, ops: seq<Op<T>>, capacity: nat, op: Op<T>)
    requires RunInvariant(s, ops, capacity)
    ensures RunInvariant(Step(s, capacity, op), ops + [op], capacity)
  {
    var key := op.key;
    var ops' := ops + [op];
    assert ops'[..|ops|] == ops;
    DropKeeps(s, key);
    var d := Drop(s, key);
    var i: nat :| IsWithout(d, s, i);
    Shortened(s, d, i, ops);
    match op
    case Get(_) =>
      if Holds(s, key) {
        InFront(d, ops, op, key, Find(s, key).value);
      } else {
        Unmoved(s, ops, op);
      }
    case PutOp(_, v) =>
      if Holds(s, key) || |s| != capacity || |s| == 0 {
        if !Holds(s, key) { DropAbsent(s, key); }
        InFront(d, ops, op, key, v);
      } else {
        var t := s[..|s| - 1];
        assert t == s[..|s| - 1] + s[|s| - 1 + 1..];
        Shortened(s, t, |s| - 1, ops);
        HoldsNotLast(s, key);
        InFront(t, ops, op, key, v);
      }
    case Remove(_) => Unmoved(d, ops, op);
  }

  lemma Unmoved<T>(s: Pairs<T>, ops: seq<Op<T>>, op: Op<T>)
    requires ByRecency(s, ops) && !Holds(s, op.key) && !op.PutOp?
    requires forall k :: Holds(s, k) ==> Find(s, k) == LastPut(ops, k)
    ensures ByRecency(s, ops + [op])
    ensures forall k :: Holds(s, k) ==> Find(s, k) == LastPut(ops + [op], k)
  {
    assert (ops + [op])[..|ops|] == ops;
    assert forall i :: 0 <= i < |s| ==> s[i].0 != op.key;
  }

  /**
   Every run: keys are unique, a capacity of at least one is never exceeded, a key still held has the value
   last put for it, and the pairs are in order of last use, so the pair a put pushes out is the least
   recently used one.
   */
  lemma {:induction false} EveryRun<T>(ops: seq<Op<T>>, capacity: nat)
    ensures RunInvariant(Run(ops, capacity), ops, capacity)
  {
    if |ops| != 0 {
      var n := |ops| - 1;
      EveryRun(ops[..n], capacity);
      StepKeeps(Run(ops[..n], capacity), ops[..n], capacity, ops[n]);
      assert ops == ops[..n] + [ops[n]];
    }
  }

  // ----- which keys are held

  ghost function Keys<T>(s: Pairs<T>): set<nat> {
    set i | 0 <= i < |s| :: s[i].0
  }

  /** The keys after a put: only a new key on a full cache costs a key, that of the last pair. */
  ghost function KeysAfterPut<T>(s: Pairs<T>, capacity: nat, key: nat): set<nat> {
    if key !in Keys(s) && |s| == capacity && |s| > 0 then Keys(s) - {s[|s| - 1].0} + {key} else Keys(s) + {key}
  }

  lemma HeldKeys<T>(s: Pairs<T>, key: nat)
    ensures key in Keys(s) <==> Holds(s, key)
  {}

  lemma {:induction false} CountKeys<T>(s: Pairs<T>)
    requires UniqueKeys(s)
    ensures |Keys(s)| == |s|
  {
    if |s| != 0 {
      var n := |s| - 1;
      CountKeys(s[..n]);
      assert Keys(s) == Keys(s[..n]) + {s[n].0};
      assert s[n].0 !in Keys(s[..n]);
    }
  }

  lemma KeysWithout<T>(s: Pairs<T>, i: nat)
    requires UniqueKeys(s) && i < |s|
    ensures Keys(s[..i] + s[i + 1..]) == Keys(s) - {s[i].0}
  {
    var d := s[..i] + s[i + 1..];
    forall k | k in Keys(s) - {s[i].0} ensures k in Keys(d) {
      var j :| 0 <= j < |s| && s[j].0 == k;
      assert d[if j < i then j else j - 1].0 == k;
    }
    forall k | k in Keys(d) ensures k in Keys(s) - {s[i].0} {
      var j :| 0 <= j < |d| && d[j].0 == k;
      assert s[if j < i then j else j + 1].0 == k;
    }
  }

  lemma KeysDrop<T>(s: Pairs<T>, key: nat)
    requires UniqueKeys(s)
    ensures Keys(Drop(s, key)) == Keys(s) - {key}
  {
    HeldKeys(s, key);
    if Holds(s, key) {
      var i :| 0 <= i < |s| && s[i].0 == key;
      DropAt(s, i);
      KeysWithout(s, i);
    } else {
      DropAbsent(s, key);
    }
  }

  lemma KeysFront<T>(p: (nat, T), s: Pairs<T>)
    ensures Keys([p] + s) == Keys(s) + {p.0}
  {
    var t := [p] + s;
    forall k | k in Keys(s) ensures k in Keys(t) {
      var j :| 0 <= j < |s| && s[j].0 == k;
      assert t[j + 1].0 == k;
    }
    assert t[0].0 == p.0;
  }

  /** Exactly which keys are held after each operation. */
  lemma KeysStep<T>(s: Pairs<T>, capacity: nat, op: Op<T>)
    requires UniqueKeys(s)
    ensures Keys(Step(s, capacity, op)) ==
      match op
      case Get(_) => Keys(s)
      case PutOp(key, _) => KeysAfterPut(s, capacity, key)
      case Remove(key) => Keys(s) - {key}
  {
    HeldKeys(s, op.key);
    KeysDrop(s, op.key);
    match op
    case Get(key) =>
      if Holds(s, key) { KeysFront((key, Find(s, key).value), Drop(s, key)); }
    case PutOp(key, v) =>
      if Holds(s, key) {
        KeysFront((key, v), Drop(s, key));
      } else if |s| == capacity && |s| > 0 {
        assert s[..|s| - 1] == s[..|s| - 1] + s[|s| - 1 + 1..];
        KeysWithout(s, |s| - 1);
        KeysFront((key, v), WithoutLast(s));
      } else {
        KeysFront((key, v), s);
      }
    case Remove(_) =>
  }

  /** The keys that a run has put. */
  ghost function KeysPut<T>(ops: seq<Op<T>>): set<nat> {
    if |ops| == 0 then {}
    else KeysPut(ops[..|ops| - 1]) + if ops[|ops| - 1].PutOp? then {ops[|ops| - 1].key} else {}
  }

  /** The other keys got or put since the last get or put of key. */
  ghost function UsedSince<T>(ops: seq<Op<T>>, key: nat): set<nat> {
    if |ops| == 0 then {}
    else
      var op := ops[|ops| - 1];
      if op.Remove? then UsedSince(ops[..|ops| - 1], key)
      else if op.key == key then {}
      else UsedSince(ops[..|ops| - 1], key) + {op.key}
  }

  lemma {:induction false} UsedAfter<T>(ops: seq<Op<T>>, key: nat, other: nat)
    requires LastUse(ops, other) > LastUse(ops, key)
    ensures other in UsedSince(ops, key)
  {
    var n := |ops| - 1;
    if ops[n].Remove? || (ops[n].key != other && ops[n].key != key) {
      UsedAfter(ops[..n], key, other);
    }
  }

  lemma {:induction false} HeldWerePut<T>(ops: seq<Op<T>>, capacity: nat)
    ensures Keys(Run(ops, capacity)) <= KeysPut(ops)
  {
    if |ops| != 0 {
      var n := |ops| - 1;
      HeldWerePut(ops[..n], capacity);
      EveryRun(ops[..n], capacity);
      KeysStep(Run(ops[..n], capacity), capacity, ops[n]);
    }
  }

  /** A key at the end of a full cache, and a new one: as many others as the capacity have been used since. */
  lemma AllOthersUsed<T>(ops: seq<Op<T>>, capacity: nat, key: nat, op: Op<T>)
    requires var s := Run(ops, capacity); |s| == capacity > 0 && s[|s| - 1].0 == key && op.PutOp? && op.key !in Keys(s)
    ensures |UsedSince(ops + [op], key) * KeysPut(ops + [op])| >= capacity
  {
    var s, ops' := Run(ops, capacity), ops + [op];
    assert ops'[..|ops|] == ops;
    EveryRun(ops, capacity);
    HeldWerePut(ops, capacity);
    var others := Keys(s) - {key};
    forall k | k in others ensures k in UsedSince(ops, key) {
      var i :| 0 <= i < |s| && s[i].0 == k;
      UsedAfter(ops, key, k);
    }
    CountKeys(s);
    assert key in Keys(s);
    assert others + {op.key} <= UsedSince(ops', key) * KeysPut(ops');
    Fewer(others + {op.key}, UsedSince(ops', key) * KeysPut(ops'));
  }

  lemma {:induction false} Fewer(a: set<nat>, b: set<nat>)
    requires a <= b
    ensures |a| <= |b|
    decreases |a|
  {
    if x :| x in a {
      Fewer(a - {x}, b - {x});
    }
  }

  /**
   The key was put and not removed since, and at all times since fewer other keys than the capacity, of those put
   so far, had been used since its own last use.
   */
  ghost predicate NeverFar<T>(ops: seq<Op<T>>, capacity: nat, key: nat) {
    if |ops| == 0 then false
    else
      var before, op := ops[..|ops| - 1], ops[|ops| - 1];
      if op.key == key && !op.Get? then op.PutOp?
      else NeverFar(before, capacity, key) && |UsedSince(ops, key) * KeysPut(ops)| < capacity
  }

  /** Such a key is still held. */
  lemma {:induction false} StaysHeld<T>(ops: seq<Op<T>>, capacity: nat, key: nat)
    requires NeverFar(ops, capacity, key)
    ensures key in Keys(Run(ops, capacity))
  {
    var n := |ops| - 1;
    var before, op := ops[..n], ops[n];
    assert ops == before + [op];
    if op.key == key && !op.Get? {
      EveryRun(before, capacity);
      KeysStep(Run(before, capacity), capacity, op);
    } else {
      StaysHeld(before, capacity, key);
      NotPushedOut(before, capacity, key, op);
    }
  }

  lemma NotPushedOut<T>(ops: seq<Op<T>>, capacity: nat, key: nat, op: Op<T>)
    requires key in Keys(Run(ops, capacity)) && (op.key != key || op.Get?)
    requires |UsedSince(ops + [op], key) * KeysPut(ops + [op])| < capacity
    ensures key in Keys(Step(Run(ops, capacity), capacity, op))
  {
    EveryRun(ops, capacity);
    var s := Run(ops, capacity);
    if op.PutOp? && op.key !in Keys(s) && |s| == capacity > 0 && s[|s| - 1].0 == key {
      AllOthersUsed(ops, capacity, key, op);
      assert false;
    }
    KeyStays(s, capacity, key, op);
  }

  lemma KeyStays<T>(s: Pairs<T>, capacity: nat, key: nat, op: Op<T>)
    requires UniqueKeys(s) && key in Keys(s) && (op.key != key || op.Get?)
    requires !(op.PutOp? && op.key !in Keys(s) && |s| == capacity > 0 && s[|s| - 1].0 == key)
    ensures key in Keys(Step(s, capacity, op))
  {
    KeysStep(s, capacity, op);
  }

  /** A run that puts no more keys than the capacity holds exactly those put and not removed since. */
  lemma {:induction false} FewKeysStay<T>(ops: seq<Op<T>>, capacity: nat, key: nat)
    requires |KeysPut(ops)| <= capacity
    ensures key in Keys(Run(ops, capacity)) <==> LastPut(ops, key).Some?
  {
    if LastPut(ops, key).Some? {
      NotFar(ops, capacity, key);
      StaysHeld(ops, capacity, key);
    }
    EveryRun(ops, capacity);
    HeldKeys(Run(ops, capacity), key);
  }

  lemma {:induction false} NotFar<T>(ops: seq<Op<T>>, capacity: nat, key: nat)
    requires |KeysPut(ops)| <= capacity && LastPut(ops, key).Some?
    ensures NeverFar(ops, capacity, key) && key in KeysPut(ops)
  {
    var n := |ops| - 1;
    if !(ops[n].PutOp? && ops[n].key == key) {
      Fewer(KeysPut(ops[..n]), KeysPut(ops));
      NotFar(ops[..n], capacity, key);
      NotAmongOthers(ops, key);
      Fewer(UsedSince(ops, key) * KeysPut(ops), KeysPut(ops) - {key});
    }
  }

  lemma {:induction false} NotAmongOthers<T>(ops: seq<Op<T>>, key: nat)
    ensures key !in UsedSince(ops, key)
  {
    if |ops| != 0 {
      NotAmongOthers(ops[..|ops| - 1], key);
    }
  }

  ghost function PutsFrom<T>(n: nat, value: T): seq<Op<T>> {
    seq(n, i requires 0 <= i < n => PutOp(i, value))
  }

  /** A capacity of zero bounds nothing: n puts of new keys leave n pairs. */
  lemma {:induction false} ZeroCapacityGrows<T>(n: nat, value: T)
    ensures |Run(PutsFrom(n, value), 0)| == n
    ensures forall k: nat :: Holds(Run(PutsFrom(n, value), 0), k) ==> k < n
  {
    if n != 0 {
      ZeroCapacityGrows(n - 1, value);
      assert PutsFrom(n, value)[..n - 1] == PutsFrom(n - 1, value);
      var s := Run(PutsFrom(n - 1, value), 0);
      assert !Holds(s, n - 1);
      var t := Run(PutsFrom(n, value), 0);
      assert t == [(n - 1 as nat, value)] + s;
      forall k: nat | Holds(t, k) ensures k < n {
        var i :| 0 <= i < |t| && t[i].0 == k;
        if i > 0 {
          assert s[i - 1] == t[i] && Holds(s, k);
        }
      }
    }
  }
}

module LruCache {
  import opened Prelude
  import opened Recency

  class Node<T> {
    const key: nat
    const elem: T
    var next: Node?<T>
    var prev: Node?<T>

    constructor (key: nat, elem: T)
      ensures this.key == key && this.elem == elem && next == null && prev == null
    {
      this.key, this.elem, next, prev := key, elem, null, null;
    }
  }

  /** Distinct nodes, each linked to its neighbours in the sequence and to nothing else. */
  ghost predicate Linked<T>(nodes: seq<Node<T>>)
    reads nodes
  {
    && AllDifferent(nodes)
    && (forall i {:trigger nodes[i].prev} :: 0 <= i < |nodes| ==>
          nodes[i].prev == if i == 0 then null else nodes[i - 1])
    && (forall i {:trigger nodes[i].next} :: 0 <= i < |nodes| ==>
          nodes[i].next == if i == |nodes| - 1 then null else nodes[i + 1])
  }

  ghost predicate AllDifferent<T>(nodes: seq<Node<T>>) {
    forall i, j :: 0 <= i < j < |nodes| ==> nodes[i] != nodes[j]
  }

  /** The hash map knows every node under its key, and no other key. */
  ghost predicate Mapped<T>(nodes: seq<Node<T>>, table: map<nat, Node<T>>) {
    && (forall i :: 0 <= i < |nodes| ==> nodes[i].key in table && table[nodes[i].key] == nodes[i])
    && (forall k :: k in table ==> table[k] in nodes && table[k].key == k)
  }

  ghost function PairsOf<T>(nodes: seq<Node<T>>): Pairs<T> {
    seq(|nodes|, i requires 0 <= i < |nodes| => (nodes[i].key, nodes[i].elem))
  }

  lemma MappedUnique<T>(nodes: seq<Node<T>>, table: map<nat, Node<T>>)
    requires AllDifferent(nodes) && Mapped(nodes, table)
    ensures UniqueKeys(PairsOf(nodes))
    ensures forall k :: k in table <==> Holds(PairsOf(nodes), k)
  {
    forall i, j | 0 <= i < j < |nodes| ensures nodes[i].key != nodes[j].key {
      assert table[nodes[i].key] == nodes[i] && table[nodes[j].key] == nodes[j];
    }
    forall k | k in table ensures Holds(PairsOf(nodes), k) {
      var i :| 0 <= i < |nodes| && nodes[i] == table[k];
      assert PairsOf(nodes)[i].0 == k;
    }
  }

  lemma MappedRemove<T>(nodes: seq<Node<T>>, table: map<nat, Node<T>>, at: nat)
    requires AllDifferent(nodes) && Mapped(nodes, table) && at < |nodes|
    ensures Mapped(nodes[..at] + nodes[at + 1..], table - {nodes[at].key})
  {
    var rest, table' := nodes[..at] + nodes[at + 1..], table - {nodes[at].key};
    forall i | 0 <= i < |rest| ensures rest[i].key in table' && table'[rest[i].key] == rest[i] {
      assert rest[i] == nodes[if i < at then i else i + 1];
      assert table[nodes[at].key] == nodes[at];
    }
    forall k | k in table' ensures table'[k] in rest {
      var i :| 0 <= i < |nodes| && nodes[i] == table[k];
      assert rest[if i < at then i else i - 1] == nodes[i];
    }
  }

  lemma PairsRemove<T>(nodes: seq<Node<T>>, table: map<nat, Node<T>>, at: nat)
    requires AllDifferent(nodes) && Mapped(nodes, table) && at < |nodes|
    ensures PairsOf(nodes[..at] + nodes[at + 1..]) == Drop(PairsOf(nodes), nodes[at].key)
  {
    MappedUnique(nodes, table);
    DropAt(PairsOf(nodes), at);
    assert PairsOf(nodes[..at] + nodes[at + 1..]) == PairsOf(nodes)[..at] + PairsOf(nodes)[at + 1..];
  }

  lemma RemoveLast<T>(nodes: seq<Node<T>>, table: map<nat, Node<T>>)
    requires AllDifferent(nodes) && Mapped(nodes, table) && |nodes| > 0
    ensures Mapped(nodes[..|nodes| - 1], table - {nodes[|nodes| - 1].key})
    ensures PairsOf(nodes[..|nodes| - 1]) == WithoutLast(PairsOf(nodes))
    ensures LastValue(PairsOf(nodes)) == Some(nodes[|nodes| - 1].elem)
  {
    var last := |nodes| - 1;
    MappedRemove(nodes, table, last);
    assert nodes[..last] + nodes[last + 1..] == nodes[..last];
  }

  lemma MappedFront<T>(nodes: seq<Node<T>>, table: map<nat, Node<T>>, node: Node<T>)
    requires Mapped(nodes, table) && !Holds(PairsOf(nodes), node.key)
    ensures Mapped([node] + nodes, table[node.key := node])
    ensures PairsOf([node] + nodes) == [(node.key, node.elem)] + PairsOf(nodes)
  {
    forall i | 0 <= i < |nodes| ensures nodes[i].key != node.key {
      assert PairsOf(nodes)[i].0 == nodes[i].key;
    }
  }

  class LRUCache<T> {
    var size: nat
    const capacity: nat
    var head: Node?<T>
    var tail: Node?<T>
    var table: map<nat, Node<T>>
    ghost var nodes: seq<Node<T>>

    /** The links, both ends, the hash map and the size all agree with the sequence of nodes. */
    ghost predicate Valid()
      reads this, nodes
    {
      ListOk() && Mapped(nodes, table)
    }

    ghost predicate ListOk()
      reads this`size, this`head, this`tail, this`nodes, nodes
    {
      && size == |nodes|
      && head == (if |nodes| == 0 then null else nodes[0])
      && tail == (if |nodes| == 0 then null else nodes[|nodes| - 1])
      && Linked(nodes)
    }

    ghost function Contents(): Pairs<T>
      reads this`nodes
    {
      PairsOf(nodes)
    }

    constructor (capacity: nat)
      ensures Valid() && Contents() == [] && this.capacity == capacity && nodes == []
    {
      this.capacity, size, head, tail, table, nodes := capacity, 0, null, null, map[], [];
    }

    method GetSize() returns (n: nat)
      requires Valid()
      ensures n == |Contents()|
    {
      n := size;
    }

    method ContainsKey(key: nat) returns (b: bool)
      requires Valid()
      ensures b <==> Holds(Contents(), key)
    {
      MappedUnique(nodes, table);
      b := key in table;
    }

    /** The neighbours of the node at position at, or the ends of the list, are linked past it. */
    method Unlink(node: Node<T>, ghost at: nat)
      requires ListOk() && at < |nodes| && nodes[at] == node
      modifies this`size, this`head, this`tail, this`nodes, nodes
      ensures ListOk() && nodes == old(nodes)[..at] + old(nodes)[at + 1..]
    {
      var preNode, nextNode := node.prev, node.next;
      assert preNode == (if at == 0 then null else nodes[at - 1]);
      assert nextNode == (if at == |nodes| - 1 then null else nodes[at + 1]);
      node.prev, node.next := null, null;
      size := size - 1;
      if preNode == null && nextNode == null {
        head, tail := null, null;
      } else if preNode == null {
        nextNode.prev := null;
        head := nextNode;
      } else if nextNode == null {
        preNode.next := null;
        tail := preNode;
      } else {
        preNode.next := nextNode;
        nextNode.prev := preNode;
      }
      nodes := nodes[..at] + nodes[at + 1..];
    }

    /** Takes a node out of the list and its key out of the map. */
    method DeleteNode(node: Node<T>) returns (key: nat, elem: T)
      requires Valid() && node in nodes
      modifies this, nodes
      ensures Valid() && key == node.key && elem == node.elem
      ensures Contents() == Drop(old(Contents()), key)
      ensures forall n :: n in nodes ==> n in old(nodes)
    {
      ghost var at :| 0 <= at < |nodes| && nodes[at] == node;
      MappedRemove(nodes, table, at);
      PairsRemove(nodes, table, at);
      key, elem := node.key, node.elem;
      table := table - {key};
      Unlink(node, at);
    }

    method LinkFront(newHead: Node<T>)
      requires ListOk() && newHead !in nodes && newHead.prev == null && newHead.next == null
      modifies this`size, this`head, this`tail, this`nodes, nodes, newHead
      ensures ListOk() && nodes == [newHead] + old(nodes)
    {
      if head != null {
        var oldHead := head;
        oldHead.prev := newHead;
        newHead.next := oldHead;
        head := newHead;
      } else {
        tail := newHead;
        head := newHead;
      }
      size := size + 1;
      nodes := [newHead] + nodes;
    }

    method PushFront(key: nat, elem: T)
      requires Valid() && !Holds(Contents(), key)
      modifies this, nodes
      ensures Valid() && Contents() == [(key, elem)] + old(Contents())
      ensures forall n :: n in nodes ==> n in old(nodes) || fresh(n)
      ensures key in table && table[key].elem == elem
    {
      var newHead := new Node(key, elem);
      MappedFront(nodes, table, newHead);
      LinkFront(newHead);
      table := table[key := newHead];
    }

    method UnlinkBack()
      requires ListOk() && |nodes| > 0
      modifies this`size, this`head, this`tail, this`nodes, nodes
      ensures ListOk() && nodes == old(nodes)[..|old(nodes)| - 1]
    {
      var oldTail := tail;
      var newTail := oldTail.prev;
      oldTail.prev := null;
      if newTail != null {
        newTail.next := null;
        tail := newTail;
      } else {
        head, tail := null, null;
      }
      size := size - 1;
      nodes := nodes[..|nodes| - 1];
    }

    method PopBack() returns (r: Option<T>)
      requires Valid()
      modifies this, nodes
      ensures Valid() && forall n :: n in nodes ==> n in old(nodes)
      ensures Contents() == WithoutLast(old(Contents()))
      ensures r == LastValue(old(Contents()))
    {
      r := None;
      if tail != null {
        var oldTail := tail;
        RemoveLast(nodes, table);
        r := Some(oldTail.elem);
        UnlinkBack();
        table := table - {oldTail.key};
      }
    }

    method Get(key: nat) returns (r: Option<T>)
      requires Valid()
      modifies this, nodes
      ensures Valid() && forall n :: n in nodes ==> n in old(nodes) || fresh(n)
      ensures r == Find(old(Contents()), key)
      ensures Contents() == Step(old(Contents()), capacity, Recency.Get(key))
      ensures Keys(Contents()) == Keys(old(Contents()))
    {
      MappedUnique(nodes, table);
      KeysStep(Contents(), capacity, Recency.Get(key));
      if key !in table {
        GotAbsent(Contents(), key);
        return None;
      }
      var node := table[key];
      ghost var i :| 0 <= i < |nodes| && nodes[i] == node;
      assert Contents()[i] == (key, node.elem);
      GotFound(Contents(), i);
      DropKeeps(Contents(), key);
      var k, e := DeleteNode(node);
      PushFront(k, e);
      r := Some(table[key].elem);
    }

    method Put(key: nat, value: T)
      requires Valid()
      modifies this, nodes
      ensures Valid() && forall n :: n in nodes ==> n in old(nodes) || fresh(n)
      ensures Contents() == Step(old(Contents()), capacity, PutOp(key, value))
      ensures var s := old(Contents());
        Keys(Contents()) ==
          if key !in Keys(s) && |s| == capacity > 0 then Keys(s) - {s[|s| - 1].0} + {key} else Keys(s) + {key}
    {
      ghost var s := Contents();
      MappedUnique(nodes, table);
      if key in table {
        DropKeeps(Contents(), key);
        var node := table[key];
        var k, e := DeleteNode(node);
        PushFront(k, value);
      } else {
        PutNew(key, value);
      }
      KeysStep(s, capacity, PutOp(key, value));
    }

    /** A key that is not in the cache; the last pair makes way for it if the cache is full. */
    method PutNew(key: nat, value: T)
      requires Valid() && !Holds(Contents(), key)
      modifies this, nodes
      ensures Valid() && forall n :: n in nodes ==> n in old(nodes) || fresh(n)
      ensures Contents() == Recency.Put(old(Contents()), capacity, key, value)
    {
      if size == capacity {
        HoldsNotLast(Contents(), key);
        var _ := PopBack();
      }
      PushFront(key, value);
    }

    method Remove(key: nat)
      requires Valid()
      modifies this, nodes
      ensures Valid() && forall n :: n in nodes ==> n in old(nodes)
      ensures Contents() == Step(old(Contents()), capacity, Recency.Remove(key))
      ensures Keys(Contents()) == Keys(old(Contents())) - {key}
    {
      MappedUnique(nodes, table);
      KeysStep(Contents(), capacity, Recency.Remove(key));
      if key in table {
        var _, _ := DeleteNode(table[key]);
      } else {
        DropAbsent(Contents(), key);
      }
    }
  }
}
