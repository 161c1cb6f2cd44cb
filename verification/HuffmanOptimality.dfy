/**
 The arithmetic behind Huffman's algorithm, on code lengths alone.

 A choice of code lengths d for the parentless nodes of the forest is feasible when it meets
 Kraft's inequality.  Joining the two lightest nodes never loses an optimal choice: from any
 feasible lengths one gets feasible lengths for the joined forest whose cost is smaller by at
 least the weight of the new node (Contract).
 */
module HuffmanOptimality {
  import opened Prelude

  ghost function KraftTerms(live: seq<bool>, d: seq<nat>, top: nat): seq<int>
    requires |live| == |d|
  {
    seq(|d|, i requires 0 <= i < |d| => if live[i] && d[i] <= top then Pow2(top - d[i]) else 0)
  }

  ghost function CostTerms(w: seq<nat>, live: seq<bool>, d: seq<nat>): seq<int>
    requires |w| == |live| == |d|
  {
    seq(|d|, i requires 0 <= i < |d| => if live[i] then w[i] * d[i] else 0)
  }

  ghost function LiveTerms(live: seq<bool>, v: seq<nat>): seq<int>
    requires |live| == |v|
  {
    seq(|v|, i requires 0 <= i < |v| => if live[i] then v[i] else 0)
  }

  ghost function Cost(w: seq<nat>, live: seq<bool>, d: seq<nat>): int
    requires |w| == |live| == |d|
  {
    Total(CostTerms(w, live, d))
  }

  /** Lengths at most top that meet Kraft's inequality, scaled by 2^top. */
  ghost predicate Feasible(live: seq<bool>, d: seq<nat>, top: nat) {
    && |live| == |d|
    && (forall i :: 0 <= i < |d| && live[i] ==> d[i] <= top)
    && Total(KraftTerms(live, d, top)) <= Pow2(top)
  }

  ghost predicate Lightest(w: seq<nat>, live: seq<bool>, a: nat) {
    && |w| == |live|
    && a < |w| && live[a]
    && forall i :: 0 <= i < |w| && live[i] ==> w[a] <= w[i]
  }

  /** a and b are two lightest live nodes: a is lightest, and b is lightest of the others. */
  ghost predicate TwoLightest(w: seq<nat>, live: seq<bool>, a: nat, b: nat) {
    && Lightest(w, live, a)
    && Lightest(w, live[a := false], b)
  }

  function Joined(live: seq<bool>, a: nat, b: nat): seq<bool>
    requires a < |live| && b < |live|
  {
    live[a := false][b := false] + [true]
  }

  lemma KraftUpdate(live: seq<bool>, d: seq<nat>, top: nat, i: nat, x: nat)
    requires |live| == |d| && i < |d| && live[i] && d[i] <= top && x <= top
    ensures Total(KraftTerms(live, d[i := x], top))
         == Total(KraftTerms(live, d, top)) - Pow2(top - d[i]) + Pow2(top - x)
  {
    TotalUpdate(KraftTerms(live, d, top), i, Pow2(top - x));
    assert KraftTerms(live, d[i := x], top) == KraftTerms(live, d, top)[i := Pow2(top - x)];
  }

  lemma CostUpdate(w: seq<nat>, live: seq<bool>, d: seq<nat>, i: nat, x: nat)
    requires |w| == |live| == |d| && i < |d| && live[i]
    ensures Cost(w, live, d[i := x]) == Cost(w, live, d) - w[i] * d[i] + w[i] * x
  {
    TotalUpdate(CostTerms(w, live, d), i, w[i] * x);
    assert CostTerms(w, live, d[i := x]) == CostTerms(w, live, d)[i := w[i] * x];
  }

  lemma {:induction false} KraftHalves(live: seq<bool>, d: seq<nat>, top: nat)
    requires |live| == |d| && top > 0
    requires forall i :: 0 <= i < |d| && live[i] ==> d[i] < top
    ensures Total(KraftTerms(live, d, top)) == 2 * Total(KraftTerms(live, d, top - 1))
  {
    var half := KraftTerms(live, d, top - 1);
    TotalAdd(half, half, KraftTerms(live, d, top));
  }

  lemma ExchangeArithmetic(wi: nat, wx: nat, di: nat, dx: nat)
    requires wi <= wx && di <= dx
    ensures wi * dx + wx * di <= wi * di + wx * dx
  {
    assert (wx - wi) * (dx - di) >= 0;
  }

  lemma ExchangeCost(w: seq<nat>, live: seq<bool>, d: seq<nat>, i: nat, x: nat)
    requires |w| == |live| == |d| && i < |d| && x < |d| && i != x && live[i] && live[x]
    requires d[i] <= d[x] && w[i] <= w[x]
    ensures Cost(w, live, d[i := d[x]][x := d[i]]) <= Cost(w, live, d)
  {
    CostUpdate(w, live, d, i, d[x]);
    CostUpdate(w, live, d[i := d[x]], x, d[i]);
    ExchangeArithmetic(w[i], w[x], d[i], d[x]);
  }

  lemma ExchangeKraft(live: seq<bool>, d: seq<nat>, top: nat, i: nat, x: nat)
    requires Feasible(live, d, top)
    requires i < |d| && x < |d| && i != x && live[i] && live[x]
    ensures Feasible(live, d[i := d[x]][x := d[i]], top)
  {
    KraftUpdate(live, d, top, i, d[x]);
    KraftUpdate(live, d[i := d[x]], top, x, d[i]);
  }

  lemma MergeKraft(live: seq<bool>, d: seq<nat>, top: nat, a: nat, b: nat)
    requires Feasible(live, d, top) && top > 0 && DeepPair(live, d, top, a, b)
    ensures Feasible(Joined(live, a, b), d + [top - 1], top)
  {
    var k := KraftTerms(live, d, top);
    TotalUpdate(k, a, 0);
    TotalUpdate(k[a := 0], b, 0);
    TotalAppend(k[a := 0][b := 0], 2);
    assert Pow2(1) == 2 && Pow2(0) == 1;
    assert KraftTerms(Joined(live, a, b), d + [top - 1], top) == k[a := 0][b := 0] + [2];
  }

  lemma MergeCost(w: seq<nat>, live: seq<bool>, d: seq<nat>, top: nat, a: nat, b: nat)
    requires |w| == |live| == |d| && top > 0 && DeepPair(live, d, top, a, b)
    ensures Cost(w + [w[a] + w[b]], Joined(live, a, b), d + [top - 1]) + w[a] + w[b] == Cost(w, live, d)
  {
    var c := CostTerms(w, live, d);
    var joined := (w[a] + w[b]) * (top - 1);
    TotalUpdate(c, a, 0);
    TotalUpdate(c[a := 0], b, 0);
    TotalAppend(c[a := 0][b := 0], joined);
    assert CostTerms(w + [w[a] + w[b]], Joined(live, a, b), d + [top - 1]) == c[a := 0][b := 0] + [joined];
    assert joined + w[a] + w[b] == w[a] * top + w[b] * top;
  }

  /** Two nodes share the greatest length in lengths that cannot be shortened. */
  ghost predicate DeepPair(live: seq<bool>, d: seq<nat>, top: nat, x: nat, y: nat) {
    && |live| == |d| && x < |d| && y < |d| && x != y
    && live[x] && live[y] && d[x] == top && d[y] == top
  }

  /** A single deepest node can be shortened: with one term odd, Kraft's sum is below 2^top. */
  lemma Shorten(live: seq<bool>, d: seq<nat>, top: nat, i: nat)
    requires Feasible(live, d, top) && top > 0
    requires i < |d| && live[i] && d[i] == top
    requires forall j :: 0 <= j < |d| && live[j] && j != i ==> d[j] < top
    ensures Feasible(live, d[i := top - 1], top - 1)
  {
    KraftUpdate(live, d, top, i, top - 1);
    assert Pow2(0) == 1 && Pow2(1) == 2;
    KraftHalves(live, d[i := top - 1], top);
  }

  /** With two nodes or more, some feasible lengths of no greater cost have two nodes at the greatest length. */
  lemma {:induction false} Tighten(w: seq<nat>, live: seq<bool>, d: seq<nat>, top: nat, a: nat, b: nat)
      returns (d': seq<nat>, top': nat, x: nat, y: nat)
    requires Feasible(live, d, top) && |w| == |d|
    requires a < |d| && b < |d| && a != b && live[a] && live[b]
    ensures Feasible(live, d', top') && top' > 0 && DeepPair(live, d', top', x, y)
    ensures Cost(w, live, d') <= Cost(w, live, d)
    decreases top
  {
    if top == 0 {
      TotalAtLeastTwo(KraftTerms(live, d, top), a, b);
      assert false;
    } else if i :| 0 <= i < |d| && live[i] && d[i] == top {
      if j :| 0 <= j < |d| && live[j] && d[j] == top && j != i {
        d', top', x, y := d, top, i, j;
      } else {
        Shorten(live, d, top, i);
        CostUpdate(w, live, d, i, top - 1);
        assert w[i] * (top - 1) <= w[i] * top;
        d', top', x, y := Tighten(w, live, d[i := top - 1], top - 1, a, b);
      }
    } else {
      KraftHalves(live, d, top);
      d', top', x, y := Tighten(w, live, d, top - 1, a, b);
    }
  }

  /** Lengths of no greater cost in which i, unless already deepest, has changed places with a deepest node. */
  lemma Deepen(w: seq<nat>, live: seq<bool>, d: seq<nat>, top: nat, i: nat, x: nat) returns (d': seq<nat>)
    requires Feasible(live, d, top) && |w| == |d|
    requires i < |d| && x < |d| && live[i] && live[x] && d[x] == top && w[i] <= w[x]
    ensures d' == (if d[i] == top then d else d[i := d[x]][x := d[i]])
    ensures Feasible(live, d', top) && d'[i] == top && Cost(w, live, d') <= Cost(w, live, d)
  {
    d' := d;
    if d[i] != top {
      ExchangeCost(w, live, d, i, x);
      ExchangeKraft(live, d, top, i, x);
      d' := d[i := d[x]][x := d[i]];
    }
  }

  /** The greedy choice: joining the two lightest nodes loses nothing. */
  lemma Contract(w: seq<nat>, live: seq<bool>, d: seq<nat>, top: nat, a: nat, b: nat)
      returns (e: seq<nat>, top': nat)
    requires Feasible(live, d, top) && |w| == |d|
    requires TwoLightest(w, live, a, b)
    ensures |e| == |d| + 1 && Feasible(Joined(live, a, b), e, top')
    ensures Cost(w + [w[a] + w[b]], Joined(live, a, b), e) + w[a] + w[b] <= Cost(w, live, d)
  {
    var d0, x, y;
    d0, top', x, y := Tighten(w, live, d, top, a, b);
    var u := if x == b then y else x;
    var v := if u == a || d0[a] == top' then (if x == a then y else x) else (if u == x then y else x);
    var d1 := Deepen(w, live, d0, top', a, u);
    assert v != a && d1[v] == top';
    var d2 := Deepen(w, live, d1, top', b, v);
    MergeKraft(live, d2, top', a, b);
    MergeCost(w, live, d2, top', a, b);
    e := d2 + [top' - 1];
  }

  /** Some feasible lengths for the forest, added to the cost already inside its trees, stay within bound. */
  ghost predicate Reaches(w: seq<nat>, live: seq<bool>, inner: seq<nat>, bound: int) {
    && |w| == |live| == |inner|
    && exists d: seq<nat>, top: nat ::
         && |d| == |w| && Feasible(live, d, top)
         && Cost(w, live, d) + Total(LiveTerms(live, inner)) <= bound
  }

  /** One step of the algorithm keeps every bound within reach. */
  lemma JoinReaches(w: seq<nat>, live: seq<bool>, inner: seq<nat>, bound: int, a: nat, b: nat)
    requires Reaches(w, live, inner, bound) && TwoLightest(w, live, a, b)
    ensures Reaches(w + [w[a] + w[b]], Joined(live, a, b),
                    inner + [inner[a] + inner[b] + w[a] + w[b]], bound)
  {
    var d: seq<nat>, top: nat :| |d| == |w| && Feasible(live, d, top)
      && Cost(w, live, d) + Total(LiveTerms(live, inner)) <= bound;
    var e, top' := Contract(w, live, d, top, a, b);
    var t := LiveTerms(live, inner);
    var x: nat := inner[a] + inner[b] + w[a] + w[b];
    TotalUpdate(t, a, 0);
    TotalUpdate(t[a := 0], b, 0);
    TotalAppend(t[a := 0][b := 0], x);
    assert LiveTerms(Joined(live, a, b), inner + [x]) == t[a := 0][b := 0] + [x];
  }

  /** When one tree is left, its inner cost is within the bound. */
  lemma RootWithin(w: seq<nat>, live: seq<bool>, inner: seq<nat>, bound: int)
    requires Reaches(w, live, inner, bound) && |w| > 0
    requires forall i :: 0 <= i < |live| ==> (live[i] <==> i == |live| - 1)
    ensures inner[|inner| - 1] <= bound
  {
    var d: seq<nat>, top: nat :| |d| == |w| && Feasible(live, d, top)
      && Cost(w, live, d) + Total(LiveTerms(live, inner)) <= bound;
    TotalNonNegative(CostTerms(w, live, d));
    TotalZero(LiveTerms(live, inner)[..|inner| - 1]);
  }
}
