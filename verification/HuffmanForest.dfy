/**
 The forest Huffman's algorithm grows, as a value: every node built so far with the tree below it,
 and a mark on the nodes that have no parent yet.
 */
module HuffmanForest {
  import opened Prelude
  import opened HuffmanOptimality
  import opened PrefixCodes

  datatype Forest = Forest(trees: seq<Tree>, live: seq<bool>)

  function Weights(f: Forest): seq<nat> {
    seq(|f.trees|, i requires 0 <= i < |f.trees| => Weight(f.trees[i]))
  }

  function Inners(f: Forest): seq<nat> {
    seq(|f.trees|, i requires 0 <= i < |f.trees| => InnerWeight(f.trees[i]))
  }

  function Join(f: Forest, a: nat, b: nat): Forest
    requires |f.trees| == |f.live| && a < |f.trees| && b < |f.trees|
  {
    Forest(f.trees + [Fork(f.trees[a], f.trees[b])], Joined(f.live, a, b))
  }

  function Seedlings(syms: seq<(char, nat)>): Forest {
    Forest(seq(|syms|, i requires 0 <= i < |syms| => Leaf(syms[i].0, syms[i].1)), AllLive(|syms|))
  }

  /** The leaves of all parentless nodes together. */
  ghost function LeafBag(trees: seq<Tree>, live: seq<bool>): multiset<(char, nat)>
    requires |trees| == |live|
  {
    if |trees| == 0 then multiset{}
    else
      var n := |trees| - 1;
      LeafBag(trees[..n], live[..n]) + if live[n] then multiset(Leaves(trees[n])) else multiset{}
  }

  ghost function Ones(live: seq<bool>): seq<nat> {
    seq(|live|, i => 1)
  }

  /** The number of parentless nodes. */
  ghost function LiveCount(live: seq<bool>): int {
    Total(LiveTerms(live, Ones(live)))
  }

  ghost function TotalWeight(syms: seq<(char, nat)>): int {
    Total(WeightsOf(syms))
  }

  ghost predicate IsCodeFor(m: map<char, Code>, syms: seq<(char, nat)>) {
    Covers(m, syms) && PrefixFree(m)
  }

  ghost predicate AllReach(f: Forest, syms: seq<(char, nat)>)
    requires |f.trees| == |f.live|
  {
    forall m: map<char, Code> {:trigger IsCodeFor(m, syms)} ::
      IsCodeFor(m, syms) ==> Reaches(Weights(f), f.live, Inners(f), CodeCost(m, syms))
  }

  /**
   What every step of the algorithm keeps: the symbols are spread over the parentless trees, one tree
   less with every join, and the cost of every prefix-free code stays within reach.
   */
  ghost predicate Grown(f: Forest, syms: seq<(char, nat)>) {
    && |syms| <= |f.trees| == |f.live|
    && LeafBag(f.trees, f.live) == multiset(syms)
    && LiveCount(f.live) == 2 * |syms| - |f.trees|
    && Total(LiveTerms(f.live, Weights(f))) == TotalWeight(syms)
    && AllReach(f, syms)
  }

  lemma {:induction false} LeafBagRemove(trees: seq<Tree>, live: seq<bool>, a: nat)
    requires |trees| == |live| && a < |live| && live[a]
    ensures LeafBag(trees, live) == LeafBag(trees, live[a := false]) + multiset(Leaves(trees[a]))
  {
    var n := |trees| - 1;
    if a == n {
      assert live[a := false][..n] == live[..n];
    } else {
      LeafBagRemove(trees[..n], live[..n], a);
      assert live[a := false][..n] == live[..n][a := false];
    }
  }

  lemma {:induction false} SeedBag(syms: seq<(char, nat)>)
    ensures LeafBag(Seedlings(syms).trees, Seedlings(syms).live) == multiset(syms)
  {
    if |syms| != 0 {
      var n := |syms| - 1;
      SeedBag(syms[..n]);
      SeedSplit(syms, n);
      assert multiset(Leaves(Leaf(syms[n].0, syms[n].1))) == multiset{syms[n]};
    }
  }

  lemma SeedSplit(syms: seq<(char, nat)>, n: nat)
    requires n + 1 == |syms|
    ensures Seedlings(syms).trees[..n] == Seedlings(syms[..n]).trees
    ensures Seedlings(syms).live[..n] == Seedlings(syms[..n]).live
    ensures multiset(syms) == multiset(syms[..n]) + multiset{syms[n]}
  {
    assert syms == syms[..n] + [syms[n]];
  }

  lemma {:induction false} SeedCount(n: nat)
    ensures LiveCount(AllLive(n)) == n
  {
    if n != 0 {
      SeedCount(n - 1);
      assert LiveTerms(AllLive(n), Ones(AllLive(n)))[..n - 1] == LiveTerms(AllLive(n - 1), Ones(AllLive(n - 1)));
    }
  }

  lemma SeedlingsGrown(syms: seq<(char, nat)>)
    requires Distinct(syms)
    ensures Grown(Seedlings(syms), syms)
  {
    var f := Seedlings(syms);
    SeedBag(syms);
    SeedCount(|syms|);
    assert LiveTerms(f.live, Weights(f)) == WeightsOf(syms);
    assert Weights(f) == WeightsOf(syms);
    forall m: map<char, Code> | IsCodeFor(m, syms)
      ensures Reaches(Weights(f), f.live, Inners(f), CodeCost(m, syms))
    {
      var top := PrefixFreeFeasible(m, syms);
      CostOfLengths(m, syms);
      TotalZero(LiveTerms(f.live, Inners(f)));
      assert Feasible(f.live, Lengths(m, syms), top);
    }
  }

  /** Joining two live entries of a sum over the live entries. */
  lemma LiveTermsJoin(live: seq<bool>, v: seq<nat>, a: nat, b: nat, x: nat)
    requires |live| == |v| && a < |v| && b < |v| && a != b && live[a] && live[b]
    ensures Total(LiveTerms(Joined(live, a, b), v + [x])) == Total(LiveTerms(live, v)) - v[a] - v[b] + x
  {
    var t := LiveTerms(live, v);
    TotalUpdate(t, a, 0);
    TotalUpdate(t[a := 0], b, 0);
    TotalAppend(t[a := 0][b := 0], x);
    assert LiveTerms(Joined(live, a, b), v + [x]) == t[a := 0][b := 0] + [x];
  }

  lemma JoinBag(f: Forest, a: nat, b: nat)
    requires |f.trees| == |f.live| && a < |f.trees| && b < |f.trees| && a != b && f.live[a] && f.live[b]
    ensures LeafBag(Join(f, a, b).trees, Join(f, a, b).live) == LeafBag(f.trees, f.live)
  {
    var g := Join(f, a, b);
    var n := |f.trees|;
    LeafBagRemove(f.trees, f.live, a);
    LeafBagRemove(f.trees, f.live[a := false], b);
    assert g.trees[..n] == f.trees && g.live[..n] == f.live[a := false][b := false];
    assert Leaves(g.trees[n]) == Leaves(f.trees[a]) + Leaves(f.trees[b]);
  }

  lemma JoinAllReach(f: Forest, syms: seq<(char, nat)>, a: nat, b: nat)
    requires |f.trees| == |f.live| && AllReach(f, syms) && TwoLightest(Weights(f), f.live, a, b)
    ensures AllReach(Join(f, a, b), syms)
  {
    var g := Join(f, a, b);
    var w, inner := Weights(f), Inners(f);
    assert Weights(g) == w + [w[a] + w[b]];
    assert Inners(g) == inner + [inner[a] + inner[b] + w[a] + w[b]];
    forall m: map<char, Code> | IsCodeFor(m, syms)
      ensures Reaches(Weights(g), g.live, Inners(g), CodeCost(m, syms))
    {
      JoinReaches(w, f.live, inner, CodeCost(m, syms), a, b);
    }
  }

  lemma JoinGrown(f: Forest, syms: seq<(char, nat)>, a: nat, b: nat)
    requires Grown(f, syms) && TwoLightest(Weights(f), f.live, a, b)
    ensures Grown(Join(f, a, b), syms)
  {
    JoinBag(f, a, b);
    JoinAllReach(f, syms, a, b);
    JoinCounts(f, a, b);
  }

  /** One tree less, and the weight stays the same. */
  lemma JoinCounts(f: Forest, a: nat, b: nat)
    requires |f.trees| == |f.live| && a < |f.trees| && b < |f.trees| && a != b && f.live[a] && f.live[b]
    ensures LiveCount(Join(f, a, b).live) == LiveCount(f.live) - 1
    ensures Total(LiveTerms(Join(f, a, b).live, Weights(Join(f, a, b)))) == Total(LiveTerms(f.live, Weights(f)))
  {
    var g := Join(f, a, b);
    LiveTermsJoin(f.live, Ones(f.live), a, b, 1);
    assert Ones(g.live) == Ones(f.live) + [1];
    LiveTermsJoin(f.live, Weights(f), a, b, Weight(f.trees[a]) + Weight(f.trees[b]));
    assert Weights(g) == Weights(f) + [Weight(f.trees[a]) + Weight(f.trees[b])];
  }

  /** As long as a join is due there is a parentless node besides any one given. */
  lemma AnotherLive(live: seq<bool>, a: nat) returns (b: nat)
    requires LiveCount(live) >= 2
    ensures b < |live| && live[b] && b != a
  {
    var t := LiveTerms(live, Ones(live));
    if forall i :: 0 <= i < |live| && i != a ==> !live[i] {
      if a < |live| {
        TotalUpdate(t, a, 0);
        TotalZero(t[a := 0]);
      } else {
        TotalZero(t);
      }
      assert false;
    }
    b :| 0 <= b < |live| && live[b] && b != a;
  }

  /** At the end only the last tree has no parent. */
  lemma OnlyLastLive(f: Forest, syms: seq<(char, nat)>)
    requires Grown(f, syms) && |syms| > 0 && |f.trees| == 2 * |syms| - 1 && f.live[|f.live| - 1]
    ensures forall i :: 0 <= i < |f.live| - 1 ==> !f.live[i]
  {
    var n := |f.trees| - 1;
    forall i | 0 <= i < n ensures !f.live[i] {
      if f.live[i] {
        TotalAtLeastTwo(LiveTerms(f.live, Ones(f.live)), i, n);
      }
    }
  }

  /** The one tree left at the end is as good as any prefix-free code. */
  lemma LastTreeOptimal(f: Forest, syms: seq<(char, nat)>)
    requires Grown(f, syms) && |syms| > 0 && |f.trees| == 2 * |syms| - 1 && f.live[|f.live| - 1]
    ensures forall m :: IsCodeFor(m, syms) ==> InnerWeight(f.trees[|f.trees| - 1]) <= CodeCost(m, syms)
  {
    OnlyLastLive(f, syms);
    forall m | IsCodeFor(m, syms) ensures InnerWeight(f.trees[|f.trees| - 1]) <= CodeCost(m, syms) {
      LastTreeWithin(f, syms, m);
    }
  }

  lemma LastTreeWithin(f: Forest, syms: seq<(char, nat)>, m: map<char, Code>)
    requires |f.trees| == |f.live| && AllReach(f, syms) && |f.trees| > 0 && f.live[|f.live| - 1] && IsCodeFor(m, syms)
    requires forall i :: 0 <= i < |f.live| - 1 ==> !f.live[i]
    ensures InnerWeight(f.trees[|f.trees| - 1]) <= CodeCost(m, syms)
  {
    RootWithin(Weights(f), f.live, Inners(f), CodeCost(m, syms));
  }

  /** The one tree left at the end holds all symbols and is as good as any prefix-free code. */
  lemma LastTree(f: Forest, syms: seq<(char, nat)>)
    requires Grown(f, syms) && |syms| > 0 && |f.trees| == 2 * |syms| - 1 && f.live[|f.live| - 1]
    ensures multiset(Leaves(f.trees[|f.trees| - 1])) == multiset(syms)
    ensures forall m :: IsCodeFor(m, syms) ==> InnerWeight(f.trees[|f.trees| - 1]) <= CodeCost(m, syms)
  {
    OnlyLastLive(f, syms);
    LastLeaves(f.trees, f.live);
    LastTreeOptimal(f, syms);
  }

  lemma LastLeaves(trees: seq<Tree>, live: seq<bool>)
    requires |trees| == |live| > 0 && live[|live| - 1] && forall i :: 0 <= i < |live| - 1 ==> !live[i]
    ensures LeafBag(trees, live) == multiset(Leaves(trees[|trees| - 1]))
  {
    NothingLive(trees[..|trees| - 1], live[..|live| - 1]);
  }

  lemma {:induction false} NothingLive(trees: seq<Tree>, live: seq<bool>)
    requires |trees| == |live| && forall i :: 0 <= i < |live| ==> !live[i]
    ensures LeafBag(trees, live) == multiset{}
  {
    if |trees| != 0 {
      NothingLive(trees[..|trees| - 1], live[..|trees| - 1]);
    }
  }

  /** With the total weight within 32 bits, a parentless node of the greatest weight stands alone. */
  ghost predicate Searchable(f: Forest) {
    |f.trees| == |f.live| &&
    (LiveCount(f.live) >= 2 ==> forall i :: 0 <= i < |f.live| && f.live[i] ==> Weight(f.trees[i]) < U32_MAX)
  }

  lemma SeedlingsSearchable(syms: seq<(char, nat)>)
    requires forall i :: 0 <= i < |syms| ==> syms[i].1 < U32_MAX
    ensures Searchable(Seedlings(syms))
  {}

  /** The sum of the two joined weights does not wrap around, and the next search can find every node. */
  lemma JoinSearchable(f: Forest, syms: seq<(char, nat)>, a: nat, b: nat)
    requires Grown(f, syms) && Searchable(f) && TotalWeight(syms) <= U32_MAX
    requires TwoLightest(Weights(f), f.live, a, b)
    ensures Weight(f.trees[a]) + Weight(f.trees[b]) <= U32_MAX
    ensures Searchable(Join(f, a, b))
  {
    var t := LiveTerms(f.live, Weights(f));
    TotalAtLeastTwo(t, a, b);
    var g := Join(f, a, b);
    TotalAtLeastTwo(LiveTerms(f.live, Ones(f.live)), a, b);
    if LiveCount(g.live) >= 2 {
      var c := AnotherLive(g.live, |f.live|);
      assert c != a && c != b && f.live[c];
      TotalUpdate(t, a, 0);
      TotalAtLeastTwo(t[a := 0], b, c);
      assert Weights(f)[b] <= Weights(f)[c] && Weights(f)[a] <= Weights(f)[b];
    }
  }
}
