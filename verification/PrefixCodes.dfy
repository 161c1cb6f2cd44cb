/**
 Weighted binary trees, the codes read off them, and prefix-free codes in general.
 */
module PrefixCodes {
  import opened Prelude
  import opened HuffmanOptimality

  type Code = seq<bool>

  datatype Tree = Leaf(ch: char, weight: nat) | Fork(left: Tree, right: Tree)

  function Weight(t: Tree): nat {
    match t
    case Leaf(_, w) => w
    case Fork(l, r) => Weight(l) + Weight(r)
  }

  /** The leaves, left to right. */
  function Leaves(t: Tree): seq<(char, nat)> {
    match t
    case Leaf(c, w) => [(c, w)]
    case Fork(l, r) => Leaves(l) + Leaves(r)
  }

  /** The weights of the inner nodes, added up. */
  function InnerWeight(t: Tree): nat {
    match t
    case Leaf(_, _) => 0
    case Fork(l, r) => InnerWeight(l) + InnerWeight(r) + Weight(t)
  }

  ghost predicate Distinct(syms: seq<(char, nat)>) {
    forall i, j :: 0 <= i < j < |syms| ==> syms[i].0 != syms[j].0
  }

  /** The table a depth-first walk fills in: left is false, right is true. */
  function Codes(t: Tree, path: Code): map<char, Code> {
    match t
    case Leaf(c, _) => map[c := path]
    case Fork(l, r) => Codes(l, path + [false]) + Codes(r, path + [true])
  }

  ghost predicate PrefixFree(m: map<char, Code>) {
    forall c, d {:trigger m[c], m[d]} :: c in m && d in m && c != d ==> !(m[c] <= m[d])
  }

  ghost predicate Covers(m: map<char, Code>, syms: seq<(char, nat)>) {
    forall i :: 0 <= i < |syms| ==> syms[i].0 in m
  }

  /** Total weight times code length. */
  ghost function CodeCost(m: map<char, Code>, syms: seq<(char, nat)>): nat
    requires Covers(m, syms)
  {
    if |syms| == 0 then 0
    else CodeCost(m, syms[..|syms| - 1]) + syms[|syms| - 1].1 * |m[syms[|syms| - 1].0]|
  }

  // ----- distinctness and the keys of the table

  lemma {:induction false} CodesKeys(t: Tree, path: Code)
    ensures forall c :: c in Codes(t, path) <==> exists i :: 0 <= i < |Leaves(t)| && Leaves(t)[i].0 == c
  {
    match t
    case Leaf(c, w) => assert Leaves(t)[0].0 == c;
    case Fork(l, r) =>
      CodesKeys(l, path + [false]);
      CodesKeys(r, path + [true]);
      var n := |Leaves(l)|;
      assert forall i :: 0 <= i < n ==> Leaves(t)[i] == Leaves(l)[i];
      assert forall i :: 0 <= i < |Leaves(r)| ==> Leaves(t)[n + i] == Leaves(r)[i];
      assert forall i :: n <= i < |Leaves(t)| ==> Leaves(t)[i] == Leaves(r)[i - n];
  }

  lemma DistinctParts(t: Tree)
    requires t.Fork? && Distinct(Leaves(t))
    ensures Distinct(Leaves(t.left)) && Distinct(Leaves(t.right))
    ensures forall path, path' :: Codes(t.left, path).Keys !! Codes(t.right, path').Keys
  {
    var n := |Leaves(t.left)|;
    assert forall i :: 0 <= i < n ==> Leaves(t)[i] == Leaves(t.left)[i];
    assert forall i :: 0 <= i < |Leaves(t.right)| ==> Leaves(t)[n + i] == Leaves(t.right)[i];
    forall i, j | 0 <= i < j < |Leaves(t.right)|
      ensures Leaves(t.right)[i].0 != Leaves(t.right)[j].0
    {
      assert Leaves(t)[n + i].0 != Leaves(t)[n + j].0;
    }
    forall path, path' ensures Codes(t.left, path).Keys !! Codes(t.right, path').Keys {
      CodesKeys(t.left, path);
      CodesKeys(t.right, path');
      assert forall i, j :: 0 <= i < n && 0 <= j < |Leaves(t.right)| ==>
        Leaves(t.left)[i].0 != Leaves(t.right)[j].0;
    }
  }

  // ----- the codes of a tree

  /** Every code of a subtree starts with the path that leads to it. */
  lemma {:induction false} CodesExtendPath(t: Tree, path: Code)
    ensures forall c :: c in Codes(t, path) ==> path <= Codes(t, path)[c]
  {
    if t.Fork? {
      CodesExtendPath(t.left, path + [false]);
      CodesExtendPath(t.right, path + [true]);
    }
  }

  /** No code is the start of another. */
  lemma {:induction false} CodesPrefixFree(t: Tree, path: Code)
    requires Distinct(Leaves(t))
    ensures PrefixFree(Codes(t, path))
  {
    if t.Fork? {
      DistinctParts(t);
      var m, ml, mr := Codes(t, path), Codes(t.left, path + [false]), Codes(t.right, path + [true]);
      CodesPrefixFree(t.left, path + [false]);
      CodesPrefixFree(t.right, path + [true]);
      CodesExtendPath(t.left, path + [false]);
      CodesExtendPath(t.right, path + [true]);
      forall c, d | c in m && d in m && c != d ensures !(m[c] <= m[d]) {
        if c in ml && d in mr {
          assert m[c][|path|] == false && m[d][|path|] == true;
        } else if c in mr && d in ml {
          assert m[c][|path|] == true && m[d][|path|] == false;
        }
      }
    }
  }

  lemma {:induction false} CodeCostConcat(m: map<char, Code>, s: seq<(char, nat)>, t: seq<(char, nat)>)
    requires Covers(m, s + t)
    ensures Covers(m, s) && Covers(m, t)
    ensures CodeCost(m, s + t) == CodeCost(m, s) + CodeCost(m, t)
  {
    assert forall i :: 0 <= i < |s| ==> (s + t)[i] == s[i];
    assert forall i :: 0 <= i < |t| ==> (s + t)[|s| + i] == t[i];
    if |t| == 0 {
      assert s + t == s;
    } else {
      var n := |t| - 1;
      assert (s + t)[..|s + t| - 1] == s + t[..n];
      CodeCostConcat(m, s, t[..n]);
    }
  }

  lemma {:induction false} CodeCostAgree(m: map<char, Code>, m': map<char, Code>, s: seq<(char, nat)>)
    requires Covers(m, s) && Covers(m', s)
    requires forall i :: 0 <= i < |s| ==> m[s[i].0] == m'[s[i].0]
    ensures CodeCost(m, s) == CodeCost(m', s)
  {
    if |s| != 0 {
      CodeCostAgree(m, m', s[..|s| - 1]);
    }
  }

  lemma CodeCostOne(m: map<char, Code>, x: (char, nat))
    requires x.0 in m
    ensures CodeCost(m, [x]) == x.1 * |m[x.0]|
  {
    assert [x][..0] == [];
  }

  lemma CoversLeaves(t: Tree, path: Code)
    ensures Covers(Codes(t, path), Leaves(t))
  {
    CodesKeys(t, path);
  }

  /** The code cost of a fork is that of its halves. */
  lemma CodeCostOfFork(t: Tree, path: Code)
    requires t.Fork? && Distinct(Leaves(t))
    ensures Covers(Codes(t, path), Leaves(t))
    ensures Covers(Codes(t.left, path + [false]), Leaves(t.left))
    ensures Covers(Codes(t.right, path + [true]), Leaves(t.right))
    ensures CodeCost(Codes(t, path), Leaves(t))
         == CodeCost(Codes(t.left, path + [false]), Leaves(t.left))
          + CodeCost(Codes(t.right, path + [true]), Leaves(t.right))
  {
    DistinctParts(t);
    CoversLeaves(t, path);
    CoversLeaves(t.left, path + [false]);
    CoversLeaves(t.right, path + [true]);
    CodeCostConcat(Codes(t, path), Leaves(t.left), Leaves(t.right));
    CodeCostAgree(Codes(t, path), Codes(t.left, path + [false]), Leaves(t.left));
    CodeCostAgree(Codes(t, path), Codes(t.right, path + [true]), Leaves(t.right));
  }

  lemma LevelDown(x: nat, y: nat, n: nat)
    ensures x * (n + 1) + y * (n + 1) == (x + y) * n + (x + y)
  {}

  /** Weighing each code length by its symbol gives the weights of the inner nodes. */
  lemma {:induction false} CodeCostOfTree(t: Tree, path: Code)
    requires Distinct(Leaves(t))
    ensures Covers(Codes(t, path), Leaves(t))
    ensures CodeCost(Codes(t, path), Leaves(t)) == InnerWeight(t) + Weight(t) * |path|
  {
    match t
    case Leaf(c, w) =>
      CoversLeaves(t, path);
      CodeCostOne(Codes(t, path), (c, w));
    case Fork(l, r) =>
      DistinctParts(t);
      CodeCostOfFork(t, path);
      CodeCostOfTree(l, path + [false]);
      CodeCostOfTree(r, path + [true]);
      LevelDown(Weight(l), Weight(r), |path|);
  }

  lemma CodeCostRemove(m: map<char, Code>, t: seq<(char, nat)>, j: nat)
    requires j < |t| && Covers(m, t)
    ensures Covers(m, t[..j] + t[j + 1..])
    ensures CodeCost(m, t) == CodeCost(m, t[..j] + t[j + 1..]) + t[j].1 * |m[t[j].0]|
  {
    var u, x, v := t[..j], [t[j]], t[j + 1..];
    assert t == u + (x + v);
    CodeCostConcat(m, u, x + v);
    CodeCostConcat(m, x, v);
    CodeCostOne(m, t[j]);
    forall i | 0 <= i < |u + v| ensures (u + v)[i].0 in m {
      assert (u + v)[i] == if i < j then t[i] else t[i + 1];
    }
    CodeCostConcat(m, u, v);
  }

  lemma MultisetRemove<T>(t: seq<T>, j: nat)
    requires j < |t|
    ensures multiset(t[..j] + t[j + 1..]) == multiset(t) - multiset{t[j]}
  {
    assert t == t[..j] + ([t[j]] + t[j + 1..]);
  }

  /** The cost of a code does not depend on the order of the symbols. */
  lemma {:induction false} CodeCostPermutation(m: map<char, Code>, s: seq<(char, nat)>, t: seq<(char, nat)>)
    requires multiset(s) == multiset(t) && Covers(m, s) && Covers(m, t)
    ensures CodeCost(m, s) == CodeCost(m, t)
    decreases |s|
  {
    if |s| == 0 {
      assert |multiset(t)| == 0;
    } else {
      assert s[0] in multiset(t);
      var j :| 0 <= j < |t| && t[j] == s[0];
      CodeCostRemove(m, s, 0);
      CodeCostRemove(m, t, j);
      MultisetRemove(s, 0);
      MultisetRemove(t, j);
      CodeCostPermutation(m, s[..0] + s[1..], t[..j] + t[j + 1..]);
    }
  }

  // ----- Kraft's inequality for any prefix-free code

  ghost function CodeList(m: map<char, Code>, syms: seq<(char, nat)>): seq<Code>
    requires Covers(m, syms)
  {
    seq(|syms|, i requires 0 <= i < |syms| => m[syms[i].0])
  }

  ghost function Lengths(m: map<char, Code>, syms: seq<(char, nat)>): seq<nat>
    requires Covers(m, syms)
  {
    seq(|syms|, i requires 0 <= i < |syms| => |m[syms[i].0]|)
  }

  function AllLive(n: nat): seq<bool> {
    seq(n, i => true)
  }

  ghost predicate NoPrefix(cs: seq<Code>) {
    forall i, j {:trigger cs[i], cs[j]} :: 0 <= i < |cs| && 0 <= j < |cs| && i != j ==> !(cs[i] <= cs[j])
  }

  /** Kraft's terms of the codes that extend p. */
  ghost function Extending(cs: seq<Code>, p: Code, top: nat): seq<int> {
    seq(|cs|, i requires 0 <= i < |cs| => if p <= cs[i] && |cs[i]| <= top then Pow2(top - |cs[i]|) else 0)
  }

  lemma OneMoreBit(p: Code, c: Code, b: bool)
    requires p != c
    ensures p + [b] <= c <==> (p <= c && c[|p|] == b)
  {
    if p <= c {
      assert c[..|p|] == p && c[..|p| + 1] == p + [c[|p|]];
    }
    if p + [b] <= c {
      assert c[|p|] == (p + [b])[|p|];
      assert p == (p + [b])[..|p|] == c[..|p|];
    }
  }

  lemma KraftAtCode(cs: seq<Code>, p: Code, top: nat, i: nat)
    requires NoPrefix(cs) && |p| <= top && i < |cs| && cs[i] == p
    ensures Total(Extending(cs, p, top)) == Pow2(top - |p|)
  {
    var t := Extending(cs, p, top);
    var rest := t[i := 0];
    forall j | 0 <= j < |rest| ensures rest[j] == 0 {
      assert j != i ==> !(cs[i] <= cs[j]);
    }
    TotalZero(rest);
    TotalUpdate(t, i, 0);
  }

  lemma KraftSplit(cs: seq<Code>, p: Code, top: nat)
    requires forall i :: 0 <= i < |cs| ==> cs[i] != p
    ensures Total(Extending(cs, p, top))
         == Total(Extending(cs, p + [false], top)) + Total(Extending(cs, p + [true], top))
  {
    forall j | 0 <= j < |cs|
      ensures Extending(cs, p, top)[j] == Extending(cs, p + [false], top)[j] + Extending(cs, p + [true], top)[j]
    {
      OneMoreBit(p, cs[j], false);
      OneMoreBit(p, cs[j], true);
    }
    TotalAdd(Extending(cs, p + [false], top), Extending(cs, p + [true], top), Extending(cs, p, top));
  }

  lemma {:induction false} KraftInequality(cs: seq<Code>, p: Code, top: nat)
    requires NoPrefix(cs) && |p| <= top
    requires forall i :: 0 <= i < |cs| ==> |cs[i]| <= top
    ensures Total(Extending(cs, p, top)) <= Pow2(top - |p|)
    decreases top - |p|
  {
    if i :| 0 <= i < |cs| && cs[i] == p {
      KraftAtCode(cs, p, top, i);
    } else if |p| == top {
      TotalZero(Extending(cs, p, top));
    } else {
      KraftSplit(cs, p, top);
      KraftInequality(cs, p + [false], top);
      KraftInequality(cs, p + [true], top);
    }
  }

  lemma {:induction false} LongestCode(cs: seq<Code>) returns (top: nat)
    ensures forall i :: 0 <= i < |cs| ==> |cs[i]| <= top
  {
    if |cs| == 0 {
      top := 0;
    } else {
      var n := |cs| - 1;
      top := LongestCode(cs[..n]);
      assert forall i :: 0 <= i < n ==> cs[..n][i] == cs[i];
      top := if top < |cs[n]| then |cs[n]| else top;
    }
  }

  lemma CodeListNoPrefix(m: map<char, Code>, syms: seq<(char, nat)>)
    requires Distinct(syms) && Covers(m, syms) && PrefixFree(m)
    ensures NoPrefix(CodeList(m, syms))
  {
    assert forall i, j {:trigger syms[i], syms[j]} ::
      0 <= i < |syms| && 0 <= j < |syms| && i != j ==> syms[i].0 != syms[j].0;
  }

  /** The lengths of any prefix-free code are feasible for the algorithm's starting forest. */
  lemma PrefixFreeFeasible(m: map<char, Code>, syms: seq<(char, nat)>) returns (top: nat)
    requires Distinct(syms) && Covers(m, syms) && PrefixFree(m)
    ensures Feasible(AllLive(|syms|), Lengths(m, syms), top)
  {
    var cs := CodeList(m, syms);
    CodeListNoPrefix(m, syms);
    top := LongestCode(cs);
    KraftInequality(cs, [], top);
    forall i | 0 <= i < |cs| ensures |m[syms[i].0]| <= top { assert cs[i] == m[syms[i].0]; }
    assert Extending(cs, [], top) == KraftTerms(AllLive(|syms|), Lengths(m, syms), top);
  }

  // ----- a tree's code wastes nothing

  ghost predicate NoLonger(m: map<char, Code>, top: nat) {
    forall c :: c in m ==> |m[c]| <= top
  }

  /** Kraft's sum of the code, scaled by 2^top, is exactly 2^top: no further code can be added. */
  ghost predicate Complete(m: map<char, Code>, syms: seq<(char, nat)>)
    requires Covers(m, syms)
  {
    forall top: nat :: NoLonger(m, top) ==> Total(Extending(CodeList(m, syms), [], top)) == Pow2(top)
  }

  ghost predicate Listed(m: map<char, Code>, cs: seq<Code>) {
    forall c :: c in m ==> m[c] in cs
  }

  lemma {:induction false} SomeCode(t: Tree, p: Code) returns (c: char)
    ensures c in Codes(t, p)
  {
    match t
    case Leaf(ch, _) => c := ch;
    case Fork(_, r) => c := SomeCode(r, p + [true]);
  }

  lemma HalvesListed(t: Tree, p: Code, cs: seq<Code>, top: nat)
    requires t.Fork? && Distinct(Leaves(t))
    requires Listed(Codes(t, p), cs) && NoLonger(Codes(t, p), top)
    ensures Listed(Codes(t.left, p + [false]), cs) && NoLonger(Codes(t.left, p + [false]), top)
    ensures Listed(Codes(t.right, p + [true]), cs) && NoLonger(Codes(t.right, p + [true]), top)
  {
    DistinctParts(t);
    var m, ml, mr := Codes(t, p), Codes(t.left, p + [false]), Codes(t.right, p + [true]);
    assert forall c :: c in ml ==> c in m && m[c] == ml[c];
    assert forall c :: c in mr ==> c in m && m[c] == mr[c];
  }

  /** Where the tree goes on below p, p itself is no code. */
  lemma ForkIsNoCode(r: Tree, p: Code, cs: seq<Code>)
    requires NoPrefix(cs) && Listed(Codes(r, p + [true]), cs)
    ensures forall i :: 0 <= i < |cs| ==> cs[i] != p
  {
    var c := SomeCode(r, p + [true]);
    CodesExtendPath(r, p + [true]);
    var long := Codes(r, p + [true])[c];
    assert p <= p + [true] <= long && |p| < |long|;
    var j :| 0 <= j < |cs| && cs[j] == long;
    forall i | 0 <= i < |cs| ensures cs[i] != p {
      assert cs[i] <= cs[j] ==> i == j;
    }
  }

  /** The codes below a subtree fill the whole share of the path that leads to it. */
  lemma {:induction false} KraftEquality(t: Tree, p: Code, cs: seq<Code>, top: nat)
    requires Distinct(Leaves(t)) && NoPrefix(cs)
    requires Listed(Codes(t, p), cs) && NoLonger(Codes(t, p), top)
    ensures |p| <= top && Total(Extending(cs, p, top)) == Pow2(top - |p|)
  {
    match t
    case Leaf(c, _) =>
      assert Codes(t, p)[c] == p;
      var i :| 0 <= i < |cs| && cs[i] == p;
      KraftAtCode(cs, p, top, i);
    case Fork(l, r) =>
      DistinctParts(t);
      HalvesListed(t, p, cs, top);
      ForkIsNoCode(r, p, cs);
      KraftSplit(cs, p, top);
      KraftEquality(l, p + [false], cs, top);
      KraftEquality(r, p + [true], cs, top);
  }

  /** The code table of a tree is complete over its symbols, in whatever order they are listed. */
  lemma TreeComplete(t: Tree, syms: seq<(char, nat)>)
    requires Distinct(Leaves(t)) && Distinct(syms) && Covers(Codes(t, []), syms)
    requires forall c :: c in Codes(t, []) ==> exists i :: 0 <= i < |syms| && syms[i].0 == c
    ensures Complete(Codes(t, []), syms)
  {
    var m := Codes(t, []);
    var cs := CodeList(m, syms);
    CodesPrefixFree(t, []);
    CodeListNoPrefix(m, syms);
    AllListed(m, syms);
    forall top: nat | NoLonger(m, top) ensures Total(Extending(cs, [], top)) == Pow2(top) {
      KraftEquality(t, [], cs, top);
    }
  }

  lemma AllListed(m: map<char, Code>, syms: seq<(char, nat)>)
    requires Covers(m, syms)
    requires forall c :: c in m ==> exists i :: 0 <= i < |syms| && syms[i].0 == c
    ensures Listed(m, CodeList(m, syms))
  {
    var cs := CodeList(m, syms);
    forall c | c in m ensures m[c] in cs {
      var i :| 0 <= i < |syms| && syms[i].0 == c;
      assert cs[i] == m[c];
    }
  }

  ghost function WeightsOf(syms: seq<(char, nat)>): seq<nat> {
    seq(|syms|, i requires 0 <= i < |syms| => syms[i].1)
  }

  lemma {:induction false} CostOfLengths(m: map<char, Code>, syms: seq<(char, nat)>)
    requires Covers(m, syms)
    ensures Cost(WeightsOf(syms), AllLive(|syms|), Lengths(m, syms)) == CodeCost(m, syms)
  {
    if |syms| != 0 {
      var n := |syms| - 1;
      CostOfLengths(m, syms[..n]);
      assert CostTerms(WeightsOf(syms), AllLive(|syms|), Lengths(m, syms))[..n]
          == CostTerms(WeightsOf(syms[..n]), AllLive(n), Lengths(m, syms[..n]));
    }
  }
}
