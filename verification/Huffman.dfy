/**
 Huffman's tree on the heap: nodes linked by parent, left and right references, built in place by
 joining the two lightest parentless nodes, and walked depth first to fill in the code table.
 */
module Huffman {
  import opened Prelude
  import opened HuffmanOptimality
  import opened PrefixCodes
  import opened HuffmanForest

  class HuffmanTree {
    var value: Option<char>
    var weight: nat
    var parent: HuffmanTree?
    var left: HuffmanTree?
    var right: HuffmanTree?

    constructor ()
      ensures value == None && weight == 0 && parent == null && left == null && right == null
    {
      value, weight, parent, left, right := None, 0, null, null, null;
    }
  }

  /** The nodes below node, all among nodes, spell out the tree t. */
  ghost predicate Represents(nodes: set<HuffmanTree>, node: HuffmanTree?, t: Tree)
    reads nodes
    decreases t
  {
    && node != null && node in nodes
    && node.weight == Weight(t)
    && match t
       case Leaf(c, _) => node.value == Some(c) && node.left == null && node.right == null
       case Fork(l, r) => node.value == None && Represents(nodes, node.left, l) && Represents(nodes, node.right, r)
  }

  /** Node i of vec stands for tree i of f; links[i] names its children. */
  ghost predicate NodeMirrors(vec: seq<HuffmanTree>, f: Forest, links: seq<(nat, nat)>, i: nat)
    requires i < |f.trees| == |f.live| == |links| <= |vec|
    reads vec
  {
    && vec[i].weight == Weight(f.trees[i])
    && (vec[i].parent == null <==> f.live[i])
    && match f.trees[i]
       case Leaf(c, _) => vec[i].value == Some(c) && vec[i].left == null && vec[i].right == null
       case Fork(l, r) =>
         && vec[i].value == None
         && links[i].0 < i && links[i].1 < i
         && l == f.trees[links[i].0] && r == f.trees[links[i].1]
         && vec[i].left == vec[links[i].0] && vec[i].right == vec[links[i].1]
  }

  ghost predicate AllDifferent(vec: seq<HuffmanTree>) {
    forall i, j :: 0 <= i < j < |vec| ==> vec[i] != vec[j]
  }

  /** The first nodes of vec hold the forest f, and the rest are still unused. */
  ghost predicate Mirrors(vec: seq<HuffmanTree>, f: Forest, links: seq<(nat, nat)>)
    reads vec
  {
    && |f.trees| == |f.live| == |links| <= |vec|
    && AllDifferent(vec)
    && (forall i :: 0 <= i < |f.trees| ==> NodeMirrors(vec, f, links, i))
    && (forall i :: |f.trees| <= i < |vec| ==> Untouched(vec[i]))
  }

  ghost predicate Untouched(node: HuffmanTree)
    reads node
  {
    node.value == None && node.parent == null && node.left == null && node.right == null
  }

  lemma {:induction false} MirrorsRepresents(vec: seq<HuffmanTree>, f: Forest, links: seq<(nat, nat)>, i: nat)
    requires Mirrors(vec, f, links) && i < |f.trees|
    ensures Represents((set v | v in vec), vec[i], f.trees[i])
    decreases i
  {
    assert NodeMirrors(vec, f, links, i);
    if f.trees[i].Fork? {
      MirrorsRepresents(vec, f, links, links[i].0);
      MirrorsRepresents(vec, f, links, links[i].1);
    }
  }

  lemma RootRepresents(vec: seq<HuffmanTree>, f: Forest, links: seq<(nat, nat)>, nodes: set<HuffmanTree>,
                       root: HuffmanTree, t: Tree)
    requires Mirrors(vec, f, links) && nodes == (set v | v in vec)
    requires |f.trees| == |vec| > 0 && root == vec[|vec| - 1] && t == f.trees[|vec| - 1]
    ensures Represents(nodes, root, t)
  {
    MirrorsRepresents(vec, f, links, |vec| - 1);
  }

  /** The first of the lightest parentless nodes, unless every one weighs the 32-bit maximum. */
  method FindMin(treeSlice: seq<HuffmanTree>) returns (result: HuffmanTree?, ghost k: nat)
    ensures result == null ==> forall i :: 0 <= i < |treeSlice| && treeSlice[i].parent == null ==>
              treeSlice[i].weight >= U32_MAX
    ensures result != null ==>
      && k < |treeSlice| && result == treeSlice[k] && result.parent == null && result.weight < U32_MAX
      && (forall i :: 0 <= i < |treeSlice| && treeSlice[i].parent == null ==> result.weight <= treeSlice[i].weight)
      && (forall i :: 0 <= i < k && treeSlice[i].parent == null ==> result.weight < treeSlice[i].weight)
  {
    var min := U32_MAX;
    result, k := null, 0;
    for i := 0 to |treeSlice|
      invariant result == null ==> min == U32_MAX
      invariant result != null ==>
        && k < i && result == treeSlice[k] && result.parent == null && result.weight == min < U32_MAX
        && (forall j :: 0 <= j < k && treeSlice[j].parent == null ==> min < treeSlice[j].weight)
      invariant forall j :: 0 <= j < i && treeSlice[j].parent == null ==> min <= treeSlice[j].weight
    {
      var tree := treeSlice[i];
      if tree.parent == null && tree.weight < min {
        min := tree.weight;
        result, k := tree, i;
      }
    }
  }

  method NewNodes(total: nat) returns (vec: seq<HuffmanTree>)
    ensures |vec| == total && (forall i :: 0 <= i < total ==> fresh(vec[i]) && Untouched(vec[i]))
    ensures AllDifferent(vec)
  {
    vec := [];
    for k := 0 to total
      invariant |vec| == k && (forall i :: 0 <= i < k ==> fresh(vec[i]) && Untouched(vec[i]))
      invariant AllDifferent(vec)
    {
      var node := new HuffmanTree();
      vec := vec + [node];
    }
  }

  /** The leaves, one per symbol of the weight map, in the order the map is read. */
  method PlantSeedlings(vec: seq<HuffmanTree>, charWeight: seq<(char, nat)>) returns (ghost links: seq<(nat, nat)>)
    requires |charWeight| <= |vec|
    requires forall i :: 0 <= i < |vec| ==> Untouched(vec[i])
    requires AllDifferent(vec)
    modifies vec
    ensures Mirrors(vec, Seedlings(charWeight), links)
  {
    var n := |charWeight|;
    for index := 0 to n
      invariant forall i :: 0 <= i < index ==>
        && vec[i].value == Some(charWeight[i].0) && vec[i].weight == charWeight[i].1
        && vec[i].parent == null && vec[i].left == null && vec[i].right == null
      invariant forall i :: index <= i < |vec| ==> Untouched(vec[i])
    {
      vec[index].value := Some(charWeight[index].0);
      vec[index].weight := charWeight[index].1;
    }
    links := seq(n, i => (0, 0));
  }

  /** One search: the lightest parentless node is found and gets the node at index as its parent. */
  method TakeMin(vec: seq<HuffmanTree>, index: nat, ghost f: Forest, ghost links: seq<(nat, nat)>, ghost some: nat)
      returns (m: HuffmanTree, ghost k: nat)
    requires Mirrors(vec, f, links) && index == |f.trees| < |vec|
    requires some < index && f.live[some] && Weight(f.trees[some]) < U32_MAX
    modifies vec
    ensures k < index && m == vec[k] && Lightest(Weights(f), f.live, k)
    ensures Mirrors(vec, f.(live := f.live[k := false]), links)
  {
    assert forall i {:trigger vec[i]} :: 0 <= i < index ==> NodeMirrors(vec, f, links, i) && vec[..index][i] == vec[i];
    var found; found, k := FindMin(vec[..index]);
    assert vec[..index][some].parent == null;
    m := found;
    forall i | 0 <= i < index && f.live[i] ensures Weight(f.trees[k]) <= Weight(f.trees[i]) {
      assert vec[..index][i].parent == null;
    }
    m.parent := vec[index];
    ghost var g := f.(live := f.live[k := false]);
    forall i | 0 <= i < index ensures NodeMirrors(vec, g, links, i) {
      assert old(NodeMirrors(vec, f, links, i));
    }
  }

  /** The new node gets its weight and its two children. */
  method LinkParent(vec: seq<HuffmanTree>, index: nat, m1: HuffmanTree, m2: HuffmanTree,
                    ghost f: Forest, ghost links: seq<(nat, nat)>, ghost a: nat, ghost b: nat)
    requires index == |f.trees| < |vec| && a < index && b < index && m1 == vec[a] && m2 == vec[b]
    requires |f.live| == index
    requires Mirrors(vec, f.(live := f.live[a := false][b := false]), links)
    requires Weight(f.trees[a]) + Weight(f.trees[b]) <= U32_MAX
    modifies vec[index]
    ensures Mirrors(vec, Join(f, a, b), links + [(a, b)])
  {
    ghost var g := f.(live := f.live[a := false][b := false]);
    assert NodeMirrors(vec, g, links, a) && NodeMirrors(vec, g, links, b);
    vec[index].weight := (m1.weight + m2.weight) % (U32_MAX + 1);
    vec[index].left := m1;
    vec[index].right := m2;
    forall i | 0 <= i < index ensures NodeMirrors(vec, Join(f, a, b), links + [(a, b)], i) {
      assert old(NodeMirrors(vec, g, links, i));
    }
  }

  /** One join: two searches, then the links of the new parent. */
  method JoinNext(vec: seq<HuffmanTree>, index: nat, ghost f: Forest, ghost links: seq<(nat, nat)>,
                  ghost syms: seq<(char, nat)>)
      returns (ghost f': Forest, ghost links': seq<(nat, nat)>)
    requires Mirrors(vec, f, links) && index == |f.trees| < |vec|
    requires index < 2 * |syms| - 1
    requires Grown(f, syms) && Searchable(f) && TotalWeight(syms) <= U32_MAX
    modifies vec
    ensures Mirrors(vec, f', links') && Grown(f', syms) && Searchable(f')
    ensures |f'.trees| == index + 1 && f'.live[index]
  {
    ghost var a0 := AnotherLive(f.live, |f.live|);
    var m1; ghost var a;
    m1, a := TakeMin(vec, index, f, links, a0);
    ghost var g := f.(live := f.live[a := false]);
    ghost var b0 := AnotherLive(f.live, a);
    var m2; ghost var b;
    m2, b := TakeMin(vec, index, g, links, b0);
    assert Weights(g) == Weights(f);
    JoinGrown(f, syms, a, b);
    JoinSearchable(f, syms, a, b);
    LinkParent(vec, index, m1, m2, f, links, a, b);
    f' := Join(f, a, b);
    links' := links + [(a, b)];
  }

  /** The loop that joins until every node but the last has a parent. */
  method JoinAll(vec: seq<HuffmanTree>, charWeight: seq<(char, nat)>, ghost links0: seq<(nat, nat)>)
      returns (ghost f: Forest, ghost links: seq<(nat, nat)>)
    requires |charWeight| >= 1 && |vec| == 2 * |charWeight| - 1 && TotalWeight(charWeight) <= U32_MAX
    requires Mirrors(vec, Seedlings(charWeight), links0)
    requires Grown(Seedlings(charWeight), charWeight) && Searchable(Seedlings(charWeight))
    modifies vec
    ensures Mirrors(vec, f, links) && |f.trees| == |vec| && Grown(f, charWeight) && f.live[|vec| - 1]
  {
    f, links := Seedlings(charWeight), links0;
    for index := |charWeight| to |vec|
      invariant Mirrors(vec, f, links) && |f.trees| == index
      invariant Grown(f, charWeight) && Searchable(f)
      invariant f.live[index - 1]
    {
      f, links := JoinNext(vec, index, f, links, charWeight);
    }
  }

  /** All nodes the tree needs, the leaves filled in and joined until one has no parent. */
  method GrowForest(charWeight: seq<(char, nat)>)
      returns (vec: seq<HuffmanTree>, ghost f: Forest, ghost links: seq<(nat, nat)>)
    requires |charWeight| >= 1 && Distinct(charWeight)
    requires TotalWeight(charWeight) <= U32_MAX
    requires forall i :: 0 <= i < |charWeight| ==> charWeight[i].1 < U32_MAX
    ensures |vec| == |f.trees| == 2 * |charWeight| - 1 && (forall i :: 0 <= i < |vec| ==> fresh(vec[i]))
    ensures Mirrors(vec, f, links) && Grown(f, charWeight) && f.live[|vec| - 1]
  {
    vec := NewNodes(2 * |charWeight| - 1);
    links := PlantSeedlings(vec, charWeight);
    SeedlingsGrown(charWeight);
    SeedlingsSearchable(charWeight);
    f, links := JoinAll(vec, charWeight, links);
  }

  /**
   The tree of a weight map with at least one symbol, total weight within 32 bits, and no symbol of the
   greatest 32-bit weight (the search looks for something lighter).
   */
  method Build(charWeight: seq<(char, nat)>) returns (root: HuffmanTree, ghost nodes: set<HuffmanTree>, ghost t: Tree)
    requires |charWeight| >= 1 && Distinct(charWeight)
    requires TotalWeight(charWeight) <= U32_MAX
    requires forall i :: 0 <= i < |charWeight| ==> charWeight[i].1 < U32_MAX
    ensures fresh(nodes) && Represents(nodes, root, t)
    ensures multiset(Leaves(t)) == multiset(charWeight)
    ensures forall m :: IsCodeFor(m, charWeight) ==> InnerWeight(t) <= CodeCost(m, charWeight)
  {
    var vec; ghost var f, links;
    vec, f, links := GrowForest(charWeight);
    LastTree(f, charWeight);
    root, t := vec[|vec| - 1], f.trees[|vec| - 1];
    nodes := set v | v in vec;
    RootRepresents(vec, f, links, nodes, root, t);
  }

  /** The depth-first walk: records the path at every value, and leaves the path as it found it. */
  method TreeDfs(tree: HuffmanTree?, codes: map<char, Code>, path: Code,
                 ghost nodes: set<HuffmanTree>, ghost t: Tree)
      returns (codes': map<char, Code>, path': Code)
    requires tree != null ==> Represents(nodes, tree, t)
    ensures codes' == if tree == null then codes else codes + Codes(t, path)
    ensures path' == path
    decreases t, if tree == null then 0 else 1
  {
    codes', path' := codes, path;
    if tree != null {
      if tree.value.Some? {
        codes' := codes'[tree.value.value := path'];
      }
      ghost var l := if t.Fork? then t.left else t;
      ghost var r := if t.Fork? then t.right else t;
      path' := path' + [false];
      codes', path' := TreeDfs(tree.left, codes', path', nodes, l);
      path' := path'[|path'| - 1 := true];
      assert path' == path + [true];
      codes', path' := TreeDfs(tree.right, codes', path', nodes, r);
      path' := path'[..|path'| - 1];
      DfsCombines(codes, t, path);
    }
  }

  lemma DfsCombines(codes: map<char, Code>, t: Tree, path: Code)
    ensures t.Leaf? ==> codes[t.ch := path] == codes + Codes(t, path)
    ensures t.Fork? ==>
      codes + Codes(t.left, path + [false]) + Codes(t.right, path + [true]) == codes + Codes(t, path)
  {}

  ghost predicate IsSymbol(c: char, syms: seq<(char, nat)>) {
    exists i :: 0 <= i < |syms| && syms[i].0 == c
  }

  /** The code table of a weight map: prefix-free, complete, and as cheap as any prefix-free code. */
  method BuildBitMap(charWeight: seq<(char, nat)>) returns (codes: map<char, Code>, ghost t: Tree)
    requires |charWeight| >= 1 && Distinct(charWeight)
    requires TotalWeight(charWeight) <= U32_MAX
    requires forall i :: 0 <= i < |charWeight| ==> charWeight[i].1 < U32_MAX
    ensures codes == Codes(t, []) && multiset(Leaves(t)) == multiset(charWeight)
    ensures forall c :: c in codes <==> IsSymbol(c, charWeight)
    ensures IsCodeFor(codes, charWeight) && Complete(codes, charWeight)
    ensures forall m :: IsCodeFor(m, charWeight) ==> CodeCost(codes, charWeight) <= CodeCost(m, charWeight)
  {
    var root; ghost var nodes;
    root, nodes, t := Build(charWeight);
    var path;
    codes, path := TreeDfs(root, map[], [], nodes, t);
    assert codes == Codes(t, []);
    SameSymbols(t, charWeight);
    CodesPrefixFree(t, []);
    assert forall c :: c in codes ==> IsSymbol(c, charWeight);
    TreeComplete(t, charWeight);
    CodeCostOfTree(t, []);
    CodeCostPermutation(codes, Leaves(t), charWeight);
  }

  lemma SymbolPermutation(s: seq<(char, nat)>, t: seq<(char, nat)>, c: char)
    requires multiset(s) == multiset(t) && IsSymbol(c, s)
    ensures IsSymbol(c, t)
  {
    var i :| 0 <= i < |s| && s[i].0 == c;
    assert s[i] in multiset(t);
  }

  lemma SameSymbols(t: Tree, syms: seq<(char, nat)>)
    requires multiset(Leaves(t)) == multiset(syms) && Distinct(syms)
    ensures Distinct(Leaves(t)) && Covers(Codes(t, []), syms)
    ensures forall c :: c in Codes(t, []) <==> IsSymbol(c, syms)
  {
    CodesKeys(t, []);
    forall c ensures IsSymbol(c, Leaves(t)) <==> IsSymbol(c, syms) {
      if IsSymbol(c, syms) { SymbolPermutation(syms, Leaves(t), c); }
      if IsSymbol(c, Leaves(t)) { SymbolPermutation(Leaves(t), syms, c); }
    }
    forall i | 0 <= i < |syms| ensures syms[i].0 in Codes(t, []) {
      assert IsSymbol(syms[i].0, syms);
    }
    DistinctPermutation(syms, Leaves(t));
  }

  lemma DistinctPermutation(s: seq<(char, nat)>, t: seq<(char, nat)>)
    requires multiset(s) == multiset(t) && Distinct(s)
    ensures Distinct(t)
  {
    forall i, j | 0 <= i < j < |t| ensures t[i].0 != t[j].0 {
      MultisetRemove(t, j);
      var rest := t[..j] + t[j + 1..];
      assert rest[i] == t[i];
      assert t[j] in multiset(s);
      var p :| 0 <= p < |s| && s[p] == t[j];
      MultisetRemove(s, p);
      var others := s[..p] + s[p + 1..];
      assert t[i] in multiset(others);
      var q :| 0 <= q < |others| && others[q] == t[i];
      assert t[i] == if q < p then s[q] else s[q + 1];
    }
  }
}
