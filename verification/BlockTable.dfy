/**
 Page states per erase block: what each page is used for, how far each block has been filled, and the
 counters kept beside them.
 */
module BlockTable {

  datatype PageStatus = Clean | Dirty | Busy(ino: nat)

  const BLOCK: nat := 128

  /** The table as a value: the state of every page, and the first unreserved page of every block. */
  datatype Blocks = Blocks(status: seq<PageStatus>, frontier: seq<nat>)

  ghost predicate Shaped(v: Blocks) {
    |v.status| == BLOCK * |v.frontier|
  }

  function SetStatus(v: Blocks, address: nat, status: PageStatus): Blocks
    requires address < |v.status| && address / BLOCK < |v.frontier|
  {
    var b := address / BLOCK;
    Blocks(v.status[address := status],
           if status.Busy? then v.frontier[b := v.frontier[b] + 1] else v.frontier)
  }

  function Erased(v: Blocks, block: nat): Blocks
    requires block < |v.frontier| && BLOCK * |v.frontier| == |v.status|
  {
    Blocks(v.status[..block * BLOCK] + seq(BLOCK, i => Clean) + v.status[(block + 1) * BLOCK..],
           v.frontier[block := 0])
  }

  datatype Kind = IsClean | IsDirty | IsBusy

  function KindOf(s: PageStatus): Kind {
    match s case Clean => IsClean case Dirty => IsDirty case Busy(_) => IsBusy
  }

  ghost function Count(s: seq<PageStatus>, kind: Kind): nat {
    if |s| == 0 then 0 else Count(s[..|s| - 1], kind) + if KindOf(s[|s| - 1]) == kind then 1 else 0
  }

  lemma {:induction false} CountUpdate(s: seq<PageStatus>, i: nat, x: PageStatus, kind: Kind)
    requires i < |s|
    ensures Count(s[i := x], kind) ==
            Count(s, kind) - (if KindOf(s[i]) == kind then 1 else 0) + (if KindOf(x) == kind then 1 else 0)
  {
    var n := |s| - 1;
    if i == n {
      assert s[i := x][..n] == s[..n];
    } else {
      CountUpdate(s[..n], i, x, kind);
      assert s[i := x][..n] == s[..n][i := x];
    }
  }

  lemma CountPositive(s: seq<PageStatus>, i: nat)
    requires i < |s|
    ensures Count(s, KindOf(s[i])) > 0
  {
    CountUpdate(s, i, if s[i].Clean? then Dirty else Clean, KindOf(s[i]));
  }

  /** Every page is counted under exactly one of the three kinds. */
  lemma {:induction false} CountsAddUp(s: seq<PageStatus>)
    ensures Count(s, IsClean) + Count(s, IsDirty) + Count(s, IsBusy) == |s|
  {
    if |s| != 0 {
      CountsAddUp(s[..|s| - 1]);
    }
  }

  lemma {:induction false} CountFill(n: nat, s: PageStatus, kind: Kind)
    ensures Count(seq(n, i => s), kind) == if KindOf(s) == kind then n else 0
  {
    if n != 0 {
      CountFill(n - 1, s, kind);
      assert seq(n, i => s)[..n - 1] == seq(n - 1, i => s);
    }
  }

  lemma {:induction false} CountConcat(s: seq<PageStatus>, t: seq<PageStatus>, kind: Kind)
    ensures Count(s + t, kind) == Count(s, kind) + Count(t, kind)
  {
    if |t| == 0 {
      assert s + t == s;
    } else {
      var n := |t| - 1;
      assert (s + t)[..|s + t| - 1] == s + t[..n];
      CountConcat(s, t[..n], kind);
    }
  }

  /** How full of garbage a block is; a block without dirty pages divides by zero. */
  datatype Ratio = Infinite | Finite(value: real)

  predicate Below(a: Ratio, b: Ratio) {
    a.Finite? && (b.Infinite? || a.value < b.value)
  }

  class BlockInfo {
    const blockNo: nat
    var reservedSize: nat
    var reservedOffset: nat
    var eraseCount: nat
    var dirtyNum: nat
    var cleanNum: nat
    var usedNum: nat
    var usedMap: seq<PageStatus>

    ghost predicate Valid()
      reads this
    {
      && |usedMap| == BLOCK
      && reservedOffset + reservedSize == BLOCK
      && cleanNum == Count(usedMap, IsClean)
      && dirtyNum == Count(usedMap, IsDirty)
      && usedNum == Count(usedMap, IsBusy)
    }

    constructor (blockNo: nat)
      ensures Valid() && this.blockNo == blockNo && reservedOffset == 0 && usedMap == seq(BLOCK, i => Clean)
    {
      this.blockNo, reservedSize, reservedOffset, eraseCount := blockNo, BLOCK, 0, 0;
      usedMap := seq(BLOCK, i => Clean);
      dirtyNum, cleanNum, usedNum := 0, BLOCK, 0;
      CountFill(BLOCK, Clean, IsClean);
      CountFill(BLOCK, Clean, IsDirty);
      CountFill(BLOCK, Clean, IsBusy);
    }

    /** A page of this block changes state; each page made busy also takes one page off the reserve. */
    method SetPage(address: nat, status: PageStatus)
      requires Valid() && blockNo * BLOCK <= address < (blockNo + 1) * BLOCK
      requires status.Busy? ==> reservedSize > 0
      modifies this
      ensures Valid()
      ensures usedMap == old(usedMap)[address - blockNo * BLOCK := status]
      ensures reservedOffset == old(reservedOffset) + if status.Busy? then 1 else 0
      ensures eraseCount == old(eraseCount)
    {
      var offset := address - blockNo * BLOCK;
      CountUpdate(usedMap, offset, status, IsClean);
      CountUpdate(usedMap, offset, status, IsDirty);
      CountUpdate(usedMap, offset, status, IsBusy);
      CountPositive(usedMap, offset);
      match usedMap[offset] {
        case Clean => cleanNum := cleanNum - 1;
        case Dirty => dirtyNum := dirtyNum - 1;
        case Busy(_) => usedNum := usedNum - 1;
      }
      match status {
        case Clean => cleanNum := cleanNum + 1;
        case Dirty => dirtyNum := dirtyNum + 1;
        case Busy(_) =>
          usedNum := usedNum + 1;
          reservedOffset := reservedOffset + 1;
          reservedSize := reservedSize - 1;
      }
      usedMap := usedMap[offset := status];
    }

    method Erase()
      requires Valid()
      modifies this
      ensures Valid() && usedMap == seq(BLOCK, i => Clean) && reservedOffset == 0
      ensures eraseCount == old(eraseCount) + 1
    {
      reservedOffset := 0;
      reservedSize := BLOCK;
      dirtyNum := 0;
      usedNum := 0;
      cleanNum := BLOCK;
      usedMap := [];
      for i := 0 to BLOCK
        invariant usedMap == seq(i, j => Clean)
        modifies this`usedMap
      {
        usedMap := usedMap + [Clean];
      }
      CountFill(BLOCK, Clean, IsClean);
      CountFill(BLOCK, Clean, IsDirty);
      CountFill(BLOCK, Clean, IsBusy);
      eraseCount := eraseCount + 1;
    }

    function UtilizeRatio(): Ratio
      reads this
    {
      if dirtyNum == 0 then Infinite else Finite((cleanNum + usedNum) as real / dirtyNum as real)
    }
  }

  class BlockTable {
    const size: nat
    const table: seq<BlockInfo>
    ghost var view: Blocks

    /** The blocks, in order, hold the states and frontiers of the view. */
    ghost predicate Valid()
      reads this, table
    {
      && size == |table| == |view.frontier| && Shaped(view)
      && (forall i, j :: 0 <= i < j < size ==> table[i] != table[j])
      && (forall b :: 0 <= b < size ==> Matches(b))
    }

    ghost predicate Matches(b: nat)
      requires b < |table| && b < |view.frontier| && Shaped(view)
      reads this, table[b]
    {
      && table[b].Valid() && table[b].blockNo == b
      && table[b].reservedOffset == view.frontier[b]
      && table[b].usedMap == view.status[b * BLOCK..(b + 1) * BLOCK]
    }

    constructor (size: nat)
      ensures Valid() && this.size == size
      ensures view == Blocks(seq(BLOCK * size, i => Clean), seq(size, i => 0))
      ensures forall b :: 0 <= b < size ==> fresh(table[b])
    {
      var blocks: seq<BlockInfo> := [];
      for i := 0 to size
        invariant |blocks| == i
        invariant forall j, k :: 0 <= j < k < i ==> blocks[j] != blocks[k]
        invariant forall b :: 0 <= b < i ==>
          && fresh(blocks[b]) && blocks[b].Valid() && blocks[b].blockNo == b
          && blocks[b].reservedOffset == 0 && blocks[b].usedMap == seq(BLOCK, j => Clean)
      {
        var block := new BlockInfo(i);
        blocks := blocks + [block];
      }
      this.size, table := size, blocks;
      view := Blocks(seq(BLOCK * size, i => Clean), seq(size, i => 0));
    }

    method GetPage(address: nat) returns (s: PageStatus)
      requires Valid() && address < BLOCK * size
      ensures s == view.status[address]
    {
      var blockNo := address / BLOCK;
      assert Matches(blockNo);
      s := table[blockNo].usedMap[address - blockNo * BLOCK];
    }

    method SetPage(address: nat, status: PageStatus)
      requires Valid() && address < BLOCK * size
      requires status.Busy? ==> view.frontier[address / BLOCK] < BLOCK
      modifies this`view, table[address / BLOCK]
      ensures Valid() && view == SetStatus(old(view), address, status)
    {
      var blockNo := address / BLOCK;
      ghost var v := view;
      assert Matches(blockNo);
      table[blockNo].SetPage(address, status);
      view := SetStatus(v, address, status);
      forall b | 0 <= b < size ensures Matches(b) {
        assert old(Matches(b));
        OtherBlock(v, address, status, b);
      }
    }

    method EraseBlock(blockNo: nat)
      requires Valid() && blockNo < size
      modifies this`view, table[blockNo]
      ensures Valid() && view == Erased(old(view), blockNo)
    {
      ghost var v := view;
      assert Matches(blockNo);
      table[blockNo].Erase();
      view := Erased(v, blockNo);
      forall b | 0 <= b < size ensures Matches(b) {
        assert old(Matches(b));
        ErasedBlock(v, blockNo, b);
      }
    }
  }

  lemma OtherBlock(v: Blocks, address: nat, status: PageStatus, b: nat)
    requires Shaped(v) && address < |v.status| && b < |v.frontier|
    ensures (b + 1) * BLOCK <= |v.status|
    ensures var was := v.status[b * BLOCK..(b + 1) * BLOCK];
      SetStatus(v, address, status).status[b * BLOCK..(b + 1) * BLOCK]
      == if b == address / BLOCK then was[address - b * BLOCK := status] else was
  {}

  lemma ErasedBlock(v: Blocks, block: nat, b: nat)
    requires Shaped(v) && block < |v.frontier| && b < |v.frontier|
    ensures Shaped(Erased(v, block)) && (b + 1) * BLOCK <= |v.status|
    ensures Erased(v, block).status[b * BLOCK..(b + 1) * BLOCK]
      == if b == block then seq(BLOCK, i => Clean) else v.status[b * BLOCK..(b + 1) * BLOCK]
  {}
}
