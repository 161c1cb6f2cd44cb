/**
 The garbage collection manager: it searches for room, chooses the block with the most garbage, and plans the
 moves that vacate it.
 */
module GcManager {
  import opened Prelude
  import opened BlockTable
  import opened Frontiers
  import opened GcMoves
  import opened GcPlan

  class GCManager {
    const blockTable: BlockTable

    constructor (size: nat)
      ensures blockTable.Valid() && blockTable.size == size
      ensures blockTable.view == Blocks(seq(BLOCK * size, i => Clean), seq(size, i => 0))
      ensures fresh(blockTable) && forall b :: 0 <= b < size ==> fresh(blockTable.table[b])
    {
      blockTable := new BlockTable(size);
    }

    /** The frontier of the first block with size pages left; nothing if no block has them. */
    method FindWritePos(size: nat) returns (r: Option<nat>)
      requires blockTable.Valid() && size > 0
      ensures r == FirstFit(blockTable.view, 0, size, None)
      ensures var fr := blockTable.view.frontier;
        match r
        case None => forall b :: 0 <= b < |fr| ==> fr[b] + size > BLOCK
        case Some(a) => IsFirst(fr, size, a / BLOCK) && a == a / BLOCK * BLOCK + fr[a / BLOCK]
    {
      FirstFitIsFirst(blockTable.view, size, None);
      r := Search(size, None);
    }

    /** The same with one block left out. */
    method FindWritePosExcept(size: nat, blockNo: nat) returns (r: Option<nat>)
      requires blockTable.Valid() && size > 0
      ensures r == FirstFit(blockTable.view, 0, size, Some(blockNo))
      ensures var fr := blockTable.view.frontier;
        match r
        case None => forall b :: 0 <= b < |fr| && b != blockNo ==> fr[b] + size > BLOCK
        case Some(a) => IsFirstBut(fr, size, a / BLOCK, blockNo) && a == a / BLOCK * BLOCK + fr[a / BLOCK]
    {
      FirstFitIsFirst(blockTable.view, size, Some(blockNo));
      r := Search(size, Some(blockNo));
    }

    method Search(size: nat, skip: Option<nat>) returns (r: Option<nat>)
      requires blockTable.Valid() && size > 0
      ensures r == FirstFit(blockTable.view, 0, size, skip)
    {
      var b := 0;
      while b < blockTable.size
        invariant b <= blockTable.size
        invariant FirstFit(blockTable.view, 0, size, skip) == FirstFit(blockTable.view, b, size, skip)
      {
        assert blockTable.Matches(b);
        var block := blockTable.table[b];
        if block.reservedSize >= size && skip != Some(block.blockNo) {
          return Some(block.blockNo * BLOCK + block.reservedOffset);
        }
        b := b + 1;
      }
      r := None;
    }

    /** The block with the most dirty pages, the first of them if there are several. */
    method ChooseGcBlock() returns (block: nat)
      requires blockTable.Valid() && blockTable.size > 0
      ensures MostDirty(blockTable.view, block, blockTable.size)
    {
      ghost var v := blockTable.view;
      var best := blockTable.table[0];
      BlockRatio(blockTable, 0);
      var b := 0;
      while b < blockTable.size
        invariant b <= blockTable.size && best.blockNo < blockTable.size && best == blockTable.table[best.blockNo]
        invariant MostDirty(v, best.blockNo, b) && (best.blockNo < b || best.blockNo == b == 0)
        invariant best.UtilizeRatio() == RatioOf(DirtyCount(v, best.blockNo))
      {
        BlockRatio(blockTable, b);
        RatioOrder(DirtyCount(v, b), DirtyCount(v, best.blockNo));
        if Below(blockTable.table[b].UtilizeRatio(), best.UtilizeRatio()) {
          best := blockTable.table[b];
        }
        b := b + 1;
      }
      block := best.blockNo;
    }

    /** Plans to vacate a block; None where a run of its pages fits nowhere else. */
    method GenerateGcGroup(block: nat) returns (r: Option<seq<GCEvent>>)
      requires blockTable.Valid() && block < blockTable.size
      ensures r ==
        match PlanFor(blockTable.view, block)
        case None => None
        case Some(moves) => Some(GroupOf(moves, block))
    {
      var used := FindRuns(block);
      var moves: seq<MoveGCEvent> := [];
      for k := 0 to |used|
        invariant |moves| == k
        invariant forall j :: 0 <= j < k ==>
          TargetOf(blockTable.view, block, used[j]).Some? && moves[j] == MoveOf(blockTable.view, block, used[j])
      {
        var d := FindWritePosExcept(used[k].size, block);
        if d.None? {
          assert TargetOf(blockTable.view, block, used[k]).None?;
          return None;
        }
        moves := moves + [MoveGCEvent(used[k].ino, used[k].size, used[k].oAddress, d.value)];
      }
      var group: seq<GCEvent> := [];
      for k := 0 to |moves|
        invariant group == seq(k, i requires 0 <= i < |moves| => Move(moves[i]))
      {
        group := group + [Move(moves[k])];
      }
      group := group + [Erase(block)];
      MovesForAll(blockTable.view, block, used, moves);
      r := Some(group);
    }

    /** One scan over the pages of a block. */
    method FindRuns(block: nat) returns (used: seq<Found>)
      requires blockTable.Valid() && block < blockTable.size
      ensures used == UsedRuns(blockTable.view, block) && forall k :: 0 <= k < |used| ==> used[k].size >= 1
    {
      BlockEnd(blockTable.view, block);
      var s := SCAN_START;
      for n := 0 to BLOCK
        invariant s == ScanTo(blockTable.view.status, block * BLOCK, n)
      {
        var status := blockTable.GetPage(block * BLOCK + n);
        s := ScanPage(s, block * BLOCK + n, status);
      }
      used := CloseRun(s);
      RunSizes(blockTable.view, block);
    }

    /** The choice and the plan together. */
    method NewGcEvent(ghost block: nat) returns (r: Option<seq<GCEvent>>)
      requires blockTable.Valid() && blockTable.size > 0 && MostDirty(blockTable.view, block, blockTable.size)
      ensures r ==
        match PlanFor(blockTable.view, block)
        case None => None
        case Some(moves) => Some(GroupOf(moves, block))
    {
      var chosen := ChooseGcBlock();
      MostDirtyUnique(blockTable.view, chosen, block);
      r := GenerateGcGroup(chosen);
    }
  }

  /** A block's ratio is that of its dirty pages, as its counters add up. */
  lemma BlockRatio(t: BlockTable, b: nat)
    requires t.Valid() && b < t.size
    ensures t.table[b].blockNo == b && DirtyCount(t.view, b) <= BLOCK
    ensures t.table[b].UtilizeRatio() == RatioOf(DirtyCount(t.view, b))
  {
    assert t.Matches(b);
    CountsAddUp(t.table[b].usedMap);
  }
}
