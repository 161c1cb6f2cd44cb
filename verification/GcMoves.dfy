/**
 Moving the live page runs of a block elsewhere and erasing it: what a plan has to satisfy, and why each of
 its steps keeps the accounts in order.
 */
module GcMoves {
  import opened SstRecord
  import opened Flash
  import opened BlockTable
  import opened Extents
  import opened ExtentCuts

  datatype MoveGCEvent = MoveGCEvent(ino: nat, size: nat, oAddress: nat, dAddress: nat)

  datatype GCEvent = Erase(blockNo: nat) | Move(event: MoveGCEvent)

  /** The moves, then the erasure of the block. */
  function GroupOf(moves: seq<MoveGCEvent>, block: nat): seq<GCEvent> {
    seq(|moves|, i requires 0 <= i < |moves| => Move(moves[i])) + [Erase(block)]
  }

  /** The move takes exactly the pages of the extent. */
  ghost predicate Takes(m: MoveGCEvent, ino: nat, e: Extent) {
    m.ino == ino && e.archivedLen >= 1 && m.oAddress == e.pagePointer && m.size == Pages(e)
  }

  /** The move takes exactly one extent of its file, out of the block. */
  ghost predicate TakesOne(owners: Owners, block: nat, m: MoveGCEvent) {
    && m.ino in owners && m.oAddress / BLOCK == block
    && exists e :: e in owners[m.ino] && Takes(m, m.ino, e)
  }

  /** The move goes to the frontier of another block, where there is room. */
  ghost predicate GoodTarget(v: Blocks, block: nat, m: MoveGCEvent)
    requires Shaped(v)
  {
    m.dAddress / BLOCK != block && AtFrontier(v, m.dAddress, m.size)
  }

  ghost predicate Taken(moves: seq<MoveGCEvent>, ino: nat, e: Extent) {
    exists k :: 0 <= k < |moves| && Takes(moves[k], ino, e)
  }

  ghost predicate AllTaken(owners: Owners, block: nat, moves: seq<MoveGCEvent>) {
    forall ino, e :: ino in owners && e in owners[ino] && e.pagePointer / BLOCK == block ==> Taken(moves, ino, e)
  }

  ghost predicate Separate(moves: seq<MoveGCEvent>) {
    forall i, j :: 0 <= i < j < |moves| ==>
      moves[i].oAddress != moves[j].oAddress && moves[i].dAddress / BLOCK != moves[j].dAddress / BLOCK
  }

  /**
   A plan for a block: every move takes one extent out of the block to the frontier of another block with room
   for it, no two moves have the same source or target block, and every extent in the block is moved.
   */
  ghost predicate WellFormed(v: Blocks, owners: Owners, block: nat, moves: seq<MoveGCEvent>)
    requires Shaped(v)
  {
    && block < |v.frontier|
    && (forall k :: 0 <= k < |moves| ==> TakesOne(owners, block, moves[k]))
    && (forall k :: 0 <= k < |moves| ==> GoodTarget(v, block, moves[k]))
    && Separate(moves)
    && AllTaken(owners, block, moves)
  }

  /** The same extent on other pages. */
  function Moved(e: Extent, d: nat): Extent {
    e.(pagePointer := d)
  }

  ghost predicate FitsIn(v: Blocks, m: MoveGCEvent) {
    && m.oAddress + m.size <= |v.status| && m.dAddress + m.size <= |v.status|
    && m.dAddress / BLOCK < |v.frontier|
  }

  /** The page states after one move. */
  ghost function AfterMove(v: Blocks, m: MoveGCEvent): Blocks
    requires Shaped(v) && FitsIn(v, m)
  {
    Reserved(Dirtied(v, m.oAddress, m.size), m.dAddress, m.size, m.ino)
  }

  ghost function MovedOwners(owners: Owners, m: MoveGCEvent, e: Extent): Owners
    requires m.ino in owners
  {
    owners[m.ino := owners[m.ino] - {e} + {Moved(e, m.dAddress)}]
  }

  lemma FrontierRoom(v: Blocks, start: nat, n: nat)
    requires Shaped(v) && AtFrontier(v, start, n)
    ensures start + n <= |v.status|
  {
    assert (start / BLOCK + 1) * BLOCK <= BLOCK * |v.frontier|;
  }

  /** A move of one extent to a frontier keeps the accounts in order. */
  lemma MoveKeeps(v: Blocks, owners: Owners, m: MoveGCEvent, e: Extent)
    requires Consistent(v, owners) && m.ino in owners && e in owners[m.ino] && Takes(m, m.ino, e)
    requires AtFrontier(v, m.dAddress, m.size)
    ensures FitsIn(v, m)
    ensures Consistent(AfterMove(v, m), MovedOwners(owners, m, e))
  {
    DropKeeps(v, owners, m.ino, e);
    FrontierRoom(v, m.dAddress, m.size);
    var v1, owners1 := Dirtied(v, m.oAddress, m.size), owners[m.ino := owners[m.ino] - {e}];
    ReserveKeeps(v1, owners1, m.ino, Moved(e, m.dAddress));
    assert MovedOwners(owners, m, e) == owners1[m.ino := owners1[m.ino] + {Moved(e, m.dAddress)}];
  }

  /** Two extents of a file that begin on the same page are one. */
  lemma SamePointer(v: Blocks, owners: Owners, ino: nat, e: Extent, f: Extent)
    requires Consistent(v, owners) && ino in owners && e in owners[ino] && f in owners[ino]
    requires e.pagePointer == f.pagePointer
    ensures e == f
  {
    assert Placed(v, ino, e) && Placed(v, ino, f);
    PagesPositive(e);
    PagesPositive(f);
    assert e != f ==> Apart(e, f);
  }

  lemma RestTakes(v: Blocks, owners: Owners, block: nat, moves: seq<MoveGCEvent>, e: Extent, k: nat)
    requires Consistent(v, owners) && WellFormed(v, owners, block, moves) && 0 < k < |moves|
    requires e in owners[moves[0].ino] && Takes(moves[0], moves[0].ino, e)
    ensures TakesOne(MovedOwners(owners, moves[0], e), block, moves[k])
  {
    var m := moves[k];
    var f :| f in owners[m.ino] && Takes(m, m.ino, f);
    assert f != e;
    assert f in MovedOwners(owners, moves[0], e)[m.ino];
  }

  lemma RestTarget(v: Blocks, owners: Owners, block: nat, moves: seq<MoveGCEvent>, k: nat)
    requires Shaped(v) && WellFormed(v, owners, block, moves) && 0 < k < |moves|
    requires FitsIn(v, moves[0])
    ensures Shaped(AfterMove(v, moves[0])) && GoodTarget(AfterMove(v, moves[0]), block, moves[k])
  {
    assert GoodTarget(v, block, moves[k]) && GoodTarget(v, block, moves[0]);
  }

  /** After the first move the rest of the plan is a plan for what is left. */
  lemma RestWellFormed(v: Blocks, owners: Owners, block: nat, moves: seq<MoveGCEvent>, e: Extent)
    requires Consistent(v, owners) && WellFormed(v, owners, block, moves) && |moves| > 0
    requires FitsIn(v, moves[0])
    requires e in owners[moves[0].ino] && Takes(moves[0], moves[0].ino, e)
    ensures Shaped(AfterMove(v, moves[0]))
    ensures WellFormed(AfterMove(v, moves[0]), MovedOwners(owners, moves[0], e), block, moves[1..])
  {
    var v', owners', rest := AfterMove(v, moves[0]), MovedOwners(owners, moves[0], e), moves[1..];
    forall k | 0 <= k < |rest| ensures TakesOne(owners', block, rest[k]) && GoodTarget(v', block, rest[k]) {
      RestTakes(v, owners, block, moves, e, k + 1);
      RestTarget(v, owners, block, moves, k + 1);
    }
    forall ino: nat, f: Extent | ino in owners' && f in owners'[ino] && f.pagePointer / BLOCK == block
      ensures Taken(rest, ino, f)
    {
      assert GoodTarget(v, block, moves[0]);
      RestTaken(v, owners, block, moves, e, ino, f);
    }
  }

  lemma RestTaken(v: Blocks, owners: Owners, block: nat, moves: seq<MoveGCEvent>, e: Extent, ino: nat, f: Extent)
    requires Consistent(v, owners) && WellFormed(v, owners, block, moves) && |moves| > 0
    requires e in owners[moves[0].ino] && Takes(moves[0], moves[0].ino, e)
    requires ino in owners && f in owners[ino] && (ino == moves[0].ino ==> f != e) && f.pagePointer / BLOCK == block
    ensures Taken(moves[1..], ino, f)
  {
    assert Taken(moves, ino, f);
    var k :| 0 <= k < |moves| && Takes(moves[k], ino, f);
    if k == 0 {
      SamePointer(v, owners, ino, e, f);
    }
    assert Takes(moves[1..][k - 1], ino, f);
  }

  // ----- erasing

  /** No extent sits in the block. */
  ghost predicate Vacated(owners: Owners, block: nat) {
    forall ino, e :: ino in owners && e in owners[ino] ==> e.pagePointer / BLOCK != block
  }

  lemma VacatedNotBusy(v: Blocks, owners: Owners, block: nat, a: nat)
    requires Consistent(v, owners) && Vacated(owners, block) && a < |v.status| && a / BLOCK == block
    ensures !v.status[a].Busy?
  {
    var ino := if v.status[a].Busy? then v.status[a].ino else 0;
    assert v.status[a].Busy? ==> Accounted(owners, ino, a);
    assert forall e :: ino in owners && e in owners[ino] ==> Placed(v, ino, e);
  }

  lemma ErasePlaced(v: Blocks, block: nat, ino: nat, e: Extent)
    requires Shaped(v) && Placed(v, ino, e) && block < |v.frontier| && e.pagePointer / BLOCK != block
    ensures Shaped(Erased(v, block)) && Placed(Erased(v, block), ino, e)
  {
    PlacedBounds(v, ino, e);
    ErasedShape(v, block);
    var c := e.pagePointer / BLOCK;
    if c < block {
      assert (c + 1) * BLOCK <= block * BLOCK;
    } else {
      assert (block + 1) * BLOCK <= c * BLOCK;
    }
  }

  lemma ErasedShape(v: Blocks, block: nat)
    requires Shaped(v) && block < |v.frontier|
    ensures (block + 1) * BLOCK <= |v.status| && Shaped(Erased(v, block))
  {
    assert (block + 1) * BLOCK <= BLOCK * |v.frontier|;
  }

  lemma EraseFrontier(v: Blocks, block: nat, b: nat)
    requires Shaped(v) && block < |v.frontier| && b < |v.frontier| && FrontierClean(v, b)
    ensures Shaped(Erased(v, block)) && FrontierClean(Erased(v, block), b)
  {
    ErasedShape(v, block);
    if b < block {
      assert (b + 1) * BLOCK <= block * BLOCK;
    } else if b > block {
      assert (block + 1) * BLOCK <= b * BLOCK;
    }
  }

  /** Erasing a block without extents keeps the accounts in order. */
  lemma EraseKeeps(v: Blocks, owners: Owners, block: nat)
    requires Consistent(v, owners) && block < |v.frontier| && Vacated(owners, block)
    ensures Consistent(Erased(v, block), owners)
  {
    var v' := Erased(v, block);
    ErasedShape(v, block);
    forall b | 0 <= b < |v'.frontier| ensures FrontierClean(v', b) {
      assert FrontierClean(v, b);
      EraseFrontier(v, block, b);
    }
    forall ino, e | ino in owners && e in owners[ino] ensures Placed(v', ino, e) {
      assert Placed(v, ino, e);
      ErasePlaced(v, block, ino, e);
    }
    forall a | 0 <= a < |v'.status| && v'.status[a].Busy? ensures Accounted(owners, v'.status[a].ino, a) {
      assert v'.status[a] == v.status[a];
    }
  }

  /** Erasing the pages of a block leaves the bytes of every extent elsewhere alone. */
  lemma EraseKeepsBytes(v: Blocks, owners: Owners, block: nat, pages: map<nat, Bytes>, pages': map<nat, Bytes>)
    requires Consistent(v, owners) && Vacated(owners, block) && WholePages(pages) && WholePages(pages')
    requires forall a: nat {:trigger ReadPage(pages', a)} ::
      a < MAIN + block * BLOCK || MAIN + (block + 1) * BLOCK <= a ==> ReadPage(pages', a) == ReadPage(pages, a)
    ensures forall ino :: ino in owners ==> SameBytes(pages, pages', owners[ino])
  {
    forall ino, e | ino in owners && e in owners[ino]
      ensures e.archivedLen >= 1 && ExtentBytes(pages', e) == ExtentBytes(pages, e)
    {
      assert Placed(v, ino, e);
      PlacedBounds(v, ino, e);
      var c := e.pagePointer / BLOCK;
      if c < block {
        assert (c + 1) * BLOCK <= block * BLOCK;
      } else {
        assert (block + 1) * BLOCK <= c * BLOCK;
      }
      RunUnchanged(pages, pages', MAIN + e.pagePointer, Pages(e));
    }
  }

  // ----- how many pages are busy

  lemma {:induction false} CountNone(s: seq<PageStatus>, kind: Kind)
    requires forall i :: 0 <= i < |s| ==> KindOf(s[i]) != kind
    ensures Count(s, kind) == 0
  {
    if |s| != 0 {
      CountNone(s[..|s| - 1], kind);
    }
  }

  lemma CountThree(a: seq<PageStatus>, b: seq<PageStatus>, c: seq<PageStatus>, kind: Kind)
    ensures Count(a + b + c, kind) == Count(a, kind) + Count(b, kind) + Count(c, kind)
  {
    CountConcat(a, b, kind);
    CountConcat(a + b, c, kind);
  }

  /** Filling a stretch of pages changes the count by what the stretch held before and holds now. */
  lemma CountReplaced(s: seq<PageStatus>, start: nat, n: nat, to: PageStatus, kind: Kind)
    requires start + n <= |s|
    ensures Count(s[..start] + seq(n, i => to) + s[start + n..], kind) ==
            Count(s, kind) - Count(s[start..start + n], kind) + (if KindOf(to) == kind then n else 0)
  {
    assert s == s[..start] + s[start..start + n] + s[start + n..];
    CountThree(s[..start], s[start..start + n], s[start + n..], kind);
    CountThree(s[..start], seq(n, i => to), s[start + n..], kind);
    CountFill(n, to, kind);
  }

  lemma {:induction false} CountAll(s: seq<PageStatus>, kind: Kind)
    requires forall i :: 0 <= i < |s| ==> KindOf(s[i]) == kind
    ensures Count(s, kind) == |s|
  {
    if |s| != 0 {
      CountAll(s[..|s| - 1], kind);
    }
  }

  /** A move conserves the number of busy pages. */
  lemma MoveConserves(v: Blocks, owners: Owners, m: MoveGCEvent, e: Extent)
    requires Consistent(v, owners) && m.ino in owners && e in owners[m.ino] && Takes(m, m.ino, e)
    requires AtFrontier(v, m.dAddress, m.size)
    requires FitsIn(v, m)
    ensures Count(AfterMove(v, m).status, IsBusy) == Count(v.status, IsBusy)
  {
    SourceLeaves(v, owners, m, e);
    var v1 := Dirtied(v, m.oAddress, m.size);
    TargetClean(v, owners, m, e);
    CountNone(v1.status[m.dAddress..m.dAddress + m.size], IsBusy);
    CountReplaced(v1.status, m.dAddress, m.size, Busy(m.ino), IsBusy);
  }

  lemma SourceLeaves(v: Blocks, owners: Owners, m: MoveGCEvent, e: Extent)
    requires Consistent(v, owners) && m.ino in owners && e in owners[m.ino] && Takes(m, m.ino, e)
    requires m.oAddress + m.size <= |v.status|
    ensures Count(Dirtied(v, m.oAddress, m.size).status, IsBusy) == Count(v.status, IsBusy) - m.size
  {
    SourceBusy(v, owners, m, e);
    BusyLeave(v, m.oAddress, m.size);
  }

  lemma SourceBusy(v: Blocks, owners: Owners, m: MoveGCEvent, e: Extent)
    requires Consistent(v, owners) && m.ino in owners && e in owners[m.ino] && Takes(m, m.ino, e)
    requires m.oAddress + m.size <= |v.status|
    ensures forall a :: m.oAddress <= a < m.oAddress + m.size ==> v.status[a].Busy?
  {
    assert Placed(v, m.ino, e);
    forall a | m.oAddress <= a < m.oAddress + m.size ensures v.status[a].Busy? { assert CoversPage(e, a); }
  }

  lemma BusyLeave(v: Blocks, start: nat, n: nat)
    requires start + n <= |v.status| && forall a :: start <= a < start + n ==> v.status[a].Busy?
    ensures Count(Dirtied(v, start, n).status, IsBusy) == Count(v.status, IsBusy) - n
  {
    CountAll(v.status[start..start + n], IsBusy);
    CountReplaced(v.status, start, n, Dirty, IsBusy);
  }

  lemma TargetClean(v: Blocks, owners: Owners, m: MoveGCEvent, e: Extent)
    requires Consistent(v, owners) && m.ino in owners && e in owners[m.ino] && Takes(m, m.ino, e)
    requires AtFrontier(v, m.dAddress, m.size)
    requires FitsIn(v, m)
    ensures forall a :: m.dAddress <= a < m.dAddress + m.size ==>
      !Dirtied(v, m.oAddress, m.size).status[a].Busy?
  {
    assert FrontierClean(v, m.dAddress / BLOCK);
  }

  lemma EraseConserves(v: Blocks, owners: Owners, block: nat)
    requires Consistent(v, owners) && block < |v.frontier| && Vacated(owners, block)
    ensures Count(Erased(v, block).status, IsBusy) == Count(v.status, IsBusy)
  {
    ErasedShape(v, block);
    var was := v.status[block * BLOCK..block * BLOCK + BLOCK];
    forall i | 0 <= i < |was| ensures KindOf(was[i]) != IsBusy {
      assert (block * BLOCK + i) / BLOCK == block;
      VacatedNotBusy(v, owners, block, block * BLOCK + i);
    }
    CountNone(was, IsBusy);
    CountReplaced(v.status, block * BLOCK, BLOCK, Clean, IsBusy);
  }
}
