/**
 What goes wrong around a collection: a group that sends two runs to one place loses a file's bytes, and an object
 that is held in hand while its block is collected is stored back with pointers into the erased block.
 */
module GcHazards {
  import opened Prelude
  import opened SstRecord
  import opened Flash
  import opened BlockTable
  import opened Extents
  import opened GcMoves
  import opened GcPlan
  import opened PageRuns
  import opened ObjectAccounts
  import opened GcObjects
  import opened KvManager

  // ----- two runs sent to one place

  /** What carrying out a move does to the pages: the run is copied, and nothing else changes. */
  ghost predicate Copies(pages: map<nat, Bytes>, pages': map<nat, Bytes>, m: MoveGCEvent) {
    && Elsewhere(pages, pages', m.dAddress, m.size)
    && Run(pages', MAIN + m.dAddress, m.size) == Run(pages, MAIN + m.oAddress, m.size)
  }

  /** The bytes of an extent, in as many as another has. */
  ghost function StartOfRun(pages: map<nat, Bytes>, e: Extent, n: nat): Bytes
    requires WholePages(pages) && e.archivedLen >= 1 && 1 <= n && PagesFor(n) == Pages(e)
  {
    RunLength(pages, MAIN + e.pagePointer, Pages(e));
    Run(pages, MAIN + e.pagePointer, Pages(e))[..n]
  }

  /**
   Two extents moved to the same pages, one after the other: the later one reads as before, and the earlier one
   reads what the pages of the later one held; so it keeps its bytes if and only if those are the same.
   */
  lemma LaterMoveWins(p0: map<nat, Bytes>, p1: map<nat, Bytes>, p2: map<nat, Bytes>, m: MoveGCEvent, m': MoveGCEvent,
                      e: Extent, e': Extent)
    requires WholePages(p0) && WholePages(p1) && WholePages(p2) && Copies(p0, p1, m) && Copies(p1, p2, m')
    requires Takes(m, m.ino, e) && Takes(m', m'.ino, e') && m.dAddress == m'.dAddress && m.size == m'.size
    requires m'.oAddress + m'.size <= m.dAddress || m.dAddress + m.size <= m'.oAddress
    ensures ExtentBytes(p2, Moved(e', m'.dAddress)) == ExtentBytes(p0, e')
    ensures ExtentBytes(p2, Moved(e, m.dAddress)) == StartOfRun(p0, e', e.archivedLen)
    ensures ExtentBytes(p2, Moved(e, m.dAddress)) == ExtentBytes(p0, e) <==>
            ExtentBytes(p0, e) == StartOfRun(p0, e', e.archivedLen)
  {
    RunUnchanged(p0, p1, MAIN + m'.oAddress, m'.size);
    assert Run(p2, MAIN + m'.dAddress, m'.size) == Run(p0, MAIN + m'.oAddress, m'.size);
  }

  /** One scan of the block with two separate pages finds them, and both are sent to the start of the other block. */
  lemma SeparatePlan()
    ensures PlanFor(SeparatePages(), 0) == Some([MoveGCEvent(1, 1, 0, 128), MoveGCEvent(2, 1, 2, 128)])
  {
    var v := SeparatePages();
    var used := [Found(1, 1, 0), Found(2, 1, 2)];
    ScanFour(v.status);
    ScanClean(v.status, 4, BLOCK, Scan(0, None, used));
    assert FirstFit(v, 1, 1, Some(0)) == Some(128);
    assert FirstFit(v, 0, 1, Some(0)) == Some(128);
    MovesForAll(v, 0, used, [MoveGCEvent(1, 1, 0, 128), MoveGCEvent(2, 1, 2, 128)]);
  }

  lemma ScanFour(st: seq<PageStatus>)
    requires st == SeparatePages().status
    ensures ScanTo(st, 0, 4) == Scan(0, None, [Found(1, 1, 0), Found(2, 1, 2)])
  {
    assert ScanTo(st, 0, 0) == SCAN_START;
    assert ScanTo(st, 0, 1) == Scan(1, Some(Found(1, 0, 0)), []);
    assert ScanTo(st, 0, 2) == Scan(0, None, [Found(1, 1, 0)]);
    assert ScanTo(st, 0, 3) == Scan(1, Some(Found(2, 0, 2)), [Found(1, 1, 0)]);
    assert [Found(1, 1, 0)] + [Found(2, 1, 2)] == [Found(1, 1, 0), Found(2, 1, 2)];
  }

  lemma {:induction false} ScanClean(st: seq<PageStatus>, m: nat, n: nat, s: Scan)
    requires m <= n <= |st| && ScanTo(st, 0, m) == s && s.last == None
    requires forall i :: m <= i < n ==> st[i] == Clean
    ensures ScanTo(st, 0, n) == s
    decreases n
  {
    if m < n {
      ScanClean(st, m, n - 1, s);
    }
  }

  /** Carrying out the plan for that block, a file with other bytes than the second one loses its own. */
  lemma SharedTargetLosesBytes(p0: map<nat, Bytes>, p1: map<nat, Bytes>, p2: map<nat, Bytes>,
                               m: MoveGCEvent, m': MoveGCEvent)
    requires WholePages(p0) && WholePages(p1) && WholePages(p2)
    requires PlanFor(SeparatePages(), 0) == Some([m, m']) && Copies(p0, p1, m) && Copies(p1, p2, m')
    requires BytesOf(p0, [ONE_PAGE]) != BytesOf(p0, [OTHER_PAGE])[..7]
    ensures BytesOf(p2, [Moved(ONE_PAGE, m.dAddress)]) != BytesOf(p0, [ONE_PAGE])
    ensures BytesOf(p2, [Moved(OTHER_PAGE, m'.dAddress)]) == BytesOf(p0, [OTHER_PAGE])
  {
    SeparatePlan();
    assert [m, m'][0] == MoveGCEvent(1, 1, 0, 128) && [m, m'][1] == MoveGCEvent(2, 1, 2, 128);
    LaterMoveWins(p0, p1, p2, m, m', ONE_PAGE, OTHER_PAGE);
    BytesOne(p0, ONE_PAGE);
    BytesOne(p0, OTHER_PAGE);
    BytesOne(p2, Moved(ONE_PAGE, m.dAddress));
    BytesOne(p2, Moved(OTHER_PAGE, m'.dAddress));
  }

  // ----- a collection while an object is in hand

  /** In a block just erased no extent can be placed. */
  lemma NotPlaced(v: Blocks, block: nat, ino: nat, e: Extent)
    requires EmptyBlock(v, block) && e.pagePointer / BLOCK == block
    ensures !Placed(v, ino, e)
  {
    if Placed(v, ino, e) {
      PagesPositive(e);
      assert false;
    }
  }

  lemma StaleObject(v: Blocks, objects: map<nat, DataObject>, ino: nat, block: nat)
    requires EmptyBlock(v, block) && ino in objects && !OutOf(objects[ino].entries, block)
    ensures !Consistent(v, OwnersOf(objects))
  {
    var e :| e in objects[ino].entries && e.pagePointer / BLOCK == block;
    assert e in OwnersOf(objects)[ino];
    NotPlaced(v, block, ino, e);
  }

  /** The object goes back into the store, beside a block just erased. */
  method StoreBack(kv: KVManager, ino: nat, obj: DataObject, ghost block: nat)
    requires kv.Valid() && EmptyBlock(kv.gc.blockTable.view, block) && ino in kv.objects
    requires OutOf(obj.entries, block) ==> kv.objects[ino] == obj
    modifies kv
    ensures kv.objects == old(kv.objects)[ino := obj] && (kv.Valid() <==> OutOf(obj.entries, block))
    ensures OutOf(obj.entries, block) ==> kv.objects == old(kv.objects)
  {
    ghost var collected := kv.objects;
    kv.objects := kv.objects[ino := obj];
    kv.owners := OwnersOf(kv.objects);
    if OutOf(obj.entries, block) {
      assert kv.objects == collected;
    } else {
      StaleObject(kv.gc.blockTable.view, kv.objects, ino, block);
    }
  }

  /** The block is collected while a copy of an object is in hand. */
  method CollectBeside(kv: KVManager, ghost ino: nat, ghost obj: DataObject, group: seq<GCEvent>, ghost block: nat,
                       ghost moves: seq<MoveGCEvent>)
    requires kv.Valid() && ino in kv.objects && obj == kv.objects[ino]
    requires WellFormed(kv.gc.blockTable.view, kv.owners, block, moves) && group == GroupOf(moves, block)
    modifies kv, kv.gc.blockTable, kv.gc.blockTable.table, kv.store
    ensures kv.Valid() && EmptyBlock(kv.gc.blockTable.view, block) && kv.objects.Keys == old(kv.objects.Keys)
    ensures OutOf(obj.entries, block) ==> kv.objects[ino] == obj
    ensures SameObjects(old(kv.store.pages), kv.store.pages, old(kv.objects), kv.objects)
  {
    kv.DisposeGcGroup(group, block, moves);
  }

  /**
   An operation reads an object, a block is collected, and the object is stored back as it was read: the store is in
   order afterwards if and only if the object had no extent in that block, and then no file has changed.
   */
  method CollectInHand(kv: KVManager, ino: nat, group: seq<GCEvent>, ghost block: nat, ghost moves: seq<MoveGCEvent>)
    requires kv.Valid() && ino in kv.objects && WellFormed(kv.gc.blockTable.view, kv.owners, block, moves)
    requires group == GroupOf(moves, block)
    modifies kv, kv.gc.blockTable, kv.gc.blockTable.table, kv.store
    ensures kv.objects.Keys == old(kv.objects.Keys) && kv.objects[ino] == old(kv.objects[ino])
    ensures kv.Valid() <==> OutOf(old(kv.objects[ino].entries), block)
    ensures kv.Valid() ==> SameObjects(old(kv.store.pages), kv.store.pages, old(kv.objects), kv.objects)
  {
    var obj := kv.objects[ino];
    CollectBeside(kv, ino, obj, group, block, moves);
    StoreBack(kv, ino, obj, block);
  }

  /** A store for which that goes wrong: one file, with one page, in the block to be collected. */
  lemma StaleInput()
    ensures var v := Blocks(PagesOf(i => if i == 0 then Busy(1) else Clean), [1, 0]);
      var objects := map[1 := DataObject(7, [ONE_PAGE])];
      && Consistent(v, OwnersOf(objects)) && Tiled(objects[1]) && !OutOf(objects[1].entries, 0)
      && PlanFor(v, 0).Some? && WellFormed(v, OwnersOf(objects), 0, PlanFor(v, 0).value)
  {
    var v := Blocks(PagesOf(i => if i == 0 then Busy(1) else Clean), [1, 0]);
    var objects := map[1 := DataObject(7, [ONE_PAGE])];
    var owners := OwnersOf(objects);
    assert owners[1] == {ONE_PAGE} && Pages(ONE_PAGE) == 1;
    forall a | 0 <= a < |v.status| && v.status[a].Busy? ensures Accounted(owners, v.status[a].ino, a) {
      assert CoversPage(ONE_PAGE, a);
    }
    assert Consistent(v, owners);
    SingleExtentPlan(v, owners, 0, 1, ONE_PAGE, 1);
    TilesOne(ONE_PAGE, 0);
    assert ONE_PAGE in objects[1].entries;
  }
}
