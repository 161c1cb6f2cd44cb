/** What moving an extent does to the object it belongs to: nothing but the page pointer changes. */
module GcObjects {
  import opened SstRecord
  import opened Flash
  import opened BlockTable
  import opened Extents
  import opened ExtentCuts
  import opened EntryLists
  import opened GcMoves
  import opened PageRuns
  import opened ObjectAccounts

  /** The list with one extent on other pages. */
  function Repointed(es: seq<Extent>, at: nat, d: nat): seq<Extent>
    requires at < |es|
  {
    es[at := Moved(es[at], d)]
  }

  lemma {:induction false} RepointedTiles(es: seq<Extent>, at: nat, d: nat, start: nat)
    requires TilesFrom(es, start) && at < |es|
    ensures TilesFrom(Repointed(es, at, d), start) && SumLen(Repointed(es, at, d)) == SumLen(es)
  {
    var n := |es| - 1;
    if at == n {
      assert Repointed(es, at, d)[..n] == es[..n];
    } else {
      RepointedTiles(es[..n], at, d, start);
      assert Repointed(es, at, d)[..n] == Repointed(es[..n], at, d);
    }
  }

  lemma RepointedSet(es: seq<Extent>, at: nat, d: nat)
    requires TilesFrom(es, 0) && at < |es|
    ensures SetOf(Repointed(es, at, d)) == SetOf(es) - {es[at]} + {Moved(es[at], d)}
  {
    forall i | 0 <= i < |es| && i != at ensures es[i] != es[at] { TilesDistinct(es, i, at); }
    var r := Repointed(es, at, d);
    forall e | e in SetOf(es) && e != es[at] ensures e in SetOf(r) {
      var i :| 0 <= i < |es| && es[i] == e;
      assert r[i] == e;
    }
    assert r[at] == Moved(es[at], d);
  }

  ghost predicate ReadsLike(pages: map<nat, Bytes>, pages': map<nat, Bytes>, e: Extent, e': Extent)
    requires WholePages(pages) && WholePages(pages')
  {
    e.archivedLen >= 1 && e'.archivedLen >= 1 && ExtentBytes(pages', e') == ExtentBytes(pages, e)
  }

  lemma {:induction false} BytesAlike(pages: map<nat, Bytes>, pages': map<nat, Bytes>, es: seq<Extent>,
                                      es': seq<Extent>)
    requires WholePages(pages) && WholePages(pages') && |es| == |es'|
    requires forall i :: 0 <= i < |es| ==> ReadsLike(pages, pages', es[i], es'[i])
    ensures Archived(es) && Archived(es')
    ensures BytesOf(pages', es') == BytesOf(pages, es)
  {
    if |es| != 0 {
      var n := |es| - 1;
      BytesAlike(pages, pages', es[..n], es'[..n]);
      assert ReadsLike(pages, pages', es[n], es'[n]);
    }
  }

  /** The first extent that begins on the page is moved. */
  method Repoint(es: seq<Extent>, oAddress: nat, dAddress: nat, ghost at: nat) returns (r: seq<Extent>)
    requires at < |es| && DistinctPointers(es) && es[at].pagePointer == oAddress
    ensures r == Repointed(es, at, dAddress)
  {
    r := es;
    for i := 0 to |es|
      invariant i <= at && r == es
    {
      if es[i].pagePointer == oAddress {
        r := es[i := es[i].(pagePointer := dAddress)];
        return;
      }
    }
  }

  /** The object has the same bytes, in as many extents. */
  ghost predicate SameObject(pages: map<nat, Bytes>, pages': map<nat, Bytes>, obj: DataObject, obj': DataObject)
    requires WholePages(pages) && WholePages(pages')
  {
    && Tiled(obj) && Tiled(obj') && obj'.size == obj.size && |obj'.entries| == |obj.entries|
    && Archived(obj.entries) && Archived(obj'.entries)
    && BytesOf(pages', obj'.entries) == BytesOf(pages, obj.entries)
  }

  ghost predicate SameObjects(pages: map<nat, Bytes>, pages': map<nat, Bytes>,
                              objects: map<nat, DataObject>, objects': map<nat, DataObject>)
    requires WholePages(pages) && WholePages(pages')
  {
    objects'.Keys == objects.Keys && forall i :: i in objects ==> SameObject(pages, pages', objects[i], objects'[i])
  }

  ghost predicate OutOf(es: seq<Extent>, block: nat) {
    forall e :: e in es ==> e.pagePointer / BLOCK != block
  }

  /** Objects without an extent in the block are untouched. */
  ghost predicate LeftAlone(was: map<nat, DataObject>, now: map<nat, DataObject>, block: nat) {
    forall i :: i in was && OutOf(was[i].entries, block) ==> i in now && now[i] == was[i]
  }

  /** An object that is changed has an extent in the block. */
  lemma StillAlone(was: map<nat, DataObject>, before: map<nat, DataObject>, now: map<nat, DataObject>, block: nat,
                   ino: nat, at: nat)
    requires LeftAlone(was, before, block) && ino in before && ino in now && now == before[ino := now[ino]]
    requires at < |before[ino].entries| && before[ino].entries[at].pagePointer / BLOCK == block
    ensures LeftAlone(was, now, block)
  {
    assert before[ino].entries[at] in before[ino].entries;
  }

  lemma SameObjectsRefl(pages: map<nat, Bytes>, objects: map<nat, DataObject>)
    requires WholePages(pages) && forall i :: i in objects ==> Tiled(objects[i])
    ensures SameObjects(pages, pages, objects, objects)
  {
    forall i | i in objects ensures SameObject(pages, pages, objects[i], objects[i]) {
      TilesSound(objects[i].entries, 0);
    }
  }

  lemma SameObjectsTrans(p0: map<nat, Bytes>, p1: map<nat, Bytes>, p2: map<nat, Bytes>, o0: map<nat, DataObject>,
                         o1: map<nat, DataObject>, o2: map<nat, DataObject>)
    requires WholePages(p0) && WholePages(p1) && WholePages(p2)
    requires SameObjects(p0, p1, o0, o1) && SameObjects(p1, p2, o1, o2)
    ensures SameObjects(p0, p2, o0, o2)
  {
    forall i | i in o0 ensures SameObject(p0, p2, o0[i], o2[i]) {
      assert SameObject(p0, p1, o0[i], o1[i]) && SameObject(p1, p2, o1[i], o2[i]);
    }
  }

  /** The bytes of a moved extent are on its new pages. */
  lemma MovedBytes(pages: map<nat, Bytes>, pages': map<nat, Bytes>, e: Extent, d: nat)
    requires WholePages(pages) && WholePages(pages') && e.archivedLen >= 1
    requires Run(pages', MAIN + d, Pages(e)) == Run(pages, MAIN + e.pagePointer, Pages(e))
    ensures ExtentBytes(pages', Moved(e, d)) == ExtentBytes(pages, e)
  {}

  lemma RepointedSame(pages: map<nat, Bytes>, pages': map<nat, Bytes>, obj: DataObject, at: nat, d: nat)
    requires WholePages(pages) && WholePages(pages') && Tiled(obj) && SameBytes(pages, pages', SetOf(obj.entries))
    requires at < |obj.entries| && obj.entries[at].archivedLen >= 1
    requires ExtentBytes(pages', Moved(obj.entries[at], d)) == ExtentBytes(pages, obj.entries[at])
    ensures SameObject(pages, pages', obj, DataObject(obj.size, Repointed(obj.entries, at, d)))
  {
    var es, es' := obj.entries, Repointed(obj.entries, at, d);
    RepointedTiles(es, at, d, 0);
    forall j | 0 <= j < |es| ensures ReadsLike(pages, pages', es[j], es'[j]) { assert es[j] in SetOf(es); }
    BytesAlike(pages, pages', es, es');
  }

  /** Moving one extent leaves every object as it was. */
  lemma MoveSameObjects(pages: map<nat, Bytes>, pages': map<nat, Bytes>, objects: map<nat, DataObject>, ino: nat,
                        at: nat, d: nat, objects': map<nat, DataObject>)
    requires WholePages(pages) && WholePages(pages') && ino in objects && at < |objects[ino].entries|
    requires forall i :: i in objects ==> Tiled(objects[i]) && SameBytes(pages, pages', SetOf(objects[i].entries))
    requires objects[ino].entries[at].archivedLen >= 1
    requires ExtentBytes(pages', Moved(objects[ino].entries[at], d)) == ExtentBytes(pages, objects[ino].entries[at])
    requires objects' == objects[ino := DataObject(objects[ino].size, Repointed(objects[ino].entries, at, d))]
    ensures SameObjects(pages, pages', objects, objects')
  {
    RepointedSame(pages, pages', objects[ino], at, d);
    forall i | i in objects ensures SameObject(pages, pages', objects[i], objects'[i]) {
      TilesSound(objects[i].entries, 0);
      SameBytesOf(pages, pages', objects[i].entries);
    }
  }

  /** The entry that the first move of a plan takes. */
  lemma MovedEntry(v: Blocks, objects: map<nat, DataObject>, block: nat, moves: seq<MoveGCEvent>)
      returns (e: Extent, at: nat)
    requires Consistent(v, OwnersOf(objects)) && WellFormed(v, OwnersOf(objects), block, moves) && |moves| > 0
    ensures moves[0].ino in objects && at < |objects[moves[0].ino].entries| && objects[moves[0].ino].entries[at] == e
    ensures e in OwnersOf(objects)[moves[0].ino] && Takes(moves[0], moves[0].ino, e)
    ensures GoodTarget(v, block, moves[0])
  {
    var owners := OwnersOf(objects);
    var m := moves[0];
    e :| e in owners[m.ino] && Takes(m, m.ino, e);
    at :| 0 <= at < |objects[m.ino].entries| && objects[m.ino].entries[at] == e;
  }

  lemma MoveAccounts(v: Blocks, owners: Owners, block: nat, moves: seq<MoveGCEvent>, e: Extent)
    requires Consistent(v, owners) && WellFormed(v, owners, block, moves) && |moves| > 0
    requires moves[0].ino in owners && e in owners[moves[0].ino] && Takes(moves[0], moves[0].ino, e)
    ensures var m := moves[0];
      && AtFrontier(v, m.dAddress, m.size)
      && FitsIn(v, m)
      && Consistent(AfterMove(v, m), MovedOwners(owners, m, e))
      && WellFormed(AfterMove(v, m), MovedOwners(owners, m, e), block, moves[1..])
      && Count(AfterMove(v, m).status, IsBusy) == Count(v.status, IsBusy)
  {
    assert GoodTarget(v, block, moves[0]);
    MoveKeeps(v, owners, moves[0], e);
    MoveConserves(v, owners, moves[0], e);
    RestWellFormed(v, owners, block, moves, e);
  }

  lemma MoveObjects(v: Blocks, pages: map<nat, Bytes>, pages': map<nat, Bytes>, objects: map<nat, DataObject>,
                    m: MoveGCEvent, at: nat, entries: seq<Extent>, objects': map<nat, DataObject>)
    requires Consistent(v, OwnersOf(objects)) && WholePages(pages) && WholePages(pages')
    requires forall i :: i in objects ==> Tiled(objects[i])
    requires m.ino in objects && at < |objects[m.ino].entries| && Takes(m, m.ino, objects[m.ino].entries[at])
    requires AtFrontier(v, m.dAddress, m.size) && Elsewhere(pages, pages', m.dAddress, m.size)
    requires Run(pages', MAIN + m.dAddress, m.size) == Run(pages, MAIN + m.oAddress, m.size)
    requires entries == Repointed(objects[m.ino].entries, at, m.dAddress)
    requires objects' == objects[m.ino := DataObject(objects[m.ino].size, entries)]
    ensures SameObjects(pages, pages', objects, objects')
    ensures OwnersOf(objects') == MovedOwners(OwnersOf(objects), m, objects[m.ino].entries[at])
    ensures forall i :: i in objects' ==> Tiled(objects'[i])
  {
    ObjectsUntouched(v, pages, pages', objects, m.dAddress, m.size);
    TakenReads(pages, pages', m, objects[m.ino].entries[at]);
    MoveSameObjects(pages, pages', objects, m.ino, at, m.dAddress, objects');
    MoveOwners(objects, m, at, entries, objects');
  }

  lemma TakenReads(pages: map<nat, Bytes>, pages': map<nat, Bytes>, m: MoveGCEvent, e: Extent)
    requires WholePages(pages) && WholePages(pages') && Takes(m, m.ino, e)
    requires Run(pages', MAIN + m.dAddress, m.size) == Run(pages, MAIN + m.oAddress, m.size)
    ensures e.archivedLen >= 1 && ExtentBytes(pages', Moved(e, m.dAddress)) == ExtentBytes(pages, e)
  {
    MovedBytes(pages, pages', e, m.dAddress);
  }

  lemma MoveOwners(objects: map<nat, DataObject>, m: MoveGCEvent, at: nat, entries: seq<Extent>,
                   objects': map<nat, DataObject>)
    requires forall i :: i in objects ==> Tiled(objects[i])
    requires m.ino in objects && at < |objects[m.ino].entries|
    requires entries == Repointed(objects[m.ino].entries, at, m.dAddress)
    requires objects' == objects[m.ino := DataObject(objects[m.ino].size, entries)]
    ensures OwnersOf(objects') == MovedOwners(OwnersOf(objects), m, objects[m.ino].entries[at])
    ensures forall i :: i in objects' ==> Tiled(objects'[i])
  {
    RepointedTiles(objects[m.ino].entries, at, m.dAddress, 0);
    RepointedSet(objects[m.ino].entries, at, m.dAddress);
  }

  /** A write at a frontier leaves what the stored objects read as alone. */
  lemma ObjectsUntouched(v: Blocks, pages: map<nat, Bytes>, pages': map<nat, Bytes>, objects: map<nat, DataObject>,
                         start: nat, n: nat)
    requires Consistent(v, OwnersOf(objects)) && WholePages(pages) && WholePages(pages')
    requires AtFrontier(v, start, n) && Elsewhere(pages, pages', start, n)
    ensures forall i :: i in objects ==> SameBytes(pages, pages', SetOf(objects[i].entries))
  {
    WriteKeepsBytes(v, OwnersOf(objects), pages, pages', start, n);
    forall i | i in objects ensures SameBytes(pages, pages', SetOf(objects[i].entries)) {
      assert OwnersOf(objects)[i] == SetOf(objects[i].entries);
    }
  }

  /** A plan without moves is for a block without extents. */
  lemma NoneLeft(v: Blocks, owners: Owners, block: nat)
    requires Shaped(v) && WellFormed(v, owners, block, [])
    ensures Vacated(owners, block)
  {
    forall ino, e | ino in owners && e in owners[ino] ensures e.pagePointer / BLOCK != block {
      assert e.pagePointer / BLOCK == block ==> Taken([], ino, e);
    }
  }

  lemma KeptObjects(pages: map<nat, Bytes>, pages': map<nat, Bytes>, objects: map<nat, DataObject>)
    requires WholePages(pages) && WholePages(pages') && forall i :: i in objects ==> Tiled(objects[i])
    requires forall i :: i in OwnersOf(objects) ==> SameBytes(pages, pages', OwnersOf(objects)[i])
    ensures SameObjects(pages, pages', objects, objects)
  {
    forall i | i in objects ensures SameObject(pages, pages', objects[i], objects[i]) {
      TilesSound(objects[i].entries, 0);
      assert OwnersOf(objects)[i] == SetOf(objects[i].entries);
      SameBytesOf(pages, pages', objects[i].entries);
    }
  }
}
