/**
 The key-value manager's data objects: overwriting, reading, deleting and recycling ranges of a file that is
 kept as extents on flash pages.  The objects are looked up by inode number; the tree that stores them and
 the serialisation of their values are taken as a map.
 */
module KvManager {
  import opened Prelude
  import opened SstRecord
  import opened Flash
  import opened BlockTable
  import opened Extents
  import opened Frontiers
  import opened GcManager
  import opened PageRuns
  import opened ExtentCuts
  import opened ExtentDeletes
  import opened EntryLists
  import opened ObjectAccounts
  import opened Overwriting
  import opened Deleting
  import opened MendedDelete
  import opened Reading
  import opened GcMoves
  import opened GcPlan
  import opened GcObjects

  class KVManager {
    const gc: GCManager
    const store: PageStore
    var objects: map<nat, DataObject>
    ghost var owners: Owners

    ghost predicate Sane()
      reads this, gc, gc.blockTable, gc.blockTable.table, store
    {
      && gc.blockTable.Valid() && WholePages(store.pages)
      && Consistent(gc.blockTable.view, owners)
    }

    /** The accounts are in order, they are those of the stored objects, and every object is a tiling. */
    ghost predicate Valid()
      reads this, gc, gc.blockTable, gc.blockTable.table, store
    {
      && Sane()
      && owners == OwnersOf(objects)
      && forall ino :: ino in objects ==> Tiled(objects[ino])
    }

    /** The object of a file; a file that was never written is empty. */
    ghost function ObjectAt(ino: nat): DataObject
      reads this
    {
      if ino in objects then objects[ino] else EMPTY_OBJECT
    }

    /** The bytes a file stands for. */
    ghost function Content(ino: nat): (r: Bytes)
      requires WholePages(store.pages) && Tiled(ObjectAt(ino))
      reads this, store
      ensures |r| == ObjectAt(ino).size
    {
      BytesLength(store.pages, ObjectAt(ino).entries, 0);
      BytesOf(store.pages, ObjectAt(ino).entries)
    }

    constructor (size: nat)
      ensures Valid() && objects == map[] && gc.blockTable.size == size
      ensures gc.blockTable.view == Blocks(seq(BLOCK * size, i => Clean), seq(size, i => 0))
      ensures size > 0 ==> HasRoom(gc.blockTable.view, BLOCK)
      ensures fresh(gc) && fresh(gc.blockTable) && fresh(store)
      ensures forall b :: 0 <= b < size ==> fresh(gc.blockTable.table[b])
    {
      gc := new GCManager(size);
      store := new PageStore();
      objects, owners := map[], map[];
      if size > 0 {
        MostFreeFits(seq(size, i => 0), 0);
      }
    }

    /**
     Writes data to a fresh run of pages for ino, in the first block that has them; None exactly where no block
     has, so that garbage collection would have to run first.
     */
    method AddExtent(data: Bytes, offset: nat, ino: nat) returns (r: Option<Extent>)
      requires Sane() && ino in owners && |data| >= 1
      modifies this`owners, gc.blockTable, gc.blockTable.table, store
      ensures Sane()
      ensures r.None? ==> owners == old(owners)
      ensures r.Some? ==>
        && Sound(r.value) && r.value.len == |data| && r.value.offset == offset
        && owners == Extended(old(owners), ino, {r.value})
        && Unowned(old(owners), {r.value})
        && ExtentBytes(store.pages, r.value) == data
      ensures AllSame(old(store.pages), store.pages, old(owners))
      ensures forall e :: BelowFrontier(old(gc.blockTable.view), e) ==>
        ExtentBytes(store.pages, e) == ExtentBytes(old(store.pages), e)
      ensures Take(Some(old(gc.blockTable.view.frontier)), PagesFor(|data|)) ==
              Ended(r.Some?, gc.blockTable.view.frontier)
      ensures r.Some? ==> StartsFirst(old(gc.blockTable.view.frontier), r.value)
    {
      var size := PagesFor(|data|);
      ghost var v := gc.blockTable.view;
      FirstFitFinds(v, 0, size, None);
      var pos := gc.FindWritePos(size);
      if pos.None? {
        TakeNone(v.frontier, size);
        AllSameRefl(store.pages, v, owners);
        return None;
      }
      var e := Extent(|data|, |data|, offset, pos.value, 0);
      ReserveKeeps(v, owners, ino, e);
      TakeFirst(v.frontier, size, pos.value / BLOCK);
      ghost var pages := store.pages;
      WriteRun(gc.blockTable, store, pos.value, data, ino);
      WriteKeepsBytes(v, owners, pages, store.pages, pos.value, size);
      forall e | BelowFrontier(v, e) ensures ExtentBytes(store.pages, e) == ExtentBytes(pages, e) {
        WriteKeepsBelow(v, pages, store.pages, pos.value, size, e);
      }
      owners := Extended(owners, ino, {e});
      assert Padded(data)[..|data|] == data;
      r := Some(e);
    }

    /** An extent of ino goes out of use. */
    method DropExtent(e: Extent, ino: nat)
      requires Sane() && ino in owners && e in owners[ino]
      modifies this`owners, gc.blockTable, gc.blockTable.table
      ensures Sane() && owners == old(owners)[ino := old(owners)[ino] - {e}]
      ensures gc.blockTable.view.frontier == old(gc.blockTable.view.frontier)
    {
      DropKeeps(gc.blockTable.view, owners, ino, e);
      DirtyRun(gc.blockTable, e.pagePointer, Pages(e));
      owners := owners[ino := owners[ino] - {e}];
    }

    /**
     One extent touched by the range: what lies before the range and what lies behind it is copied to new
     extents, and the old extent is dropped.
     */
    method CutExtent(entry: Extent, off: nat, end: nat, ino: nat)
        returns (ok: bool, first: Option<Extent>, second: Option<Extent>)
      requires Sane() && ino in owners && entry in owners[ino] && Sound(entry)
      requires off < entry.offset + entry.len && entry.offset < end && off < end
      modifies this`owners, gc.blockTable, gc.blockTable.table, store
      ensures ok ==>
          Sane() && CutDone(old(store.pages), store.pages, old(owners), owners, ino, entry, off, end, first, second)
      ensures CutTakes(entry, off, end, old(gc.blockTable.view.frontier)) == Ended(ok, gc.blockTable.view.frontier)
    {
      var validPrev, validSuffix := Before(entry, off), After(entry, end);
      second := None;
      ok, first := CopyPart(entry, 0, validPrev, entry.offset, ino);
      if ok {
        ghost var pages1, owners1 := store.pages, owners;
        ok, second := CopyPart(entry, entry.len - validSuffix, validSuffix, entry.offset + entry.len - validSuffix,
            ino);
        if ok {
          CutParts(old(store.pages), pages1, store.pages, old(owners), owners1, ino, entry, off, end, first, second);
          DropExtent(entry, ino);
        }
      }
    }

    /** A kept part of an extent is read back and written to a new extent; nothing is done for an empty part. */
    method CopyPart(entry: Extent, from: nat, n: nat, offset: nat, ino: nat)
        returns (ok: bool, part: Option<Extent>)
      requires Sane() && ino in owners && Sound(entry) && from + n <= entry.len
      modifies this`owners, gc.blockTable, gc.blockTable.table, store
      ensures ok ==> Sane() && Part(old(store.pages), store.pages, part, entry, from, n, offset)
      ensures ok ==> owners == Extended(old(owners), ino, OptSet(part)) && Unowned(old(owners), OptSet(part))
      ensures ok ==> AllSame(old(store.pages), store.pages, old(owners))
      ensures ok ==> forall e :: BelowFrontier(old(gc.blockTable.view), e) ==>
        ExtentBytes(store.pages, e) == ExtentBytes(old(store.pages), e)
      ensures Take(Some(old(gc.blockTable.view.frontier)), PartPages(n)) == Ended(ok, gc.blockTable.view.frontier)
    {
      part, ok := None, true;
      if n != 0 {
        var data := ReadExtent(store, entry);
        part := AddExtent(data[from..from + n], offset, ino);
        ok := part.Some?;
      } else {
        AllSameRefl(store.pages, gc.blockTable.view, owners);
        assert owners[ino] + OptSet(part) == owners[ino];
      }
    }

    /** The state as a value. */
    ghost function Now(): Snapshot
      reads this, gc, gc.blockTable, store
    {
      Snapshot(gc.blockTable.view, store.pages, owners)
    }

    /** The state is one of those, and the block table is in order unless the operation has given up. */
    ghost predicate Among(stages: iset<Snapshot>, ok: bool)
      reads this, gc, gc.blockTable, gc.blockTable.table, store
    {
      match Now()
      case Snapshot(v, pages, o) => (ok ==> gc.blockTable.Valid()) && Snapshot(v, pages, o) in stages
    }

    /** One turn of the overwrite loop. */
    method OverwriteStep(entries: seq<Extent>, k: nat, off: nat, end: nat, ino: nat, p: Progress, ghost f: Overwrite,
                         ghost goal: Option<seq<nat>>)
        returns (ok: bool, p': Progress)
      requires Among(StagesAt(f, k, p, goal, true), true) && k < |entries| && entries == f.es
      requires off == f.off && end == f.end && ino == f.ino
      modifies this`owners, gc.blockTable, gc.blockTable.table, store
      ensures Among(StagesAt(f, k + 1, p', goal, ok), ok)
    {
      var entry := entries[k];
      CutAt(f, k);
      if entry.offset + entry.len <= off || entry.offset >= end {
        NotTouched(f, k);
        ok, p' := true, p;
      } else {
        ok, p' := CutTouched(entry, k, off, end, ino, p, f, goal);
      }
    }

    /** A touched extent gives way to what is kept of it, and is put on the list of those to remove. */
    method CutTouched(entry: Extent, k: nat, off: nat, end: nat, ino: nat, p: Progress, ghost f: Overwrite,
                      ghost goal: Option<seq<nat>>)
        returns (ok: bool, p': Progress)
      requires Among(StagesAt(f, k, p, goal, true), true) && f.lo <= k < f.hi
      requires entry == f.es[k]
      requires off == f.off < entry.offset + entry.len && end == f.end > entry.offset && ino == f.ino
      modifies this`owners, gc.blockTable, gc.blockTable.table, store
      ensures Among(StagesAt(f, k + 1, p', goal, ok), ok)
    {
      ghost var s := Now();
      CutStarts(f, k, p, goal, s);
      var first, second;
      ok, first, second := CutExtent(entry, off, end, ino);
      p' := Progress(p.removeList + [entry.pagePointer], if p.insertIndex == -1 then k else p.insertIndex,
                     Either(first, p.first), Either(second, p.second));
      if ok {
        CutEnds(f, k, p, goal, s, first, second, Now(), p');
      }
    }

    /**
     Writes value over a data object at off.  An offset past the end changes nothing; otherwise the object
     becomes the old byte sequence with value spliced in.  ok is false where garbage collection would have to
     run in the middle.
     */
    method SetDataObject(obj: DataObject, off: nat, value: Bytes, ino: nat)
        returns (ok: bool, obj': DataObject)
      requires Sane() && ino in owners && owners[ino] == SetOf(obj.entries) && Tiled(obj) && |value| >= 1
      modifies this`owners, gc.blockTable, gc.blockTable.table, store
      ensures ok ==> Sane() && Tiled(obj') && owners == old(owners)[ino := SetOf(obj'.entries)]
      ensures ok && off <= obj.size ==> Spliced(old(store.pages), store.pages, obj, obj', off, value)
      ensures ok && off > obj.size ==> obj' == obj && store.pages == old(store.pages)
      ensures ok ==> AllSame(old(store.pages), store.pages, old(owners) - {ino})
      ensures Ended(ok, gc.blockTable.view.frontier) == SetTakes(obj, off, |value|, old(gc.blockTable.view.frontier))
    {
      if off > obj.size {
        ok, obj' := true, obj;
        AllSameRefl(store.pages, gc.blockTable.view, owners);
        assert owners[ino := SetOf(obj'.entries)] == owners;
      } else {
        ok, obj' := OverwriteObject(obj, off, value, ino);
      }
    }

    method OverwriteObject(obj: DataObject, off: nat, value: Bytes, ino: nat)
        returns (ok: bool, obj': DataObject)
      requires Sane() && ino in owners && owners[ino] == SetOf(obj.entries) && Tiled(obj) && |value| >= 1
      requires off <= obj.size
      modifies this`owners, gc.blockTable, gc.blockTable.table, store
      ensures !ok || (Sane() && Tiled(obj') && owners == old(owners)[ino := SetOf(obj'.entries)])
      ensures !ok || Spliced(old(store.pages), store.pages, obj, obj', off, value)
      ensures ok ==> AllSame(old(store.pages), store.pages, old(owners) - {ino})
      ensures Ended(ok, gc.blockTable.view.frontier) ==
              WriteTakes(obj.entries, off, |value|, old(gc.blockTable.view.frontier))
    {
      ok, obj' := false, obj;
      ghost var goal := WriteTakes(obj.entries, off, |value|, gc.blockTable.view.frontier);
      OwnedPointers(gc.blockTable.view, owners, ino, obj.entries);
      var added; ghost var f;
      added, f := WriteValue(obj, off, value, ino);
      if added.Some? {
        var p := Progress([], -1, None, None);
        ok, p := OverwriteLoop(obj.entries, off, off + |value|, ino, p, f, goal);
        if ok {
          obj' := Reassemble(obj, p, added.value, f, goal);
        }
      }
    }

    /** The new extent is written before the old ones are looked at. */
    method WriteValue(obj: DataObject, off: nat, value: Bytes, ino: nat)
        returns (added: Option<Extent>, ghost f: Overwrite)
      requires Sane() && ino in owners && owners[ino] == SetOf(obj.entries) && Tiled(obj) && |value| >= 1
      requires off <= obj.size
      modifies this`owners, gc.blockTable, gc.blockTable.table, store
      ensures f.es == obj.entries && f.off == off && f.end == off + |value| && f.value == value && f.ino == ino
      ensures f.pages == old(store.pages) && f.owners == old(owners)
      ensures var goal := WriteTakes(obj.entries, off, |value|, old(gc.blockTable.view.frontier));
        Among(StagesAt(f, 0, Progress([], -1, None, None), goal, added.Some?), added.Some?)
      ensures added.Some? ==> added.value == f.added
      ensures added.Some? ==> f.added.offset == off && f.added.len == |value|
    {
      ghost var lo, hi := FindTouched(obj.entries, off, off + |value|);
      ghost var pages, was, fr := store.pages, owners, gc.blockTable.view.frontier;
      ghost var goal := WriteTakes(obj.entries, off, |value|, fr);
      added := AddExtent(value, off, ino);
      ghost var e := if added.Some? then added.value else Extent(0, 0, 0, 0, 0);
      f := Overwrite(obj.entries, off, off + |value|, ino, lo, hi, e, value, pages, was);
      if added.Some? {
        StartsWriting(f, Progress([], -1, None, None), goal, |value|, fr, Now());
      }
    }

    method OverwriteLoop(entries: seq<Extent>, off: nat, end: nat, ino: nat, p0: Progress, ghost f: Overwrite,
                         ghost goal: Option<seq<nat>>)
        returns (ok: bool, p: Progress)
      requires Among(StagesAt(f, 0, p0, goal, true), true)
      requires entries == f.es && off == f.off && end == f.end && ino == f.ino
      modifies this`owners, gc.blockTable, gc.blockTable.table, store
      ensures Among(StagesAt(f, |entries|, p, goal, ok), ok)
    {
      ok, p := true, p0;
      var k := 0;
      while k != |entries| && ok
        invariant k <= |entries| && Among(StagesAt(f, k, p, goal, ok), ok)
        decreases |entries| - k
      {
        ok, p := OverwriteStep(entries, k, off, end, ino, p, f, goal);
        k := k + 1;
      }
      StageEnded(f, k, |entries|, p, goal, ok);
    }

    lemma StageEnded(f: Overwrite, k: nat, n: nat, p: Progress, goal: Option<seq<nat>>, ok: bool)
      requires Among(StagesAt(f, k, p, goal, ok), ok) && (ok ==> k == n)
      ensures Among(StagesAt(f, n, p, goal, ok), ok)
    {
      StageEnds(f, k, n, p, goal, ok, Now());
    }

    method Reassemble(obj: DataObject, p: Progress, added: Extent, ghost f: Overwrite, ghost goal: Option<seq<nat>>)
        returns (obj': DataObject)
      requires Among(StagesAt(f, |f.es|, p, goal, true), true)
      requires obj.entries == f.es && added == f.added && Tiled(obj)
      requires added.offset == f.off && added.len == |f.value| == f.end - f.off && DistinctPointers(f.es)
      ensures Sane() && Tiled(obj') && owners == f.owners[f.ino := SetOf(obj'.entries)]
      ensures goal == Some(gc.blockTable.view.frontier)
      ensures Spliced(f.pages, store.pages, obj, obj', f.off, f.value)
      ensures AllSame(f.pages, store.pages, f.owners - {f.ino})
    {
      StageDone(f, p, goal, Now());
      obj' := Rebuild(obj, p, added, f.lo, f.hi);
      StageSpliced(f, p, goal, Now(), obj, obj');
    }

    /** The touched extents are taken out of the list, and the pieces put in their place. */
    method Rebuild(obj: DataObject, p: Progress, added: Extent, ghost lo: nat, ghost hi: nat) returns (obj': DataObject)
      requires lo <= hi <= |obj.entries| && DistinctPointers(obj.entries)
      requires p.removeList == Pointers(obj.entries[lo..hi]) && p.insertIndex == if lo == hi then -1 else lo
      requires lo == hi ==> lo == |obj.entries|
      ensures obj'.entries == Rebuilt(obj.entries, lo, hi, p.first, added, p.second)
      ensures obj'.size == SumLen(obj'.entries)
    {
      var rest := RemoveTouched(obj.entries, p.removeList, lo, hi);
      var entries := InsertPieces(rest, p.insertIndex, p.first, Some(added), p.second);
      assert rest[..lo] == obj.entries[..lo] && rest[lo..] == obj.entries[hi..];
      var size := TotalLen(entries);
      obj' := DataObject(size, entries);
    }

    // ----- deleting

    /** The pages of an extent are given back, all of them or those behind its first keep bytes. */
    method ReleaseExtent(entry: Extent, keep: nat, ino: nat)
      requires Sane() && ino in owners && entry in owners[ino] && Sound(entry) && keep < entry.len
      modifies this`owners, gc.blockTable, gc.blockTable.table
      ensures Sane() && gc.blockTable.view.frontier == old(gc.blockTable.view.frontier)
      ensures owners == old(owners)[ino := old(owners)[ino] - {entry} + if keep > 0 then {Kept(entry, keep)} else {}]
    {
      if keep == 0 {
        DropExtent(entry, ino);
        assert owners[ino] + {} == owners[ino];
      } else {
        var size := (entry.len - 1) / PAGE + 1;
        var oSize := (keep - 1) / PAGE + 1;
        TruncateKeeps(gc.blockTable.view, owners, ino, entry, keep);
        DirtyRun(gc.blockTable, entry.pagePointer + oSize, size - oSize);
        owners := owners[ino := owners[ino] - {entry} + {Kept(entry, keep)}];
      }
    }

    ghost predicate DeleteStanding(f: Deletion, k: nat, p: Trimming)
      reads this, gc, gc.blockTable, gc.blockTable.table, store
    {
      gc.blockTable.Valid() && DeleteAt(f, k, p, Now())
    }

    /** One turn of the delete loop. */
    method DeleteStep(entries: seq<Extent>, k: nat, off: nat, end: nat, ino: nat, p: Trimming, ghost f: Deletion,
                      ghost goal: Option<seq<nat>>)
        returns (ok: bool, p': Trimming)
      requires Among(DeletesAt(f, k, p, goal, true), true) && k < |entries| && entries == f.es
      requires off == f.off && end == f.end && ino == f.ino
      modifies this`owners, gc.blockTable, gc.blockTable.table, store
      ensures Among(DeletesAt(f, k + 1, p', goal, ok), ok)
    {
      var entry := entries[k];
      DeleteCutAt(f, k);
      if entry.offset + entry.len <= off || entry.offset >= end {
        ok := true;
        p' := PassExtent(k, off, end, entry, p, f);
      } else {
        ok, p' := TrimExtent(k, off, end, ino, entry, p, f, goal);
      }
    }

    /** An extent before the range stays as it is, one behind it moves up. */
    method PassExtent(k: nat, off: nat, end: nat, entry: Extent, p: Trimming, ghost f: Deletion) returns (p': Trimming)
      requires DeleteStanding(f, k, p) && k < |f.es| && entry == f.es[k] && !(f.lo <= k < f.hi)
      requires off == f.off && end == f.end
      ensures DeleteStanding(f, k + 1, p')
    {
      PassBy(f, store.pages, k, p);
      p' := PassStep(k, off, end, entry, p);
    }

    /** A touched extent: its pages are given back, and what lies behind the range is copied. */
    method TrimExtent(k: nat, off: nat, end: nat, ino: nat, entry: Extent, p: Trimming, ghost f: Deletion,
                      ghost goal: Option<seq<nat>>)
        returns (ok: bool, p': Trimming)
      requires Among(DeletesAt(f, k, p, goal, true), true) && f.lo <= k < f.hi && entry == f.es[k]
      requires off == f.off && end == f.end && ino == f.ino
      modifies this`owners, gc.blockTable, gc.blockTable.table, store
      ensures Among(DeletesAt(f, k + 1, p', goal, ok), ok)
    {
      TrimStarts(f, k, p, goal, Now());
      var validPrev, validSuffix := Before(entry, off), After(entry, end);
      p' := ReleaseFront(k, validPrev, ino, entry, p, f, goal);
      ok := true;
      if validSuffix > 0 {
        ok, p' := KeepBehind(k, validSuffix, ino, entry, p', f, goal);
      } else {
        NothingBehind(f, k, p', goal, Now());
      }
    }

    method ReleaseFront(k: nat, validPrev: nat, ino: nat, entry: Extent, p: Trimming, ghost f: Deletion,
                        ghost goal: Option<seq<nat>>)
        returns (p': Trimming)
      requires Among(DeletesAt(f, k, p, goal, true), true) && f.lo <= k < f.hi <= |f.es| && entry == f.es[k]
      requires ino == f.ino && validPrev == Keep(f, k) && Sound(entry)
      modifies this`owners, gc.blockTable, gc.blockTable.table
      ensures Among(ReleasesAt(f, k, p'), true) && gc.blockTable.view.frontier == old(gc.blockTable.view.frontier)
    {
      ghost var s := Now();
      ReleaseStarts(f, k, p, goal, s);
      ReleaseExtent(entry, validPrev, ino);
      p' := ListStep(k, validPrev, entry, p);
      ReleaseEnds(f, k, p, goal, s, Now(), validPrev, p');
    }

    method KeepBehind(k: nat, validSuffix: nat, ino: nat, entry: Extent, p: Trimming, ghost f: Deletion,
                      ghost goal: Option<seq<nat>>)
        returns (ok: bool, p': Trimming)
      requires Among(ReleasesAt(f, k, p), true) && k == f.hi - 1 < |f.es| && entry == f.es[k] && ino == f.ino
      requires validSuffix == Beyond(f.es, f.end) == After(entry, f.end) && validSuffix > 0
      requires goal == Take(Some(gc.blockTable.view.frontier), PartPages(validSuffix))
      modifies this`owners, gc.blockTable, gc.blockTable.table, store
      ensures Among(DeletesAt(f, k + 1, p', goal, ok), ok)
    {
      ghost var s := Now();
      KeepStarts(f, k, p, s);
      var second;
      ok, second := CopyPart(entry, entry.len - validSuffix, validSuffix, entry.offset + entry.len - validSuffix, ino);
      p' := p.(second := second);
      if ok {
        KeepEnds(f, k, p, goal, s, Now(), validSuffix, second);
      }
    }

    /**
     Deletes len bytes from off on, as written: the size is always right; the object reads as the sequence
     without the range exactly when the range begins on an extent boundary, and is a tiling again exactly when
     it also ends on one.
     */
    method DeleteDataObject(obj: DataObject, off: nat, len: nat, ino: nat)
        returns (ok: bool, obj': DataObject)
      requires Sane() && ino in owners && owners[ino] == SetOf(obj.entries) && Tiled(obj) && len >= 1
      modifies this`owners, gc.blockTable, gc.blockTable.table, store
      ensures ok ==> Sane() && owners == old(owners)[ino := InUse(obj'.entries)]
      ensures ok && off >= obj.size ==> obj' == obj && store.pages == old(store.pages)
      ensures ok && off < obj.size ==> DeletedAsWritten(old(store.pages), store.pages, obj, obj', off, off + len)
      ensures ok ==> AllSame(old(store.pages), store.pages, old(owners) - {ino})
      ensures Ended(ok, gc.blockTable.view.frontier) ==
              Take(Some(old(gc.blockTable.view.frontier)), PartPages(Beyond(obj.entries, off + len)))
    {
      if off >= obj.size {
        ok, obj' := true, obj;
        AllSameRefl(store.pages, gc.blockTable.view, owners);
        PastEnd(obj.entries, off + len);
        TilesSound(obj.entries, 0);
        InUseSound(obj.entries);
        assert owners[ino := InUse(obj'.entries)] == owners;
      } else {
        ok, obj' := DeleteRange(obj, off, len, ino);
      }
    }

    method DeleteRange(obj: DataObject, off: nat, len: nat, ino: nat)
        returns (ok: bool, obj': DataObject)
      requires Sane() && ino in owners && owners[ino] == SetOf(obj.entries) && Tiled(obj) && len >= 1
      requires off < obj.size
      modifies this`owners, gc.blockTable, gc.blockTable.table, store
      ensures ok ==> Sane() && owners == old(owners)[ino := InUse(obj'.entries)]
      ensures ok ==> DeletedAsWritten(old(store.pages), store.pages, obj, obj', off, off + len)
      ensures ok ==> AllSame(old(store.pages), store.pages, old(owners) - {ino})
      ensures Ended(ok, gc.blockTable.view.frontier) ==
              Take(Some(old(gc.blockTable.view.frontier)), PartPages(Beyond(obj.entries, off + len)))
    {
      ghost var was := store.pages;
      ghost var goal := Take(Some(gc.blockTable.view.frontier), PartPages(Beyond(obj.entries, off + len)));
      var p := Trimming(obj.entries, [], -1, None);
      ghost var f := StartDelete(obj, off, len, ino, p, goal, Now());
      ok, p := DeleteLoop(obj.entries, off, off + len, ino, p, f, goal);
      obj' := obj;
      if ok {
        obj' := FinishDelete(p, obj, f, off, len, was);
      }
    }

    method DeleteLoop(entries: seq<Extent>, off: nat, end: nat, ino: nat, p0: Trimming, ghost f: Deletion,
                      ghost goal: Option<seq<nat>>)
        returns (ok: bool, p: Trimming)
      requires Among(DeletesAt(f, 0, p0, goal, true), true)
      requires entries == f.es && off == f.off && end == f.end && ino == f.ino
      modifies this`owners, gc.blockTable, gc.blockTable.table, store
      ensures Among(DeletesAt(f, |entries|, p, goal, ok), ok)
    {
      ok, p := true, p0;
      var k := 0;
      while k != |entries| && ok
        invariant k <= |entries| && Among(DeletesAt(f, k, p, goal, ok), ok)
        decreases |entries| - k
      {
        ok, p := DeleteStep(entries, k, off, end, ino, p, f, goal);
        k := k + 1;
      }
      DeleteEnded(f, k, |entries|, p, goal, ok);
    }

    lemma DeleteEnded(f: Deletion, k: nat, n: nat, p: Trimming, goal: Option<seq<nat>>, ok: bool)
      requires Among(DeletesAt(f, k, p, goal, ok), ok) && (ok ==> k == n)
      ensures Among(DeletesAt(f, n, p, goal, ok), ok)
    {
      DeleteEnds(f, k, n, p, goal, ok, Now());
    }

    method FinishDelete(p: Trimming, obj: DataObject, ghost f: Deletion, ghost off: nat, ghost len: nat,
                        ghost was: map<nat, Bytes>) returns (obj': DataObject)
      requires f.off == off && f.end == off + len && f.pages == was
      requires DeleteStanding(f, |f.es|, p) && DistinctPointers(f.es) && obj == DataObject(SumLen(f.es), f.es)
      modifies this`owners
      ensures Sane() && owners == f.owners[f.ino := InUse(obj'.entries)]
      ensures DeletedAsWritten(was, store.pages, obj, obj', off, off + len)
      ensures AllSame(was, store.pages, f.owners - {f.ino})
    {
      ghost var s := Now();
      FinishStarts(f, p, s);
      obj' := DeletedObject(p, obj, f, off, len, was, s.pages);
      EnterOwners(f.owners[f.ino := InUse(obj'.entries)]);
    }

    /** The accounts are exchanged for others that are in order. */
    ghost method EnterOwners(o: Owners)
      requires gc.blockTable.Valid() && WholePages(store.pages) && Consistent(gc.blockTable.view, o)
      modifies this`owners
      ensures Sane() && owners == o
    {
      owners := o;
    }

    // ----- deleting, with the two omissions made good

    method FinishMended(p: Trimming, obj: DataObject, off: nat, ghost len: nat, ghost f: Deletion,
                        ghost was: map<nat, Bytes>) returns (obj': DataObject)
      requires gc.blockTable.Valid() && DeleteAt(f, |f.es|, p, Now()) && DistinctPointers(f.es)
      requires obj == DataObject(SumLen(f.es), f.es) && off == f.off && f.end == off + len && was == f.pages
      modifies this`owners
      ensures Sane() && Tiled(obj') && owners == f.owners[f.ino := SetOf(obj'.entries)]
      ensures Cleared(was, store.pages, obj, obj', off, off + len)
      ensures AllSame(was, store.pages, f.owners - {f.ino})
    {
      ghost var s := Now();
      obj' := MendedObject(p, obj, off, len, f, s);
      EnterOwners(f.owners[f.ino := SetOf(obj'.entries)]);
    }

    /** The program's delete loop, and then the mended list. */
    method DeleteRangeMended(obj: DataObject, off: nat, len: nat, ino: nat)
        returns (ok: bool, obj': DataObject)
      requires Sane() && ino in owners && owners[ino] == SetOf(obj.entries) && Tiled(obj) && len >= 1
      requires off < obj.size
      modifies this`owners, gc.blockTable, gc.blockTable.table, store
      ensures ok ==> Sane() && Tiled(obj') && owners == old(owners)[ino := SetOf(obj'.entries)]
      ensures ok ==> Cleared(old(store.pages), store.pages, obj, obj', off, off + len)
      ensures ok ==> AllSame(old(store.pages), store.pages, old(owners) - {ino})
      ensures Ended(ok, gc.blockTable.view.frontier) ==
              Take(Some(old(gc.blockTable.view.frontier)), PartPages(Beyond(obj.entries, off + len)))
    {
      ghost var was := store.pages;
      var p; ghost var f;
      ok, p, f := RunDeleteLoop(obj, off, len, ino);
      if !ok {
        return false, obj;
      }
      obj' := FinishMended(p, obj, off, len, f, was);
    }

    method RunDeleteLoop(obj: DataObject, off: nat, len: nat, ino: nat)
        returns (ok: bool, p: Trimming, ghost f: Deletion)
      requires Sane() && ino in owners && owners[ino] == SetOf(obj.entries) && Tiled(obj) && len >= 1
      requires off < obj.size
      modifies this`owners, gc.blockTable, gc.blockTable.table, store
      ensures f.es == obj.entries && f.off == off && f.end == off + len && f.ino == ino
      ensures f.pages == old(store.pages) && f.owners == old(owners) && DistinctPointers(f.es)
      ensures ok ==> gc.blockTable.Valid() && DeleteAt(f, |f.es|, p, Now())
      ensures Ended(ok, gc.blockTable.view.frontier) ==
              Take(Some(old(gc.blockTable.view.frontier)), PartPages(Beyond(obj.entries, off + len)))
    {
      ghost var goal := Take(Some(gc.blockTable.view.frontier), PartPages(Beyond(obj.entries, off + len)));
      p := Trimming(obj.entries, [], -1, None);
      f := StartDelete(obj, off, len, ino, p, goal, Now());
      ok, p := DeleteLoop(obj.entries, off, off + len, ino, p, f, goal);
    }

    /**
     Deletes len bytes of a file from off on: whatever the range, the file's bytes are the old ones without it, every
     other file keeps its bytes, and the accounts stay exact.
     */
    method DeleteMended(ino: nat, off: nat, len: nat) returns (ok: bool)
      requires Valid() && len >= 1
      modifies this, gc.blockTable, gc.blockTable.table, store
      ensures ok ==> Valid() && objects.Keys == old(objects.Keys)
      ensures ok && off < old(ObjectAt(ino).size) ==> Content(ino) == Removed(old(Content(ino)), off, off + len)
      ensures ok && off >= old(ObjectAt(ino).size) ==> Content(ino) == old(Content(ino))
      ensures ok ==> OthersSame(old(store.pages), store.pages, old(objects), objects, ino)
      ensures Ended(ok, gc.blockTable.view.frontier) ==
              Take(Some(old(gc.blockTable.view.frontier)), PartPages(Beyond(old(ObjectAt(ino).entries), off + len)))
    {
      if ino in objects && off < objects[ino].size {
        ok := DeleteStoredMended(ino, off, len);
      } else {
        NothingDeleted(ino, off, len);
        ok := true;
      }
    }

    /** A range past the end needs no pages, and leaves everything as it is. */
    lemma NothingDeleted(ino: nat, off: nat, len: nat)
      requires Valid() && off >= ObjectAt(ino).size
      ensures PartPages(Beyond(ObjectAt(ino).entries, off + len)) == 0
      ensures OthersSame(store.pages, store.pages, objects, objects, ino)
    {
      PastEnd(ObjectAt(ino).entries, off + len);
      AllSameRefl(store.pages, gc.blockTable.view, owners);
      OthersKept(store.pages, store.pages, objects, objects, owners, ino);
    }

    method DeleteStoredMended(ino: nat, off: nat, len: nat) returns (ok: bool)
      requires Valid() && len >= 1 && ino in objects && off < objects[ino].size
      modifies this, gc.blockTable, gc.blockTable.table, store
      ensures ok ==> Valid() && objects.Keys == old(objects.Keys)
      ensures ok ==> Cleared(old(store.pages), store.pages, old(objects[ino]), objects[ino], off, off + len)
      ensures ok ==> OthersSame(old(store.pages), store.pages, old(objects), objects, ino)
      ensures Ended(ok, gc.blockTable.view.frontier) ==
              Take(Some(old(gc.blockTable.view.frontier)), PartPages(Beyond(old(objects[ino].entries), off + len)))
    {
      ghost var pages, entered := store.pages, owners;
      var obj' := objects[ino];
      ok, obj' := DeleteRangeMended(obj', off, len, ino);
      if ok {
        InUseTiled(obj');
        Reowned(objects, ino, InUse(obj'.entries), entered, owners);
        StoreObject(ino, obj', pages);
      }
    }

    // ----- reading

    method ReadDataObjectAll(obj: DataObject) returns (data: Bytes)
      requires WholePages(store.pages) && Archived(obj.entries)
      ensures data == BytesOf(store.pages, obj.entries)
    {
      data := [];
      for i := 0 to |obj.entries|
        invariant data == BytesOf(store.pages, obj.entries[..i])
      {
        var part := ReadExtent(store, obj.entries[i]);
        assert obj.entries[..i + 1][..i] == obj.entries[..i];
        data := data + part;
      }
      assert obj.entries[..|obj.entries|] == obj.entries;
    }

    /** The extent that off lies in: the last one, unless a later extent begins behind off. */
    method FindEntry(es: seq<Extent>, off: nat) returns (index: nat)
      requires TilesFrom(es, 0) && off < SumLen(es)
      ensures Holds(es, index, off)
    {
      index := 0;
      assert es[..|es|] == es;
      for i := 0 to |es|
        invariant forall j :: 0 <= j < i ==> es[j].offset <= off
        invariant i == |es| ==> index == |es| - 1
      {
        TilesAt(es, 0, i);
        if off < es[i].offset {
          TilesAt(es, 0, i - 1);
          return i - 1;
        }
        if i == |es| - 1 {
          index := |es| - 1;
        }
      }
      TilesAt(es, 0, |es| - 1);
    }

    /** A range within the object, read extent by extent; the first slice may run past its extent. */
    method ReadRange(es: seq<Extent>, off: nat, len: nat) returns (r: Outcome)
      requires WholePages(store.pages) && TilesFrom(es, 0) && len >= 1 && off + len <= SumLen(es)
      ensures Archived(es) && |BytesOf(store.pages, es)| == SumLen(es)
      ensures r == if Readable(es, off, len) then Read(BytesOf(store.pages, es)[off..off + len]) else Panics
    {
      BytesLength(store.pages, es, 0);
      ghost var c := BytesOf(store.pages, es);
      var index := FindEntry(es, off);
      var first := ReadFirst(es, index, off, len, c);
      if first.None? {
        return Panics;
      }
      var readNum := |first.value|;
      var rest := ReadOn(es, index + 1, off + readNum, len - readNum, c);
      ReadsMore(c, off, off + readNum, off + len, first.value, rest);
      r := Read(first.value + rest);
    }

    /** As many bytes as the first extent has, up to len, sliced from off on; None where that runs past its end. */
    method ReadFirst(es: seq<Extent>, index: nat, off: nat, len: nat, ghost c: Bytes) returns (first: Option<Bytes>)
      requires WholePages(store.pages) && TilesFrom(es, 0) && Holds(es, index, off) && len >= 1
      requires Archived(es) && c == BytesOf(store.pages, es) && off + len <= |c|
      ensures first.Some? <==> Readable(es, off, len)
      ensures first.Some? ==> |first.value| <= len && first.value == c[off..off + |first.value|]
      ensures first.Some? && |first.value| < len ==> off + |first.value| == SumLen(es[..index + 1])
    {
      FirstSlice(es, index, off, len);
      var data := ReadExtent(store, es[index]);
      var readNum := if |data| < len then |data| else len;
      var from := off - es[index].offset;
      if from + readNum > |data| {
        return None;
      }
      SliceReads(store.pages, es, index, off, readNum);
      first := Some(data[from..from + readNum]);
      SliceLength(c, off, readNum, first.value);
    }

    /** The range read with its first slice capped by the bytes left in the extent: it gives every range. */
    method ReadRangeCapped(es: seq<Extent>, off: nat, len: nat) returns (r: Bytes)
      requires WholePages(store.pages) && TilesFrom(es, 0) && len >= 1 && off + len <= SumLen(es)
      ensures Archived(es) && |BytesOf(store.pages, es)| == SumLen(es) && r == BytesOf(store.pages, es)[off..off + len]
    {
      BytesLength(store.pages, es, 0);
      ghost var c := BytesOf(store.pages, es);
      var index := FindEntry(es, off);
      var first := ReadFirstCapped(es, index, off, len, c);
      var readNum := |first|;
      var rest := ReadOn(es, index + 1, off + readNum, len - readNum, c);
      ReadsMore(c, off, off + readNum, off + len, first, rest);
      r := first + rest;
    }

    method ReadFirstCapped(es: seq<Extent>, index: nat, off: nat, len: nat, ghost c: Bytes) returns (first: Bytes)
      requires WholePages(store.pages) && TilesFrom(es, 0) && Holds(es, index, off) && len >= 1
      requires Archived(es) && c == BytesOf(store.pages, es) && off + len <= |c|
      ensures |first| <= len && first == c[off..off + |first|]
      ensures |first| < len ==> off + |first| == SumLen(es[..index + 1])
    {
      Within(store.pages, es, index, off);
      var data := ReadExtent(store, es[index]);
      var from := off - es[index].offset;
      var left := |data| - from;
      var readNum := if left < len then left else len;
      first := data[from..from + readNum];
      CappedReads(store.pages, es, index, off, len, c, data, from, readNum, first);
    }

    /** The remaining bytes, each extent read from its start. */
    method ReadOn(es: seq<Extent>, index0: nat, ghost at: nat, remainNum0: nat, ghost c: Bytes) returns (result: Bytes)
      requires WholePages(store.pages) && TilesFrom(es, 0) && index0 <= |es| && at + remainNum0 <= SumLen(es) == |c|
      requires Archived(es) && c == BytesOf(store.pages, es)
      requires remainNum0 > 0 ==> at == SumLen(es[..index0])
      ensures result == c[at..at + remainNum0]
    {
      result := [];
      var index: nat, remainNum: nat := index0, remainNum0;
      ghost var to: nat := at;
      while remainNum != 0
        invariant index <= |es| && to + remainNum == at + remainNum0 && at <= to
        invariant remainNum > 0 ==> to == SumLen(es[..index])
        invariant result == c[at..to]
      {
        ghost var from := to;
        var part := ReadNext(es, index, remainNum, c, from);
        to := to + |part|;
        ReadsMore(c, at, from, to, result, part);
        result := result + part;
        remainNum := remainNum - |part|;
        index := index + 1;
      }
    }

    /** The first of the remaining bytes: the whole of the next extent, or as much of it as is wanted. */
    method ReadNext(es: seq<Extent>, index: nat, remainNum: nat, ghost c: Bytes, ghost to: nat) returns (part: Bytes)
      requires WholePages(store.pages) && TilesFrom(es, 0) && index <= |es| && 0 < remainNum
      requires to + remainNum <= SumLen(es) == |c|
      requires Archived(es) && c == BytesOf(store.pages, es) && to == SumLen(es[..index])
      ensures index < |es| && 0 < |part| <= remainNum && part == c[to..to + |part|]
      ensures |part| < remainNum ==> to + |part| == SumLen(es[..index + 1])
    {
      ReadsNext(store.pages, es, index, remainNum, c, to);
      TilesAt(es, 0, index);
      var data := ReadExtent(store, es[index]);
      var readNum := if |data| < remainNum then |data| else remainNum;
      part := data[..readNum];
    }

    /**
     Reads len bytes of a file from off on, or the whole file for len 0.  A range past the end gives what there
     is from off on.  A range within the file gives exactly its bytes, or fails in its first slice: it succeeds
     if and only if it begins on an extent boundary or ends within the extent it begins in.
     */
    method Get(ino: nat, off: nat, len: nat) returns (r: Outcome)
      requires Valid()
      ensures ino !in objects ==> r == Absent
      ensures ino in objects ==> |Content(ino)| == objects[ino].size
      ensures ino in objects && len == 0 ==> r == Read(Content(ino))
      ensures ino in objects && len >= 1 && off + len > objects[ino].size ==>
        r == if off <= objects[ino].size then Read(Content(ino)[off..]) else Panics
      ensures ino in objects && len >= 1 && off + len <= objects[ino].size ==>
        r == if Readable(objects[ino].entries, off, len) then Read(Content(ino)[off..off + len]) else Panics
    {
      if ino !in objects {
        return Absent;
      }
      var obj := objects[ino];
      BytesLength(store.pages, obj.entries, 0);
      if len != 0 {
        if off + len > obj.size {
          var data := ReadDataObjectAll(obj);
          return if off <= |data| then Read(data[off..]) else Panics;
        }
        r := ReadRange(obj.entries, off, len);
      } else {
        var data := ReadDataObjectAll(obj);
        r := Read(data);
      }
    }

    // ----- files

    /**
     Writes value into a file at off, creating the file if need be: its bytes are the old ones with value
     spliced in, every other file keeps its bytes, and the accounts stay exact.
     */
    method Set(ino: nat, off: nat, value: Bytes) returns (ok: bool, size: nat)
      requires Valid() && |value| >= 1
      modifies this, gc.blockTable, gc.blockTable.table, store
      ensures ok ==> Valid() && objects.Keys == old(objects.Keys) + {ino} && size == ObjectAt(ino).size
      ensures ok && off <= old(ObjectAt(ino).size) ==> Content(ino) == Splice(old(Content(ino)), off, value)
      ensures ok && off > old(ObjectAt(ino).size) ==> Content(ino) == old(Content(ino))
      ensures ok && off == old(ObjectAt(ino).size) ==> Appended(old(ObjectAt(ino)), ObjectAt(ino), |value|)
      ensures ok ==> OthersSame(old(store.pages), store.pages, old(objects), objects, ino)
      ensures Ended(ok, gc.blockTable.view.frontier) ==
              SetTakes(old(ObjectAt(ino)), off, |value|, old(gc.blockTable.view.frontier))
    {
      ghost var pages := store.pages;
      var obj := EnterFile(ino);
      ghost var entered := owners;
      var obj';
      ok, obj' := SetDataObject(obj, off, value, ino);
      size := obj'.size;
      if ok {
        StoreTiled(ino, obj, obj', pages, entered);
      }
    }

    /** A changed object that is a tiling is stored. */
    method StoreTiled(ino: nat, ghost obj: DataObject, obj': DataObject, ghost pages: map<nat, Bytes>,
                      ghost entered: Owners)
      requires Sane() && Tiled(obj') && WholePages(pages) && AllSame(pages, store.pages, entered - {ino})
      requires entered == OwnersOf(objects)[ino := SetOf(obj.entries)]
      requires owners == entered[ino := SetOf(obj'.entries)]
      requires forall i :: i in objects && i != ino ==> Tiled(objects[i])
      modifies this`objects
      ensures Valid() && objects == old(objects)[ino := obj']
      ensures OthersSame(pages, store.pages, old(objects), objects, ino)
    {
      InUseTiled(obj');
      Reentered(objects, ino, SetOf(obj.entries), SetOf(obj'.entries), entered, owners);
      StoreObject(ino, obj', pages);
    }

    /**
     Deletes len bytes of a file from off on.  The reported size is always the old one less the overlap.  The
     store stays in order, and the file reads as the flat sequence without the range, if and only if the range
     is past the end of the file or begins and ends on extent boundaries.
     */
    method Delete(ino: nat, off: nat, len: nat) returns (ok: bool, size: nat)
      requires Valid() && len >= 1
      modifies this, gc.blockTable, gc.blockTable.table, store
      ensures ino !in old(objects) ==> ok && size == 0
      ensures ok ==> Sane() && objects.Keys == old(objects.Keys) && size == ObjectAt(ino).size
      ensures ok && off >= old(ObjectAt(ino).size) ==>
          Valid() && objects == old(objects) && store.pages == old(store.pages)
      ensures ok && off < old(ObjectAt(ino).size) ==>
        && DeletedAsWritten(old(store.pages), store.pages, old(ObjectAt(ino)), ObjectAt(ino), off, off + len)
        && (Valid() <==> OnBoundaries(old(ObjectAt(ino).entries), off, off + len))
      ensures ok ==> OthersSame(old(store.pages), store.pages, old(objects), objects, ino)
      ensures Ended(ok, gc.blockTable.view.frontier) ==
              Take(Some(old(gc.blockTable.view.frontier)), PartPages(Beyond(old(ObjectAt(ino).entries), off + len)))
    {
      if ino !in objects {
        AllSameRefl(store.pages, gc.blockTable.view, owners);
        OthersKept(store.pages, store.pages, objects, objects, owners, ino);
        return true, 0;
      }
      ok, size := DeleteStored(ino, off, len);
    }

    method DeleteStored(ino: nat, off: nat, len: nat) returns (ok: bool, size: nat)
      requires Valid() && len >= 1 && ino in objects
      modifies this, gc.blockTable, gc.blockTable.table, store
      ensures ok ==> Sane() && objects.Keys == old(objects.Keys) && size == objects[ino].size
      ensures ok && off >= old(objects[ino].size) ==>
          Valid() && objects == old(objects) && store.pages == old(store.pages)
      ensures ok && off < old(objects[ino].size) ==>
        && DeletedAsWritten(old(store.pages), store.pages, old(objects[ino]), objects[ino], off, off + len)
        && (Valid() <==> OnBoundaries(old(objects[ino].entries), off, off + len))
      ensures ok ==> OthersSame(old(store.pages), store.pages, old(objects), objects, ino)
      ensures Ended(ok, gc.blockTable.view.frontier) ==
              Take(Some(old(gc.blockTable.view.frontier)), PartPages(Beyond(old(objects[ino].entries), off + len)))
    {
      ghost var pages, entered := store.pages, owners;
      var obj' := objects[ino];
      ok, obj' := DeleteDataObject(obj', off, len, ino);
      size := obj'.size;
      if ok {
        Reowned(objects, ino, InUse(obj'.entries), entered, owners);
        StoreObject(ino, obj', pages);
      }
    }

    /** The object of a file, or an empty one, which then has an entry in the accounts. */
    method EnterFile(ino: nat) returns (obj: DataObject)
      requires Valid()
      modifies this`owners
      ensures Sane() && obj == ObjectAt(ino) && Tiled(obj) && owners == OwnersOf(objects)[ino := SetOf(obj.entries)]
    {
      obj := if ino in objects then objects[ino] else EMPTY_OBJECT;
      owners := owners[ino := SetOf(obj.entries)];
      OwnerEntered(gc.blockTable.view, objects, ino);
    }

    /** The changed object is stored, with the accounts changed already. */
    method StoreObject(ino: nat, obj: DataObject, ghost pages: map<nat, Bytes>)
      requires Sane() && WholePages(pages) && AllSame(pages, store.pages, owners - {ino})
      requires owners == OwnersOf(objects)[ino := InUse(obj.entries)]
      requires forall i :: i in objects && i != ino ==> Tiled(objects[i])
      modifies this`objects
      ensures Sane() && objects == old(objects)[ino := obj] && (Valid() <==> Tiled(obj))
      ensures OthersSame(pages, store.pages, old(objects), objects, ino)
    {
      ghost var was := objects;
      objects := objects[ino := obj];
      OthersKept(pages, store.pages, was, objects, owners, ino);
      if Tiled(obj) {
        InUseTiled(obj);
        StoredOwners(was, ino, owners, obj);
      }
    }

    /** Gives back all extents of an object. */
    method RecycleDataObjectAll(obj: DataObject, ino: nat) returns (obj': DataObject)
      requires Sane() && ino in owners && owners[ino] == SetOf(obj.entries) && Tiled(obj)
      modifies this`owners, gc.blockTable, gc.blockTable.table
      ensures Sane() && owners == old(owners)[ino := {}] && obj' == EMPTY_OBJECT
      ensures gc.blockTable.view.frontier == old(gc.blockTable.view.frontier)
    {
      ghost var owners0 := owners;
      assert owners == owners0[ino := SetOf(obj.entries[0..])] by { assert obj.entries[0..] == obj.entries; }
      for i := 0 to |obj.entries|
        invariant Sane() && owners == owners0[ino := SetOf(obj.entries[i..])]
        invariant gc.blockTable.view.frontier == old(gc.blockTable.view.frontier)
      {
        DropFirst(obj.entries, i);
        DropExtent(obj.entries[i], ino);
      }
      assert SetOf(obj.entries[|obj.entries|..]) == {};
      obj' := EMPTY_OBJECT;
    }

    /**
     A set of no bytes behind offset 0: everything the file holds is given back, the write itself lies past the
     end of what is left, and the file is empty.
     */
    method SetNoBytes(ino: nat, off: nat) returns (size: nat)
      requires Valid() && off >= 1
      modifies this, gc.blockTable, gc.blockTable.table
      ensures Valid() && objects == old(objects)[ino := EMPTY_OBJECT] && size == 0
      ensures OthersSame(store.pages, store.pages, old(objects), objects, ino)
      ensures gc.blockTable.view.frontier == old(gc.blockTable.view.frontier)
    {
      var obj := EnterFile(ino);
      ghost var entered := owners;
      AllSameRefl(store.pages, gc.blockTable.view, owners);
      var obj' := RecycleDataObjectAll(obj, ino);
      size := obj'.size;
      Reentered(objects, ino, SetOf(obj.entries), {}, entered, owners);
      assert InUse(obj'.entries) == {};
      StoreObject(ino, obj', store.pages);
    }

    // ----- collecting garbage

    /**
     Where a group stands with the given moves left: every object reads as at the start, and those without an
     extent in the block have not been touched.
     */
    ghost predicate Collecting(pages: map<nat, Bytes>, was: map<nat, DataObject>, busy: nat, block: nat,
                               moves: seq<MoveGCEvent>)
      requires WholePages(pages)
      reads this, gc, gc.blockTable, gc.blockTable.table, store
    {
      && Valid() && SameObjects(pages, store.pages, was, objects) && LeftAlone(was, objects, block)
      && Count(gc.blockTable.view.status, IsBusy) == busy
      && WellFormed(gc.blockTable.view, owners, block, moves)
    }

    /** One move: the pages are copied and marked, and the stored object is pointed to the new ones. */
    method DisposeMove(m: MoveGCEvent, ghost at: nat)
      requires Valid() && m.ino in objects && at < |objects[m.ino].entries|
      requires Takes(m, m.ino, objects[m.ino].entries[at]) && AtFrontier(gc.blockTable.view, m.dAddress, m.size)
      requires FitsIn(gc.blockTable.view, m)
      requires Consistent(AfterMove(gc.blockTable.view, m), MovedOwners(owners, m, objects[m.ino].entries[at]))
      modifies this, gc.blockTable, gc.blockTable.table, store
      ensures Valid() && gc.blockTable.view == AfterMove(old(gc.blockTable.view), m)
      ensures owners == MovedOwners(old(owners), m, old(objects)[m.ino].entries[at])
      ensures SameObjects(old(store.pages), store.pages, old(objects), objects)
      ensures m.ino in objects && objects == old(objects)[m.ino := objects[m.ino]]
    {
      ghost var v, p0 := gc.blockTable.view, store.pages;
      OwnedPointers(v, owners, m.ino, objects[m.ino].entries);
      MoveRun(gc.blockTable, store, m.oAddress, m.dAddress, m.size, m.ino);
      PointTo(m, at, v, p0);
    }

    /** The stored object is read, pointed to the new pages and stored again. */
    method PointTo(m: MoveGCEvent, ghost at: nat, ghost v: Blocks, ghost p0: map<nat, Bytes>)
      requires gc.blockTable.Valid() && WholePages(store.pages) && WholePages(p0)
      requires owners == OwnersOf(objects) && (forall i :: i in objects ==> Tiled(objects[i]))
      requires Consistent(v, owners) && FitsIn(v, m) && AtFrontier(v, m.dAddress, m.size)
      requires m.ino in objects && at < |objects[m.ino].entries| && Takes(m, m.ino, objects[m.ino].entries[at])
      requires DistinctPointers(objects[m.ino].entries)
      requires Elsewhere(p0, store.pages, m.dAddress, m.size)
      requires Run(store.pages, MAIN + m.dAddress, m.size) == Run(p0, MAIN + m.oAddress, m.size)
      requires Consistent(gc.blockTable.view, MovedOwners(owners, m, objects[m.ino].entries[at]))
      modifies this
      ensures Valid() && owners == MovedOwners(old(owners), m, old(objects)[m.ino].entries[at])
      ensures SameObjects(p0, store.pages, old(objects), objects)
      ensures m.ino in objects && objects == old(objects)[m.ino := objects[m.ino]]
    {
      ghost var before := objects;
      var obj := objects[m.ino];
      var entries := Repoint(obj.entries, m.oAddress, m.dAddress, at);
      objects, owners := objects[m.ino := DataObject(obj.size, entries)], MovedOwners(owners, m, obj.entries[at]);
      assert Sane();
      MoveObjects(v, p0, store.pages, before, m, at, entries, objects);
    }

    /** The first of the moves left. */
    method DisposeNext(m: MoveGCEvent, ghost pages: map<nat, Bytes>, ghost was: map<nat, DataObject>, ghost busy: nat,
                       ghost block: nat, ghost moves: seq<MoveGCEvent>)
      requires WholePages(pages) && Collecting(pages, was, busy, block, moves) && |moves| > 0 && m == moves[0]
      modifies this, gc.blockTable, gc.blockTable.table, store
      ensures Collecting(pages, was, busy, block, moves[1..])
    {
      ghost var before, p0 := objects, store.pages;
      ghost var e, at := MovedEntry(gc.blockTable.view, objects, block, moves);
      MoveAccounts(gc.blockTable.view, owners, block, moves, e);
      DisposeMove(m, at);
      StillAlone(was, before, objects, block, m.ino, at);
      SameObjectsTrans(pages, p0, store.pages, was, before, objects);
    }

    method DisposeErase(blockNo: nat)
      requires Valid() && WellFormed(gc.blockTable.view, owners, blockNo, [])
      modifies this, gc.blockTable, gc.blockTable.table, store
      ensures Valid() && objects == old(objects) && gc.blockTable.view == Erased(old(gc.blockTable.view), blockNo)
      ensures SameObjects(old(store.pages), store.pages, objects, objects)
      ensures Count(gc.blockTable.view.status, IsBusy) == Count(old(gc.blockTable.view).status, IsBusy)
    {
      ghost var v, p0 := gc.blockTable.view, store.pages;
      NoneLeft(v, owners, blockNo);
      EraseKeeps(v, owners, blockNo);
      EraseConserves(v, owners, blockNo);
      store.EraseBlock(105 + blockNo);
      gc.blockTable.EraseBlock(blockNo);
      EraseKeepsBytes(v, owners, blockNo, p0, store.pages);
      KeptObjects(p0, store.pages, objects);
    }

    /**
     Carries out a well-formed group: every object keeps its bytes, the accounts stay exact, as many pages are
     busy as before, and the block ends up erased.
     */
    method DisposeGcGroup(group: seq<GCEvent>, ghost block: nat, ghost moves: seq<MoveGCEvent>)
      requires Valid() && WellFormed(gc.blockTable.view, owners, block, moves) && group == GroupOf(moves, block)
      modifies this, gc.blockTable, gc.blockTable.table, store
      ensures Valid() && SameObjects(old(store.pages), store.pages, old(objects), objects)
      ensures LeftAlone(old(objects), objects, block)
      ensures Count(gc.blockTable.view.status, IsBusy) == Count(old(gc.blockTable.view).status, IsBusy)
      ensures EmptyBlock(gc.blockTable.view, block)
    {
      ghost var pages, was, busy := store.pages, objects, Count(gc.blockTable.view.status, IsBusy);
      SameObjectsRefl(pages, was);
      assert moves[0..] == moves;
      for k := 0 to |group| - 1
        invariant Collecting(pages, was, busy, block, moves[k..])
      {
        DisposeNext(group[k].event, pages, was, busy, block, moves[k..]);
        assert moves[k..][1..] == moves[k + 1..];
      }
      var last := group[|group| - 1];
      assert last == Erase(block) && moves[|moves|..] == [];
      DisposeErase(last.blockNo);
    }

    /** The block that would be chosen for collection can be planned right. */
    ghost predicate CanCollect()
      requires gc.blockTable.Valid()
      reads this, gc, gc.blockTable, gc.blockTable.table
    {
      var v := gc.blockTable.view;
      exists b :: MostDirty(v, b, gc.blockTable.size) && Collectable(v, owners, b)
    }

    method ForwardGc()
      requires Valid() && CanCollect()
      modifies this, gc.blockTable, gc.blockTable.table, store
      ensures Valid() && SameObjects(old(store.pages), store.pages, old(objects), objects)
      ensures Count(gc.blockTable.view.status, IsBusy) == Count(old(gc.blockTable.view).status, IsBusy)
      ensures HasRoom(gc.blockTable.view, BLOCK)
      ensures exists b ::
        && MostDirty(old(gc.blockTable.view), b, gc.blockTable.size)
        && EmptyBlock(gc.blockTable.view, b) && LeftAlone(old(objects), objects, b)
    {
      ghost var v := gc.blockTable.view;
      ghost var b :| MostDirty(v, b, gc.blockTable.size) && Collectable(v, owners, b);
      PlanWellFormed(v, owners, b);
      var group := gc.NewGcEvent(b);
      DisposeGcGroup(group.value, b, PlanFor(v, b).value);
      MostFreeFits(gc.blockTable.view.frontier, b);
    }

    /** First fit, as the allocation loop uses it. */
    method TryWritePos(size: nat) returns (res: Option<nat>)
      requires gc.blockTable.Valid() && 1 <= size <= BLOCK
      ensures res.Some? <==> HasRoom(gc.blockTable.view, size)
      ensures res.Some? ==> GoodPosition(gc.blockTable.view, res.value, size)
      ensures res.Some? ==> IsFirst(gc.blockTable.view.frontier, size, res.value / BLOCK)
    {
      FirstFitFinds(gc.blockTable.view, 0, size, None);
      RoomIsUsable(gc.blockTable.view, size);
      res := gc.FindWritePos(size);
    }

    /**
     Finds size pages at the frontier of the first block that has them, collecting garbage until one has.  For at
     most a block's worth of pages one collection is enough, and no file changes; where there is room nothing does.
     */
    method FindWritePos(size: nat) returns (pos: nat, ghost rounds: nat)
      requires Valid() && 1 <= size <= BLOCK && (HasRoom(gc.blockTable.view, size) || CanCollect())
      modifies this, gc.blockTable, gc.blockTable.table, store
      ensures Valid() && SameObjects(old(store.pages), store.pages, old(objects), objects)
      ensures Count(gc.blockTable.view.status, IsBusy) == Count(old(gc.blockTable.view).status, IsBusy)
      ensures GoodPosition(gc.blockTable.view, pos, size) && CleanRun(gc.blockTable.view, pos, size)
      ensures IsFirst(gc.blockTable.view.frontier, size, pos / BLOCK)
      ensures rounds == if HasRoom(old(gc.blockTable.view), size) then 0 else 1
      ensures rounds == 0 ==>
        gc.blockTable.view == old(gc.blockTable.view) && store.pages == old(store.pages) && objects == old(objects)
    {
      SameObjectsRefl(store.pages, objects);
      rounds := 0;
      ghost var had := HasRoom(gc.blockTable.view, size);
      var res: Option<nat> := TryWritePos(size);
      while res.None?
        invariant Valid() && SameObjects(old(store.pages), store.pages, old(objects), objects)
        invariant Count(gc.blockTable.view.status, IsBusy) == Count(old(gc.blockTable.view).status, IsBusy)
        invariant res.Some? ==> GoodPosition(gc.blockTable.view, res.value, size)
        invariant res.Some? ==> IsFirst(gc.blockTable.view.frontier, size, res.value / BLOCK)
        invariant rounds == 0 ==>
          gc.blockTable.view == old(gc.blockTable.view) && store.pages == old(store.pages) && objects == old(objects)
        invariant res.None? ==> rounds == 0 && CanCollect() && !had
        invariant res.Some? ==> rounds == if had then 0 else 1
        decreases res.None?
      {
        ghost var p0, was := store.pages, objects;
        ForwardGc();
        SameObjectsTrans(old(store.pages), p0, store.pages, old(objects), was, objects);
        rounds := rounds + 1;
        res := TryWritePos(size);
      }
      pos := res.value;
      FrontierRun(gc.blockTable.view, owners, pos, size);
    }
  }

  /** The extent starts at the frontier of the first block that has its pages. */
  ghost predicate StartsFirst(fr: seq<nat>, e: Extent)
    requires e.archivedLen >= 1
  {
    var b := e.pagePointer / BLOCK;
    IsFirst(fr, Pages(e), b) && e.pagePointer == b * BLOCK + fr[b]
  }

  /** size pages at the frontier of a block. */
  ghost predicate GoodPosition(v: Blocks, pos: nat, size: nat) {
    Shaped(v) && AtFrontier(v, pos, size) && pos + size <= |v.status|
  }

  /** The pages are clean and lie in one block. */
  ghost predicate CleanRun(v: Blocks, pos: nat, size: nat) {
    forall a :: pos <= a < pos + size ==> a < |v.status| && v.status[a] == Clean && a / BLOCK == pos / BLOCK
  }

  lemma FrontierRun(v: Blocks, owners: Owners, pos: nat, size: nat)
    requires Consistent(v, owners) && GoodPosition(v, pos, size)
    ensures CleanRun(v, pos, size)
  {
    assert FrontierClean(v, pos / BLOCK);
  }

  /** The block is clean, with its whole length to be reserved. */
  ghost predicate EmptyBlock(v: Blocks, block: nat) {
    && Shaped(v) && block < |v.frontier| && v.frontier[block] == 0
    && forall a :: block * BLOCK <= a < (block + 1) * BLOCK && a < |v.status| ==> v.status[a] == Clean
  }

  lemma DropFirst(es: seq<Extent>, i: nat)
    requires TilesFrom(es, 0) && i < |es|
    ensures es[i] in SetOf(es[i..]) && SetOf(es[i..]) - {es[i]} == SetOf(es[i + 1..])
  {
    assert es[i..] == [es[i]] + es[i + 1..];
    forall j | 0 <= j < |es| && j != i ensures es[j] != es[i] { TilesDistinct(es, i, j); }
  }

  /** Entering a new file, or an old one again, leaves the accounts in order. */
  lemma OwnerEntered(v: Blocks, objects: map<nat, DataObject>, ino: nat)
    requires Consistent(v, OwnersOf(objects))
    ensures var es := if ino in objects then objects[ino].entries else [];
      Consistent(v, OwnersOf(objects)[ino := SetOf(es)])
  {
    var owners := OwnersOf(objects);
    if ino in objects {
      assert owners[ino := SetOf(objects[ino].entries)] == owners;
    } else {
      forall a | 0 <= a < |v.status| && v.status[a].Busy? ensures Accounted(owners[ino := {}], v.status[a].ino, a) {
        assert Accounted(owners, v.status[a].ino, a);
        var e :| e in owners[v.status[a].ino] && CoversPage(e, a);
        assert e in owners[ino := {}][v.status[a].ino];
      }
      assert SetOf([]) == {};
    }
  }

  /** A file's entry in the accounts, and another one in its place. */
  lemma Reentered(objects: map<nat, DataObject>, ino: nat, es: set<Extent>, es': set<Extent>, entered: Owners,
                  owners: Owners)
    requires entered == OwnersOf(objects)[ino := es] && owners == entered[ino := es']
    ensures owners == OwnersOf(objects)[ino := es'] && owners - {ino} == entered - {ino}
  {}

  lemma Reowned(objects: map<nat, DataObject>, ino: nat, es: set<Extent>, entered: Owners, owners: Owners)
    requires entered == OwnersOf(objects) && owners == entered[ino := es]
    ensures owners == OwnersOf(objects)[ino := es] && owners - {ino} == entered - {ino}
  {}

  /** The accounts are those of the stored objects once the new object is stored. */
  lemma StoredOwners(objects: map<nat, DataObject>, ino: nat, owners: Owners, obj: DataObject)
    requires owners == OwnersOf(objects)[ino := SetOf(obj.entries)]
    ensures OwnersOf(objects[ino := obj]) == owners
  {}

  lemma InUseTiled(obj: DataObject)
    requires Tiled(obj)
    ensures InUse(obj.entries) == SetOf(obj.entries)
  {
    TilesSound(obj.entries, 0);
    InUseSound(obj.entries);
  }

  /** Every file but one is the same object, with the same bytes. */
  ghost predicate OthersSame(pages: map<nat, Bytes>, pages': map<nat, Bytes>,
                             objects: map<nat, DataObject>, objects': map<nat, DataObject>, ino: nat)
    requires WholePages(pages) && WholePages(pages')
  {
    && (forall i :: i in objects' && i != ino ==> i in objects)
    && (forall i :: i in objects && i != ino ==>
         i in objects' && objects'[i] == objects[i] && SameContent(pages, pages', objects[i]))
  }

  ghost predicate SameContent(pages: map<nat, Bytes>, pages': map<nat, Bytes>, obj: DataObject)
    requires WholePages(pages) && WholePages(pages')
  {
    && Archived(obj.entries)
    && BytesOf(pages', obj.entries) == BytesOf(pages, obj.entries)
  }

  /** Files whose extents read as before have the bytes they had. */
  lemma OthersKept(pages: map<nat, Bytes>, pages': map<nat, Bytes>, objects: map<nat, DataObject>,
                   objects': map<nat, DataObject>, owners: Owners, ino: nat)
    requires WholePages(pages) && WholePages(pages') && AllSame(pages, pages', owners - {ino})
    requires ino in objects' ==> objects' == objects[ino := objects'[ino]]
    requires ino !in objects' ==> objects' == objects
    requires forall i :: i in objects && i != ino ==> i in owners && owners[i] == SetOf(objects[i].entries)
    ensures OthersSame(pages, pages', objects, objects', ino)
  {
    forall i | i in objects && i != ino ensures SameContent(pages, pages', objects[i]) {
      assert i in owners - {ino} && (owners - {ino})[i] == SetOf(objects[i].entries);
      SameBytesOf(pages, pages', objects[i].entries);
    }
  }

  /** Room for a whole block is room for less. */
  lemma RoomIsUsable(v: Blocks, size: nat)
    requires size <= BLOCK
    ensures HasRoom(v, BLOCK) ==> HasRoom(v, size)
    ensures HasRoom(v, size) <==> exists c :: 0 <= c < |v.frontier| && Usable(v, c, size, None)
  {
    RoomSomewhere(v, size);
    if HasRoom(v, size) {
      var b :| 0 <= b < |v.frontier| && v.frontier[b] + size <= BLOCK;
      assert Usable(v, b, size, None);
    }
  }
}
