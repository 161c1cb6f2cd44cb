/**
 Directories end to end: linking and unlinking names in an inode whose bytes are kept by the key-value manager.
 Every record is its own extent, so that unlinking deletes on extent boundaries.
 */
module Directory {
  import opened Prelude
  import opened SstRecord
  import opened Flash
  import opened Extents
  import opened Frontiers
  import opened ExtentCuts
  import opened ExtentDeletes
  import opened ObjectAccounts
  import opened Overwriting
  import opened Deleting
  import opened KvManager
  import opened DirectoryRecords

  datatype InodeFileType = File | Directory | Symlink

  // ----- extents of one record each

  ghost predicate EachOwn(es: seq<Extent>) {
    forall e :: e in es ==> e.len == 259
  }

  lemma {:induction false} EachOwnSum(es: seq<Extent>)
    requires EachOwn(es)
    ensures SumLen(es) == 259 * |es|
  {
    if |es| != 0 {
      EachOwnSum(es[..|es| - 1]);
    }
  }

  /** The i-th record is the i-th extent. */
  lemma EachOwnAt(es: seq<Extent>, i: nat)
    requires TilesFrom(es, 0) && EachOwn(es) && i < |es|
    ensures es[i].offset == 259 * i && es[i].len == 259
  {
    TilesAt(es, 0, i);
    EachOwnSum(es[..i]);
  }

  /** Records begin and end on extent boundaries. */
  lemma RecordBoundary(es: seq<Extent>, i: nat)
    requires TilesFrom(es, 0) && EachOwn(es)
    ensures Inside(es, 259 * i) == 0 && Beyond(es, 259 * i) == 0
  {
    forall k | 0 <= k < |es| ensures !(es[k].offset < 259 * i < es[k].offset + es[k].len) {
      EachOwnAt(es, k);
      NotBetween(k, i);
    }
    InsideNone(es, 259 * i);
  }

  lemma RecordBoundaries(es: seq<Extent>, i: nat)
    requires TilesFrom(es, 0) && EachOwn(es)
    ensures OnBoundaries(es, 259 * i, 259 * i + 259)
  {
    RecordBoundary(es, i);
    RecordBoundary(es, i + 1);
    assert 259 * (i + 1) == 259 * i + 259;
  }

  lemma NotBetween(k: nat, i: nat)
    ensures !(259 * k < 259 * i < 259 * k + 259)
  {
    if i <= k {
      assert 259 * i <= 259 * k;
    } else {
      assert 259 * (k + 1) <= 259 * i;
    }
  }

  lemma AppendedOwn(obj: DataObject, obj': DataObject)
    requires EachOwn(obj.entries) && Appended(obj, obj', 259)
    ensures EachOwn(obj'.entries)
  {}

  lemma CutOutOwn(es: seq<Extent>, es': seq<Extent>, len: nat)
    requires EachOwn(es) && CutOut(es, es', len)
    ensures EachOwn(es')
  {
    var lo, hi :| 0 <= lo <= hi <= |es| && es' == es[..lo] + Shifted(es[hi..], len);
    forall e | e in es' ensures e.len == 259 {
      var k :| 0 <= k < |es'| && es'[k] == e;
      if k < lo {
        assert es[k] in es;
      } else {
        assert es'[k] == Shift(es[hi..][k - lo], len);
      }
    }
  }

  // ----- inodes

  class Inode {
    const kv: KVManager
    const ino: nat
    const fileType: InodeFileType
    var size: nat

    constructor (kv: KVManager, ino: nat, fileType: InodeFileType, size: nat)
      ensures this.kv == kv && this.ino == ino && this.fileType == fileType && this.size == size
    {
      this.kv, this.ino, this.fileType, this.size := kv, ino, fileType, size;
    }

    /** The cached size is that of the stored object. */
    ghost predicate Valid()
      reads this, kv, kv.gc, kv.gc.blockTable, kv.gc.blockTable.table, kv.store
    {
      kv.Valid() && size == kv.ObjectAt(ino).size
    }

    /** The inode is a directory that holds the records, each in an extent of its own. */
    ghost predicate Holds(es: seq<DirectoryInodeEntry>)
      reads this, kv, kv.gc, kv.gc.blockTable, kv.gc.blockTable.table, kv.store
    {
      && Valid() && GoodEntries(es)
      && kv.Content(ino) == EncodeListing(es) && EachOwn(kv.ObjectAt(ino).entries)
    }

    method ReadAll() returns (buf: Bytes)
      requires Valid()
      ensures buf == kv.Content(ino)
    {
      StartBoundary(kv.ObjectAt(ino).entries);
      var r := kv.Get(ino, 0, size);
      buf := if r.Read? then r.data else [];
    }

    /** Writes, and keeps the size; an offset past the end changes nothing. */
    method Write(offset: nat, buf: Bytes) returns (ok: bool)
      requires Valid() && |buf| >= 1
      modifies this`size, kv, kv.gc.blockTable, kv.gc.blockTable.table, kv.store
      ensures ok ==> Valid()
      ensures ok && offset <= old(size) ==> kv.Content(ino) == Splice(old(kv.Content(ino)), offset, buf)
      ensures ok && offset > old(size) ==> kv.Content(ino) == old(kv.Content(ino))
      ensures ok && offset == old(size) ==> Appended(old(kv.ObjectAt(ino)), kv.ObjectAt(ino), |buf|)
      ensures ok ==> OthersSame(old(kv.store.pages), kv.store.pages, old(kv.objects), kv.objects, ino)
      ensures Ended(ok, kv.gc.blockTable.view.frontier) ==
              SetTakes(old(kv.ObjectAt(ino)), offset, |buf|, old(kv.gc.blockTable.view.frontier))
    {
      var newSize;
      ok, newSize := kv.Set(ino, offset, buf);
      size := newSize;
    }

    /** Deletes a range, and keeps the size. */
    method Truncate(offset: nat, len: nat) returns (ok: bool)
      requires Valid() && len >= 1
      modifies this`size, kv, kv.gc.blockTable, kv.gc.blockTable.table, kv.store
      ensures ok ==> kv.Sane() && size == kv.ObjectAt(ino).size
      ensures ok && offset >= old(size) ==>
        Valid() && kv.objects == old(kv.objects) && kv.store.pages == old(kv.store.pages)
      ensures ok && offset < old(size) ==>
        && DeletedAsWritten(old(kv.store.pages), kv.store.pages, old(kv.ObjectAt(ino)), kv.ObjectAt(ino), offset,
            offset + len)
        && (Valid() <==> OnBoundaries(old(kv.ObjectAt(ino).entries), offset, offset + len))
      ensures ok ==> OthersSame(old(kv.store.pages), kv.store.pages, old(kv.objects), kv.objects, ino)
      ensures Ended(ok, kv.gc.blockTable.view.frontier) ==
        Take(Some(old(kv.gc.blockTable.view.frontier)), PartPages(Beyond(old(kv.ObjectAt(ino).entries), offset + len)))
    {
      var newSize;
      ok, newSize := kv.Delete(ino, offset, len);
      size := newSize;
    }
  }

  // ----- lookup, link, unlink

  /** The i-th record of a directory's bytes. */
  lemma RecordOf(es: seq<DirectoryInodeEntry>, i: nat)
    requires GoodEntries(es) && i < |es|
    ensures 259 * i + 259 <= |EncodeListing(es)|
    ensures DecodeRecord(EncodeListing(es)[259 * i..259 * i + 259]) == Some(es[i])
  {
    ListingAround(es, i);
    assert es[i] in es;
    RecordRoundTrip(es[i]);
  }

  /** The inode number and the position of the first record of that name; nothing for other kinds of inode. */
  method DirLookup(inode: Inode, name: Bytes, ghost es: seq<DirectoryInodeEntry>) returns (r: Option<(nat, nat)>)
    requires inode.Valid() && (inode.fileType.Directory? ==> inode.Holds(es))
    ensures r == if inode.fileType.Directory? then FindName(es, name) else None
  {
    if inode.fileType != Directory {
      return None;
    }
    var buf := inode.ReadAll();
    if |buf| == 0 {
      return None;
    }
    r := FindByName(buf, name, es);
  }

  method FindByName(buf: Bytes, name: Bytes, ghost es: seq<DirectoryInodeEntry>) returns (r: Option<(nat, nat)>)
    requires GoodEntries(es) && buf == EncodeListing(es)
    ensures r == FindName(es, name)
  {
    var i: nat, count: nat := 0, 0;
    while count < |buf|
      invariant i <= |es| && count == 259 * i
      invariant FindName(es, name) == FindFrom(es, name, i)
    {
      RecordOf(es, i);
      var entry := Decode(buf[count..count + 259]);
      if entry.value.ino != 0 && entry.value.fileName == name {
        return Some((entry.value.ino, i));
      }
      i, count := i + 1, count + 259;
    }
    r := None;
  }

  /** An inode of size 0 is an empty directory. */
  lemma EmptyDirectory(inode: Inode)
    requires inode.Valid() && inode.size == 0
    ensures inode.Holds([])
  {
    TilesSound(inode.kv.ObjectAt(inode.ino).entries, 0);
  }

  /** After a record was written at the end. */
  lemma LinkedHolds(inode: Inode, es: seq<DirectoryInodeEntry>, e: DirectoryInodeEntry, was: DataObject)
    requires inode.Valid() && GoodEntries(es) && GoodEntries(es + [e]) && EachOwn(was.entries)
    requires inode.kv.Content(inode.ino) == EncodeListing(es) + EncodeRecord(e)
    requires Appended(was, inode.kv.ObjectAt(inode.ino), 259)
    ensures inode.Holds(es + [e])
  {
    ListingAppend(es, e);
    AppendedOwn(was, inode.kv.ObjectAt(inode.ino));
  }

  /** A record behind the others needs one page. */
  lemma EndPages(es: seq<Extent>, end: nat, fr: seq<nat>)
    requires TilesFrom(es, 0) && end == SumLen(es)
    ensures WriteTakes(es, end, 259, fr) == Take(Some(fr), 1)
  {
    PastEnd(es, end);
    PastEnd(es, end + 259);
  }

  /**
   Links a name to an inode number: the list of records grows by one, unless the name is in use.  It takes one
   page, from the first block that has one.
   */
  method DirLink(inode: Inode, ino: nat, name: Bytes, ghost es: seq<DirectoryInodeEntry>)
      returns (ok: bool, ghost es': seq<DirectoryInodeEntry>)
    requires inode.fileType.Directory? && inode.Holds(es) && GoodOp(Link(ino, name))
    modifies inode, inode.kv, inode.kv.gc.blockTable, inode.kv.gc.blockTable.table, inode.kv.store
    ensures es' == Apply(es, Link(ino, name))
    ensures ok ==> inode.Holds(es')
    ensures ok ==>
        OthersSame(old(inode.kv.store.pages), inode.kv.store.pages, old(inode.kv.objects), inode.kv.objects, inode.ino)
    ensures Ended(ok, inode.kv.gc.blockTable.view.frontier) ==
            Take(Some(old(inode.kv.gc.blockTable.view.frontier)), if FindName(es, name).Some? then 0 else 1)
  {
    es' := Apply(es, Link(ino, name));
    ApplyAgrees(es, Link(ino, name));
    var found := DirLookup(inode, name, es);
    if found.Some? {
      ok := true;
      NothingChanged(inode.kv);
    } else {
      ok := WriteRecord(inode, DirectoryInodeEntry(name, ino), es);
    }
  }

  /** The record is written behind the others. */
  method WriteRecord(inode: Inode, entry: DirectoryInodeEntry, ghost es: seq<DirectoryInodeEntry>)
      returns (ok: bool)
    requires inode.Holds(es) && GoodEntries(es + [entry])
    modifies inode, inode.kv, inode.kv.gc.blockTable, inode.kv.gc.blockTable.table, inode.kv.store
    ensures ok ==> inode.Holds(es + [entry])
    ensures ok ==>
        OthersSame(old(inode.kv.store.pages), inode.kv.store.pages, old(inode.kv.objects), inode.kv.objects, inode.ino)
    ensures Ended(ok, inode.kv.gc.blockTable.view.frontier) == Take(Some(old(inode.kv.gc.blockTable.view.frontier)), 1)
  {
    ghost var was := inode.kv.ObjectAt(inode.ino);
    EndPages(was.entries, was.size, inode.kv.gc.blockTable.view.frontier);
    var index := inode.size / 259;
    var buf := Encode(entry);
    SpliceEnd(EncodeListing(es), buf);
    ok := inode.Write(index * 259, buf);
    if ok {
      LinkedHolds(inode, es, entry, was);
    }
  }

  lemma NothingChanged(kv: KVManager)
    requires kv.Valid()
    ensures forall ino :: OthersSame(kv.store.pages, kv.store.pages, kv.objects, kv.objects, ino)
  {
    AllSameRefl(kv.store.pages, kv.gc.blockTable.view, kv.owners);
    forall i | i in kv.objects ensures SameContent(kv.store.pages, kv.store.pages, kv.objects[i]) {
      TilesSound(kv.objects[i].entries, 0);
    }
  }

  /** The extents and bytes of a directory after a record was deleted. */
  lemma DeletedRecord(es: seq<DirectoryInodeEntry>, i: nat, was: DataObject, now: DataObject,
                      pages: map<nat, Bytes>, pages': map<nat, Bytes>)
    requires i < |es| && EachOwn(was.entries) && WholePages(pages) && WholePages(pages') && Tiled(was)
    requires Archived(was.entries) && BytesOf(pages, was.entries) == EncodeListing(es)
    requires 259 * i < was.size && DeletedAsWritten(pages, pages', was, now, 259 * i, 259 * i + 259)
    ensures OnBoundaries(was.entries, 259 * i, 259 * i + 259)
    ensures Tiled(now) && EachOwn(now.entries) && Archived(now.entries)
    ensures BytesOf(pages', now.entries) == EncodeListing(Dropped(es, i))
  {
    RecordBoundaries(was.entries, i);
    ListingDrop(es, i);
    CutOutOwn(was.entries, now.entries, 259);
  }

  /** After a record was deleted. */
  lemma UnlinkedHolds(inode: Inode, es: seq<DirectoryInodeEntry>, i: nat, was: DataObject, pages: map<nat, Bytes>)
    requires i < |es| && GoodEntries(es) && EachOwn(was.entries) && WholePages(pages) && Tiled(was)
    requires Archived(was.entries) && BytesOf(pages, was.entries) == EncodeListing(es)
    requires 259 * i < was.size && WholePages(inode.kv.store.pages)
    requires DeletedAsWritten(pages, inode.kv.store.pages, was, inode.kv.ObjectAt(inode.ino), 259 * i, 259 * i + 259)
    requires inode.Valid() <==> OnBoundaries(was.entries, 259 * i, 259 * i + 259)
    ensures inode.Holds(Dropped(es, i))
  {
    DeletedRecord(es, i, was, inode.kv.ObjectAt(inode.ino), pages, inode.kv.store.pages);
    GoodDropped(es, i);
  }

  /** The position of the record with that name and inode number; the number of records if there is none. */
  method FindRecord(buf: Bytes, ino: nat, name: Bytes, ghost es: seq<DirectoryInodeEntry>) returns (index: nat)
    requires GoodEntries(es) && buf == EncodeListing(es)
    ensures index <= |es| && (index < |es| ==> es[index] == DirectoryInodeEntry(name, ino))
    ensures index == |es| ==> DirectoryInodeEntry(name, ino) !in es
  {
    index := 0;
    var count := 0;
    while count < |buf|
      invariant index <= |es| && count == 259 * index
      invariant forall k :: 0 <= k < index ==> es[k] != DirectoryInodeEntry(name, ino)
    {
      RecordOf(es, index);
      var entry := Decode(buf[count..count + 259]);
      if entry.value.ino == ino && entry.value.fileName == name {
        return;
      }
      index, count := index + 1, count + 259;
    }
  }

  /** Unlinking takes out the record found, and nothing if the name belongs to another inode. */
  lemma UnlinkApplies(es: seq<DirectoryInodeEntry>, ino: nat, name: Bytes, index: nat)
    requires GoodEntries(es) && index <= |es| && (index < |es| ==> es[index] == DirectoryInodeEntry(name, ino))
    requires index == |es| ==> DirectoryInodeEntry(name, ino) !in es
    ensures Apply(es, Unlink(ino, name)) == if index < |es| then Dropped(es, index) else es
  {
    FindFromFinds(es, name, 0);
    var found := FindName(es, name);
    if found.Some? && index < |es| && found.value.1 != index {
      DifferentNames(es, found.value.1, index);
    }
  }

  /** Unlinks a name from an inode number, if it stands for that one. */
  method DirUnlink(inode: Inode, ino: nat, name: Bytes, ghost es: seq<DirectoryInodeEntry>)
      returns (ok: bool, ghost es': seq<DirectoryInodeEntry>)
    requires inode.fileType.Directory? && inode.Holds(es)
    modifies inode, inode.kv, inode.kv.gc.blockTable, inode.kv.gc.blockTable.table, inode.kv.store
    ensures es' == Apply(es, Unlink(ino, name))
    ensures ok ==> inode.Holds(es')
    ensures ok ==>
        OthersSame(old(inode.kv.store.pages), inode.kv.store.pages, old(inode.kv.objects), inode.kv.objects, inode.ino)
    ensures ok && inode.kv.gc.blockTable.view.frontier == old(inode.kv.gc.blockTable.view.frontier)
  {
    es' := Apply(es, Unlink(ino, name));
    var found := DirLookup(inode, name, es);
    ok := true;
    NothingChanged(inode.kv);
    if found.Some? {
      var buf := inode.ReadAll();
      if |buf| != 0 {
        var index := FindRecord(buf, ino, name, es);
        UnlinkApplies(es, ino, name, index);
        if index != |buf| {
          ok := TruncateRecord(inode, index, es);
        }
      }
    }
  }

  /** What deleting the record at i can count on. */
  lemma RecordStands(inode: Inode, es: seq<DirectoryInodeEntry>, i: nat, was: DataObject)
    requires inode.Holds(es) && was == inode.kv.ObjectAt(inode.ino)
    ensures Tiled(was) && EachOwn(was.entries) && Archived(was.entries) && was.size == inode.size == 259 * |es|
    ensures BytesOf(inode.kv.store.pages, was.entries) == EncodeListing(es)
    ensures PartPages(Beyond(was.entries, 259 * i + 259)) == 0
  {
    RecordBoundaries(was.entries, i);
    BytesLength(inode.kv.store.pages, was.entries, 0);
  }

  method TruncateRecord(inode: Inode, index: nat, ghost es: seq<DirectoryInodeEntry>)
      returns (ok: bool)
    requires inode.Holds(es) && index <= |es|
    modifies inode, inode.kv, inode.kv.gc.blockTable, inode.kv.gc.blockTable.table, inode.kv.store
    ensures ok ==> inode.Holds(if index < |es| then Dropped(es, index) else es)
    ensures ok ==>
        OthersSame(old(inode.kv.store.pages), inode.kv.store.pages, old(inode.kv.objects), inode.kv.objects, inode.ino)
    ensures ok && inode.kv.gc.blockTable.view.frontier == old(inode.kv.gc.blockTable.view.frontier)
  {
    ghost var was, pages := inode.kv.ObjectAt(inode.ino), inode.kv.store.pages;
    RecordStands(inode, es, index, was);
    ok := inode.Truncate(259 * index, 259);
    if ok && index < |es| {
      UnlinkedHolds(inode, es, index, was, pages);
    }
  }

  lemma StartBoundary(es: seq<Extent>)
    requires TilesFrom(es, 0)
    ensures Inside(es, 0) == 0
  {
    InsideNone(es, 0);
  }
}
