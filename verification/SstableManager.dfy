/**
 The table files on flash: which file lives in which block, lookups from the newest file to the oldest with
 parsed blocks cached, and rebuilding the index from the page headers.
 */
module SstableManager {
  import opened Prelude
  import opened SstRecord
  import opened Flash
  import opened BlockParser
  import opened Memtable
  import opened TableWriter

  /** The first of num blocks that has the key decides. */
  ghost function FileLookup(pages: map<nat, Bytes>, block: nat, num: nat, key: Bytes): Option<Bytes>
    requires WholePages(pages)
    decreases num
  {
    if num == 0 then None
    else if key in ParsedBlock(pages, block).entries then Some(ParsedBlock(pages, block).entries[key])
    else FileLookup(pages, block + 1, num - 1, key)
  }

  /** Every cached parse is what a fresh parse of its block would give. */
  ghost predicate CacheOk(pages: map<nat, Bytes>, block: nat, cache: seq<Option<BlockIter>>)
    requires WholePages(pages)
  {
    forall i :: 0 <= i < |cache| && cache[i].Some? ==> cache[i].value == ParsedBlock(pages, block + i)
  }

  class FileIter {
    const blockId: nat
    const blockNum: nat
    const readBuf: PageStore
    var blockIter: seq<Option<BlockIter>>

    ghost predicate Valid()
      reads this, readBuf
    {
      && WholePages(readBuf.pages)
      && |blockIter| == blockNum
      && CacheOk(readBuf.pages, blockId, blockIter)
    }

    /** It reads the one block it was made for, from the given store. */
    ghost predicate Serves(store: PageStore, block: nat)
      reads this, store
    {
      readBuf == store && blockId == block && blockNum == 1 && Valid()
    }

    constructor (blockId: nat, blockNum: nat, readBuf: PageStore)
      requires WholePages(readBuf.pages)
      ensures Valid() && this.blockId == blockId && this.blockNum == blockNum && this.readBuf == readBuf
    {
      this.blockId, this.blockNum, this.readBuf := blockId, blockNum, readBuf;
      blockIter := seq(blockNum, i => None);
    }

    /** Parses a block on its first use. */
    method Load(i: nat, ghost block: nat) returns (entries: map<Bytes, Bytes>)
      requires Valid() && i < blockNum && block == blockId + i
      modifies this
      ensures Valid() && entries == ParsedBlock(readBuf.pages, block).entries
    {
      if blockIter[i].None? {
        var parsed := ParseBlock(readBuf, blockId + i);
        blockIter := blockIter[i := Some(parsed)];
      }
      entries := blockIter[i].value.entries;
    }

    method Get(key: Bytes) returns (r: Option<Bytes>)
      requires Valid()
      modifies this
      ensures Valid() && r == FileLookup(readBuf.pages, blockId, blockNum, key)
    {
      var i: nat, left: nat := blockId, blockNum;
      ghost var pages := readBuf.pages;
      ghost var all := FileLookup(pages, blockId, blockNum, key);
      while left > 0
        invariant i == blockId + (blockNum - left) && left <= blockNum
        invariant Valid() && readBuf.pages == pages && all == FileLookup(pages, i, left, key)
      {
        var entries := Load(i - blockId, i);
        if key in entries {
          return Some(entries[key]);
        }
        i, left := i + 1, left - 1;
      }
      r := None;
    }
  }

  type Tables = seq<seq<Entry>>

  /** The map all tables stand for, newer ones over older ones. */
  ghost function Overlay(tables: Tables): map<Bytes, Bytes> {
    if |tables| == 0 then map[] else Overlay(tables[..|tables| - 1]) + Table(tables[|tables| - 1])
  }

  /** Block by block from first on, the pages hold the table files 1, 2, ... and parse back to the tables. */
  ghost predicate OnFlash(pages: map<nat, Bytes>, first: nat, tables: Tables) {
    && WholePages(pages)
    && forall i :: 0 <= i < |tables| ==> BlockHolds(pages, first + i, i + 1, tables[i])
  }

  ghost predicate BlockHolds(pages: map<nat, Bytes>, block: nat, id: nat, es: seq<Entry>)
    requires WholePages(pages)
  {
    && ParsedBlock(pages, block).entries == Table(es)
    && ReadPage(pages, block * PAGES_PER_BLOCK)[..HEADER_SIZE] == PageHeader(id)
  }

  /** A page whose first four bytes are not the magic number. */
  predicate NoMagic(page: Bytes)
    requires |page| >= 4
  {
    !(page[0] == 0x22 && page[1] == 0x22 && page[2] == 0xff && page[3] == 0xff)
  }

  lemma {:induction false} BlockUnchanged(pages: map<nat, Bytes>, pages': map<nat, Bytes>, block: nat, base: nat,
                                          n: nat)
    requires WholePages(pages) && WholePages(pages')
    requires OnlyBetween(pages, pages', base, base + n)
    requires (block + 1) * PAGES_PER_BLOCK <= base || base + n <= block * PAGES_PER_BLOCK
    ensures ParsedBlock(pages', block) == ParsedBlock(pages, block)
    ensures ReadPage(pages', block * PAGES_PER_BLOCK) == ReadPage(pages, block * PAGES_PER_BLOCK)
  {
    RunUnchanged(pages, pages', block * PAGES_PER_BLOCK, PAGES_PER_BLOCK);
  }

  /** The entries a flush may be handed: storable, with the size limit of the memtable. */
  ghost predicate Flushable(es: seq<Entry>) {
    && Sorted(es)
    && (forall i :: 0 <= i < |es| ==> Storable(es[i]))
    && HEADER_SIZE + SizeOf(es) + EOF_SIZE <= PAGE * PAGES_PER_BLOCK
  }

  lemma FitsBlock(es: seq<Entry>)
    requires Flushable(es)
    ensures PagesUsed(es) <= PAGES_PER_BLOCK
  {}

  lemma OldBlocksHold(pages: map<nat, Bytes>, pages': map<nat, Bytes>, first: nat, tables: Tables, n: nat)
    requires OnFlash(pages, first, tables) && WholePages(pages')
    requires OnlyBetween(pages, pages', (first + |tables|) * PAGES_PER_BLOCK, (first + |tables|) * PAGES_PER_BLOCK + n)
    ensures OnFlash(pages', first, tables)
  {
    forall i | 0 <= i < |tables| ensures BlockHolds(pages', first + i, i + 1, tables[i]) {
      assert BlockHolds(pages, first + i, i + 1, tables[i]);
      EarlierBlock(first + i, first + |tables|);
      BlockUnchanged(pages, pages', first + i, (first + |tables|) * PAGES_PER_BLOCK, n);
    }
  }

  lemma EarlierBlock(b: nat, c: nat)
    requires b < c
    ensures (b + 1) * PAGES_PER_BLOCK <= c * PAGES_PER_BLOCK
  {}

  /** After a table is written the earlier blocks are as before and the new block holds it. */
  lemma WrittenOnFlash(pages: map<nat, Bytes>, pages': map<nat, Bytes>, first: nat, tables: Tables, es: seq<Entry>,
                       base: nat)
    requires OnFlash(pages, first, tables) && WholePages(pages') && Flushable(es)
    requires base == (first + |tables|) * PAGES_PER_BLOCK && OnlyBetween(pages, pages', base, base + PagesUsed(es))
    requires HoldsTable(pages', base, |tables| + 1, es)
    ensures OnFlash(pages', first, tables + [es])
  {
    OldBlocksHold(pages, pages', first, tables, PagesUsed(es));
    NewBlockHolds(pages', first + |tables|, |tables| + 1, es);
    forall i | 0 <= i < |tables| + 1 ensures BlockHolds(pages', first + i, i + 1, (tables + [es])[i]) {
      assert i < |tables| ==> BlockHolds(pages', first + i, i + 1, tables[i]);
    }
  }

  lemma NewBlockHolds(pages: map<nat, Bytes>, block: nat, id: nat, es: seq<Entry>)
    requires WholePages(pages) && Flushable(es) && HoldsTable(pages, block * PAGES_PER_BLOCK, id, es)
    ensures BlockHolds(pages, block, id, es)
  {
    FitsBlock(es);
    TableParses(pages, block, id, es);
    RecordAllIsPutAll(EMPTY_BLOCK, es);
    HeaderWritten(pages, block * PAGES_PER_BLOCK, id, es);
  }

  lemma HeaderWritten(pages: map<nat, Bytes>, base: nat, id: nat, es: seq<Entry>)
    requires WholePages(pages) && HoldsTable(pages, base, id, es)
    ensures ReadPage(pages, base)[..HEADER_SIZE] == PageHeader(id)
  {
    RunFirst(pages, base, PagesUsed(es));
    RunLength(pages, base + 1, PagesUsed(es) - 1);
    var page, rest := ReadPage(pages, base), Run(pages, base + 1, PagesUsed(es) - 1);
    assert (page + rest)[..HEADER_SIZE] == page[..HEADER_SIZE];
    var tail := Blank(PAGE - ((HEADER_SIZE + SizeOf(es) - 1) % PAGE + 1 + EOF_SIZE));
    assert (PageHeader(id) + EncodeAll(es) + EncodeEntry(EOF_ENTRY) + tail)[..HEADER_SIZE] == PageHeader(id);
  }

  // ----- the index after n files

  function FilesOf(first: nat, n: nat): (m: map<nat, (nat, nat)>)
    ensures forall id :: id in m <==> 1 <= id <= n
    ensures forall id :: id in m ==> m[id] == (first + id - 1, 1 as nat)
  {
    if n == 0 then map[] else FilesOf(first, n - 1)[n := (first + n - 1, 1)]
  }

  function FileTableOf(first: nat, n: nat): map<nat, seq<nat>> {
    if n == 0 then map[] else FileTableOf(first, n - 1)[n := [first + n - 1]]
  }

  function BlockTableOf(first: nat, n: nat): (m: map<nat, bool>)
    ensures forall b :: b in m <==> first <= b < first + n
    ensures forall b :: b in m ==> m[b]
  {
    if n == 0 then map[] else BlockTableOf(first, n - 1)[first + n - 1 := true]
  }

  /** Writing a later block leaves the cached parse of a block right. */
  lemma CacheStays(pages: map<nat, Bytes>, pages': map<nat, Bytes>, block: nat, cache: seq<Option<BlockIter>>,
                   written: nat, es: seq<Entry>)
    requires WholePages(pages) && WholePages(pages') && Flushable(es)
    requires |cache| == 1 && block < written && CacheOk(pages, block, cache)
    requires OnlyBetween(pages, pages', written * PAGES_PER_BLOCK, written * PAGES_PER_BLOCK + PagesUsed(es))
    ensures CacheOk(pages', block, cache)
  {
    BlockUnchanged(pages, pages', block, written * PAGES_PER_BLOCK, PagesUsed(es));
  }

  lemma OverlayNewest(tables: Tables, n: nat, key: Bytes)
    requires 0 < n <= |tables|
    ensures Lookup(Overlay(tables[..n]), key) ==
            var newest := Lookup(Table(tables[n - 1]), key);
            if newest.Some? then newest else Lookup(Overlay(tables[..n - 1]), key)
  {
    assert tables[..n][..n - 1] == tables[..n - 1];
  }

  /** A file of one block holds what its table says. */
  lemma OneBlockLookup(pages: map<nat, Bytes>, first: nat, tables: Tables, id: nat, key: Bytes)
    requires OnFlash(pages, first, tables) && 1 <= id <= |tables|
    ensures FileLookup(pages, first + id - 1, 1, key) == Lookup(Table(tables[id - 1]), key)
  {
    assert BlockHolds(pages, first + (id - 1), id - 1 + 1, tables[id - 1]);
    assert FileLookup(pages, first + id - 1 + 1, 0, key) == None;
  }

  class SSTableManager {
    var sstableNum: nat
    var sstableMaxId: nat
    var curBlockId: nat
    const blockNum: nat
    const blockId: nat
    var files: map<nat, (nat, nat)>
    var fileTable: map<nat, seq<nat>>
    var blockTable: map<nat, bool>
    var fileIter: map<nat, FileIter>
    const buf: PageStore
    ghost var tables: Tables

    /** The index lists file i + 1 in the i-th block of the area, for the first k blocks. */
    ghost predicate Found(k: nat)
      reads this
    {
      && sstableNum == k && sstableMaxId == k
      && files == FilesOf(blockId, k)
      && fileTable == FileTableOf(blockId, k)
      && blockTable == BlockTableOf(blockId, k)
    }

    /** The index after n files were flushed one by one. */
    ghost predicate Indexed(n: nat)
      reads this
    {
      Found(n) && curBlockId == blockId + n
    }

    ghost predicate Cached(n: nat)
      reads this, buf, fileIter.Values
    {
      forall id :: id in fileIter ==> 1 <= id <= n && fileIter[id].Serves(buf, blockId + id - 1)
    }

    ghost predicate Valid()
      reads this, buf, fileIter.Values
    {
      && OnFlash(buf.pages, blockId, tables)
      && |tables| < blockNum
      && Indexed(|tables|)
      && Cached(|tables|)
    }

    constructor (blockId: nat, blockNum: nat, buf: PageStore)
      requires WholePages(buf.pages) && blockNum > 0
      ensures Valid() && tables == [] && fileIter == map[]
      ensures this.blockId == blockId && this.blockNum == blockNum && this.buf == buf
    {
      this.buf, this.blockNum, this.blockId, curBlockId := buf, blockNum, blockId, blockId;
      sstableMaxId, sstableNum := 0, 0;
      files, fileTable, blockTable, fileIter := map[], map[], map[], map[];
      tables := [];
    }

    /** Newest file first; every block parsed on the way is kept. */
    method Get(key: Bytes) returns (r: Option<Bytes>)
      requires Valid()
      modifies this`fileIter, fileIter.Values
      ensures Valid()
      ensures r == Lookup(Overlay(tables), key)
      ensures forall f :: f in fileIter.Values ==> f in old(fileIter.Values) || fresh(f)
    {
      r := Search(key, tables);
    }

    method Search(key: Bytes, ghost ts: Tables) returns (r: Option<Bytes>)
      requires OnFlash(buf.pages, blockId, ts) && sstableMaxId == |ts|
      requires Cached(|ts|) && files == FilesOf(blockId, |ts|)
      modifies this`fileIter, fileIter.Values
      ensures Cached(|ts|) && r == Lookup(Overlay(ts), key)
      ensures forall f :: f in fileIter.Values ==> f in old(fileIter.Values) || fresh(f)
    {
      var fileId := sstableMaxId;
      assert ts[..fileId] == ts;
      while fileId > 0
        invariant fileId <= |ts|
        invariant Lookup(Overlay(ts), key) == Lookup(Overlay(ts[..fileId]), key)
        invariant Cached(|ts|)
        invariant forall f :: f in fileIter.Values ==> f in old(fileIter.Values) || fresh(f)
        modifies this`fileIter, fileIter.Values
      {
        OverlayNewest(ts, fileId, key);
        if fileId in files {
          r := GetInFile(fileId, key, ts);
          if r.Some? {
            return r;
          }
        }
        fileId := fileId - 1;
      }
      r := None;
    }

    method GetInFile(fileId: nat, key: Bytes, ghost ts: Tables) returns (r: Option<Bytes>)
      requires OnFlash(buf.pages, blockId, ts) && 1 <= fileId <= |ts|
      requires Cached(|ts|) && files == FilesOf(blockId, |ts|)
      modifies this`fileIter, fileIter.Values
      ensures Cached(|ts|)
      ensures r == Lookup(Table(ts[fileId - 1]), key)
      ensures forall f :: f in fileIter.Values ==> f in old(fileIter.Values) || fresh(f)
    {
      OneBlockLookup(buf.pages, blockId, ts, fileId, key);
      r := LookInFile(fileId, |ts|, key);
    }

    /** The file's iterator is made on first use and kept. */
    method LookInFile(fileId: nat, ghost n: nat, key: Bytes) returns (r: Option<Bytes>)
      requires WholePages(buf.pages) && Cached(n) && 1 <= fileId <= n && files == FilesOf(blockId, n)
      modifies this`fileIter, fileIter.Values
      ensures Cached(n)
      ensures r == FileLookup(buf.pages, blockId + fileId - 1, 1, key)
      ensures forall f :: f in fileIter.Values ==> f in old(fileIter.Values) || fresh(f)
    {
      if fileId !in fileIter {
        assert files[fileId] == (blockId + fileId - 1, 1);
        var iter := new FileIter(files[fileId].0, files[fileId].1, buf);
        r := iter.Get(key);
        fileIter := fileIter[fileId := iter];
      } else {
        var iter := fileIter[fileId];
        assert iter.Serves(buf, blockId + fileId - 1);
        r := iter.Get(key);
      }
    }

    /**
     Writes one file and moves on to the next free block.  It stops short exactly when the end record does
     not fit in the last page, or when this file took the last block of the area.
     */
    method Flush(entries: seq<Entry>) returns (ok: bool)
      requires Valid() && Flushable(entries)
      modifies this, buf
      ensures ok <==> EofFits(entries) && |old(tables)| + 1 < blockNum
      ensures ok ==> Valid() && tables == old(tables) + [entries] && fileIter == old(fileIter)
      ensures OnlyBetween(old(buf.pages), buf.pages, old(curBlockId) * PAGES_PER_BLOCK,
                          (old(curBlockId) + 1) * PAGES_PER_BLOCK)
    {
      FitsBlock(entries);
      AddFile(|tables|);
      ghost var pages := buf.pages;
      var base := curBlockId * PAGES_PER_BLOCK;
      assert base == (blockId + |tables|) * PAGES_PER_BLOCK;
      ok := WriteTable(buf, base, sstableMaxId, entries);
      if ok {
        KeepCache(pages, |tables|, entries, base);
        WrittenOnFlash(pages, buf.pages, blockId, tables, entries, base);
        tables := tables + [entries];
        ok := UpdateCurBlockId(|tables|);
      }
    }

    /** The new file enters the index with the current block. */
    method AddFile(ghost n: nat)
      requires Indexed(n)
      modifies this`sstableMaxId, this`sstableNum, this`files, this`fileTable, this`blockTable
      ensures Found(n + 1)
    {
      sstableMaxId := sstableMaxId + 1;
      sstableNum := sstableNum + 1;
      files := files[sstableMaxId := (curBlockId, 1)];
      fileTable := fileTable[sstableMaxId := [curBlockId]];
      blockTable := blockTable[curBlockId := true];
    }

    /** Cached parses are of earlier blocks than the one written, so they stay right. */
    lemma KeepCache(pages: map<nat, Bytes>, n: nat, es: seq<Entry>, base: nat)
      requires WholePages(pages) && WholePages(buf.pages) && Flushable(es)
      requires forall id :: id in fileIter ==>
        && 1 <= id <= n && fileIter[id].readBuf == buf && fileIter[id].blockId == blockId + id - 1
        && fileIter[id].blockNum == 1 == |fileIter[id].blockIter|
        && CacheOk(pages, fileIter[id].blockId, fileIter[id].blockIter)
      requires base == (blockId + n) * PAGES_PER_BLOCK && OnlyBetween(pages, buf.pages, base, base + PagesUsed(es))
      ensures Cached(n)
    {
      forall id | id in fileIter ensures fileIter[id].Serves(buf, blockId + id - 1) {
        CacheStays(pages, buf.pages, fileIter[id].blockId, fileIter[id].blockIter, blockId + n, es);
      }
    }

    /** The next free block after the current one; false where the search gives up. */
    method UpdateCurBlockId(ghost n: nat) returns (ok: bool)
      requires 1 <= n <= blockNum && curBlockId == blockId + n - 1
      requires blockTable == BlockTableOf(blockId, n)
      modifies this`curBlockId
      ensures ok <==> n < blockNum
      ensures ok ==> curBlockId == blockId + n
    {
      if curBlockId == blockId + blockNum - 1 {
        curBlockId := blockId;
      } else {
        curBlockId := curBlockId + 1;
      }
      var loopNum := 0;
      while curBlockId in blockTable && blockTable[curBlockId]
        invariant loopNum < blockNum
        invariant n < blockNum ==> curBlockId == blockId + n
        invariant n == blockNum ==> curBlockId == blockId + loopNum
        decreases blockNum - loopNum
      {
        curBlockId := curBlockId + 1;
        loopNum := loopNum + 1;
        if loopNum == blockNum {
          return false;
        }
      }
      ok := true;
    }

    method Clear()
      modifies this
      ensures curBlockId == 0 && sstableMaxId == 0 && sstableNum == 0
      ensures files == map[] && fileTable == map[] && blockTable == map[]
      ensures fileIter == old(fileIter) && tables == old(tables)
    {
      curBlockId, sstableMaxId, sstableNum := 0, 0, 0;
      files, fileTable, blockTable := map[], map[], map[];
    }

    /** First pages of unused blocks, and of the one past the area that the scan also reads, lack the magic number. */
    ghost predicate NoStray()
      reads this, buf
      requires WholePages(buf.pages)
    {
      forall b :: blockId + |tables| <= b <= blockId + blockNum ==>
        NoMagic(PageZero(buf.pages, b))
    }

    /** Scanning the page headers after Clear restores the index exactly as the flushes had left it. */
    method Build()
      requires OnFlash(buf.pages, blockId, tables) && |tables| < blockNum && |tables| < 0x100_0000
      requires Found(0) && Cached(|tables|) && NoStray()
      modifies this
      ensures Valid() && tables == old(tables) && fileIter == old(fileIter)
    {
      var index := blockId;
      while index <= blockId + blockNum
        invariant blockId <= index <= blockId + blockNum + 1
        invariant Found(if index - blockId <= |tables| then index - blockId else |tables|)
        invariant unchanged(this`tables) && unchanged(this`fileIter)
        decreases blockId + blockNum + 1 - index
      {
        var data := buf.Read(index * PAGES_PER_BLOCK);
        assert |data| == PAGE;
        if index - blockId >= |tables| {
          assert NoMagic(PageZero(buf.pages, index));
        } else {
          HeaderReads(buf.pages, blockId, tables, index - blockId);
        }
        if NoMagic(data) {
          index := index + 1;
          continue;
        }
        var num := data[4] as nat;
        var fileId := data[5] as nat * 0x1_0000 + data[6] as nat * 0x100 + data[7] as nat;
        index := FoundFile(index, num, fileId, index - blockId);
      }
      FindFree();
    }

    /** The bookkeeping for one file header. */
    method FoundFile(index: nat, num: nat, fileId: nat, ghost k: nat) returns (next: nat)
      requires Found(k) && num == 1 && fileId == k + 1 && index == blockId + k
      modifies this`files, this`sstableNum, this`sstableMaxId, this`blockTable, this`fileTable
      ensures Found(k + 1) && next == index + 1
    {
      files := files[fileId := (index, num)];
      sstableNum := sstableNum + 1;
      if fileId > sstableMaxId {
        sstableMaxId := fileId;
      }
      var blocks: seq<nat> := [];
      for i := 0 to num
        invariant |blocks| == i && forall j :: 0 <= j < i ==> blocks[j] == index + j
        invariant blockTable == BlockTableOf(blockId, k + i)
        modifies this`blockTable
      {
        blockTable := blockTable[index + i := true];
        blocks := blocks + [index + i];
      }
      assert blocks == [index];
      fileTable := fileTable[fileId := blocks];
      next := index + num;
    }

    /** The first block of the area that no file uses. */
    method FindFree()
      requires Found(|tables|) && |tables| < blockNum
      modifies this`curBlockId
      ensures curBlockId == blockId + |tables|
    {
      var i := blockId;
      while i < blockId + blockNum && i in blockTable && blockTable[i]
        invariant blockId <= i <= blockId + |tables|
      {
        i := i + 1;
      }
      curBlockId := i;
    }
  }

  function PageZero(pages: map<nat, Bytes>, block: nat): (p: Bytes)
    requires WholePages(pages)
    ensures |p| == PAGE
  {
    ReadPage(pages, block * PAGES_PER_BLOCK)
  }

  /** The header of a file on flash names it by its number. */
  lemma HeaderReads(pages: map<nat, Bytes>, first: nat, tables: Tables, i: nat)
    requires OnFlash(pages, first, tables) && i < |tables| && |tables| < 0x100_0000
    ensures var data := PageZero(pages, first + i);
      && !NoMagic(data) && data[4] == 1
      && data[5] as nat * 0x1_0000 + data[6] as nat * 0x100 + data[7] as nat == i + 1
  {
    assert BlockHolds(pages, first + i, i + 1, tables[i]);
    var data, h := PageZero(pages, first + i), PageHeader(i + 1);
    assert forall j :: 0 <= j < HEADER_SIZE ==> data[j] == data[..HEADER_SIZE][j] == h[j];
    IdBytes(i + 1);
  }

  lemma IdBytes(id: nat)
    requires id < 0x100_0000
    ensures id / 0x1_0000 % 256 * 0x1_0000 + id / 0x100 % 256 * 0x100 + id % 256 == id
  {
    var a := id / 0x100;
    assert id == 0x100 * a + id % 0x100 && a == 0x100 * (id / 0x1_0000) + a % 0x100;
  }
}
