/**
 The LSM tree: a memtable in front of table files.  history is the list of all writes so far, deletions
 being writes of the tombstone; whatever has been flushed in between, the tree stands for its replay.
 */
module LsmTree {
  import opened Prelude
  import opened SstRecord
  import opened Flash
  import opened Memtable
  import opened TableWriter
  import opened SstableManager

  const TOMBSTONE: Bytes := [84, 79, 77, 66, 83, 84, 79, 78, 69]

  /** The map after a list of writes, each replacing what its key had. */
  ghost function Replay(history: seq<Entry>): map<Bytes, Bytes> {
    PutAll(map[], history)
  }

  /** The last write to a key is the one a replay shows; a key never written is absent. */
  lemma {:induction false} LastWriteWins(history: seq<Entry>, i: nat)
    requires i < |history| && forall j :: i < j < |history| ==> history[j].key != history[i].key
    ensures Lookup(Replay(history), history[i].key) == Some(history[i].value)
  {
    var n := |history| - 1;
    if i < n {
      LastWriteWins(history[..n], i);
      assert history[n].key != history[i].key;
    }
  }

  /** What a reader should see: a tombstone is no value. */
  ghost function Visible(history: seq<Entry>, key: Bytes): Option<Bytes> {
    if Lookup(Replay(history), key) == Some(TOMBSTONE) then None else Lookup(Replay(history), key)
  }

  /** What the table files and the memtable over them stand for. */
  ghost function Merged(tables: Tables, es: seq<Entry>): map<Bytes, Bytes> {
    Overlay(tables) + Table(es)
  }

  lemma FlushMerged(tables: Tables, es: seq<Entry>)
    ensures Merged(tables + [es], []) == Merged(tables, es)
  {
    assert (tables + [es])[..|tables|] == tables;
  }

  lemma PutMerged(tables: Tables, es: seq<Entry>, es': seq<Entry>, history: seq<Entry>, e: Entry)
    requires Replay(history) == Merged(tables, es) && Table(es') == Table(es)[e.key := e.value]
    ensures Replay(history + [e]) == Merged(tables, es')
  {
    assert (history + [e])[..|history|] == history;
  }

  ghost predicate AllStorable(es: seq<Entry>) {
    forall e :: e in es ==> Storable(e)
  }

  lemma MemtableFlushable(es: seq<Entry>)
    requires Sorted(es) && AllStorable(es) && SizeOf(es) <= PAGE * PAGES_PER_BLOCK - 50
    ensures Flushable(es)
  {}

  class LSMTree {
    const memtable: Memtable
    const sstables: SSTableManager
    ghost var history: seq<Entry>

    ghost predicate Valid()
      reads this, memtable, sstables, sstables.buf, sstables.fileIter.Values
    {
      && memtable.Valid() && sstables.Valid()
      && memtable.threshold == PAGE * PAGES_PER_BLOCK
      && memtable.size <= memtable.threshold - 50
      && AllStorable(memtable.entries)
      && Replay(history) == Merged(sstables.tables, memtable.entries)
    }

    constructor (buf: PageStore)
      requires WholePages(buf.pages)
      ensures Valid() && history == [] && sstables.buf == buf && sstables.blockId == 5 && sstables.blockNum == 100
      ensures memtable.entries == [] && sstables.tables == [] && sstables.fileIter == map[]
      ensures fresh(memtable) && fresh(sstables)
    {
      memtable := new Memtable(128 * 4096);
      sstables := new SSTableManager(5, 100, buf);
      history := [];
    }

    /** A flush goes through: the end record fits, and a free block is left after this file. */
    ghost predicate FlushFits()
      reads memtable, sstables
    {
      EofFits(memtable.entries) && |sstables.tables| + 1 < sstables.blockNum
    }

    method Flush() returns (ok: bool)
      requires Valid()
      modifies memtable, sstables, sstables.buf
      ensures ok <==> old(FlushFits())
      ensures ok ==> Valid() && memtable.entries == [] && memtable.size == 0
      ensures ok ==> sstables.tables == old(sstables.tables) + [old(memtable.entries)]
      ensures ok ==> sstables.fileIter == old(sstables.fileIter)
    {
      MemtableFlushable(memtable.entries);
      FlushMerged(sstables.tables, memtable.entries);
      var entries := memtable.Flush();
      ok := sstables.Flush(entries);
    }

    /**
     An entry that fits is added to the memtable, and no table file changes.  One that does not makes a table file of
     the entries so far, if that goes through, and is then alone in the memtable.
     */
    method Put(key: Bytes, value: Bytes) returns (ok: bool)
      requires Valid() && Storable(Entry(key, value))
      requires EntrySize(Entry(key, value)) <= memtable.threshold - 50
      modifies this`history, memtable, sstables, sstables.buf
      ensures ok ==> Valid() && history == old(history) + [Entry(key, value)]
      ensures ok ==> sstables.fileIter == old(sstables.fileIter)
      ensures SizeOf(old(memtable.entries)) + |key| + |value| + 12 <= memtable.threshold - 50 ==>
        && ok && sstables.tables == old(sstables.tables)
        && memtable.entries == PutInto(old(memtable.entries), Entry(key, value))
        && Table(memtable.entries) == old(Table(memtable.entries))[key := value]
      ensures SizeOf(old(memtable.entries)) + |key| + |value| + 12 > memtable.threshold - 50 ==>
        && (ok <==> EofFits(old(memtable.entries)) && |old(sstables.tables)| + 1 < sstables.blockNum)
        && (ok ==> sstables.tables == old(sstables.tables) + [old(memtable.entries)])
        && (ok ==> memtable.entries == [Entry(key, value)])
    {
      ok := true;
      if !memtable.CanPut(|key| + |value| + 12) {
        ok := Flush();
      }
      if ok {
        PutEntry(key, value);
      }
    }

    method PutEntry(key: Bytes, value: Bytes)
      requires Valid() && Storable(Entry(key, value)) && memtable.CanPut(EntrySize(Entry(key, value)))
      modifies this`history, memtable
      ensures Valid() && history == old(history) + [Entry(key, value)]
      ensures memtable.entries == PutInto(old(memtable.entries), Entry(key, value))
      ensures Table(memtable.entries) == old(Table(memtable.entries))[key := value]
    {
      ghost var was := memtable.entries;
      memtable.Put(key, value);
      PutMerged(sstables.tables, was, memtable.entries, history, Entry(key, value));
      history := history + [Entry(key, value)];
    }

    /** One write more, of the tombstone. */
    method Delete(key: Bytes) returns (ok: bool)
      requires Valid() && Storable(Entry(key, TOMBSTONE))
      requires EntrySize(Entry(key, TOMBSTONE)) <= memtable.threshold - 50
      modifies this`history, memtable, sstables, sstables.buf
      ensures ok ==> Valid() && history == old(history) + [Entry(key, TOMBSTONE)]
      ensures ok ==> sstables.fileIter == old(sstables.fileIter)
      ensures SizeOf(old(memtable.entries)) + |key| + |TOMBSTONE| + 12 <= memtable.threshold - 50 ==>
        && ok && sstables.tables == old(sstables.tables)
        && memtable.entries == PutInto(old(memtable.entries), Entry(key, TOMBSTONE))
        && Table(memtable.entries) == old(Table(memtable.entries))[key := TOMBSTONE]
      ensures SizeOf(old(memtable.entries)) + |key| + |TOMBSTONE| + 12 > memtable.threshold - 50 ==>
        && (ok <==> EofFits(old(memtable.entries)) && |old(sstables.tables)| + 1 < sstables.blockNum)
        && (ok ==> sstables.tables == old(sstables.tables) + [old(memtable.entries)])
        && (ok ==> memtable.entries == [Entry(key, TOMBSTONE)])
    {
      ok := true;
      if !memtable.CanPut(|key| + |TOMBSTONE| + 12) {
        ok := Flush();
      }
      if ok {
        PutEntry(key, TOMBSTONE);
      }
    }

    /**
     The last value written for the key.  Tombstones are turned into absence only while they are in the
     memtable, so the answer is the one a reader should see exactly when the key is there or its last
     write was not a deletion.
     */
    method Get(key: Bytes) returns (r: Option<Bytes>)
      requires Valid()
      modifies sstables`fileIter, sstables.fileIter.Values
      ensures Valid()
      ensures key !in Table(memtable.entries) ==> r == Lookup(Replay(history), key)
      ensures r == Visible(history, key) <==>
              key in Table(memtable.entries) || Lookup(Replay(history), key) != Some(TOMBSTONE)
      ensures forall f :: f in sstables.fileIter.Values ==> f in old(sstables.fileIter.Values) || fresh(f)
    {
      var found := memtable.Get(key);
      if found.Some? {
        if found.value != TOMBSTONE {
          r := found;
        } else {
          r := None;
        }
      } else {
        r := sstables.Get(key);
      }
    }
  }

  /** The bytes of entries that the memtable holds at most. */
  const LIMIT: nat := PAGE * PAGES_PER_BLOCK - 50

  /** Each of the writes fits, in sizes, into what the memtable holds by then. */
  ghost predicate AllFit(es: seq<Entry>, writes: seq<Entry>)
    decreases |writes|
  {
    |writes| == 0 || (SizeOf(es) + EntrySize(writes[0]) <= LIMIT && AllFit(PutInto(es, writes[0]), writes[1..]))
  }

  /** Writes fit if their sizes together do. */
  lemma {:induction false} SumFits(es: seq<Entry>, writes: seq<Entry>)
    requires SizeOf(es) + SizeOf(writes) <= LIMIT
    ensures AllFit(es, writes)
    decreases |writes|
  {
    if |writes| != 0 {
      var w, rest := writes[0], writes[1..];
      assert writes == [w] + rest;
      SizeOfConcat([w], rest);
      assert [w][..0] == [];
      ReplaceSize(es, PlaceOf(es, w.key), w);
      SumFits(PutInto(es, w), rest);
    }
  }

  /** The memtable after a write, with a flush before it if the entry does not fit. */
  ghost function AfterWrite(es: seq<Entry>, e: Entry): seq<Entry> {
    if SizeOf(es) + EntrySize(e) <= LIMIT then PutInto(es, e) else [e]
  }

  ghost predicate Writable(writes: seq<Entry>) {
    forall w :: w in writes ==> Storable(w) && EntrySize(w) <= LIMIT
  }

  /** The key was deleted, and its tombstone is still in the memtable. */
  ghost predicate Tombed(es: seq<Entry>, key: Bytes) {
    Lookup(Table(es), key) == Some(TOMBSTONE)
  }

  /** The writes so far, the table files and their iterators. */
  datatype Moment = Moment(history: seq<Entry>, tables: Tables, iters: map<nat, FileIter>)

  /** The tree is in order at that moment, the writes left fit, and the tombstone is there. */
  ghost predicate Going(lsm: LSMTree, m: Moment, writes: seq<Entry>, key: Bytes)
    reads lsm, lsm.memtable, lsm.sstables, lsm.sstables.buf, lsm.sstables.fileIter.Values
  {
    match m
    case Moment(history, tables, iters) =>
      && lsm.Valid() && lsm.history == history && lsm.sstables.tables == tables && lsm.sstables.fileIter == iters
      && AllFit(lsm.memtable.entries, writes) && Tombed(lsm.memtable.entries, key)
  }

  method WriteNext(lsm: LSMTree, w: Entry, ghost m: Moment, ghost writes: seq<Entry>, ghost key: Bytes)
    requires |writes| > 0 && w == writes[0] && Storable(w) && EntrySize(w) <= LIMIT && w.key != key
    requires Going(lsm, m, writes, key)
    modifies lsm`history, lsm.memtable, lsm.sstables, lsm.sstables.buf
    ensures Going(lsm, m.(history := m.history + [w]), writes[1..], key)
  {
    var ok := lsm.Put(w.key, w.value);
  }

  /** As long as the writes fit nothing is flushed, and a deleted key that none of them writes keeps its tombstone. */
  method WriteAll(lsm: LSMTree, writes: seq<Entry>, ghost m: Moment, ghost key: Bytes)
    requires Writable(writes) && Going(lsm, m, writes, key) && forall w :: w in writes ==> w.key != key
    modifies lsm`history, lsm.memtable, lsm.sstables, lsm.sstables.buf
    ensures Going(lsm, m.(history := m.history + writes), [], key)
  {
    ghost var now := m;
    assert writes[0..] == writes;
    for k := 0 to |writes|
      invariant now == m.(history := m.history + writes[..k]) && Going(lsm, now, writes[k..], key)
    {
      OneWritten(m.history, writes, k);
      WriteNext(lsm, writes[k], now, writes[k..], key);
      now := now.(history := now.history + [writes[k]]);
    }
    assert writes[|writes|..] == [] && writes[..|writes|] == writes;
  }

  lemma OneWritten(history: seq<Entry>, writes: seq<Entry>, k: nat)
    requires k < |writes|
    ensures history + writes[..k] + [writes[k]] == history + writes[..k + 1]
    ensures |writes[k..]| > 0 && writes[k..][0] == writes[k] && writes[k] in writes
    ensures writes[k..][1..] == writes[k + 1..]
  {}

  /** The deletion, and what the further writes may count on. */
  method DeleteFirst(lsm: LSMTree, key: Bytes, ghost writes: seq<Entry>) returns (ok: bool, ghost m: Moment)
    requires lsm.Valid() && Storable(Entry(key, TOMBSTONE)) && EntrySize(Entry(key, TOMBSTONE)) <= LIMIT
    requires AllFit(AfterWrite(lsm.memtable.entries, Entry(key, TOMBSTONE)), writes)
    modifies lsm`history, lsm.memtable, lsm.sstables, lsm.sstables.buf
    ensures ok <==>
        SizeOf(old(lsm.memtable.entries)) + EntrySize(Entry(key, TOMBSTONE)) <= LIMIT || old(lsm.FlushFits())
    ensures ok ==> Going(lsm, m, writes, key)
    ensures m.history == old(lsm.history) + [Entry(key, TOMBSTONE)] && m.iters == old(lsm.sstables.fileIter)
  {
    m := Moment(lsm.history + [Entry(key, TOMBSTONE)], [], lsm.sstables.fileIter);
    ok := lsm.Delete(key);
    m := m.(tables := lsm.sstables.tables);
    assert PutAll(map[], [Entry(key, TOMBSTONE)][..0]) == map[];
  }

  /** A deleted key is absent after any further writes of other keys that fit the memtable. */
  method DeletedStaysAway(lsm: LSMTree, key: Bytes, writes: seq<Entry>) returns (ok: bool, r: Option<Bytes>)
    requires lsm.Valid() && Storable(Entry(key, TOMBSTONE)) && EntrySize(Entry(key, TOMBSTONE)) <= LIMIT
    requires Writable(writes) && forall w :: w in writes ==> w.key != key
    requires AllFit(AfterWrite(lsm.memtable.entries, Entry(key, TOMBSTONE)), writes)
    modifies lsm`history, lsm.memtable, lsm.sstables, lsm.sstables.buf, lsm.sstables.fileIter.Values
    ensures ok ==> lsm.Valid() && lsm.history == old(lsm.history) + [Entry(key, TOMBSTONE)] + writes && r == None
    ensures ok <==>
        SizeOf(old(lsm.memtable.entries)) + EntrySize(Entry(key, TOMBSTONE)) <= LIMIT || old(lsm.FlushFits())
  {
    r := None;
    ghost var m;
    ok, m := DeleteFirst(lsm, key, writes);
    if ok {
      WriteAll(lsm, writes, m, key);
      r := lsm.Get(key);
    }
  }

  /** Deleting a key in an empty tree: absent until the memtable is flushed, and then back as its tombstone. */
  method DeletedComesBack(buf: PageStore) returns (unflushed: Option<Bytes>, flushed: Option<Bytes>)
    requires WholePages(buf.pages)
    modifies buf
    ensures unflushed == None && flushed == Some(TOMBSTONE)
  {
    var key := [1];
    var lsm := new LSMTree(buf);
    var ok := lsm.Delete(key);
    assert Lookup(Replay(lsm.history), key) == Some(TOMBSTONE) by { LastWriteWins(lsm.history, 0); }
    SmallFits(lsm.memtable.entries);
    unflushed := lsm.Get(key);
    ok := lsm.Flush();
    flushed := lsm.Get(key);
  }

  lemma SmallFits(es: seq<Entry>)
    requires SizeOf(es) <= 22
    ensures EofFits(es)
  {}
}
