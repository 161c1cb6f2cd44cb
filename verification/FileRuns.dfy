/**
 Whole runs of the key-value manager from an empty table: whatever is written and cut out of whichever files, the
 store stands for what the same operations make of plain byte sequences.
 */
module FileRuns {
  import opened Prelude
  import opened SstRecord
  import opened Flash
  import opened BlockTable
  import opened Extents
  import opened Frontiers
  import opened ExtentCuts
  import opened ExtentDeletes
  import opened ObjectAccounts
  import opened Overwriting
  import opened GcObjects
  import opened KvManager

  type Files = map<nat, Bytes>

  datatype FileOp = Write(ino: nat, off: nat, value: Bytes) | Cut(ino: nat, off: nat, len: nat)

  predicate GoodOp(op: FileOp) {
    match op
    case Write(_, _, value) => |value| >= 1
    case Cut(_, _, len) => len >= 1
  }

  function FileAt(m: Files, ino: nat): Bytes {
    if ino in m then m[ino] else []
  }

  function Written(b: Bytes, off: nat, value: Bytes): Bytes {
    if off <= |b| then Splice(b, off, value) else b
  }

  function CutOutOf(b: Bytes, off: nat, len: nat): Bytes {
    if off < |b| then Removed(b, off, off + len) else b
  }

  /** What an operation does to the files as byte sequences. */
  function Applied(m: Files, op: FileOp): Files {
    match op
    case Write(ino, off, value) => m[ino := Written(FileAt(m, ino), off, value)]
    case Cut(ino, off, len) => if ino in m then m[ino := CutOutOf(m[ino], off, len)] else m
  }

  function AppliedAll(m: Files, ops: seq<FileOp>): Files
    decreases |ops|
  {
    if |ops| == 0 then m else AppliedAll(Applied(m, ops[0]), ops[1..])
  }

  /** How much of n bytes lies behind position x. */
  function Behind(n: nat, x: nat): nat {
    if x <= n then n - x else 0
  }

  /** Pages that are enough for writing into n bytes: for the value, and for what is kept on either side. */
  function PagesToWrite(n: nat, off: nat, len: nat): nat
    requires len >= 1
  {
    PagesFor(len) + PartPages(off) + PartPages(Behind(n, off + len))
  }

  function PagesToCut(n: nat, off: nat, len: nat): nat {
    PartPages(Behind(n, off + len))
  }

  function PagesOf(m: Files, op: FileOp): nat
    requires GoodOp(op)
  {
    match op
    case Write(ino, off, value) => PagesToWrite(|FileAt(m, ino)|, off, |value|)
    case Cut(ino, off, len) => PagesToCut(|FileAt(m, ino)|, off, len)
  }

  function RunPages(m: Files, ops: seq<FileOp>): nat
    requires forall op :: op in ops ==> GoodOp(op)
    decreases |ops|
  {
    if |ops| == 0 then 0 else PagesOf(m, ops[0]) + RunPages(Applied(m, ops[0]), ops[1..])
  }

  /** The object reads as those bytes. */
  ghost predicate ReadsAs(pages: map<nat, Bytes>, obj: DataObject, b: Bytes)
    requires WholePages(pages)
  {
    Archived(obj.entries) && BytesOf(pages, obj.entries) == b
  }

  /** The objects are exactly these files, with these bytes. */
  ghost predicate Stored(pages: map<nat, Bytes>, objects: map<nat, DataObject>, m: Files)
    requires WholePages(pages)
  {
    objects.Keys == m.Keys && forall ino :: ino in m ==> ReadsAs(pages, objects[ino], m[ino])
  }

  /** The store is in order and holds exactly these files. */
  ghost predicate StandsFor(kv: KVManager, m: Files)
    reads kv, kv.gc, kv.gc.blockTable, kv.gc.blockTable.table, kv.store
  {
    kv.Valid() && Stored(kv.store.pages, kv.objects, m)
  }

  lemma PartPagesMonotone(m: nat, n: nat)
    requires m <= n
    ensures PartPages(m) <= PartPages(n)
  {}

  lemma {:induction false} PiecesWithin(es: seq<Extent>, x: nat)
    requires TilesFrom(es, 0)
    ensures Inside(es, x) <= x && Beyond(es, x) <= Behind(SumLen(es), x)
  {
    if |es| != 0 {
      PiecesWithin(es[..|es| - 1], x);
    }
  }

  /** The bytes of a file and the length of its object. */
  lemma FileSize(kv: KVManager, m: Files, ino: nat)
    requires StandsFor(kv, m)
    ensures Tiled(kv.ObjectAt(ino)) && kv.ObjectAt(ino).size == |FileAt(m, ino)| && kv.Content(ino) == FileAt(m, ino)
  {
    if ino in m {
      ContentReads(kv, ino);
      assert ReadsAs(kv.store.pages, kv.objects[ino], m[ino]);
    } else {
      assert kv.ObjectAt(ino) == EMPTY_OBJECT && EMPTY_OBJECT.entries == [];
      assert kv.Content(ino) == BytesOf(kv.store.pages, []) == [];
    }
  }

  /** One block with the pages for all pieces together is enough, wherever the pieces go. */
  lemma EnoughToWrite(es: seq<Extent>, off: nat, len: nat, v: Blocks, room: nat)
    requires TilesFrom(es, 0) && len >= 1 && HasRoom(v, PagesToWrite(SumLen(es), off, len) + room)
    ensures var t := WriteTakes(es, off, len, v.frontier);
      t.Some? && MostFree(t.value) >= room
  {
    PiecesWithin(es, off);
    PiecesWithin(es, off + len);
    PartPagesMonotone(Inside(es, off), off);
    PartPagesMonotone(Beyond(es, off + len), Behind(SumLen(es), off + len));
    var a, b, c := PagesFor(len), PartPages(Inside(es, off)), PartPages(Beyond(es, off + len));
    TakeLeaves(v.frontier, a, b + c + room);
    var t := Take(Some(v.frontier), a).value;
    TakeLeaves(t, b, c + room);
    TakeLeaves(Take(Some(t), b).value, c, room);
  }

  lemma EnoughToCut(es: seq<Extent>, off: nat, len: nat, v: Blocks, room: nat)
    requires TilesFrom(es, 0) && HasRoom(v, PagesToCut(SumLen(es), off, len) + room)
    ensures var t := Take(Some(v.frontier), PartPages(Beyond(es, off + len)));
      t.Some? && MostFree(t.value) >= room
  {
    PiecesWithin(es, off + len);
    PartPagesMonotone(Beyond(es, off + len), Behind(SumLen(es), off + len));
    TakeLeaves(v.frontier, PartPages(Beyond(es, off + len)), room);
  }

  lemma SameReads(pages: map<nat, Bytes>, pages': map<nat, Bytes>, obj: DataObject, b: Bytes)
    requires WholePages(pages) && WholePages(pages') && ReadsAs(pages, obj, b) && SameContent(pages, pages', obj)
    ensures ReadsAs(pages', obj, b)
  {}

  /** One file reads anew, the others as before. */
  lemma OneStored(pages: map<nat, Bytes>, pages': map<nat, Bytes>, objects: map<nat, DataObject>,
                  objects': map<nat, DataObject>, ino: nat, m: Files, b: Bytes)
    requires WholePages(pages) && WholePages(pages') && Stored(pages, objects, m)
    requires OthersSame(pages, pages', objects, objects', ino) && objects'.Keys == objects.Keys + {ino}
    requires ReadsAs(pages', objects'[ino], b)
    ensures Stored(pages', objects', m[ino := b])
  {
    forall i | i in m && i != ino ensures ReadsAs(pages', objects'[i], m[i]) {
      assert ReadsAs(pages, objects[i], m[i]);
      SameReads(pages, pages', objects[i], m[i]);
    }
  }

  /** After one file was changed the store stands for the files with that one changed. */
  lemma FileStands(kv: KVManager, pages: map<nat, Bytes>, objects: map<nat, DataObject>, ino: nat, m: Files, b: Bytes)
    requires kv.Valid() && WholePages(pages) && Stored(pages, objects, m)
    requires OthersSame(pages, kv.store.pages, objects, kv.objects, ino)
    requires ino in kv.objects && kv.objects.Keys == objects.Keys + {ino} && kv.Content(ino) == b
    ensures StandsFor(kv, m[ino := b])
  {
    ContentReads(kv, ino);
    OneStored(pages, kv.store.pages, objects, kv.objects, ino, m, b);
  }

  lemma NoneStored(pages: map<nat, Bytes>, pages': map<nat, Bytes>, objects: map<nat, DataObject>,
                   objects': map<nat, DataObject>, ino: nat, m: Files)
    requires WholePages(pages) && WholePages(pages') && Stored(pages, objects, m)
    requires OthersSame(pages, pages', objects, objects', ino) && objects'.Keys == objects.Keys && ino !in m
    ensures Stored(pages', objects', m)
  {
    forall i | i in m ensures ReadsAs(pages', objects'[i], m[i]) {
      SameReads(pages, pages', objects[i], m[i]);
    }
  }

  lemma ContentReads(kv: KVManager, ino: nat)
    requires kv.Valid() && ino in kv.objects
    ensures ReadsAs(kv.store.pages, kv.objects[ino], kv.Content(ino))
  {
    BytesLength(kv.store.pages, kv.objects[ino].entries, 0);
  }

  method WriteFile(kv: KVManager, ino: nat, off: nat, value: Bytes, ghost m: Files, ghost room: nat) returns (ok: bool)
    requires StandsFor(kv, m) && |value| >= 1
    modifies kv, kv.gc.blockTable, kv.gc.blockTable.table, kv.store
    ensures ok ==> StandsFor(kv, m[ino := Written(FileAt(m, ino), off, value)])
    ensures Ended(ok, kv.gc.blockTable.view.frontier) ==
            SetTakes(old(kv.ObjectAt(ino)), off, |value|, old(kv.gc.blockTable.view.frontier))
    ensures HasRoom(old(kv.gc.blockTable.view), PagesToWrite(|FileAt(m, ino)|, off, |value|) + room) ==>
      ok && HasRoom(kv.gc.blockTable.view, room)
  {
    FileSize(kv, m, ino);
    if HasRoom(kv.gc.blockTable.view, PagesToWrite(|FileAt(m, ino)|, off, |value|) + room) {
      EnoughToWrite(kv.ObjectAt(ino).entries, off, |value|, kv.gc.blockTable.view, room);
    }
    ghost var pages, objects := kv.store.pages, kv.objects;
    var size;
    ok, size := kv.Set(ino, off, value);
    if ok {
      FileStands(kv, pages, objects, ino, m, Written(FileAt(m, ino), off, value));
    }
  }

  method CutFile(kv: KVManager, ino: nat, off: nat, len: nat, ghost m: Files, ghost room: nat) returns (ok: bool)
    requires StandsFor(kv, m) && len >= 1
    modifies kv, kv.gc.blockTable, kv.gc.blockTable.table, kv.store
    ensures ok ==> StandsFor(kv, Applied(m, Cut(ino, off, len)))
    ensures Ended(ok, kv.gc.blockTable.view.frontier) ==
      Take(Some(old(kv.gc.blockTable.view.frontier)), PartPages(Beyond(old(kv.ObjectAt(ino).entries), off + len)))
    ensures HasRoom(old(kv.gc.blockTable.view), PagesToCut(|FileAt(m, ino)|, off, len) + room) ==>
      ok && HasRoom(kv.gc.blockTable.view, room)
  {
    FileSize(kv, m, ino);
    if HasRoom(kv.gc.blockTable.view, PagesToCut(|FileAt(m, ino)|, off, len) + room) {
      EnoughToCut(kv.ObjectAt(ino).entries, off, len, kv.gc.blockTable.view, room);
    }
    ghost var pages, objects := kv.store.pages, kv.objects;
    ok := kv.DeleteMended(ino, off, len);
    if ok {
      CutStands(kv, pages, objects, ino, off, len, m);
    }
  }

  /** After a range of one file was deleted. */
  lemma CutStands(kv: KVManager, pages: map<nat, Bytes>, objects: map<nat, DataObject>, ino: nat, off: nat, len: nat,
                  m: Files)
    requires kv.Valid() && WholePages(pages) && Stored(pages, objects, m)
    requires OthersSame(pages, kv.store.pages, objects, kv.objects, ino) && kv.objects.Keys == objects.Keys
    requires kv.Content(ino) == CutOutOf(FileAt(m, ino), off, len)
    ensures StandsFor(kv, Applied(m, Cut(ino, off, len)))
  {
    if ino in m {
      FileStands(kv, pages, objects, ino, m, CutOutOf(m[ino], off, len));
    } else {
      NoneStored(pages, kv.store.pages, objects, kv.objects, ino, m);
    }
  }

  /** What an operation takes, told on the object and the frontiers of the moment. */
  ghost function OpTakes(obj: DataObject, op: FileOp, fr: seq<nat>): Option<seq<nat>>
    requires GoodOp(op)
  {
    match op
    case Write(_, off, value) => SetTakes(obj, off, |value|, fr)
    case Cut(_, off, len) => Take(Some(fr), PartPages(Beyond(obj.entries, off + len)))
  }

  method Step(kv: KVManager, op: FileOp, ghost m: Files, ghost room: nat) returns (ok: bool)
    requires StandsFor(kv, m) && GoodOp(op)
    modifies kv, kv.gc.blockTable, kv.gc.blockTable.table, kv.store
    ensures ok ==> StandsFor(kv, Applied(m, op))
    ensures Ended(ok, kv.gc.blockTable.view.frontier) ==
            OpTakes(old(kv.ObjectAt(op.ino)), op, old(kv.gc.blockTable.view.frontier))
    ensures HasRoom(old(kv.gc.blockTable.view), PagesOf(m, op) + room) ==> ok && HasRoom(kv.gc.blockTable.view, room)
  {
    match op
    case Write(ino, off, value) => ok := WriteFile(kv, ino, off, value, m, room);
    case Cut(ino, off, len) => ok := CutFile(kv, ino, off, len, m, room);
  }

  /** The operation a run stopped at, with its object and the frontiers of the moment. */
  datatype Halt = Halt(at: nat, obj: DataObject, fr: seq<nat>)

  /** There the pages the operation takes are not to be had. */
  ghost predicate HaltsRightly(s: Halt, ops: seq<FileOp>) {
    s.at < |ops| && GoodOp(ops[s.at]) && Tiled(s.obj) && OpTakes(s.obj, ops[s.at], s.fr) == None
  }

  /**
   Any run from files m on: it goes through, and the store stands for what the operations make of plain byte
   sequences, or it stops where pages are not to be had; and where some block has the pages that are enough for all
   operations together, it does not stop.
   */
  method RunOn(kv: KVManager, ops: seq<FileOp>, ghost m: Files) returns (ok: bool, ghost stop: Halt)
    requires StandsFor(kv, m) && forall op :: op in ops ==> GoodOp(op)
    modifies kv, kv.gc.blockTable, kv.gc.blockTable.table, kv.store
    ensures ok ==> StandsFor(kv, AppliedAll(m, ops))
    ensures !ok ==> HaltsRightly(stop, ops)
    ensures HasRoom(old(kv.gc.blockTable.view), RunPages(m, ops)) ==> ok
  {
    ok, stop := true, Halt(0, EMPTY_OBJECT, []);
    ghost var now, had := m, HasRoom(kv.gc.blockTable.view, RunPages(m, ops));
    var k := 0;
    assert ops[0..] == ops;
    while k < |ops| && ok
      invariant k <= |ops|
      invariant ok ==> StandsFor(kv, now) && AppliedAll(now, ops[k..]) == AppliedAll(m, ops)
      invariant !ok ==> HaltsRightly(stop, ops)
      invariant had ==> ok && HasRoom(kv.gc.blockTable.view, RunPages(now, ops[k..]))
      decreases |ops| - k
    {
      assert ops[k..][0] == ops[k] && ops[k..][1..] == ops[k + 1..];
      stop := Halt(k, kv.ObjectAt(ops[k].ino), kv.gc.blockTable.view.frontier);
      FileSize(kv, now, ops[k].ino);
      ok := Step(kv, ops[k], now, RunPages(Applied(now, ops[k]), ops[k + 1..]));
      now, k := Applied(now, ops[k]), k + 1;
    }
    assert ok ==> ops[k..] == [];
  }

  /** A run from an empty table.  Operations that need no more than a block's pages together all go through. */
  method RunFiles(size: nat, ops: seq<FileOp>) returns (kv: KVManager, ok: bool, ghost stop: Halt)
    requires forall op :: op in ops ==> GoodOp(op)
    ensures fresh(kv) && (ok ==> StandsFor(kv, AppliedAll(map[], ops))) && (!ok ==> HaltsRightly(stop, ops))
    ensures size > 0 && RunPages(map[], ops) <= BLOCK ==> ok
  {
    kv := new KVManager(size);
    ok, stop := RunOn(kv, ops, map[]);
  }

  /** A collection between two operations of a run changes no file. */
  method Collect(kv: KVManager, ghost m: Files)
    requires StandsFor(kv, m) && kv.CanCollect()
    modifies kv, kv.gc.blockTable, kv.gc.blockTable.table, kv.store
    ensures StandsFor(kv, m) && HasRoom(kv.gc.blockTable.view, BLOCK)
  {
    ghost var pages, objects := kv.store.pages, kv.objects;
    kv.ForwardGc();
    forall i | i in m ensures ReadsAs(kv.store.pages, kv.objects[i], m[i]) {
      assert ReadsAs(pages, objects[i], m[i]) && SameObject(pages, kv.store.pages, objects[i], kv.objects[i]);
    }
  }
}
