/** Whole runs of links and unlinks in a fresh directory of a fresh store. */
module DirectoryRuns {
  import opened Prelude
  import opened SstRecord
  import opened BlockTable
  import opened Frontiers
  import opened KvManager
  import opened DirectoryRecords
  import opened Directory

  /** The pages an operation takes of a directory with those names: one for a name not in use. */
  ghost function NamePages(t: map<Bytes, nat>, op: DirOp): nat {
    if op.Link? && op.name !in t then 1 else 0
  }

  /** How many links of the run are of names not in use at the time. */
  ghost function NewNames(ops: seq<DirOp>): nat {
    if |ops| == 0 then 0
    else
      var n := |ops| - 1;
      NewNames(ops[..n]) + NamePages(ApplyAllTable(map[], ops[..n]), ops[n])
  }

  lemma {:induction false} NewNamesGrow(ops: seq<DirOp>, k: nat)
    requires k <= |ops|
    ensures NewNames(ops[..k]) <= NewNames(ops)
  {
    if k < |ops| {
      NewNamesGrow(ops[..|ops| - 1], k);
      assert ops[..|ops| - 1][..k] == ops[..k];
    } else {
      assert ops[..k] == ops;
    }
  }

  lemma OneMore(ops: seq<DirOp>, k: nat)
    requires k < |ops|
    ensures ApplyAll([], ops[..k + 1]) == Apply(ApplyAll([], ops[..k]), ops[k])
    ensures NewNames(ops[..k + 1]) == NewNames(ops[..k]) + NamePages(ApplyAllTable(map[], ops[..k]), ops[k])
  {
    assert ops[..k + 1][..k] == ops[..k];
  }

  method Step(inode: Inode, op: DirOp, ghost es: seq<DirectoryInodeEntry>) returns (ok: bool)
    requires inode.fileType.Directory? && inode.Holds(es) && GoodOp(op)
    modifies inode, inode.kv, inode.kv.gc.blockTable, inode.kv.gc.blockTable.table, inode.kv.store
    ensures ok ==> inode.Holds(Apply(es, op))
    ensures Ended(ok, inode.kv.gc.blockTable.view.frontier) ==
            Take(Some(old(inode.kv.gc.blockTable.view.frontier)), NamePages(Table(es), op))
  {
    LookupAgrees(es, op.name);
    ghost var es';
    match op
    case Link(ino, name) => ok, es' := DirLink(inode, ino, name, es);
    case Unlink(ino, name) => ok, es' := DirUnlink(inode, ino, name, es);
  }

  /** A run goes through exactly if the blocks together have a page for every new name. */
  method RunOn(inode: Inode, ops: seq<DirOp>) returns (ok: bool)
    requires inode.fileType.Directory? && inode.Holds([]) && forall op :: op in ops ==> GoodOp(op)
    modifies inode, inode.kv, inode.kv.gc.blockTable, inode.kv.gc.blockTable.table, inode.kv.store
    ensures ok ==> inode.Holds(ApplyAll([], ops))
    ensures ok <==> NewNames(ops) <= Free(old(inode.kv.gc.blockTable.view.frontier))
  {
    ok := true;
    ghost var free := Free(inode.kv.gc.blockTable.view.frontier);
    ghost var es: seq<DirectoryInodeEntry> := [];
    var k := 0;
    while k < |ops| && ok
      invariant k <= |ops| && es == ApplyAll([], ops[..k])
      invariant ok ==> inode.Holds(es)
      invariant if ok then NewNames(ops[..k]) + Free(inode.kv.gc.blockTable.view.frontier) == free
                else NewNames(ops[..k]) > free
      decreases |ops| - k
    {
      OneMore(ops, k);
      EveryRunIsAMap(ops[..k], []);
      TakeOne(inode.kv.gc.blockTable.view.frontier);
      ok := Step(inode, ops[k], es);
      es, k := Apply(es, ops[k]), k + 1;
    }
    NewNamesGrow(ops, k);
    assert ok ==> ops[..k] == ops;
  }

  /** An empty directory in an empty store. */
  method FreshDirectory(size: nat, ino: nat) returns (inode: Inode)
    ensures inode.fileType.Directory? && inode.Holds([])
    ensures Free(inode.kv.gc.blockTable.view.frontier) == size * BLOCK
    ensures fresh(inode) && fresh(inode.kv) && fresh(inode.kv.gc.blockTable) && fresh(inode.kv.store)
    ensures forall i :: 0 <= i < |inode.kv.gc.blockTable.table| ==> fresh(inode.kv.gc.blockTable.table[i])
  {
    var kv := new KVManager(size);
    inode := new Inode(kv, ino, InodeFileType.Directory, 0);
    EmptyDirectory(inode);
    AllFree(size);
  }

  /**
   Looking a name up after any run of links and unlinks in a fresh directory gives what a map from names to inode
   numbers would; the run goes through exactly if it links no more new names than the store has pages.
   */
  method LookupAfter(size: nat, dirIno: nat, ops: seq<DirOp>, name: Bytes) returns (ok: bool, found: Option<(nat, nat)>)
    requires forall op :: op in ops ==> GoodOp(op)
    ensures ok <==> NewNames(ops) <= size * BLOCK
    ensures ok ==>
      var t := ApplyAllTable(map[], ops);
      (found.Some? <==> name in t) && (found.Some? ==> found.value.0 == t[name])
  {
    var inode := FreshDirectory(size, dirIno);
    found := None;
    ok := RunOn(inode, ops);
    if ok {
      EveryRunIsAMap(ops, name);
      found := DirLookup(inode, name, ApplyAll([], ops));
    }
  }
}
