/** Runs of pages: how their states change page by page, and how bytes are cut into padded pages. */
module PageRuns {
  import opened Prelude
  import opened SstRecord
  import opened Flash
  import opened BlockTable
  import opened Extents

  /** The last page is filled up with this byte. */
  const FILLER: byte := 10

  function Padded(data: Bytes): (r: Bytes)
    requires |data| >= 1
    ensures |r| == PagesFor(|data|) * PAGE
  {
    data + seq(PagesFor(|data|) * PAGE - |data|, i => FILLER)
  }

  /** The i-th page of the data, as the write loop cuts it. */
  function Chunk(data: Bytes, i: nat): (r: Bytes)
    requires |data| >= 1 && i < PagesFor(|data|)
    ensures |r| == PAGE && r == Padded(data)[i * PAGE..(i + 1) * PAGE]
  {
    var start := i * PAGE;
    if i == PagesFor(|data|) - 1 then
      var last := data[start..];
      last + seq(PAGE - |last|, j => FILLER)
    else data[start..start + PAGE]
  }

  lemma SameBlock(v: Blocks, start: nat, n: nat, i: nat)
    requires Shaped(v) && AtFrontier(v, start, n) && i < n
    ensures (start + i) / BLOCK == start / BLOCK && start + n <= |v.status|
  {
    var b := start / BLOCK;
    assert (b + 1) * BLOCK <= BLOCK * |v.frontier|;
  }

  /** Marking the next page dirty and then busy reserves it. */
  lemma ReserveNext(v: Blocks, start: nat, n: nat, i: nat, ino: nat)
    requires Shaped(v) && AtFrontier(v, start, n) && i < n && start + n <= |v.status|
    requires (start + i) / BLOCK == start / BLOCK
    ensures var w := Reserved(v, start, i, ino);
      SetStatus(SetStatus(w, start + i, Dirty), start + i, Busy(ino)) == Reserved(v, start, i + 1, ino)
  {
    var w := Reserved(v, start, i, ino);
    var x := Reserved(v, start, i + 1, ino);
    assert w.status[start + i := Dirty][start + i := Busy(ino)] == x.status;
  }

  lemma DirtyNext(v: Blocks, start: nat, n: nat, i: nat)
    requires Shaped(v) && i < n && start + n <= |v.status|
    ensures (start + i) / BLOCK < |v.frontier|
    ensures SetStatus(Dirtied(v, start, i), start + i, Dirty) == Dirtied(v, start, i + 1)
  {
    assert Dirtied(v, start, i).status[start + i := Dirty] == Dirtied(v, start, i + 1).status;
  }

  lemma NothingReserved(v: Blocks, start: nat, ino: nat)
    requires Shaped(v) && AtFrontier(v, start, 0) && start <= |v.status|
    ensures Reserved(v, start, 0, ino) == v && Dirtied(v, start, 0) == v
  {
    assert v.status[..start] + seq(0, i => Busy(ino)) + v.status[start + 0..] == v.status;
    assert v.status[..start] + seq(0, i => Dirty) + v.status[start + 0..] == v.status;
  }

  lemma NothingDirtied(v: Blocks, start: nat)
    requires start <= |v.status|
    ensures Dirtied(v, start, 0) == v
  {
    assert v.status[..start] + seq(0, i => Dirty) + v.status[start + 0..] == v.status;
  }

  method WritePage(store: PageStore, address: nat, data: Bytes)
    requires WholePages(store.pages) && |data| == PAGE
    modifies store
    ensures store.pages == old(store.pages)[MAIN + address := data]
  {
    store.Write(MAIN + address, data);
  }

  /** One page given to ino: marked as used, then as busy. */
  method ReservePage(table: BlockTable, ghost v: Blocks, start: nat, i: nat, ghost n: nat, ino: nat)
    requires table.Valid() && Shaped(v) && AtFrontier(v, start, n) && i < n && start + n <= |v.status|
    requires table.view == Reserved(v, start, i, ino)
    modifies table, table.table
    ensures table.Valid() && table.view == Reserved(v, start, i + 1, ino)
  {
    SameBlock(v, start, n, i);
    ReserveNext(v, start, n, i, ino);
    table.SetPage(start + i, Dirty);
    table.SetPage(start + i, Busy(ino));
  }

  /** Writes data to consecutive pages from start on, marking each page used and then busy. */
  method WriteRun(table: BlockTable, store: PageStore, start: nat, data: Bytes, ino: nat)
    requires table.Valid() && WholePages(store.pages) && |data| >= 1
    requires AtFrontier(table.view, start, PagesFor(|data|)) && start + PagesFor(|data|) <= |table.view.status|
    modifies table, table.table, store
    ensures table.Valid() && WholePages(store.pages)
    ensures table.view == Reserved(old(table.view), start, PagesFor(|data|), ino)
    ensures Run(store.pages, MAIN + start, PagesFor(|data|)) == Padded(data)
    ensures Elsewhere(old(store.pages), store.pages, start, PagesFor(|data|))
  {
    var size := PagesFor(|data|);
    ghost var v := table.view;
    NothingReserved(v, start, ino);
    for i := 0 to size
      invariant table.Valid() && WholePages(store.pages)
      invariant table.view == Reserved(v, start, i, ino)
      invariant Run(store.pages, MAIN + start, i) == Padded(data)[..i * PAGE]
      invariant Elsewhere(old(store.pages), store.pages, start, i)
    {
      WriteNext(store, start, data, i);
      ReservePage(table, v, start, i, size, ino);
    }
    assert Padded(data)[..size * PAGE] == Padded(data);
  }

  ghost predicate Elsewhere(pages: map<nat, Bytes>, pages': map<nat, Bytes>, start: nat, n: nat) {
    forall a: nat {:trigger ReadPage(pages', a)} ::
      a < MAIN + start || MAIN + start + n <= a ==> ReadPage(pages', a) == ReadPage(pages, a)
  }

  method WriteNext(store: PageStore, start: nat, data: Bytes, i: nat)
    requires WholePages(store.pages) && |data| >= 1 && i < PagesFor(|data|)
    requires Run(store.pages, MAIN + start, i) == Padded(data)[..i * PAGE]
    modifies store
    ensures WholePages(store.pages)
    ensures Run(store.pages, MAIN + start, i + 1) == Padded(data)[..(i + 1) * PAGE]
    ensures forall a: nat {:trigger ReadPage(store.pages, a)} ::
      a != MAIN + start + i ==> ReadPage(store.pages, a) == ReadPage(old(store.pages), a)
  {
    ghost var pages := store.pages;
    WritePage(store, start + i, Chunk(data, i));
    RunUnchanged(pages, store.pages, MAIN + start, i);
    PaddedNext(data, i);
  }

  lemma PaddedNext(data: Bytes, i: nat)
    requires |data| >= 1 && i < PagesFor(|data|)
    ensures Padded(data)[..(i + 1) * PAGE] == Padded(data)[..i * PAGE] + Chunk(data, i)
  {}

  /** Marks n pages from start on dirty. */
  method DirtyRun(table: BlockTable, start: nat, n: nat)
    requires table.Valid() && start + n <= |table.view.status|
    modifies table, table.table
    ensures table.Valid() && table.view == Dirtied(old(table.view), start, n)
  {
    ghost var v := table.view;
    NothingDirtied(v, start);
    for i := 0 to n
      invariant table.Valid() && table.view == Dirtied(v, start, i)
    {
      DirtyNext(v, start, n, i);
      table.SetPage(start + i, Dirty);
    }
  }

  // ----- moving a run

  ghost predicate ReadSoFar(pages: map<nat, Bytes>, start: nat, data: seq<Bytes>) {
    forall i :: 0 <= i < |data| ==> data[i] == ReadPage(pages, MAIN + start + i)
  }

  lemma ReadOneMore(pages: map<nat, Bytes>, start: nat, data: seq<Bytes>, at: nat, page: Bytes)
    requires ReadSoFar(pages, start, data) && at == start + |data| && page == ReadPage(pages, MAIN + at)
    ensures ReadSoFar(pages, start, data + [page])
  {}

  /** Reads n pages from start on, marking each dirty. */
  method TakeRun(table: BlockTable, store: PageStore, start: nat, n: nat) returns (data: seq<Bytes>)
    requires table.Valid() && start + n <= |table.view.status|
    modifies table, table.table
    ensures table.Valid() && table.view == Dirtied(old(table.view), start, n)
    ensures |data| == n && ReadSoFar(store.pages, start, data)
  {
    ghost var v := table.view;
    NothingDirtied(v, start);
    data := [];
    for i := 0 to n
      invariant table.Valid() && table.view == Dirtied(v, start, i)
      invariant |data| == i && ReadSoFar(store.pages, start, data)
    {
      var at := start + i;
      var page := store.Read(MAIN + at);
      ReadOneMore(store.pages, start, data, at, page);
      data := data + [page];
      DirtyNext(v, start, n, i);
      table.SetPage(at, Dirty);
    }
  }

  /** Writes the pages from start on, marking each used and then busy. */
  method PutRun(table: BlockTable, store: PageStore, start: nat, data: seq<Bytes>, ino: nat,
                ghost was: map<nat, Bytes>, ghost from: nat)
    requires table.Valid() && WholePages(store.pages) && WholePages(was) && ReadSoFar(was, from, data)
    requires AtFrontier(table.view, start, |data|) && start + |data| <= |table.view.status|
    modifies table, table.table, store
    ensures table.Valid() && WholePages(store.pages)
    ensures table.view == Reserved(old(table.view), start, |data|, ino)
    ensures Run(store.pages, MAIN + start, |data|) == Run(was, MAIN + from, |data|)
    ensures Elsewhere(old(store.pages), store.pages, start, |data|)
  {
    ghost var v := table.view;
    NothingReserved(v, start, ino);
    for i := 0 to |data|
      invariant table.Valid() && WholePages(store.pages) && table.view == Reserved(v, start, i, ino)
      invariant Run(store.pages, MAIN + start, i) == Run(was, MAIN + from, i)
      invariant Elsewhere(old(store.pages), store.pages, start, i)
    {
      ReservePage(table, v, start, i, |data|, ino);
      PutNext(store, start, i, data[i], was, from);
    }
  }

  method PutNext(store: PageStore, start: nat, i: nat, page: Bytes, ghost was: map<nat, Bytes>, ghost from: nat)
    requires WholePages(store.pages) && WholePages(was) && page == ReadPage(was, MAIN + from + i)
    requires Run(store.pages, MAIN + start, i) == Run(was, MAIN + from, i)
    modifies store
    ensures WholePages(store.pages)
    ensures Run(store.pages, MAIN + start, i + 1) == Run(was, MAIN + from, i + 1)
    ensures forall a: nat {:trigger ReadPage(store.pages, a)} ::
      a != MAIN + start + i ==> ReadPage(store.pages, a) == ReadPage(old(store.pages), a)
  {
    ghost var pages := store.pages;
    WritePage(store, start + i, page);
    RunUnchanged(pages, store.pages, MAIN + start, i);
  }

  /** Moves a run of pages to the frontier of a block. */
  method MoveRun(table: BlockTable, store: PageStore, from: nat, to: nat, n: nat, ino: nat)
    requires table.Valid() && WholePages(store.pages) && from + n <= |table.view.status|
    requires AtFrontier(table.view, to, n) && to + n <= |table.view.status|
    modifies table, table.table, store
    ensures table.Valid() && WholePages(store.pages)
    ensures table.view == Reserved(Dirtied(old(table.view), from, n), to, n, ino)
    ensures Run(store.pages, MAIN + to, n) == Run(old(store.pages), MAIN + from, n)
    ensures Elsewhere(old(store.pages), store.pages, to, n)
  {
    var data := TakeRun(table, store, from, n);
    PutRun(table, store, to, data, ino, store.pages, from);
  }

  /** Reads the archived bytes of an extent, a page at a time, the last page in part. */
  method ReadExtent(store: PageStore, e: Extent) returns (data: Bytes)
    requires WholePages(store.pages) && e.archivedLen >= 1
    ensures data == ExtentBytes(store.pages, e)
  {
    data := [];
    var size := 0;
    var last := (e.archivedLen - 1) / PAGE;
    for i := 0 to last + 1
      invariant i <= last ==> size == i * PAGE && data == Run(store.pages, MAIN + e.pagePointer, i)
      invariant i == last + 1 ==> data == ExtentBytes(store.pages, e)
    {
      var page := store.Read(MAIN + e.pagePointer + i);
      RunLength(store.pages, MAIN + e.pagePointer, i);
      if i == last {
        var remainNum := e.archivedLen - size;
        TakePart(Run(store.pages, MAIN + e.pagePointer, i), page, remainNum);
        data := data + page[..remainNum];
      } else {
        data := data + page;
        size := size + PAGE;
      }
    }
  }

  lemma TakePart(a: Bytes, b: Bytes, n: nat)
    requires n <= |b|
    ensures (a + b)[..|a| + n] == a + b[..n]
  {}
}
