/**
 Data objects as lists of extents, and the accounts between extents and flash pages: which extents each
 object owns, on which pages, with which bytes.
 */
module Extents {
  import opened SstRecord
  import opened Flash
  import opened BlockTable

  /** The main area starts behind the metadata and table-file blocks. */
  const MAIN: nat := 105 * 128

  datatype Extent = Extent(len: nat, archivedLen: nat, offset: nat, pagePointer: nat, compressType: nat)

  datatype DataObject = DataObject(size: nat, entries: seq<Extent>)

  /** The pages a run of n bytes takes, n at least 1. */
  function PagesFor(n: nat): nat
    requires n >= 1
  {
    (n - 1) / PAGE + 1
  }

  function Pages(e: Extent): nat
    requires e.archivedLen >= 1
  {
    PagesFor(e.archivedLen)
  }

  /** The stored bytes of an extent: the start of its page run. */
  ghost function ExtentBytes(pages: map<nat, Bytes>, e: Extent): (r: Bytes)
    requires WholePages(pages) && e.archivedLen >= 1
    ensures |r| == e.archivedLen
  {
    RunLength(pages, MAIN + e.pagePointer, Pages(e));
    Run(pages, MAIN + e.pagePointer, Pages(e))[..e.archivedLen]
  }

  // ----- tiling

  /** Uncompressed, and not empty. */
  ghost predicate Sound(e: Extent) {
    e.len >= 1 && e.archivedLen == e.len && e.compressType == 0
  }

  ghost function SumLen(es: seq<Extent>): nat {
    if |es| == 0 then 0 else SumLen(es[..|es| - 1]) + es[|es| - 1].len
  }

  /** The extents stand one behind the other from start on. */
  ghost predicate TilesFrom(es: seq<Extent>, start: nat) {
    |es| == 0 ||
    (TilesFrom(es[..|es| - 1], start) && Sound(es[|es| - 1])
     && es[|es| - 1].offset == start + SumLen(es[..|es| - 1]))
  }

  ghost predicate Tiled(obj: DataObject) {
    TilesFrom(obj.entries, 0) && obj.size == SumLen(obj.entries)
  }

  /** Every extent has stored bytes. */
  ghost predicate Archived(es: seq<Extent>) {
    forall e :: e in es ==> e.archivedLen >= 1
  }

  /** The bytes of the extents in a row. */
  ghost function BytesOf(pages: map<nat, Bytes>, es: seq<Extent>): Bytes
    requires WholePages(pages) && Archived(es)
  {
    if |es| == 0 then [] else BytesOf(pages, es[..|es| - 1]) + ExtentBytes(pages, es[|es| - 1])
  }

  lemma {:induction false} SumLenConcat(s: seq<Extent>, t: seq<Extent>)
    ensures SumLen(s + t) == SumLen(s) + SumLen(t)
  {
    if |t| == 0 {
      assert s + t == s;
    } else {
      var n := |t| - 1;
      assert (s + t)[..|s + t| - 1] == s + t[..n];
      SumLenConcat(s, t[..n]);
    }
  }

  lemma {:induction false} TilesConcat(s: seq<Extent>, t: seq<Extent>, start: nat)
    ensures TilesFrom(s + t, start) <==> TilesFrom(s, start) && TilesFrom(t, start + SumLen(s))
  {
    if |t| == 0 {
      assert s + t == s;
    } else {
      var n := |t| - 1;
      assert (s + t)[..|s + t| - 1] == s + t[..n];
      TilesConcat(s, t[..n], start);
      SumLenConcat(s, t[..n]);
    }
  }

  lemma TilesOne(e: Extent, start: nat)
    ensures TilesFrom([e], start) <==> Sound(e) && e.offset == start
    ensures SumLen([e]) == e.len
  {
    assert [e][..0] == [];
  }

  lemma {:induction false} TilesSound(es: seq<Extent>, start: nat)
    requires TilesFrom(es, start)
    ensures forall e :: e in es ==> Sound(e)
  {
    if |es| != 0 {
      TilesSound(es[..|es| - 1], start);
    }
  }

  /** Where the i-th extent stands. */
  lemma TilesAt(es: seq<Extent>, start: nat, i: nat)
    requires TilesFrom(es, start) && i < |es|
    ensures Sound(es[i]) && es[i].offset == start + SumLen(es[..i])
    ensures SumLen(es[..i + 1]) == SumLen(es[..i]) + es[i].len
  {
    assert es == es[..i + 1] + es[i + 1..];
    TilesConcat(es[..i + 1], es[i + 1..], start);
    assert es[..i + 1][..i] == es[..i];
  }

  lemma SumLenMonotone(es: seq<Extent>, i: nat, j: nat)
    requires i <= j <= |es|
    ensures SumLen(es[..i]) <= SumLen(es[..j])
  {
    assert es[..j] == es[..i] + es[i..j];
    SumLenConcat(es[..i], es[i..j]);
  }

  /** Extents stand in order, each ending before the next begins. */
  lemma TilesOrder(es: seq<Extent>, start: nat, i: nat, j: nat)
    requires TilesFrom(es, start) && i < j < |es|
    ensures es[i].offset + es[i].len <= es[j].offset
  {
    TilesAt(es, start, i);
    TilesAt(es, start, j);
    SumLenMonotone(es, i + 1, j);
  }

  lemma ArchivedConcat(s: seq<Extent>, t: seq<Extent>)
    ensures Archived(s + t) <==> Archived(s) && Archived(t)
  {
    assert forall e :: e in s + t <==> e in s || e in t;
  }

  lemma BytesSnoc(pages: map<nat, Bytes>, s: seq<Extent>, e: Extent, t: seq<Extent>)
    requires WholePages(pages) && t == s + [e] && Archived(s) && Archived(t) && e.archivedLen >= 1
    ensures BytesOf(pages, t) == BytesOf(pages, s) + ExtentBytes(pages, e)
  {
    assert t[..|t| - 1] == s;
  }

  lemma AppendAgain(a: Bytes, b: Bytes, c: Bytes)
    ensures (a + b) + c == a + (b + c)
  {}

  lemma {:induction false} BytesConcat(pages: map<nat, Bytes>, s: seq<Extent>, t: seq<Extent>)
    requires WholePages(pages) && Archived(s + t)
    ensures Archived(s) && Archived(t)
    ensures BytesOf(pages, s + t) == BytesOf(pages, s) + BytesOf(pages, t)
    decreases |t|, 1
  {
    ArchivedConcat(s, t);
    if |t| == 0 {
      assert s + t == s;
    } else {
      BytesConcatMore(pages, s, t[..|t| - 1], t[|t| - 1], t);
    }
  }

  lemma {:induction false} BytesConcatMore(pages: map<nat, Bytes>, s: seq<Extent>, u: seq<Extent>, e: Extent,
                                           t: seq<Extent>)
    requires WholePages(pages) && t == u + [e] && Archived(s) && Archived(t)
    ensures Archived(s + t) && BytesOf(pages, s + t) == BytesOf(pages, s) + BytesOf(pages, t)
    decreases |t|, 0
  {
    ArchivedConcat(u, [e]);
    assert e in [e];
    ArchivedConcat(s, u);
    ArchivedConcat(s, t);
    BytesConcat(pages, s, u);
    assert s + t == (s + u) + [e];
    BytesSnoc(pages, s + u, e, s + t);
    BytesSnoc(pages, u, e, t);
    AppendAgain(BytesOf(pages, s), BytesOf(pages, u), ExtentBytes(pages, e));
  }

  lemma BytesOne(pages: map<nat, Bytes>, e: Extent)
    requires WholePages(pages) && e.archivedLen >= 1
    ensures BytesOf(pages, [e]) == ExtentBytes(pages, e)
  {
    assert [e][..0] == [];
    assert BytesOf(pages, []) == [];
  }

  lemma {:induction false} BytesLength(pages: map<nat, Bytes>, es: seq<Extent>, start: nat)
    requires WholePages(pages) && TilesFrom(es, start)
    ensures Archived(es)
    ensures |BytesOf(pages, es)| == SumLen(es)
  {
    TilesSound(es, start);
    if |es| != 0 {
      BytesLength(pages, es[..|es| - 1], start);
    }
  }

  lemma {:induction false} BytesSame(pages: map<nat, Bytes>, pages': map<nat, Bytes>, es: seq<Extent>)
    requires WholePages(pages) && WholePages(pages') && Archived(es)
    requires forall e :: e in es ==> ExtentBytes(pages, e) == ExtentBytes(pages', e)
    ensures BytesOf(pages, es) == BytesOf(pages', es)
  {
    if |es| != 0 {
      BytesSame(pages, pages', es[..|es| - 1]);
    }
  }

  // ----- who owns which pages

  type Owners = map<nat, set<Extent>>

  ghost predicate CoversPage(e: Extent, a: nat) {
    e.archivedLen >= 1 && e.pagePointer <= a < e.pagePointer + Pages(e)
  }

  ghost predicate Apart(e: Extent, f: Extent) {
    forall a :: !(CoversPage(e, a) && CoversPage(f, a))
  }

  /** The extent's pages are the busy pages of its owner, in one block, below that block's frontier. */
  ghost predicate Placed(v: Blocks, ino: nat, e: Extent)
    requires Shaped(v)
  {
    && e.archivedLen >= 1
    && e.pagePointer / BLOCK < |v.frontier|
    && v.frontier[e.pagePointer / BLOCK] <= BLOCK
    && e.pagePointer + Pages(e) <= e.pagePointer / BLOCK * BLOCK + v.frontier[e.pagePointer / BLOCK]
    && forall a: nat :: CoversPage(e, a) && a < |v.status| ==> v.status[a] == Busy(ino)
  }

  /** Exactly the pages of the block from its frontier on are clean. */
  ghost predicate FrontierClean(v: Blocks, b: nat)
    requires Shaped(v) && b < |v.frontier|
  {
    && v.frontier[b] <= BLOCK
    && forall a :: b * BLOCK <= a < (b + 1) * BLOCK && a < |v.status| ==>
         (v.status[a] == Clean <==> a >= b * BLOCK + v.frontier[b])
  }

  /**
   The accounts are in order: exactly the pages from a frontier on are clean, extents sit on busy pages of their
   owner and share none, and every busy page belongs to an extent of its owner.
   */
  ghost predicate Consistent(v: Blocks, owners: Owners) {
    && Shaped(v)
    && (forall b {:trigger FrontierClean(v, b)} :: 0 <= b < |v.frontier| ==> FrontierClean(v, b))
    && (forall ino, e {:trigger Placed(v, ino, e)} :: ino in owners && e in owners[ino] ==> Placed(v, ino, e))
    && (forall ino, e, f {:trigger Apart(e, f), owners[ino]} ::
          ino in owners && e in owners[ino] && f in owners[ino] && e != f ==> Apart(e, f))
    && (forall a {:trigger Accounted(owners, v.status[a].ino, a)} ::
          0 <= a < |v.status| && v.status[a].Busy? ==> Accounted(owners, v.status[a].ino, a))
  }

  /** With the accounts in order frontiers and extents tell every page's state. */
  lemma PageStates(v: Blocks, owners: Owners, a: nat)
    requires Consistent(v, owners) && a < |v.status|
    ensures a / BLOCK < |v.frontier|
    ensures v.status[a] == Clean <==> a >= a / BLOCK * BLOCK + v.frontier[a / BLOCK]
    ensures forall ino: nat :: v.status[a] == Busy(ino) <==> Accounted(owners, ino, a)
  {
    assert FrontierClean(v, a / BLOCK);
    forall ino: nat ensures v.status[a] == Busy(ino) <==> Accounted(owners, ino, a) {
      if Accounted(owners, ino, a) {
        var e :| e in owners[ino] && CoversPage(e, a);
        assert Placed(v, ino, e);
      }
    }
  }

  ghost predicate Accounted(owners: Owners, ino: nat, a: nat) {
    ino in owners && exists e :: e in owners[ino] && CoversPage(e, a)
  }

  /** The pages [start, start + n) given to ino at the frontier of their block. */
  ghost function Reserved(v: Blocks, start: nat, n: nat, ino: nat): Blocks
    requires Shaped(v) && start / BLOCK < |v.frontier| && start + n <= |v.status|
  {
    var b := start / BLOCK;
    Blocks(v.status[..start] + seq(n, i => Busy(ino)) + v.status[start + n..],
           v.frontier[b := v.frontier[b] + n])
  }

  /** The pages [start, start + n) marked dirty. */
  ghost function Dirtied(v: Blocks, start: nat, n: nat): Blocks
    requires start + n <= |v.status|
  {
    Blocks(v.status[..start] + seq(n, i => Dirty) + v.status[start + n..], v.frontier)
  }

  /** The most pages that any block has left. */
  ghost function MostFree(frontier: seq<nat>): int {
    if |frontier| == 0 then -1
    else
      var rest, last := MostFree(frontier[..|frontier| - 1]), BLOCK - frontier[|frontier| - 1];
      if rest > last then rest else last
  }

  /** Some block has n pages left. */
  ghost predicate HasRoom(v: Blocks, n: nat) {
    n <= MostFree(v.frontier)
  }

  lemma {:induction false} MostFreeFits(frontier: seq<nat>, b: nat)
    requires b < |frontier|
    ensures MostFree(frontier) >= BLOCK - frontier[b]
  {
    if b < |frontier| - 1 {
      MostFreeFits(frontier[..|frontier| - 1], b);
    }
  }

  lemma {:induction false} MostFreeAt(frontier: seq<nat>) returns (b: nat)
    requires MostFree(frontier) >= 0
    ensures b < |frontier| && MostFree(frontier) == BLOCK - frontier[b]
  {
    var n := |frontier| - 1;
    if MostFree(frontier) == BLOCK - frontier[n] {
      b := n;
    } else {
      b := MostFreeAt(frontier[..n]);
    }
  }

  /** There is room exactly if some block has it. */
  lemma RoomSomewhere(v: Blocks, n: nat)
    ensures HasRoom(v, n) <==> exists b :: 0 <= b < |v.frontier| && v.frontier[b] + n <= BLOCK
  {
    if HasRoom(v, n) {
      var b := MostFreeAt(v.frontier);
      assert v.frontier[b] + n <= BLOCK;
    }
    if exists b :: 0 <= b < |v.frontier| && v.frontier[b] + n <= BLOCK {
      var b :| 0 <= b < |v.frontier| && v.frontier[b] + n <= BLOCK;
      MostFreeFits(v.frontier, b);
    }
  }

  /** start is the frontier of its block, with room for n pages. */
  ghost predicate AtFrontier(v: Blocks, start: nat, n: nat)
    requires Shaped(v)
  {
    var b := start / BLOCK;
    b < |v.frontier| && start == b * BLOCK + v.frontier[b] && v.frontier[b] + n <= BLOCK
  }

  lemma PagesPositive(e: Extent)
    requires e.archivedLen >= 1
    ensures Pages(e) >= 1 && CoversPage(e, e.pagePointer)
  {}

  lemma PlacedBounds(v: Blocks, ino: nat, e: Extent)
    requires Shaped(v) && Placed(v, ino, e)
    ensures e.pagePointer + Pages(e) <= (e.pagePointer / BLOCK + 1) * BLOCK <= |v.status|
  {
    var b := e.pagePointer / BLOCK;
    assert (b + 1) * BLOCK <= BLOCK * |v.frontier|;
  }

  /** An owned extent keeps clear of every page from the frontier of a block on. */
  lemma ClearOfFrontier(v: Blocks, owners: Owners, ino: nat, e: Extent, start: nat, n: nat)
    requires Consistent(v, owners) && ino in owners && e in owners[ino] && AtFrontier(v, start, n)
    ensures e.archivedLen >= 1 && (e.pagePointer + Pages(e) <= start || start + n <= e.pagePointer)
  {
    assert Placed(v, ino, e);
    PagesPositive(e);
    var b, c := start / BLOCK, e.pagePointer / BLOCK;
    if c < b {
      assert (c + 1) * BLOCK <= b * BLOCK;
    } else if c > b {
      assert (b + 1) * BLOCK <= c * BLOCK;
    }
  }

  lemma ReservePlaced(v: Blocks, owners: Owners, ino: nat, e: Extent, i: nat, f: Extent)
    requires Consistent(v, owners) && e.archivedLen >= 1 && i in owners && f in owners[i]
    requires AtFrontier(v, e.pagePointer, Pages(e)) && e.pagePointer + Pages(e) <= |v.status|
    ensures Placed(Reserved(v, e.pagePointer, Pages(e), ino), i, f) && Apart(e, f) && Apart(f, e) && f != e
  {
    assert Placed(v, i, f);
    ClearOfFrontier(v, owners, i, f, e.pagePointer, Pages(e));
    PagesPositive(f);
    PagesPositive(e);
    PlacedBounds(v, i, f);
  }

  lemma ReserveAccounted(v: Blocks, owners: Owners, ino: nat, e: Extent, a: nat)
    requires Consistent(v, owners) && ino in owners && e.archivedLen >= 1
    requires AtFrontier(v, e.pagePointer, Pages(e)) && e.pagePointer + Pages(e) <= |v.status|
    requires a < |v.status| && Reserved(v, e.pagePointer, Pages(e), ino).status[a].Busy?
    ensures Accounted(owners[ino := owners[ino] + {e}], Reserved(v, e.pagePointer, Pages(e), ino).status[a].ino, a)
  {
    if CoversPage(e, a) {
      assert Reserved(v, e.pagePointer, Pages(e), ino).status[a] == Busy(ino);
    } else {
      assert Reserved(v, e.pagePointer, Pages(e), ino).status[a] == v.status[a];
      assert Accounted(owners, v.status[a].ino, a);
      var f :| f in owners[v.status[a].ino] && CoversPage(f, a);
      assert f in owners[ino := owners[ino] + {e}][v.status[a].ino];
    }
  }

  lemma ReserveFrontier(v: Blocks, start: nat, n: nat, ino: nat, b: nat)
    requires Shaped(v) && AtFrontier(v, start, n) && start + n <= |v.status| && b < |v.frontier|
    requires FrontierClean(v, b)
    ensures FrontierClean(Reserved(v, start, n, ino), b)
  {
    if b < start / BLOCK {
      assert (b + 1) * BLOCK <= start;
    } else if b > start / BLOCK {
      assert (start / BLOCK + 1) * BLOCK <= b * BLOCK;
    }
  }

  /** Giving frontier pages to a new extent keeps the accounts in order. */
  lemma ReserveKeeps(v: Blocks, owners: Owners, ino: nat, e: Extent)
    requires Consistent(v, owners) && ino in owners && e.archivedLen >= 1
    requires AtFrontier(v, e.pagePointer, Pages(e)) && e.pagePointer + Pages(e) <= |v.status|
    ensures Consistent(Reserved(v, e.pagePointer, Pages(e), ino), owners[ino := owners[ino] + {e}])
    ensures forall i :: i in owners ==> e !in owners[i]
  {
    var v', owners' := Reserved(v, e.pagePointer, Pages(e), ino), owners[ino := owners[ino] + {e}];
    forall i, f | i in owners && f in owners[i] ensures Placed(v', i, f) && Apart(e, f) && Apart(f, e) && f != e {
      ReservePlaced(v, owners, ino, e, i, f);
    }
    forall i, f | i in owners && f in owners[i] ensures f != e {
      ReservePlaced(v, owners, ino, e, i, f);
    }
    assert Placed(v', ino, e);
    forall a | 0 <= a < |v'.status| && v'.status[a].Busy? ensures Accounted(owners', v'.status[a].ino, a) {
      ReserveAccounted(v, owners, ino, e, a);
    }
    forall b | 0 <= b < |v'.frontier| ensures FrontierClean(v', b) {
      ReserveFrontier(v, e.pagePointer, Pages(e), ino, b);
    }
  }

  /** Dropping an extent and dirtying its pages keeps the accounts in order. */
  lemma DropKeeps(v: Blocks, owners: Owners, ino: nat, e: Extent)
    requires Consistent(v, owners) && ino in owners && e in owners[ino]
    ensures e.archivedLen >= 1 && e.pagePointer + Pages(e) <= |v.status|
    ensures Consistent(Dirtied(v, e.pagePointer, Pages(e)), owners[ino := owners[ino] - {e}])
  {
    assert Placed(v, ino, e);
    PlacedBounds(v, ino, e);
    var start, n := e.pagePointer, Pages(e);
    var v', owners' := Dirtied(v, start, n), owners[ino := owners[ino] - {e}];
    forall i, f | i in owners' && f in owners'[i] ensures Placed(v', i, f) {
      assert Placed(v, i, f);
      PlacedBounds(v, i, f);
      forall a: nat | CoversPage(f, a) && a < |v'.status| ensures v'.status[a] == Busy(i) {
        assert v.status[a] == Busy(i);
        assert CoversPage(e, a) ==> v.status[a] == Busy(ino);
        assert i == ino ==> Apart(e, f);
      }
    }
    forall a | 0 <= a < |v'.status| && v'.status[a].Busy? ensures Accounted(owners', v'.status[a].ino, a) {
      assert v'.status[a] == v.status[a];
      assert Accounted(owners, v.status[a].ino, a);
      var f :| f in owners[v.status[a].ino] && CoversPage(f, a);
      assert f != e;
      assert f in owners'[v.status[a].ino];
    }
    forall b | 0 <= b < |v'.frontier| ensures FrontierClean(v', b) {
      assert FrontierClean(v, b);
      var c := start / BLOCK;
      if c < b {
        assert (c + 1) * BLOCK <= b * BLOCK;
      } else if b < c {
        assert (b + 1) * BLOCK <= c * BLOCK;
      }
    }
  }

  /** The start of an extent: its first n bytes on the same pages. */
  function Kept(e: Extent, n: nat): Extent {
    e.(len := n, archivedLen := n)
  }

  lemma KeptPages(e: Extent, n: nat)
    requires 1 <= n <= e.archivedLen
    ensures 1 <= PagesFor(n) <= Pages(e) && Pages(Kept(e, n)) == PagesFor(n)
    ensures forall a: nat :: CoversPage(Kept(e, n), a) <==> e.pagePointer <= a < e.pagePointer + PagesFor(n)
    ensures forall a: nat :: CoversPage(Kept(e, n), a) ==> CoversPage(e, a)
  {}

  lemma TruncatePlaced(v: Blocks, owners: Owners, ino: nat, e: Extent, n: nat, i: nat, f: Extent)
    requires Consistent(v, owners) && ino in owners && e in owners[ino] && 1 <= n <= e.archivedLen
    requires i in owners && f in owners[i] && (i == ino ==> f != e)
    requires e.pagePointer + Pages(e) <= |v.status| && PagesFor(n) <= Pages(e)
    ensures Placed(Dirtied(v, e.pagePointer + PagesFor(n), Pages(e) - PagesFor(n)), i, f)
    ensures i == ino ==> Apart(Kept(e, n), f) && Apart(f, Kept(e, n))
  {
    var v' := Dirtied(v, e.pagePointer + PagesFor(n), Pages(e) - PagesFor(n));
    assert Placed(v, ino, e) && Placed(v, i, f);
    PlacedBounds(v, i, f);
    KeptPages(e, n);
    assert i == ino ==> Apart(e, f);
    forall a: nat | CoversPage(f, a) && a < |v'.status| ensures v'.status[a] == Busy(i) {
      assert v.status[a] == Busy(i);
      assert !CoversPage(e, a);
    }
  }

  lemma KeptPlaced(v: Blocks, ino: nat, e: Extent, n: nat)
    requires Shaped(v) && Placed(v, ino, e) && 1 <= n <= e.archivedLen
    requires e.pagePointer + Pages(e) <= |v.status| && PagesFor(n) <= Pages(e)
    ensures Placed(Dirtied(v, e.pagePointer + PagesFor(n), Pages(e) - PagesFor(n)), ino, Kept(e, n))
  {
    KeptPages(e, n);
    var v' := Dirtied(v, e.pagePointer + PagesFor(n), Pages(e) - PagesFor(n));
    forall a: nat | CoversPage(Kept(e, n), a) && a < |v'.status| ensures v'.status[a] == Busy(ino) {
      assert CoversPage(e, a);
    }
  }

  lemma TruncateAccounted(v: Blocks, owners: Owners, ino: nat, e: Extent, n: nat, a: nat)
    requires Consistent(v, owners) && ino in owners && e in owners[ino] && e.archivedLen >= 1 && 1 <= n <= e.archivedLen
    requires e.pagePointer + Pages(e) <= |v.status| && PagesFor(n) <= Pages(e) && a < |v.status|
    requires Dirtied(v, e.pagePointer + PagesFor(n), Pages(e) - PagesFor(n)).status[a].Busy?
    ensures Accounted(owners[ino := owners[ino] - {e} + {Kept(e, n)}],
                      Dirtied(v, e.pagePointer + PagesFor(n), Pages(e) - PagesFor(n)).status[a].ino, a)
  {
    var owners', i := owners[ino := owners[ino] - {e} + {Kept(e, n)}], v.status[a].ino;
    KeptPages(e, n);
    assert Dirtied(v, e.pagePointer + PagesFor(n), Pages(e) - PagesFor(n)).status[a] == v.status[a];
    assert Accounted(owners, i, a);
    var f :| f in owners[i] && CoversPage(f, a);
    if f == e && i == ino {
      assert CoversPage(Kept(e, n), a) && Kept(e, n) in owners'[ino];
    } else {
      assert f in owners'[i];
    }
  }

  /** Giving back the pages behind the first n bytes of an extent keeps the accounts in order. */
  lemma TruncateKeeps(v: Blocks, owners: Owners, ino: nat, e: Extent, n: nat)
    requires Consistent(v, owners) && ino in owners && e in owners[ino] && e.archivedLen >= 1 && 1 <= n <= e.archivedLen
    ensures PagesFor(n) <= Pages(e) && e.pagePointer + Pages(e) <= |v.status|
    ensures Consistent(Dirtied(v, e.pagePointer + PagesFor(n), Pages(e) - PagesFor(n)),
                       owners[ino := owners[ino] - {e} + {Kept(e, n)}])
  {
    assert Placed(v, ino, e);
    PlacedBounds(v, ino, e);
    KeptPages(e, n);
    var start, m := e.pagePointer + PagesFor(n), Pages(e) - PagesFor(n);
    var v', owners' := Dirtied(v, start, m), owners[ino := owners[ino] - {e} + {Kept(e, n)}];
    KeptPlaced(v, ino, e, n);
    forall i, f | i in owners' && f in owners'[i] && (i == ino ==> f != Kept(e, n))
      ensures Placed(v', i, f) && (i == ino ==> Apart(Kept(e, n), f) && Apart(f, Kept(e, n)))
    {
      TruncatePlaced(v, owners, ino, e, n, i, f);
    }
    forall a | 0 <= a < |v'.status| && v'.status[a].Busy? ensures Accounted(owners', v'.status[a].ino, a) {
      TruncateAccounted(v, owners, ino, e, n, a);
    }
    DirtiedFrontiers(v, start, m, e.pagePointer / BLOCK);
  }

  /** Dirtying pages below the frontier of their block leaves everything beyond frontiers clean. */
  lemma DirtiedFrontiers(v: Blocks, start: nat, n: nat, c: nat)
    requires Shaped(v) && start + n <= |v.status| && c < |v.frontier|
    requires forall b :: 0 <= b < |v.frontier| ==> FrontierClean(v, b)
    requires c * BLOCK <= start && start + n <= c * BLOCK + v.frontier[c]
    ensures forall b :: 0 <= b < |v.frontier| ==> FrontierClean(Dirtied(v, start, n), b)
  {
    assert FrontierClean(v, c);
    forall b | 0 <= b < |v.frontier| ensures FrontierClean(Dirtied(v, start, n), b) {
      assert FrontierClean(v, b);
      if c < b {
        assert (c + 1) * BLOCK <= b * BLOCK;
      } else if b < c {
        assert (b + 1) * BLOCK <= c * BLOCK;
      }
    }
  }

  /** The same run of pages under another description. */
  ghost predicate SameRun(e: Extent, f: Extent) {
    e.pagePointer == f.pagePointer && e.archivedLen == f.archivedLen
  }

  lemma RelabelApart(a: set<Extent>, es: seq<Extent>, es': seq<Extent>, e: Extent, f: Extent)
    requires |es| == |es'| && (forall i :: 0 <= i < |es| ==> SameRun(es[i], es'[i]))
    requires forall i, j :: 0 <= i < j < |es| ==> es[i] != es[j]
    requires forall i :: 0 <= i < |es| ==> es[i] !in a
    requires forall x, y :: (x in a || x in es) && (y in a || y in es) && x != y ==> Apart(x, y)
    requires (e in a || e in es') && (f in a || f in es') && e != f
    ensures Apart(e, f)
  {
    var x := if e in a then e else var i :| 0 <= i < |es'| && es'[i] == e; es[i];
    var y := if f in a then f else var j :| 0 <= j < |es'| && es'[j] == f; es[j];
    assert SameRun(x, e) && SameRun(y, f);
    assert x != y;
    assert Apart(x, y);
  }

  /** Describing runs anew, without moving them, keeps the accounts in order. */
  lemma RelabelKeeps(v: Blocks, owners: Owners, ino: nat, a: set<Extent>, es: seq<Extent>, es': seq<Extent>)
    requires Consistent(v, owners) && ino in owners && owners[ino] == a + (set e | e in es)
    requires |es| == |es'| && (forall i :: 0 <= i < |es| ==> SameRun(es[i], es'[i]))
    requires forall i, j :: 0 <= i < j < |es| ==> es[i] != es[j]
    requires forall i :: 0 <= i < |es| ==> es[i] !in a
    ensures Consistent(v, owners[ino := a + (set e | e in es')])
  {
    var owners' := owners[ino := a + (set e | e in es')];
    forall e, f | e in owners'[ino] && f in owners'[ino] && e != f ensures Apart(e, f) {
      RelabelApart(a, es, es', e, f);
    }
    forall e | e in owners'[ino] ensures Placed(v, ino, e) {
      var x := if e in a then e else var i :| 0 <= i < |es'| && es'[i] == e; es[i];
      assert SameRun(x, e) && Placed(v, ino, x);
      forall n: nat | CoversPage(e, n) && n < |v.status| ensures v.status[n] == Busy(ino) { assert CoversPage(x, n); }
    }
    forall n | 0 <= n < |v.status| && v.status[n].Busy? ensures Accounted(owners', v.status[n].ino, n) {
      RelabelAccounted(v, owners, ino, a, es, es', n);
    }
  }

  lemma RelabelAccounted(v: Blocks, owners: Owners, ino: nat, a: set<Extent>, es: seq<Extent>, es': seq<Extent>, n: nat)
    requires Consistent(v, owners) && ino in owners && owners[ino] == a + (set e | e in es)
    requires |es| == |es'| && (forall i :: 0 <= i < |es| ==> SameRun(es[i], es'[i]))
    requires n < |v.status| && v.status[n].Busy?
    ensures Accounted(owners[ino := a + (set e | e in es')], v.status[n].ino, n)
  {
    var o := v.status[n].ino;
    var owners' := owners[ino := a + (set e | e in es')];
    assert Accounted(owners, o, n);
    var e :| e in owners[o] && CoversPage(e, n);
    if o != ino || e in a {
      assert e in owners'[o];
    } else {
      var i :| 0 <= i < |es| && es[i] == e;
      assert es'[i] in owners'[ino] && CoversPage(es'[i], n);
    }
  }

  /** The extent's pages lie below the frontier of their block, whatever their state. */
  ghost predicate BelowFrontier(v: Blocks, e: Extent) {
    && e.archivedLen >= 1
    && e.pagePointer / BLOCK < |v.frontier|
    && v.frontier[e.pagePointer / BLOCK] <= BLOCK
    && e.pagePointer + Pages(e) <= e.pagePointer / BLOCK * BLOCK + v.frontier[e.pagePointer / BLOCK]
  }

  /** Writes at a frontier leave the bytes of an extent below it alone. */
  lemma WriteKeepsBelow(v: Blocks, pages: map<nat, Bytes>, pages': map<nat, Bytes>, start: nat, n: nat, e: Extent)
    requires Shaped(v) && AtFrontier(v, start, n) && WholePages(pages) && WholePages(pages') && BelowFrontier(v, e)
    requires forall a: nat {:trigger ReadPage(pages', a)} ::
      a < MAIN + start || MAIN + start + n <= a ==> ReadPage(pages', a) == ReadPage(pages, a)
    ensures ExtentBytes(pages', e) == ExtentBytes(pages, e)
  {
    PagesPositive(e);
    var b, c := start / BLOCK, e.pagePointer / BLOCK;
    if c < b {
      assert (c + 1) * BLOCK <= b * BLOCK;
    } else if c > b {
      assert (b + 1) * BLOCK <= c * BLOCK;
    }
    RunUnchanged(pages, pages', MAIN + e.pagePointer, Pages(e));
  }

  /** Writes at a frontier leave the bytes of every owned extent alone. */
  lemma WriteKeepsBytes(v: Blocks, owners: Owners, pages: map<nat, Bytes>, pages': map<nat, Bytes>, start: nat, n: nat)
    requires Consistent(v, owners) && AtFrontier(v, start, n) && WholePages(pages) && WholePages(pages')
    requires forall a: nat {:trigger ReadPage(pages', a)} ::
      a < MAIN + start || MAIN + start + n <= a ==> ReadPage(pages', a) == ReadPage(pages, a)
    ensures forall ino, e :: ino in owners && e in owners[ino] ==>
      e.archivedLen >= 1 && ExtentBytes(pages', e) == ExtentBytes(pages, e)
  {
    forall ino, e | ino in owners && e in owners[ino]
      ensures e.archivedLen >= 1 && ExtentBytes(pages', e) == ExtentBytes(pages, e)
    {
      ClearOfFrontier(v, owners, ino, e, start, n);
      RunUnchanged(pages, pages', MAIN + e.pagePointer, Pages(e));
    }
  }
}
