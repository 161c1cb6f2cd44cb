/**
 The deletion with its two omissions made good: the shortened extent gets its archived length cut too, and the
 piece kept behind the range gets the offset it moves to.  Then every range leaves a tiling that reads as the
 flat sequence without the range.
 */
module MendedDelete {
  import opened Prelude
  import opened SstRecord
  import opened Flash
  import opened BlockTable
  import opened Extents
  import opened ExtentCuts
  import opened ExtentDeletes
  import opened EntryLists
  import opened ObjectAccounts
  import opened Deleting

  function KeptSeq(es: seq<Extent>, lo: nat, n: nat): seq<Extent> {
    if lo < |es| && n > 0 then [Kept(es[lo], n)] else []
  }

  function Settled(e: Extent, offset: nat): Extent {
    e.(offset := offset)
  }

  function SettledAt(p: Option<Extent>, offset: nat): Option<Extent> {
    match p case None => None case Some(e) => Some(Settled(e, offset))
  }

  /** The list the deletion leaves, with the two fields set. */
  ghost function Mended(es: seq<Extent>, off: nat, end: nat, lo: nat, hi: nat, second: Option<Extent>): seq<Extent>
    requires lo <= hi <= |es| && off <= end
  {
    es[..lo] + KeptSeq(es, lo, Inside(es, off)) + OptSeq(SettledAt(second, off)) + Shifted(es[hi..], end - off)
  }

  /** It is the program's own list but for those two fields: they differ only off the boundaries. */
  lemma MendedOnBoundaries(es: seq<Extent>, off: nat, end: nat, lo: nat, hi: nat, second: Option<Extent>)
    requires lo <= hi <= |es| && off <= end && OnBoundaries(es, off, end) && Piece(second, Beyond(es, end), end)
    ensures Mended(es, off, end, lo, hi, second) == Remaining(es, off, end, lo, hi, second)
  {}

  lemma KeptTiles(es: seq<Extent>, lo: nat, n: nat)
    requires TilesFrom(es, 0) && lo < |es| && n <= es[lo].len
    ensures TilesFrom(KeptSeq(es, lo, n), SumLen(es[..lo])) && SumLen(KeptSeq(es, lo, n)) == n
  {
    TilesAt(es, 0, lo);
    if n > 0 {
      TilesOne(Kept(es[lo], n), SumLen(es[..lo]));
    }
  }

  lemma FourFit(a: seq<Extent>, b: seq<Extent>, second: Option<Extent>, d: seq<Extent>, n: nat, off: nat)
    requires TilesFrom(a, 0) && TilesFrom(b, SumLen(a)) && SumLen(a) + SumLen(b) == off
    requires Piece(second, n, off) && (d == [] || TilesFrom(d, off + n))
    ensures TilesFrom(a + b + OptSeq(second) + d, 0)
  {
    PieceTiles(second, n, off);
    FourTiles(a, b, OptSeq(second), d);
  }

  /** What follows the range moves up to the end of the piece kept behind it. */
  lemma MovedUp(es: seq<Extent>, off: nat, end: nat, lo: nat, hi: nat)
    requires TilesFrom(es, 0) && Touched(es, off, end, lo, hi) && off <= SumLen(es)
    ensures Shifted(es[hi..], end - off) == [] || TilesFrom(Shifted(es[hi..], end - off), off + Beyond(es, end))
  {
    RangeEnd(es, off, end, lo, hi);
    if hi < |es| {
      TilesRest(es, hi);
      MoveUp(es[hi..], SumLen(es[..hi]), end - off, off + Beyond(es, end));
    }
  }

  lemma MoveUp(es: seq<Extent>, start: nat, len: nat, to: nat)
    requires TilesFrom(es, start) && to + len == start
    ensures TilesFrom(Shifted(es, len), to)
  {
    ShiftedTiles(es, start, len);
  }

  /** Every range leaves a tiling. */
  lemma MendedTiles(es: seq<Extent>, off: nat, end: nat, lo: nat, hi: nat, second: Option<Extent>)
    requires TilesFrom(es, 0) && Touched(es, off, end, lo, hi) && off < SumLen(es)
    requires Piece(second, Beyond(es, end), end)
    ensures TilesFrom(Mended(es, off, end, lo, hi, second), 0)
  {
    PrefixCut(es, off, end, lo, hi);
    TilesRest(es, lo);
    KeptTiles(es, lo, Inside(es, off));
    MovedUp(es, off, end, lo, hi);
    FourFit(es[..lo], KeptSeq(es, lo, Inside(es, off)), SettledAt(second, off), Shifted(es[hi..], end - off),
            Beyond(es, end), off);
  }

  /** The first n bytes of an extent, read as an extent of its own. */
  lemma KeptReads(pages: map<nat, Bytes>, e: Extent, n: nat)
    requires WholePages(pages) && 1 <= n <= e.archivedLen
    ensures ExtentBytes(pages, Kept(e, n)) == ExtentBytes(pages, e)[..n]
  {
    KeptPages(e, n);
    var k, m := PagesFor(n), Pages(e);
    RunLength(pages, MAIN + e.pagePointer, k);
    RunSplit(pages, MAIN + e.pagePointer, k, m - k);
  }

  lemma SettledReads(pages: map<nat, Bytes>, p: Option<Extent>, offset: nat)
    requires WholePages(pages) && (p.Some? ==> p.value.archivedLen >= 1)
    ensures OptBytes(pages, SettledAt(p, offset)) == OptBytes(pages, p)
  {
    if p.Some? {
      SettledOne(pages, p.value, offset);
    }
  }

  lemma SettledOne(pages: map<nat, Bytes>, e: Extent, offset: nat)
    requires WholePages(pages) && e.archivedLen >= 1
    ensures ExtentBytes(pages, Settled(e, offset)) == ExtentBytes(pages, e)
  {}

  lemma KeptFront(pages: map<nat, Bytes>, pages': map<nat, Bytes>, es: seq<Extent>, off: nat, end: nat,
                  lo: nat, hi: nat, second: Option<Extent>)
    requires WholePages(pages) && WholePages(pages') && LeftOnFlash(pages, pages', es, off, end, lo, hi, second)
    ensures Archived(es) && off <= |BytesOf(pages, es)|
    ensures Archived(es[..lo]) && Archived(KeptSeq(es, lo, Inside(es, off)))
    ensures BytesOf(pages', es[..lo]) + BytesOf(pages', KeptSeq(es, lo, Inside(es, off))) == BytesOf(pages, es)[..off]
  {
    var n := Inside(es, off);
    BytesBefore(pages, es, off, end, lo, hi);
    SameBytesOf(pages, pages', es[..lo]);
    if n > 0 {
      KeptReads(pages', es[lo], n);
      BytesOne(pages', Kept(es[lo], n));
    } else {
      assert BytesOf(pages', []) == [];
      assert ExtentBytes(pages, es[lo])[..0] == [];
    }
  }

  lemma MendedParts(pages: map<nat, Bytes>, a: seq<Extent>, b: seq<Extent>, second: Option<Extent>, d: seq<Extent>,
                    off: nat, len: nat)
    requires WholePages(pages) && Archived(a) && Archived(b) && Archived(d)
    requires second.Some? ==> second.value.archivedLen >= 1
    ensures Archived(a + b + OptSeq(SettledAt(second, off)) + Shifted(d, len))
    ensures BytesOf(pages, a + b + OptSeq(SettledAt(second, off)) + Shifted(d, len))
         == BytesOf(pages, a) + BytesOf(pages, b) + OptBytes(pages, second) + BytesOf(pages, d)
  {
    var c := SettledAt(second, off);
    SettledReads(pages, second, off);
    OptBytesOf(pages, c);
    ShiftedBytes(pages, d, len);
    ArchivedConcat(a, b);
    ArchivedConcat(a + b, OptSeq(c));
    ArchivedConcat(a + b + OptSeq(c), Shifted(d, len));
    FourBytes(pages, a, b, OptSeq(c), Shifted(d, len));
  }

  /** Every range is gone, and nothing else. */
  lemma MendedReads(pages: map<nat, Bytes>, pages': map<nat, Bytes>, es: seq<Extent>, off: nat, end: nat,
                    lo: nat, hi: nat, second: Option<Extent>)
    requires WholePages(pages) && WholePages(pages') && LeftOnFlash(pages, pages', es, off, end, lo, hi, second)
    ensures Archived(es) && off <= |BytesOf(pages, es)|
    ensures Archived(Mended(es, off, end, lo, hi, second))
    ensures BytesOf(pages', Mended(es, off, end, lo, hi, second)) == Removed(BytesOf(pages, es), off, end)
  {
    KeptFront(pages, pages', es, off, end, lo, hi, second);
    TailReads(pages, pages', es, off, end, lo, hi, second);
    var a, b, d := es[..lo], KeptSeq(es, lo, Inside(es, off)), es[hi..];
    MendedJoins(pages', a, b, second, d, BytesOf(pages, es), off, end, Mended(es, off, end, lo, hi, second));
  }

  lemma MendedJoins(pages: map<nat, Bytes>, a: seq<Extent>, b: seq<Extent>, second: Option<Extent>, d: seq<Extent>,
                    was: Bytes, off: nat, end: nat, es: seq<Extent>)
    requires WholePages(pages) && Archived(a) && Archived(b) && Archived(d) && off <= |was| && off <= end
    requires second.Some? ==> second.value.archivedLen >= 1
    requires BytesOf(pages, a) + BytesOf(pages, b) == was[..off]
    requires OptBytes(pages, second) + BytesOf(pages, d) == Rest(was, end)
    requires es == a + b + OptSeq(SettledAt(second, off)) + Shifted(d, end - off)
    ensures Archived(es) && BytesOf(pages, es) == Removed(was, off, end)
  {
    MendedParts(pages, a, b, second, d, off, end - off);
    JoinFour(BytesOf(pages, a), BytesOf(pages, b), OptBytes(pages, second), BytesOf(pages, d), was[..off],
        Rest(was, end));
  }

  // ----- the accounts

  lemma MendedSet(f: Deletion, second: Option<Extent>)
    requires DeleteBegun(f)
    ensures SetOf(Mended(f.es, f.off, f.end, f.lo, f.hi, second)) ==
            SetOf(f.es[..f.lo]) + KeptSet(f.es, f.lo, Head(f))
            + SetOf(OptSeq(SettledAt(second, f.off)) + Shifted(f.es[f.hi..], f.end - f.off))
  {
    FourSets(f.es[..f.lo], KeptSeq(f.es, f.lo, Head(f)), OptSeq(SettledAt(second, f.off)),
             Shifted(f.es[f.hi..], f.end - f.off));
    KeptSeqSet(f.es, f.lo, Head(f));
  }

  lemma FourSets(a: seq<Extent>, b: seq<Extent>, c: seq<Extent>, d: seq<Extent>)
    ensures SetOf(a + b + c + d) == SetOf(a) + SetOf(b) + SetOf(c + d)
  {
    SetOfConcat(a + b + c, d);
    SetOfConcat(a + b, c);
    SetOfConcat(a, b);
    SetOfConcat(c, d);
  }

  lemma KeptSeqSet(es: seq<Extent>, lo: nat, n: nat)
    ensures SetOf(KeptSeq(es, lo, n)) == KeptSet(es, lo, n)
  {}

  /** The extents in front of the range begin before it ends, so the piece kept behind it is none of them. */
  lemma SecondApart(f: Deletion, second: Option<Extent>)
    requires DeleteBegun(f) && Piece(second, Beyond(f.es, f.end), f.end)
    ensures OptSet(second) !! SetOf(f.es[..f.lo]) + KeptSet(f.es, f.lo, Head(f))
  {
    if second.Some? {
      var e := second.value;
      TilesAt(f.es, 0, f.lo);
      forall i | 0 <= i < f.lo ensures f.es[i] != e { TilesOrder(f.es, 0, i, f.lo); }
      assert e !in SetOf(f.es[..f.lo]);
      assert e.offset == f.end && f.es[f.lo].offset < f.end;
    }
  }

  lemma MovedRuns(f: Deletion, second: Option<Extent>, es: seq<Extent>, es': seq<Extent>)
    requires DeleteBegun(f) && es == OptSeq(second) + f.es[f.hi..]
    requires es' == OptSeq(SettledAt(second, f.off)) + Shifted(f.es[f.hi..], f.end - f.off)
    ensures |es| == |es'| && forall i :: 0 <= i < |es| ==> SameRun(es[i], es'[i])
  {}

  /** What moves under a new offset: all different, and none of what stays. */
  lemma MovedDistinct(f: Deletion, second: Option<Extent>, a: set<Extent>, es: seq<Extent>)
    requires DeleteBegun(f) && Piece(second, Beyond(f.es, f.end), f.end) && OptSet(second) !! SetOf(f.es[f.hi..])
    requires a == SetOf(f.es[..f.lo]) + KeptSet(f.es, f.lo, Head(f)) && es == OptSeq(second) + f.es[f.hi..]
    ensures forall i, j :: 0 <= i < j < |es| ==> es[i] != es[j]
    ensures forall i :: 0 <= i < |es| ==> es[i] !in a
  {
    var tail := f.es[f.hi..];
    SecondApart(f, second);
    TailDistinct(f, second, a + OptSet(second), tail);
    var n := |OptSeq(second)|;
    forall i | 0 <= i < |es| ensures es[i] == if i < n then second.value else tail[i - n] {}
    forall i | n <= i < |es| ensures es[i] in SetOf(tail) { assert es[i] == tail[i - n]; }
  }

  /** The accounts with the mended extents are in order. */
  lemma MendedAccounts(f: Deletion, second: Option<Extent>, v: Blocks, owners: Owners)
    requires DeleteBegun(f) && Consistent(v, owners) && owners == f.owners[f.ino := OwnedLeft(f, f.hi, second)]
    requires Piece(second, Beyond(f.es, f.end), f.end) && OptSet(second) !! SetOf(f.es[f.hi..])
    ensures Consistent(v, f.owners[f.ino := SetOf(Mended(f.es, f.off, f.end, f.lo, f.hi, second))])
  {
    var es := OptSeq(second) + f.es[f.hi..];
    var es' := OptSeq(SettledAt(second, f.off)) + Shifted(f.es[f.hi..], f.end - f.off);
    var a := SetOf(f.es[..f.lo]) + KeptSet(f.es, f.lo, Head(f));
    SetOfConcat(OptSeq(second), f.es[f.hi..]);
    assert SetOf(OptSeq(second)) == OptSet(second);
    assert OwnedLeft(f, f.hi, second) == a + SetOf(es);
    MovedRuns(f, second, es, es');
    MovedDistinct(f, second, a, es);
    RelabelKeeps(v, owners, f.ino, a, es, es');
    MendedSet(f, second);
    assert owners[f.ino := a + SetOf(es')] == f.owners[f.ino := a + SetOf(es')];
  }

  // ----- the list, put together

  /** Every extent with its archived length set to its length. */
  function Archiving(es: seq<Extent>): seq<Extent> {
    seq(|es|, i requires 0 <= i < |es| => Kept(es[i], es[i].len))
  }

  lemma ArchivingConcat(a: seq<Extent>, b: seq<Extent>)
    ensures Archiving(a + b) == Archiving(a) + Archiving(b)
  {}

  lemma ArchivingSound(es: seq<Extent>)
    requires forall e :: e in es ==> Sound(e)
    ensures Archiving(es) == es
  {
    forall i | 0 <= i < |es| ensures Archiving(es)[i] == es[i] { assert es[i] in es; }
  }

  /** Setting the archived lengths of the program's list gives the mended one. */
  lemma ArchivingMends(f: Deletion, second: Option<Extent>)
    requires DeleteBegun(f) && (second.Some? ==> Sound(second.value))
    ensures Archiving(Remaining(f.es, f.off, f.end, f.lo, f.hi, SettledAt(second, f.off)))
         == Mended(f.es, f.off, f.end, f.lo, f.hi, second)
  {
    var a, b := f.es[..f.lo], CutSeq(f.es, f.lo, Head(f));
    var c, d := OptSeq(SettledAt(second, f.off)), Shifted(f.es[f.hi..], f.end - f.off);
    TilesSound(f.es, 0);
    FrontSound(f.es, f.lo);
    ShiftedSound(f.es, f.hi, f.end - f.off);
    ArchivingConcat(a + b + c, d);
    ArchivingConcat(a + b, c);
    ArchivingConcat(a, b);
    ArchivingSound(a);
    ArchivingSound(c);
    ArchivingSound(d);
    assert Archiving(b) == KeptSeq(f.es, f.lo, Head(f));
  }

  /** The list after the loop, the tail put in under its new offset and the archived lengths set. */
  method MendList(p: Trimming, off: nat, ghost f: Deletion) returns (obj: DataObject)
    requires DeleteBegun(f) && ListsOk(f, |f.es|, p) && DistinctPointers(f.es) && MidOf(f, |f.es|) == f.hi
    requires off == f.off && (p.second.Some? ==> Sound(p.second.value))
    ensures obj.entries == Mended(f.es, f.off, f.end, f.lo, f.hi, p.second) && obj.size == SumLen(obj.entries)
  {
    EditedLists(f, p);
    var second := SettledAt(p.second, off);
    var rest := RemoveTouched(p.entries, p.removeList, From(f), f.hi);
    var entries := InsertPieces(rest, p.insertIndex, None, None, second);
    JoinEdited(f, p.(second := second), rest);
    ArchivingMends(f, p.second);
    entries := Archiving(entries);
    var size := TotalLen(entries);
    obj := DataObject(size, entries);
  }

  /** Where the delete loop ends, the mended list tiles and reads right, whatever the range, and owns the pages. */
  lemma MendedDeletion(f: Deletion, p: Trimming, s: Snapshot)
    requires DeleteAt(f, |f.es|, p, s)
    ensures var es' := Mended(f.es, f.off, f.end, f.lo, f.hi, p.second);
      && Archived(f.es) && f.off <= |BytesOf(f.pages, f.es)|
      && TilesFrom(es', 0) && Archived(es')
      && BytesOf(s.pages, es') == Removed(BytesOf(f.pages, f.es), f.off, f.end)
      && Consistent(s.view, f.owners[f.ino := SetOf(es')])
      && (OnBoundaries(f.es, f.off, f.end) ==> es' == Remaining(f.es, f.off, f.end, f.lo, f.hi, p.second))
  {
    FinishStarts(f, p, s);
    assert KeepsTail(f.pages, s.pages, f.es, f.hi, f.end, Beyond(f.es, f.end), p.second);
    MendedTiles(f.es, f.off, f.end, f.lo, f.hi, p.second);
    MendedReads(f.pages, s.pages, f.es, f.off, f.end, f.lo, f.hi, p.second);
    MendedAccounts(f, p.second, s.view, s.owners);
    if OnBoundaries(f.es, f.off, f.end) {
      MendedOnBoundaries(f.es, f.off, f.end, f.lo, f.hi, p.second);
    }
  }

  /** The new object reads as the old one without the range. */
  ghost predicate Cleared(pages: map<nat, Bytes>, pages': map<nat, Bytes>, obj: DataObject, obj': DataObject,
                          off: nat, end: nat)
    requires WholePages(pages) && WholePages(pages')
  {
    && Archived(obj.entries) && Archived(obj'.entries) && off <= |BytesOf(pages, obj.entries)|
    && BytesOf(pages', obj'.entries) == Removed(BytesOf(pages, obj.entries), off, end)
  }

  /** The object the mended deletion ends with, and its accounts. */
  method MendedObject(p: Trimming, obj: DataObject, off: nat, ghost len: nat, ghost f: Deletion, ghost s: Snapshot)
      returns (obj': DataObject)
    requires DeleteAt(f, |f.es|, p, s) && DistinctPointers(f.es) && obj == DataObject(SumLen(f.es), f.es)
    requires off == f.off && f.end == off + len
    ensures Tiled(obj') && Consistent(s.view, f.owners[f.ino := SetOf(obj'.entries)])
    ensures Cleared(f.pages, s.pages, obj, obj', off, off + len)
    ensures AllSame(f.pages, s.pages, f.owners - {f.ino})
  {
    FinishStarts(f, p, s);
    MendedDeletion(f, p, s);
    assert MidOf(f, |f.es|) == f.hi;
    obj' := MendList(p, off, f);
    ClearedTo(f.pages, s.pages, obj, obj', f.off, f.end, off, len);
  }

  lemma ClearedTo(pages: map<nat, Bytes>, pages': map<nat, Bytes>, obj: DataObject, obj': DataObject,
                  off: nat, end: nat, off': nat, len: nat)
    requires WholePages(pages) && WholePages(pages') && Cleared(pages, pages', obj, obj', off, end)
    requires off' == off && end == off + len
    ensures Cleared(pages, pages', obj, obj', off', off' + len)
  {}
}
