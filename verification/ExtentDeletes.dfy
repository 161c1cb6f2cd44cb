/**
 Deleting a byte range from a tiling, as the program does it: a touched extent that begins before the range
 only has its length cut, a piece kept behind the range keeps its old offset, and later extents are shifted.
 */
module ExtentDeletes {
  import opened Prelude
  import opened SstRecord
  import opened Flash
  import opened Extents
  import opened ExtentCuts

  /** The flat byte sequence without the bytes from off up to end. */
  function Removed(b: Bytes, off: nat, end: nat): Bytes
    requires off <= |b|
  {
    b[..off] + Rest(b, end)
  }

  /** The first touched extent, shortened to what lies before the range; its archived length is left alone. */
  function Cut(e: Extent, n: nat): Extent {
    e.(len := n)
  }

  function Shift(e: Extent, len: nat): Extent {
    if e.offset >= len then e.(offset := e.offset - len) else e
  }

  function Shifted(es: seq<Extent>, len: nat): seq<Extent> {
    seq(|es|, i requires 0 <= i < |es| => Shift(es[i], len))
  }

  /** A touched extent cut in front is kept in the list; the others are removed. */
  function CutSeq(es: seq<Extent>, lo: nat, n: nat): seq<Extent> {
    if lo < |es| && n > 0 then [Cut(es[lo], n)] else []
  }

  function KeptSet(es: seq<Extent>, lo: nat, n: nat): set<Extent> {
    if lo < |es| && n > 0 then {Kept(es[lo], n)} else {}
  }

  /** The list of extents the deletion leaves. */
  ghost function Remaining(es: seq<Extent>, off: nat, end: nat, lo: nat, hi: nat, second: Option<Extent>): seq<Extent>
    requires lo <= hi <= |es| && off <= end
  {
    es[..lo] + CutSeq(es, lo, Inside(es, off)) + OptSeq(second) + Shifted(es[hi..], end - off)
  }

  lemma {:induction false} ShiftedTiles(es: seq<Extent>, start: nat, len: nat)
    requires TilesFrom(es, start) && len <= start
    ensures TilesFrom(Shifted(es, len), start - len) && SumLen(Shifted(es, len)) == SumLen(es)
  {
    if |es| != 0 {
      var n := |es| - 1;
      ShiftedTiles(es[..n], start, len);
      assert Shifted(es, len)[..n] == Shifted(es[..n], len);
    }
  }

  lemma {:induction false} ShiftedSum(es: seq<Extent>, len: nat)
    ensures SumLen(Shifted(es, len)) == SumLen(es)
  {
    if |es| != 0 {
      var n := |es| - 1;
      ShiftedSum(es[..n], len);
      assert Shifted(es, len)[..n] == Shifted(es[..n], len);
    }
  }

  lemma {:induction false} ShiftedBytes(pages: map<nat, Bytes>, es: seq<Extent>, len: nat)
    requires WholePages(pages) && Archived(es)
    ensures Archived(Shifted(es, len))
    ensures BytesOf(pages, Shifted(es, len)) == BytesOf(pages, es)
  {
    if |es| != 0 {
      var n := |es| - 1;
      ShiftedBytes(pages, es[..n], len);
      assert Shifted(es, len)[..n] == Shifted(es[..n], len);
      assert ExtentBytes(pages, Shift(es[n], len)) == ExtentBytes(pages, es[n]);
    }
  }

  lemma CutSum(es: seq<Extent>, lo: nat, n: nat)
    requires lo >= |es| ==> n == 0
    ensures SumLen(CutSeq(es, lo, n)) == n
  {
    if lo < |es| && n > 0 {
      assert [Cut(es[lo], n)][..0] == [];
    }
  }

  /** How much of the object lies before the range, and how much behind it. */
  lemma RangeSizes(es: seq<Extent>, off: nat, end: nat, lo: nat, hi: nat)
    requires TilesFrom(es, 0) && Touched(es, off, end, lo, hi) && off < SumLen(es)
    ensures SumLen(es[..lo]) + Inside(es, off) == off && lo < |es|
    ensures Beyond(es, end) + SumLen(es[hi..]) == if end <= SumLen(es) then SumLen(es) - end else 0
  {
    PrefixCut(es, off, end, lo, hi);
    RangeEnd(es, off, end, lo, hi);
    TilesRest(es, hi);
    SuffixCut(es, off, end, lo, hi);
    assert hi == |es| ==> es[hi..] == [];
  }

  /** The reported size is always the old size less what the range overlaps. */
  lemma RemainingSize(es: seq<Extent>, off: nat, end: nat, lo: nat, hi: nat, second: Option<Extent>)
    requires TilesFrom(es, 0) && Touched(es, off, end, lo, hi) && off < SumLen(es)
    requires Piece(second, Beyond(es, end), end)
    ensures SumLen(Remaining(es, off, end, lo, hi, second)) ==
            SumLen(es) - ((if end <= SumLen(es) then end else SumLen(es)) - off)
  {
    RangeSizes(es, off, end, lo, hi);
    CutSum(es, lo, Inside(es, off));
    RemainingSum(es[..lo], CutSeq(es, lo, Inside(es, off)), second, es[hi..], Beyond(es, end), off, end);
  }

  lemma RemainingSum(a: seq<Extent>, b: seq<Extent>, second: Option<Extent>, d: seq<Extent>, n: nat, off: nat, end: nat)
    requires Piece(second, n, end) && off <= end
    ensures SumLen(a + b + OptSeq(second) + Shifted(d, end - off)) == SumLen(a) + SumLen(b) + n + SumLen(d)
  {
    PieceTiles(second, n, end);
    ShiftedSum(d, end - off);
    SumFour(a, b, OptSeq(second), Shifted(d, end - off));
  }

  lemma SumFour(a: seq<Extent>, b: seq<Extent>, c: seq<Extent>, d: seq<Extent>)
    ensures SumLen(a + b + c + d) == SumLen(a) + SumLen(b) + SumLen(c) + SumLen(d)
  {
    SumLenConcat(a, b);
    SumLenConcat(a + b, c);
    SumLenConcat(a + b + c, d);
  }

  /** The deletion leaves a tiling exactly when both ends of the range fall on extent boundaries. */
  lemma RemainingTiles(es: seq<Extent>, off: nat, end: nat, lo: nat, hi: nat, second: Option<Extent>)
    requires TilesFrom(es, 0) && Touched(es, off, end, lo, hi) && off < SumLen(es)
    requires Piece(second, Beyond(es, end), end)
    ensures TilesFrom(Remaining(es, off, end, lo, hi, second), 0) <==> Inside(es, off) == 0 && Beyond(es, end) == 0
  {
    PrefixCut(es, off, end, lo, hi);
    TilesRest(es, lo);
    FourTiles(es[..lo], CutSeq(es, lo, Inside(es, off)), OptSeq(second), Shifted(es[hi..], end - off));
    if Inside(es, off) > 0 {
      CutNotSound(es, off, lo);
    } else if second.Some? {
      TilesOne(second.value, off);
    } else {
      ShiftedUp(es, off, end, lo, hi);
    }
  }

  lemma FourTiles(a: seq<Extent>, b: seq<Extent>, c: seq<Extent>, d: seq<Extent>)
    ensures TilesFrom(a + b + c + d, 0) <==>
      && TilesFrom(a, 0) && TilesFrom(b, SumLen(a)) && TilesFrom(c, SumLen(a) + SumLen(b))
      && TilesFrom(d, SumLen(a) + SumLen(b) + SumLen(c))
  {
    TilesConcat(a + b + c, d, 0);
    TilesConcat(a + b, c, 0);
    TilesConcat(a, b, 0);
    SumLenConcat(a, b);
    SumLenConcat(a + b, c);
  }

  /** An extent whose length was cut but not its archived length is not sound. */
  lemma CutNotSound(es: seq<Extent>, off: nat, lo: nat)
    requires TilesFrom(es, 0) && lo < |es| && 0 < Inside(es, off) < es[lo].len
    ensures !TilesFrom(CutSeq(es, lo, Inside(es, off)), SumLen(es[..lo]))
  {
    TilesAt(es, 0, lo);
    TilesOne(Cut(es[lo], Inside(es, off)), SumLen(es[..lo]));
  }

  /** On boundaries the extents behind the range move up to where it began. */
  lemma ShiftedUp(es: seq<Extent>, off: nat, end: nat, lo: nat, hi: nat)
    requires TilesFrom(es, 0) && Touched(es, off, end, lo, hi) && off < SumLen(es)
    requires Inside(es, off) == 0 && Beyond(es, end) == 0
    ensures SumLen(es[..lo]) == off && TilesFrom(Shifted(es[hi..], end - off), off)
  {
    PrefixCut(es, off, end, lo, hi);
    RangeEnd(es, off, end, lo, hi);
    if hi < |es| {
      TilesRest(es, hi);
      ShiftedFrom(es[hi..], SumLen(es[..hi]), off, end);
    }
  }

  lemma ShiftedFrom(es: seq<Extent>, start: nat, off: nat, end: nat)
    requires TilesFrom(es, start) && start == end && off <= end
    ensures TilesFrom(Shifted(es, end - off), off)
  {
    ShiftedTiles(es, end, end - off);
  }

  /** The bytes of the cut extent from off on, which the deletion should have removed but still reads. */
  ghost function Leftover(pages: map<nat, Bytes>, es: seq<Extent>, off: nat, lo: nat): Bytes
    requires WholePages(pages) && lo < |es| && es[lo].archivedLen >= 1 && Inside(es, off) <= es[lo].archivedLen
  {
    if Inside(es, off) > 0 then ExtentBytes(pages, es[lo])[Inside(es, off)..] else []
  }

  /** What the deletion has left on flash: untouched extents, the cut one, and the copied tail read as before. */
  ghost predicate LeftOnFlash(pages: map<nat, Bytes>, pages': map<nat, Bytes>, es: seq<Extent>, off: nat, end: nat,
                              lo: nat, hi: nat, second: Option<Extent>)
    requires WholePages(pages) && WholePages(pages')
  {
    && TilesFrom(es, 0) && Touched(es, off, end, lo, hi) && off < SumLen(es)
    && SameBytes(pages, pages', SetOf(es[..lo])) && SameBytes(pages, pages', SetOf(es[hi..]))
    && lo < |es| && Inside(es, off) < es[lo].len && Sound(es[lo])
    && (Inside(es, off) > 0 ==> ExtentBytes(pages', es[lo]) == ExtentBytes(pages, es[lo]))
    && KeepsTail(pages, pages', es, hi, end, Beyond(es, end), second)
  }

  lemma LeftoverJoins(pages: map<nat, Bytes>, pages': map<nat, Bytes>, es: seq<Extent>, off: nat, lo: nat)
    requires WholePages(pages) && WholePages(pages') && lo < |es| && es[lo].archivedLen >= 1
    requires Inside(es, off) <= es[lo].archivedLen
    requires Inside(es, off) > 0 ==> ExtentBytes(pages', es[lo]) == ExtentBytes(pages, es[lo])
    ensures Archived(CutSeq(es, lo, Inside(es, off)))
    ensures BytesOf(pages', CutSeq(es, lo, Inside(es, off)))
         == ExtentBytes(pages, es[lo])[..Inside(es, off)] + Leftover(pages, es, off, lo)
  {
    var n := Inside(es, off);
    if n > 0 {
      BytesOne(pages', Cut(es[lo], n));
      CutReadsInFull(pages', es[lo], n);
      HeadAndRest(ExtentBytes(pages, es[lo]), n);
    } else {
      assert BytesOf(pages', []) == [];
    }
  }

  lemma CutReadsInFull(pages: map<nat, Bytes>, e: Extent, n: nat)
    requires WholePages(pages) && e.archivedLen >= 1
    ensures ExtentBytes(pages, Cut(e, n)) == ExtentBytes(pages, e)
  {}

  lemma HeadAndRest(b: Bytes, n: nat)
    requires n <= |b|
    ensures b == b[..n] + b[n..]
  {}

  lemma FourBytes(pages: map<nat, Bytes>, a: seq<Extent>, b: seq<Extent>, c: seq<Extent>, d: seq<Extent>)
    requires WholePages(pages) && Archived(a + b + c + d)
    ensures Archived(a) && Archived(b)
    ensures Archived(c) && Archived(d)
    ensures BytesOf(pages, a + b + c + d) ==
        BytesOf(pages, a) + BytesOf(pages, b) + BytesOf(pages, c) + BytesOf(pages, d)
  {
    BytesConcat(pages, a + b + c, d);
    BytesConcat(pages, a + b, c);
    BytesConcat(pages, a, b);
  }

  lemma RemainingArchived(es: seq<Extent>, off: nat, end: nat, lo: nat, hi: nat, second: Option<Extent>)
    requires lo <= hi <= |es| && off <= end
    requires Archived(es) && (second.Some? ==> second.value.archivedLen >= 1)
    ensures Archived(Remaining(es, off, end, lo, hi, second))
  {}

  lemma RemainingParts(pages: map<nat, Bytes>, es: seq<Extent>, off: nat, end: nat, lo: nat, hi: nat,
                       second: Option<Extent>)
    requires WholePages(pages) && lo <= hi <= |es| && off <= end
    requires Archived(es) && (second.Some? ==> second.value.archivedLen >= 1)
    ensures Archived(es[..lo]) && Archived(CutSeq(es, lo, Inside(es, off))) && Archived(es[hi..])
    ensures Archived(Remaining(es, off, end, lo, hi, second))
    ensures BytesOf(pages, Remaining(es, off, end, lo, hi, second)) ==
            BytesOf(pages, es[..lo]) + BytesOf(pages, CutSeq(es, lo, Inside(es, off)))
            + OptBytes(pages, second) + BytesOf(pages, es[hi..])
  {
    RemainingArchived(es, off, end, lo, hi, second);
    ShiftedBytes(pages, es[hi..], end - off);
    OptBytesOf(pages, second);
    FourBytes(pages, es[..lo], CutSeq(es, lo, Inside(es, off)), OptSeq(second), Shifted(es[hi..], end - off));
  }

  /** What the extents read as after the deletion: the first cut extent in full, not cut. */
  lemma RemainingBytes(pages: map<nat, Bytes>, pages': map<nat, Bytes>, es: seq<Extent>, off: nat, end: nat,
                       lo: nat, hi: nat, second: Option<Extent>)
    requires WholePages(pages) && WholePages(pages') && LeftOnFlash(pages, pages', es, off, end, lo, hi, second)
    ensures Archived(es) && off <= |BytesOf(pages, es)|
    ensures Archived(Remaining(es, off, end, lo, hi, second))
    ensures BytesOf(pages', Remaining(es, off, end, lo, hi, second)) ==
            (BytesOf(pages, es)[..off] + Leftover(pages, es, off, lo)) + Rest(BytesOf(pages, es), end)
  {
    FrontReads(pages, pages', es, off, end, lo, hi, second);
    TailReads(pages, pages', es, off, end, lo, hi, second);
    RemainingParts(pages', es, off, end, lo, hi, second);
    JoinFour(BytesOf(pages', es[..lo]), BytesOf(pages', CutSeq(es, lo, Inside(es, off))), OptBytes(pages', second),
             BytesOf(pages', es[hi..]), BytesOf(pages, es)[..off] + Leftover(pages, es, off, lo),
                 Rest(BytesOf(pages, es), end));
  }

  lemma FrontReads(pages: map<nat, Bytes>, pages': map<nat, Bytes>, es: seq<Extent>, off: nat, end: nat,
                   lo: nat, hi: nat, second: Option<Extent>)
    requires WholePages(pages) && WholePages(pages') && LeftOnFlash(pages, pages', es, off, end, lo, hi, second)
    ensures Archived(es) && off <= |BytesOf(pages, es)|
    ensures Archived(es[..lo]) && Archived(CutSeq(es, lo, Inside(es, off)))
    ensures BytesOf(pages', es[..lo]) + BytesOf(pages', CutSeq(es, lo, Inside(es, off)))
         == BytesOf(pages, es)[..off] + Leftover(pages, es, off, lo)
  {
    BytesBefore(pages, es, off, end, lo, hi);
    SameBytesOf(pages, pages', es[..lo]);
    LeftoverJoins(pages, pages', es, off, lo);
    JoinThree(BytesOf(pages, es[..lo]), ExtentBytes(pages, es[lo])[..Inside(es, off)], Leftover(pages, es, off, lo));
  }

  lemma JoinThree(a: Bytes, b: Bytes, c: Bytes)
    ensures a + (b + c) == a + b + c
  {}

  lemma JoinFour(a: Bytes, b: Bytes, c: Bytes, d: Bytes, front: Bytes, back: Bytes)
    requires a + b == front && c + d == back
    ensures a + b + c + d == front + back
  {}

  /** Reading back gives the sequence without the range exactly when the range begins at an extent boundary. */
  lemma RemainingReads(pages: map<nat, Bytes>, pages': map<nat, Bytes>, es: seq<Extent>, off: nat, end: nat,
                       lo: nat, hi: nat, second: Option<Extent>)
    requires WholePages(pages) && WholePages(pages') && LeftOnFlash(pages, pages', es, off, end, lo, hi, second)
    ensures Archived(es) && off <= |BytesOf(pages, es)|
    ensures Archived(Remaining(es, off, end, lo, hi, second))
    ensures BytesOf(pages', Remaining(es, off, end, lo, hi, second)) == Removed(BytesOf(pages, es), off, end)
            <==> Inside(es, off) == 0
  {
    RemainingBytes(pages, pages', es, off, end, lo, hi, second);
    ExtraMiddle(BytesOf(pages, es)[..off], Leftover(pages, es, off, lo), Rest(BytesOf(pages, es), end));
  }

  lemma ExtraMiddle(a: Bytes, b: Bytes, c: Bytes)
    ensures a + b + c == a + c <==> b == []
  {
    assert |a + b + c| == |a + c| + |b|;
    if b == [] {
      assert a + b == a;
    }
  }
}
