/** Where the bytes of a range stand among an object's extents. */
module Reading {
  import opened SstRecord
  import opened Flash
  import opened Extents
  import opened ExtentCuts

  /** A read gives bytes, finds no object, or slices past the end of a buffer. */
  datatype Outcome = Absent | Panics | Read(data: Bytes)

  /** The first extent of a range is read in one slice: from a boundary on, or wholly inside the extent. */
  ghost predicate Readable(es: seq<Extent>, off: nat, len: nat) {
    Inside(es, off) == 0 || len <= Beyond(es, off)
  }

  /** Part of an extent is part of the object. */
  lemma PartReads(pages: map<nat, Bytes>, es: seq<Extent>, i: nat, d: nat, n: nat)
    requires WholePages(pages) && TilesFrom(es, 0) && i < |es| && d + n <= es[i].len
    ensures Archived(es) && es[i].archivedLen == es[i].len
    ensures SumLen(es[..i]) + es[i].len == SumLen(es[..i + 1]) <= |BytesOf(pages, es)|
    ensures BytesOf(pages, es)[SumLen(es[..i]) + d..SumLen(es[..i]) + d + n] == ExtentBytes(pages, es[i])[d..d + n]
  {
    BytesAround(pages, es, i);
    TilesAt(es, 0, i);
    SliceOfMiddle(BytesOf(pages, es), BytesOf(pages, es[..i]), ExtentBytes(pages, es[i]), BytesOf(pages, es[i + 1..]),
                  SumLen(es[..i]), d, n);
  }

  lemma SliceOfMiddle(c: Bytes, a: Bytes, x: Bytes, b: Bytes, at: nat, d: nat, n: nat)
    requires c == a + (x + b) && at == |a| && d + n <= |x|
    ensures at + |x| <= |c| && c[at + d..at + d + n] == x[d..d + n]
  {
    MiddleSlice(a, x, b, d, n);
  }

  lemma MiddleSlice(a: Bytes, x: Bytes, b: Bytes, d: nat, n: nat)
    requires d + n <= |x|
    ensures (a + (x + b))[|a| + d..|a| + d + n] == x[d..d + n]
  {}

  /** The i-th extent is the one off lies in, or begins at. */
  ghost predicate Holds(es: seq<Extent>, i: nat, off: nat) {
    i < |es| && es[i].offset <= off < es[i].offset + es[i].len
  }

  lemma HoldsInside(es: seq<Extent>, i: nat, off: nat)
    requires TilesFrom(es, 0) && Holds(es, i, off)
    ensures es[i].offset == SumLen(es[..i]) && Inside(es, off) == off - es[i].offset
    ensures off > es[i].offset ==> Beyond(es, off) == es[i].offset + es[i].len - off
  {
    TilesAt(es, 0, i);
    if off > es[i].offset {
      InsideAt(es, off, i);
    } else {
      forall j | 0 <= j < |es| ensures !(es[j].offset < off < es[j].offset + es[j].len) {
        if j < i { TilesOrder(es, 0, j, i); } else if j > i { TilesOrder(es, 0, i, j); }
      }
      InsideNone(es, off);
    }
  }

  /** The first slice of a read stays inside its extent exactly if the range is readable. */
  lemma FirstSlice(es: seq<Extent>, i: nat, off: nat, len: nat)
    requires TilesFrom(es, 0) && Holds(es, i, off) && len >= 1
    ensures es[i].offset == SumLen(es[..i]) && Sound(es[i])
    ensures Readable(es, off, len) <==> off - es[i].offset + (if es[i].len < len then es[i].len else len) <= es[i].len
  {
    TilesAt(es, 0, i);
    HoldsInside(es, i, off);
  }

  /** At an extent boundary with n bytes still to come: the next extent gives the first of them, or all. */
  lemma ReadsNext(pages: map<nat, Bytes>, es: seq<Extent>, i: nat, n: nat, c: Bytes, to: nat)
    requires WholePages(pages) && TilesFrom(es, 0) && i <= |es| && n > 0 && to + n <= SumLen(es)
    requires to == SumLen(es[..i])
    requires Archived(es) && c == BytesOf(pages, es)
    ensures i < |es| && es[i].archivedLen == es[i].len
    ensures SumLen(es[..i + 1]) == to + es[i].len
    ensures var m := if es[i].len < n then es[i].len else n;
      to + m <= |c| && c[to..to + m] == ExtentBytes(pages, es[i])[..m]
  {
    SumAt(es, i);
    var m := if es[i].len < n then es[i].len else n;
    PartReads(pages, es, i, 0, m);
    assert ExtentBytes(pages, es[i])[0..0 + m] == ExtentBytes(pages, es[i])[..m];
  }

  /** Part of an extent, as a slice of the object. */
  lemma SliceReads(pages: map<nat, Bytes>, es: seq<Extent>, i: nat, off: nat, n: nat)
    requires WholePages(pages) && TilesFrom(es, 0) && i < |es| && es[i].offset <= off
    requires off - es[i].offset + n <= es[i].len
    ensures Archived(es) && es[i].archivedLen == es[i].len && off + n <= |BytesOf(pages, es)|
    ensures SumLen(es[..i + 1]) == es[i].offset + es[i].len
    ensures ExtentBytes(pages, es[i])[off - es[i].offset..off - es[i].offset + n] == BytesOf(pages, es)[off..off + n]
  {
    TilesAt(es, 0, i);
    var d := off - es[i].offset;
    PartReads(pages, es, i, d, n);
    SliceFrom(BytesOf(pages, es), ExtentBytes(pages, es[i]), SumLen(es[..i]), d, n, off);
  }

  lemma SliceFrom(c: Bytes, x: Bytes, a: nat, d: nat, n: nat, off: nat)
    requires d + n <= |x| && a + d + n <= |c| && c[a + d..a + d + n] == x[d..d + n] && off == a + d
    ensures x[d..d + n] == c[off..off + n]
  {}

  lemma SliceLength(c: Bytes, off: nat, n: nat, part: Bytes)
    requires off + n <= |c| && part == c[off..off + n]
    ensures |part| == n && part == c[off..off + |part|]
  {}

  /** What can be taken from the extent that holds a position. */
  lemma Within(pages: map<nat, Bytes>, es: seq<Extent>, i: nat, off: nat)
    requires WholePages(pages) && TilesFrom(es, 0) && Holds(es, i, off) && Archived(es)
    ensures i < |es| && es[i].offset <= off < es[i].offset + es[i].len && es[i].archivedLen == es[i].len >= 1
    ensures |ExtentBytes(pages, es[i])| == es[i].len && es[i].offset + es[i].len == SumLen(es[..i + 1])
  {
    TilesAt(es, 0, i);
    HoldsInside(es, i, off);
    RunLength(pages, MAIN + es[i].pagePointer, Pages(es[i]));
  }

  /** A first slice capped by the bytes left of its extent is right, and short of len only at the extent's end. */
  lemma CappedReads(pages: map<nat, Bytes>, es: seq<Extent>, i: nat, off: nat, len: nat, c: Bytes, data: Bytes,
                    from: nat, n: nat, first: Bytes)
    requires WholePages(pages) && TilesFrom(es, 0) && Holds(es, i, off) && Archived(es) && c == BytesOf(pages, es)
    requires i < |es| && data == ExtentBytes(pages, es[i]) && from + es[i].offset == off && from <= |data|
    requires n == (if |data| - from < len then |data| - from else len) && first == data[from..from + n]
    ensures off + n <= |c| && |first| == n && first == c[off..off + |first|]
    ensures |first| < len ==> off + |first| == SumLen(es[..i + 1])
  {
    Within(pages, es, i, off);
    SliceReads(pages, es, i, off, n);
    assert off - es[i].offset == from;
  }

  lemma ReadsMore(c: Bytes, a: nat, b: nat, d: nat, result: Bytes, part: Bytes)
    requires a <= b <= d <= |c| && result == c[a..b] && part == c[b..d]
    ensures result + part == c[a..d]
  {}

  /** A read that begins inside an extent and reaches into the next one fails. */
  lemma CrossingReadFails()
    ensures var es := [Extent(10, 10, 0, 0, 0), Extent(10, 10, 10, 1, 0)];
      TilesFrom(es, 0) && SumLen(es) == 20 && !Readable(es, 5, 10) && Readable(es, 0, 15) && Readable(es, 5, 5)
  {
    var e, f := Extent(10, 10, 0, 0, 0), Extent(10, 10, 10, 1, 0);
    var es := [e, f];
    assert es[..1] == [e] && es == [e] + [f];
    TilesOne(e, 0);
    TilesOne(f, 10);
    TilesConcat([e], [f], 0);
    SumLenConcat([e], [f]);
    InsideAt(es, 5, 0);
    InsideNone(es, 0);
  }
}
