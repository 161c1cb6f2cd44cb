/**
 Replacing a byte range in a tiling: which extents the range touches, what is kept of the first and the
 last of them, and why the pieces tile and read back as the flat byte sequence would.
 */
module ExtentCuts {
  import opened Prelude
  import opened SstRecord
  import opened Flash
  import opened Extents

  function SetOf(es: seq<Extent>): set<Extent> {
    set e | e in es
  }

  /** The first n extents are those that end at or before x. */
  ghost predicate EndsBefore(es: seq<Extent>, x: nat, n: nat) {
    && n <= |es|
    && (forall i :: 0 <= i < n ==> es[i].offset + es[i].len <= x)
    && (forall i :: n <= i < |es| ==> es[i].offset + es[i].len > x)
  }

  /** The first n extents are those that begin before x. */
  ghost predicate BeginsBefore(es: seq<Extent>, x: nat, n: nat) {
    && n <= |es|
    && (forall i :: 0 <= i < n ==> es[i].offset < x)
    && (forall i :: n <= i < |es| ==> es[i].offset >= x)
  }

  lemma {:induction false} FindEnds(es: seq<Extent>, x: nat) returns (n: nat)
    requires TilesFrom(es, 0)
    ensures EndsBefore(es, x, n)
  {
    if |es| == 0 {
      n := 0;
    } else {
      var m := |es| - 1;
      n := FindEnds(es[..m], x);
      assert forall i :: 0 <= i < m ==> es[..m][i] == es[i];
      if es[m].offset + es[m].len <= x {
        forall i | 0 <= i < m ensures es[i].offset + es[i].len <= x {
          TilesOrder(es, 0, i, m);
        }
        n := |es|;
      }
    }
  }

  lemma {:induction false} FindBegins(es: seq<Extent>, x: nat) returns (n: nat)
    requires TilesFrom(es, 0)
    ensures BeginsBefore(es, x, n)
  {
    if |es| == 0 {
      n := 0;
    } else {
      var m := |es| - 1;
      n := FindBegins(es[..m], x);
      assert forall i :: 0 <= i < m ==> es[..m][i] == es[i];
      if es[m].offset < x {
        forall i | 0 <= i < m ensures es[i].offset < x {
          TilesOrder(es, 0, i, m);
          TilesAt(es, 0, i);
        }
        n := |es|;
      }
    }
  }

  /** How far x reaches into the extent that contains it; 0 at a boundary or past the end. */
  ghost function Inside(es: seq<Extent>, x: nat): nat {
    if |es| == 0 then 0
    else
      var e := es[|es| - 1];
      if e.offset < x < e.offset + e.len then x - e.offset else Inside(es[..|es| - 1], x)
  }

  /** What is left after x of the extent that contains it; 0 at a boundary or past the end. */
  ghost function Beyond(es: seq<Extent>, x: nat): nat {
    if |es| == 0 then 0
    else
      var e := es[|es| - 1];
      if e.offset < x < e.offset + e.len then e.offset + e.len - x else Beyond(es[..|es| - 1], x)
  }

  lemma {:induction false} InsideAt(es: seq<Extent>, x: nat, i: nat)
    requires TilesFrom(es, 0) && i < |es| && es[i].offset < x < es[i].offset + es[i].len
    ensures Inside(es, x) == x - es[i].offset && Beyond(es, x) == es[i].offset + es[i].len - x
  {
    var m := |es| - 1;
    if i < m {
      TilesOrder(es, 0, i, m);
      InsideAt(es[..m], x, i);
    }
  }

  lemma {:induction false} InsideNone(es: seq<Extent>, x: nat)
    requires forall i :: 0 <= i < |es| ==> !(es[i].offset < x < es[i].offset + es[i].len)
    ensures Inside(es, x) == 0 && Beyond(es, x) == 0
  {
    if |es| != 0 {
      InsideNone(es[..|es| - 1], x);
    }
  }

  /** No extent reaches past the end. */
  lemma PastEnd(es: seq<Extent>, x: nat)
    requires TilesFrom(es, 0) && x >= SumLen(es)
    ensures Inside(es, x) == 0 && Beyond(es, x) == 0
  {
    forall i | 0 <= i < |es| ensures !(es[i].offset < x < es[i].offset + es[i].len) {
      TilesAt(es, 0, i);
      SumLenMonotone(es, i + 1, |es|);
      assert es[..|es|] == es && es[..i + 1][..i] == es[..i];
    }
    InsideNone(es, x);
  }

  /**
   The extents before lo end at or before off, those from hi on begin at or after end, and those between
   are touched by the range [off, end).
   */
  ghost predicate Touched(es: seq<Extent>, off: nat, end: nat, lo: nat, hi: nat) {
    && off < end && lo <= hi
    && EndsBefore(es, off, lo) && BeginsBefore(es, end, hi)
  }

  lemma FindTouched(es: seq<Extent>, off: nat, end: nat) returns (lo: nat, hi: nat)
    requires TilesFrom(es, 0) && off < end
    ensures Touched(es, off, end, lo, hi)
  {
    lo := FindEnds(es, off);
    hi := FindBegins(es, end);
    if hi < lo {
      TilesAt(es, 0, hi);
    }
  }

  /** The end of a prefix of the tiling is where the next extent begins. */
  lemma SumAt(es: seq<Extent>, n: nat)
    requires TilesFrom(es, 0) && n <= |es|
    ensures n < |es| ==> es[n].offset == SumLen(es[..n])
    ensures n > 0 ==> es[n - 1].offset + es[n - 1].len == SumLen(es[..n])
    ensures n == |es| ==> SumLen(es[..n]) == SumLen(es)
  {
    if n < |es| { TilesAt(es, 0, n); }
    if n > 0 { TilesAt(es, 0, n - 1); }
    assert es[..|es|] == es;
  }

  /** What the range keeps of the first touched extent, and where the pieces meet. */
  lemma PrefixCut(es: seq<Extent>, off: nat, end: nat, lo: nat, hi: nat)
    requires TilesFrom(es, 0) && Touched(es, off, end, lo, hi) && off <= SumLen(es)
    ensures SumLen(es[..lo]) + Inside(es, off) == off
    ensures off < SumLen(es) <==> lo < |es|
    ensures off < SumLen(es) ==> lo < hi && es[lo].offset + Inside(es, off) == off && Inside(es, off) < es[lo].len
    ensures off == SumLen(es) ==> lo == hi == |es| && Inside(es, off) == 0
  {
    SumAt(es, lo);
    if lo < |es| {
      SumLenMonotone(es, lo + 1, |es|);
      TilesAt(es, 0, lo);
      assert es[..|es|] == es;
      if es[lo].offset < off {
        InsideAt(es, off, lo);
      } else {
        NoneAcross(es, off, lo);
      }
    } else {
      InsideNone(es, off);
    }
  }

  lemma NoneAcross(es: seq<Extent>, x: nat, n: nat)
    requires TilesFrom(es, 0) && EndsBefore(es, x, n) && (n < |es| ==> es[n].offset >= x)
    ensures Inside(es, x) == 0 && Beyond(es, x) == 0
  {
    forall i | 0 <= i < |es| ensures !(es[i].offset < x < es[i].offset + es[i].len) {
      if i > n { TilesOrder(es, 0, n, i); }
    }
    InsideNone(es, x);
  }

  /** What the range keeps of the last touched extent. */
  lemma SuffixCut(es: seq<Extent>, off: nat, end: nat, lo: nat, hi: nat)
    requires TilesFrom(es, 0) && Touched(es, off, end, lo, hi) && lo < hi
    ensures es[hi - 1].offset + es[hi - 1].len == SumLen(es[..hi])
    ensures end < SumLen(es[..hi]) ==> Beyond(es, end) == SumLen(es[..hi]) - end
    ensures end >= SumLen(es[..hi]) ==> Beyond(es, end) == 0
    ensures Beyond(es, end) < es[hi - 1].len
    ensures end > SumLen(es[..hi]) ==> hi == |es|
  {
    SumAt(es, hi);
    if end < SumLen(es[..hi]) {
      InsideAt(es, end, hi - 1);
    } else {
      forall i | 0 <= i < |es| ensures !(es[i].offset < end < es[i].offset + es[i].len) {
        if i < hi - 1 { TilesOrder(es, 0, i, hi - 1); }
      }
      InsideNone(es, end);
    }
  }

  /** Between the two ends nothing is kept. */
  lemma MiddleCut(es: seq<Extent>, off: nat, end: nat, lo: nat, hi: nat, i: nat)
    requires TilesFrom(es, 0) && Touched(es, off, end, lo, hi) && lo <= i < hi
    ensures i > lo ==> es[i].offset > off
    ensures i < hi - 1 ==> es[i].offset + es[i].len < end
  {
    if i > lo { TilesOrder(es, 0, lo, i); }
    if i < hi - 1 { TilesOrder(es, 0, i, hi - 1); }
  }

  /** All extents of a tiling are different. */
  lemma TilesDistinct(es: seq<Extent>, i: nat, j: nat)
    requires TilesFrom(es, 0) && i < |es| && j < |es| && i != j
    ensures es[i] != es[j]
  {
    var a, b := if i < j then i else j, if i < j then j else i;
    TilesOrder(es, 0, a, b);
    TilesAt(es, 0, a);
  }

  function OptSeq(e: Option<Extent>): seq<Extent> {
    match e case None => [] case Some(x) => [x]
  }

  function OptSet(e: Option<Extent>): set<Extent> {
    match e case None => {} case Some(x) => {x}
  }

  // ----- bytes of a tiling, cut at a position

  /** The bytes up to the end of the first n extents are the bytes of those extents. */
  lemma BytesCut(pages: map<nat, Bytes>, es: seq<Extent>, n: nat)
    requires WholePages(pages) && TilesFrom(es, 0) && n <= |es|
    ensures Archived(es)
    ensures Archived(es[..n]) && Archived(es[n..])
    ensures SumLen(es[..n]) <= |BytesOf(pages, es)| == SumLen(es)
    ensures |BytesOf(pages, es[..n])| == SumLen(es[..n])
    ensures BytesOf(pages, es)[..SumLen(es[..n])] == BytesOf(pages, es[..n])
    ensures BytesOf(pages, es)[SumLen(es[..n])..] == BytesOf(pages, es[n..])
  {
    TilesSound(es, 0);
    assert es == es[..n] + es[n..];
    TilesConcat(es[..n], es[n..], 0);
    BytesConcat(pages, es[..n], es[n..]);
    BytesLength(pages, es, 0);
    BytesLength(pages, es[..n], 0);
  }

  /** The bytes before, of and after the n-th extent. */
  lemma BytesAround(pages: map<nat, Bytes>, es: seq<Extent>, n: nat)
    requires WholePages(pages) && TilesFrom(es, 0) && n < |es|
    ensures Archived(es) && es[n].archivedLen == es[n].len
    ensures Archived(es[..n]) && Archived(es[n + 1..])
    ensures |BytesOf(pages, es[..n])| == SumLen(es[..n])
    ensures BytesOf(pages, es)
         == BytesOf(pages, es[..n]) + (ExtentBytes(pages, es[n]) + BytesOf(pages, es[n + 1..]))
  {
    TilesAt(es, 0, n);
    TilesSound(es, 0);
    TilesRest(es, n);
    BytesLength(pages, es[..n], 0);
    MiddleExtent(es, n);
    BytesOfParts(pages, es[..n], es[n], es[n + 1..], es);
  }

  lemma MiddleExtent(es: seq<Extent>, n: nat)
    requires n < |es|
    ensures es == es[..n] + ([es[n]] + es[n + 1..])
  {}

  lemma BytesOfParts(pages: map<nat, Bytes>, a: seq<Extent>, e: Extent, b: seq<Extent>, es: seq<Extent>)
    requires WholePages(pages) && es == a + ([e] + b) && Archived(es)
    ensures Archived(a) && Archived(b) && e.archivedLen >= 1
    ensures BytesOf(pages, es) == BytesOf(pages, a) + (ExtentBytes(pages, e) + BytesOf(pages, b))
  {
    BytesConcat(pages, a, [e] + b);
    BytesConcat(pages, [e], b);
    assert e in [e];
    BytesOne(pages, e);
  }

  lemma SliceInside(a: Bytes, x: Bytes, b: Bytes, k: nat)
    requires k <= |x|
    ensures (a + (x + b))[..|a| + k] == a + x[..k]
    ensures (a + (x + b))[|a| + k..] == x[k..] + b
  {}

  /** The bytes up to, and from, a position inside the n-th extent. */
  lemma BytesSplit(pages: map<nat, Bytes>, es: seq<Extent>, n: nat, k: nat)
    requires WholePages(pages) && TilesFrom(es, 0) && n < |es| && k <= es[n].len
    ensures Archived(es) && es[n].archivedLen == es[n].len
    ensures Archived(es[..n]) && Archived(es[n + 1..])
    ensures SumLen(es[..n]) + k <= |BytesOf(pages, es)|
    ensures BytesOf(pages, es)[..SumLen(es[..n]) + k] == BytesOf(pages, es[..n]) + ExtentBytes(pages, es[n])[..k]
    ensures BytesOf(pages, es)[SumLen(es[..n]) + k..] == ExtentBytes(pages, es[n])[k..] + BytesOf(pages, es[n + 1..])
  {
    BytesAround(pages, es, n);
    SliceInside(BytesOf(pages, es[..n]), ExtentBytes(pages, es[n]), BytesOf(pages, es[n + 1..]), k);
  }

  // ----- overwriting

  /** The flat byte sequence with value written over it at off, growing it if need be. */
  function Splice(b: Bytes, off: nat, value: Bytes): Bytes
    requires off <= |b|
  {
    b[..off] + value + Rest(b, off + |value|)
  }

  function Rest(b: Bytes, end: nat): Bytes {
    if end <= |b| then b[end..] else []
  }

  /** The extents after an overwrite: what precedes, the kept start, the new extent, the kept end, what follows. */
  ghost function Rebuilt(es: seq<Extent>, lo: nat, hi: nat, first: Option<Extent>, new_: Extent,
                         second: Option<Extent>): seq<Extent>
    requires lo <= hi <= |es|
  {
    es[..lo] + OptSeq(first) + [new_] + OptSeq(second) + es[hi..]
  }

  /** A new extent for n of the old bytes at the given place, present only if n is positive. */
  ghost predicate Piece(p: Option<Extent>, n: nat, offset: nat) {
    if n == 0 then p == None else p.Some? && Sound(p.value) && p.value.len == n && p.value.offset == offset
  }

  lemma PieceTiles(p: Option<Extent>, n: nat, offset: nat)
    requires Piece(p, n, offset)
    ensures TilesFrom(OptSeq(p), offset) && SumLen(OptSeq(p)) == n
  {
    if p.Some? { TilesOne(p.value, offset); }
  }

  lemma FiveTile(a: seq<Extent>, b: seq<Extent>, c: seq<Extent>, d: seq<Extent>, e: seq<Extent>)
    requires TilesFrom(a, 0) && TilesFrom(b, SumLen(a)) && TilesFrom(c, SumLen(a) + SumLen(b))
    requires TilesFrom(d, SumLen(a) + SumLen(b) + SumLen(c))
    requires TilesFrom(e, SumLen(a) + SumLen(b) + SumLen(c) + SumLen(d))
    ensures TilesFrom(a + b + c + d + e, 0)
    ensures SumLen(a + b + c + d + e) == SumLen(a) + SumLen(b) + SumLen(c) + SumLen(d) + SumLen(e)
  {
    ThreeTile(a, b, c);
    JoinTiles(a + b + c, d);
    JoinTiles(a + b + c + d, e);
  }

  lemma ThreeTile(a: seq<Extent>, b: seq<Extent>, c: seq<Extent>)
    requires TilesFrom(a, 0) && TilesFrom(b, SumLen(a)) && TilesFrom(c, SumLen(a) + SumLen(b))
    ensures TilesFrom(a + b + c, 0) && SumLen(a + b + c) == SumLen(a) + SumLen(b) + SumLen(c)
  {
    JoinTiles(a, b);
    JoinTiles(a + b, c);
  }

  lemma JoinTiles(a: seq<Extent>, b: seq<Extent>)
    requires TilesFrom(a, 0) && TilesFrom(b, SumLen(a))
    ensures TilesFrom(a + b, 0) && SumLen(a + b) == SumLen(a) + SumLen(b)
  {
    TilesConcat(a, b, 0);
    SumLenConcat(a, b);
  }

  /** The part of the tiling from the n-th extent on stands where the first n end. */
  lemma TilesRest(es: seq<Extent>, n: nat)
    requires TilesFrom(es, 0) && n <= |es|
    ensures TilesFrom(es[..n], 0) && TilesFrom(es[n..], SumLen(es[..n]))
    ensures SumLen(es) == SumLen(es[..n]) + SumLen(es[n..])
  {
    SplitParts(es, n);
    TilesOfParts(es[..n], es[n..], es);
    SumOfParts(es[..n], es[n..], es);
  }

  lemma SplitParts(es: seq<Extent>, n: nat)
    requires n <= |es|
    ensures es == es[..n] + es[n..]
  {}

  lemma TilesOfParts(s: seq<Extent>, t: seq<Extent>, es: seq<Extent>)
    requires es == s + t
    ensures TilesFrom(es, 0) ==> TilesFrom(s, 0) && TilesFrom(t, SumLen(s))
  {
    TilesConcat(s, t, 0);
  }

  lemma SumOfParts(s: seq<Extent>, t: seq<Extent>, es: seq<Extent>)
    requires es == s + t
    ensures SumLen(es) == SumLen(s) + SumLen(t)
  {
    SumLenConcat(s, t);
  }

  /** Where the kept end of the range meets what follows it. */
  lemma RangeEnd(es: seq<Extent>, off: nat, end: nat, lo: nat, hi: nat)
    requires TilesFrom(es, 0) && Touched(es, off, end, lo, hi) && off <= SumLen(es)
    ensures hi < |es| || Beyond(es, end) > 0 ==> end + Beyond(es, end) == SumLen(es[..hi])
    ensures hi == |es| && Beyond(es, end) == 0 ==> end >= SumLen(es)
  {
    PrefixCut(es, off, end, lo, hi);
    assert hi == |es| ==> es[..hi] == es;
    if lo < hi {
      SuffixCut(es, off, end, lo, hi);
    } else {
      forall i | 0 <= i < |es| ensures !(es[i].offset < end < es[i].offset + es[i].len) { }
      InsideNone(es, end);
    }
  }

  /** The extents tile again, over a range grown to the end of the write. */
  lemma RebuiltTiles(es: seq<Extent>, off: nat, end: nat, lo: nat, hi: nat,
                     first: Option<Extent>, new_: Extent, second: Option<Extent>)
    requires TilesFrom(es, 0) && Touched(es, off, end, lo, hi) && off <= SumLen(es)
    requires Piece(first, Inside(es, off), SumLen(es[..lo]))
    requires Sound(new_) && new_.offset == off && new_.len == end - off
    requires Piece(second, Beyond(es, end), end)
    ensures TilesFrom(Rebuilt(es, lo, hi, first, new_, second), 0)
    ensures SumLen(Rebuilt(es, lo, hi, first, new_, second)) == if end <= SumLen(es) then SumLen(es) else end
  {
    TilesRest(es, lo);
    TilesRest(es, hi);
    PrefixCut(es, off, end, lo, hi);
    RangeEnd(es, off, end, lo, hi);
    assert hi == |es| ==> es[hi..] == [];
    PiecesFit(es[..lo], first, new_, second, es[hi..], Inside(es, off), off, end, Beyond(es, end));
  }

  lemma PiecesFit(a: seq<Extent>, first: Option<Extent>, new_: Extent, second: Option<Extent>, e: seq<Extent>,
                  n: nat, off: nat, end: nat, m: nat)
    requires TilesFrom(a, 0) && SumLen(a) + n == off <= end
    requires Piece(first, n, SumLen(a)) && Piece(second, m, end)
    requires Sound(new_) && new_.offset == off && new_.len == end - off
    requires e == [] || TilesFrom(e, end + m)
    ensures TilesFrom(a + OptSeq(first) + [new_] + OptSeq(second) + e, 0)
    ensures SumLen(a + OptSeq(first) + [new_] + OptSeq(second) + e) == end + m + SumLen(e)
  {
    PieceTiles(first, n, SumLen(a));
    TilesOne(new_, off);
    PieceTiles(second, m, end);
    FiveTile(a, OptSeq(first), [new_], OptSeq(second), e);
  }

  ghost function OptBytes(pages: map<nat, Bytes>, p: Option<Extent>): Bytes
    requires WholePages(pages) && (p.Some? ==> p.value.archivedLen >= 1)
  {
    match p case None => [] case Some(e) => ExtentBytes(pages, e)
  }

  lemma OptBytesOf(pages: map<nat, Bytes>, p: Option<Extent>)
    requires WholePages(pages) && (p.Some? ==> p.value.archivedLen >= 1)
    ensures Archived(OptSeq(p))
    ensures BytesOf(pages, OptSeq(p)) == OptBytes(pages, p)
  {
    if p.Some? { BytesOne(pages, p.value); }
  }

  lemma FiveBytes(pages: map<nat, Bytes>, a: seq<Extent>, b: Option<Extent>, c: Extent, d: Option<Extent>,
                  e: seq<Extent>)
    requires WholePages(pages) && Archived(a + OptSeq(b) + [c] + OptSeq(d) + e)
    ensures Archived(a) && Archived(e)
    ensures (b.Some? ==> b.value.archivedLen >= 1) && c.archivedLen >= 1 && (d.Some? ==> d.value.archivedLen >= 1)
    ensures BytesOf(pages, a + OptSeq(b) + [c] + OptSeq(d) + e)
         == BytesOf(pages, a) + OptBytes(pages, b) + ExtentBytes(pages, c) + OptBytes(pages, d) + BytesOf(pages, e)
  {
    BytesConcat(pages, a + OptSeq(b) + [c] + OptSeq(d), e);
    BytesConcat(pages, a + OptSeq(b) + [c], OptSeq(d));
    BytesConcat(pages, a + OptSeq(b), [c]);
    BytesConcat(pages, a, OptSeq(b));
    assert b.Some? ==> b.value in OptSeq(b);
    assert d.Some? ==> d.value in OptSeq(d);
    assert c in [c];
    OptBytesOf(pages, b);
    OptBytesOf(pages, d);
    BytesOne(pages, c);
  }

  /** The old bytes before the range: those of the first extents and of the kept start. */
  lemma BytesBefore(pages: map<nat, Bytes>, es: seq<Extent>, off: nat, end: nat, lo: nat, hi: nat)
    requires WholePages(pages) && TilesFrom(es, 0) && Touched(es, off, end, lo, hi) && off <= SumLen(es)
    ensures Archived(es) && Archived(es[..lo])
    ensures |BytesOf(pages, es)| == SumLen(es)
    ensures lo < |es| ==> Inside(es, off) <= es[lo].archivedLen
    ensures BytesOf(pages, es)[..off] == BytesOf(pages, es[..lo]) +
              if lo < |es| then ExtentBytes(pages, es[lo])[..Inside(es, off)] else []
  {
    PrefixCut(es, off, end, lo, hi);
    BytesLength(pages, es, 0);
    if lo < |es| {
      BytesUpTo(pages, es, lo, Inside(es, off), off, es[..lo]);
    } else {
      AllBefore(pages, es, es[..lo], off);
    }
  }

  /** The range ends n bytes before the end of the extent before hi. */
  ghost predicate EndsWithin(es: seq<Extent>, end: nat, hi: nat, n: nat) {
    && 0 < hi <= |es| && n <= es[hi - 1].len
    && SumLen(es[..hi - 1]) + (es[hi - 1].len - n) == end
  }

  lemma RangeEndsWithin(es: seq<Extent>, off: nat, end: nat, lo: nat, hi: nat)
    requires TilesFrom(es, 0) && Touched(es, off, end, lo, hi) && off <= SumLen(es) && end <= SumLen(es)
    ensures EndsWithin(es, end, hi, Beyond(es, end))
  {
    PrefixCut(es, off, end, lo, hi);
    SuffixCut(es, off, end, lo, hi);
    RangeEnd(es, off, end, lo, hi);
    TilesAt(es, 0, hi - 1);
  }

  /** The old bytes after the range: those of the kept end and of the following extents. */
  lemma BytesAfter(pages: map<nat, Bytes>, es: seq<Extent>, end: nat, hi: nat, n: nat)
    requires WholePages(pages) && TilesFrom(es, 0) && EndsWithin(es, end, hi, n)
    ensures Archived(es) && Archived(es[hi..])
    ensures end <= |BytesOf(pages, es)| && n <= es[hi - 1].archivedLen && es[hi - 1].archivedLen >= 1
    ensures BytesOf(pages, es)[end..] ==
            ExtentBytes(pages, es[hi - 1])[es[hi - 1].archivedLen - n..] + BytesOf(pages, es[hi..])
  {
    TilesAt(es, 0, hi - 1);
    BytesFrom(pages, es, hi - 1, es[hi - 1].len - n, end, es[hi..]);
  }

  lemma BytesUpTo(pages: map<nat, Bytes>, es: seq<Extent>, i: nat, k: nat, at: nat, front: seq<Extent>)
    requires WholePages(pages) && TilesFrom(es, 0) && i < |es| && k <= es[i].len
    requires at == SumLen(es[..i]) + k && front == es[..i]
    ensures Archived(es) && Archived(front) && es[i].archivedLen == es[i].len && at <= |BytesOf(pages, es)|
    ensures BytesOf(pages, es)[..at] == BytesOf(pages, front) + ExtentBytes(pages, es[i])[..k]
  {
    BytesSplit(pages, es, i, k);
  }

  lemma AllBefore(pages: map<nat, Bytes>, es: seq<Extent>, front: seq<Extent>, at: nat)
    requires WholePages(pages) && Archived(es) && front == es && at == |BytesOf(pages, es)|
    ensures BytesOf(pages, es)[..at] == BytesOf(pages, front) + []
  {}

  lemma BytesFrom(pages: map<nat, Bytes>, es: seq<Extent>, i: nat, k: nat, at: nat, rest: seq<Extent>)
    requires WholePages(pages) && TilesFrom(es, 0) && i < |es| && k <= es[i].len
    requires at == SumLen(es[..i]) + k && rest == es[i + 1..]
    ensures Archived(es) && Archived(rest) && es[i].archivedLen == es[i].len && at <= |BytesOf(pages, es)|
    ensures BytesOf(pages, es)[at..] == ExtentBytes(pages, es[i])[k..] + BytesOf(pages, rest)
  {
    BytesSplit(pages, es, i, k);
  }

  /** The last n bytes of an extent. */
  ghost function TailBytes(pages: map<nat, Bytes>, e: Extent, n: nat): Bytes
    requires WholePages(pages) && e.archivedLen >= 1 && n <= e.archivedLen
  {
    ExtentBytes(pages, e)[e.archivedLen - n..]
  }

  /** Extents read the same from both page stores. */
  ghost predicate SameBytes(pages: map<nat, Bytes>, pages': map<nat, Bytes>, es: set<Extent>)
    requires WholePages(pages) && WholePages(pages')
  {
    forall e :: e in es ==> e.archivedLen >= 1 && ExtentBytes(pages', e) == ExtentBytes(pages, e)
  }

  /** first holds what is kept of the extent at lo in front of the range. */
  ghost predicate KeepsHead(pages: map<nat, Bytes>, pages': map<nat, Bytes>, es: seq<Extent>, lo: nat, n: nat,
                            first: Option<Extent>)
    requires WholePages(pages) && WholePages(pages')
  {
    && lo <= |es| && Piece(first, n, SumLen(es[..lo]))
    && (n > 0 ==>
          && lo < |es| && n <= es[lo].archivedLen
          && OptBytes(pages', first) == ExtentBytes(pages, es[lo])[..n])
  }

  /** second holds what is kept of the extent before hi behind the range. */
  ghost predicate KeepsTail(pages: map<nat, Bytes>, pages': map<nat, Bytes>, es: seq<Extent>, hi: nat, end: nat, n: nat,
                            second: Option<Extent>)
    requires WholePages(pages) && WholePages(pages')
  {
    && hi <= |es| && Piece(second, n, end)
    && (n > 0 ==>
          && 0 < hi && n <= es[hi - 1].archivedLen
          && OptBytes(pages', second) == TailBytes(pages, es[hi - 1], n))
  }

  lemma HeadReads(pages: map<nat, Bytes>, pages': map<nat, Bytes>, es: seq<Extent>, off: nat, end: nat,
                  lo: nat, hi: nat, first: Option<Extent>)
    requires WholePages(pages) && WholePages(pages') && TilesFrom(es, 0)
    requires Touched(es, off, end, lo, hi) && off <= SumLen(es)
    requires SameBytes(pages, pages', SetOf(es[..lo])) && KeepsHead(pages, pages', es, lo, Inside(es, off), first)
    ensures Archived(es) && off <= |BytesOf(pages, es)|
    ensures Archived(es[..lo])
    ensures BytesOf(pages', es[..lo]) + OptBytes(pages', first) == BytesOf(pages, es)[..off]
  {
    BytesBefore(pages, es, off, end, lo, hi);
    SameBytesOf(pages, pages', es[..lo]);
    assert lo < |es| ==> ExtentBytes(pages, es[lo])[..0] == [];
  }

  lemma TailReadsInside(pages: map<nat, Bytes>, pages': map<nat, Bytes>, es: seq<Extent>, end: nat, hi: nat, n: nat,
                        second: Option<Extent>)
    requires WholePages(pages) && WholePages(pages') && TilesFrom(es, 0) && EndsWithin(es, end, hi, n)
    requires SameBytes(pages, pages', SetOf(es[hi..])) && KeepsTail(pages, pages', es, hi, end, n, second)
    ensures Archived(es) && end <= |BytesOf(pages, es)|
    ensures Archived(es[hi..])
    ensures OptBytes(pages', second) + BytesOf(pages', es[hi..]) == BytesOf(pages, es)[end..]
  {
    BytesAfter(pages, es, end, hi, n);
    SameBytesOf(pages, pages', es[hi..]);
    TailPiece(pages, pages', es, hi, end, n, second);
  }

  lemma TailPiece(pages: map<nat, Bytes>, pages': map<nat, Bytes>, es: seq<Extent>, hi: nat, end: nat, n: nat,
                  second: Option<Extent>)
    requires WholePages(pages) && WholePages(pages') && 0 < hi <= |es| && n <= es[hi - 1].archivedLen
    requires es[hi - 1].archivedLen >= 1 && KeepsTail(pages, pages', es, hi, end, n, second)
    ensures OptBytes(pages', second) == ExtentBytes(pages, es[hi - 1])[es[hi - 1].archivedLen - n..]
  {
    if n == 0 {
      NoTail(pages, es[hi - 1]);
    }
  }

  lemma SameBytesOf(pages: map<nat, Bytes>, pages': map<nat, Bytes>, es: seq<Extent>)
    requires WholePages(pages) && WholePages(pages') && SameBytes(pages, pages', SetOf(es))
    ensures Archived(es)
    ensures BytesOf(pages, es) == BytesOf(pages', es)
  {
    assert forall e :: e in es ==> e in SetOf(es);
    BytesSame(pages, pages', es);
  }

  lemma NoTail(pages: map<nat, Bytes>, e: Extent)
    requires WholePages(pages) && e.archivedLen >= 1
    ensures ExtentBytes(pages, e)[e.archivedLen - 0..] == []
  {}

  lemma TailReads(pages: map<nat, Bytes>, pages': map<nat, Bytes>, es: seq<Extent>, off: nat, end: nat,
                  lo: nat, hi: nat, second: Option<Extent>)
    requires WholePages(pages) && WholePages(pages') && TilesFrom(es, 0)
    requires Touched(es, off, end, lo, hi) && off <= SumLen(es)
    requires SameBytes(pages, pages', SetOf(es[hi..])) && KeepsTail(pages, pages', es, hi, end, Beyond(es, end), second)
    ensures Archived(es) && |BytesOf(pages, es)| == SumLen(es)
    ensures Archived(es[hi..])
    ensures OptBytes(pages', second) + BytesOf(pages', es[hi..]) == Rest(BytesOf(pages, es), end)
  {
    BytesCut(pages, es, hi);
    if end <= SumLen(es) {
      RangeEndsWithin(es, off, end, lo, hi);
      TailReadsInside(pages, pages', es, end, hi, Beyond(es, end), second);
    } else {
      RangeEnd(es, off, end, lo, hi);
      PrefixCut(es, off, end, lo, hi);
      assert hi == |es| by { if lo < hi { SuffixCut(es, off, end, lo, hi); SumLenMonotone(es, hi, |es|); } }
      assert es[hi..] == [] && second == None;
    }
  }

  /** The rebuilt extents read back as the old bytes with the value written over them. */
  lemma RebuiltBytes(pages: map<nat, Bytes>, pages': map<nat, Bytes>, es: seq<Extent>, off: nat, end: nat, value: Bytes,
                     lo: nat, hi: nat, first: Option<Extent>, new_: Extent, second: Option<Extent>)
    requires WholePages(pages) && WholePages(pages') && TilesFrom(es, 0)
    requires Touched(es, off, end, lo, hi) && off <= SumLen(es) && end == off + |value|
    requires SameBytes(pages, pages', SetOf(es[..lo])) && SameBytes(pages, pages', SetOf(es[hi..]))
    requires KeepsHead(pages, pages', es, lo, Inside(es, off), first)
    requires KeepsTail(pages, pages', es, hi, end, Beyond(es, end), second)
    requires Sound(new_) && ExtentBytes(pages', new_) == value
    requires Archived(Rebuilt(es, lo, hi, first, new_, second))
    ensures Archived(es) && off <= |BytesOf(pages, es)|
    ensures BytesOf(pages', Rebuilt(es, lo, hi, first, new_, second)) == Splice(BytesOf(pages, es), off, value)
  {
    HeadReads(pages, pages', es, off, end, lo, hi, first);
    TailReads(pages, pages', es, off, end, lo, hi, second);
    RebuiltJoins(pages', es[..lo], first, new_, second, es[hi..], BytesOf(pages, es), off, value);
  }

  lemma RebuiltJoins(pages: map<nat, Bytes>, a: seq<Extent>, first: Option<Extent>, new_: Extent,
                     second: Option<Extent>,
                     e: seq<Extent>, was: Bytes, off: nat, value: Bytes)
    requires WholePages(pages) && Archived(a + OptSeq(first) + [new_] + OptSeq(second) + e)
    requires Archived(a) && Archived(e) && (first.Some? ==> first.value.archivedLen >= 1)
    requires second.Some? ==> second.value.archivedLen >= 1
    requires new_.archivedLen >= 1 && ExtentBytes(pages, new_) == value
    requires off <= |was| && BytesOf(pages, a) + OptBytes(pages, first) == was[..off]
    requires OptBytes(pages, second) + BytesOf(pages, e) == Rest(was, off + |value|)
    ensures BytesOf(pages, a + OptSeq(first) + [new_] + OptSeq(second) + e) == Splice(was, off, value)
  {
    FiveBytes(pages, a, first, new_, second, e);
    JoinFive(BytesOf(pages, a), OptBytes(pages, first), value, OptBytes(pages, second), BytesOf(pages, e), was, off);
  }

  lemma JoinFive(a: Bytes, b: Bytes, value: Bytes, d: Bytes, e: Bytes, was: Bytes, off: nat)
    requires off <= |was| && a + b == was[..off] && d + e == Rest(was, off + |value|)
    ensures a + b + value + d + e == Splice(was, off, value)
  {}
}
