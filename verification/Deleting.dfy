/**
 The deletion of a range, step by step: what is given back of each touched extent, how the list is edited,
 and what the result reads as.
 */
module Deleting {
  import opened Prelude
  import opened SstRecord
  import opened Flash
  import opened BlockTable
  import opened Extents
  import opened ExtentCuts
  import opened ExtentDeletes
  import opened EntryLists
  import opened ObjectAccounts
  import opened Frontiers

  /** What a deletion starts from. */
  datatype Deletion = Deletion(es: seq<Extent>, off: nat, end: nat, ino: nat, lo: nat, hi: nat,
                               pages: map<nat, Bytes>, owners: Owners)

  /** The loop's variables: the list being edited, pointers to remove, where to insert, and the piece kept behind. */
  datatype Trimming = Trimming(entries: seq<Extent>, removeList: seq<nat>, insertIndex: int, second: Option<Extent>)

  ghost predicate DeleteBegun(f: Deletion) {
    && WholePages(f.pages)
    && TilesFrom(f.es, 0) && Touched(f.es, f.off, f.end, f.lo, f.hi) && f.off < SumLen(f.es)
    && f.lo < f.hi && Inside(f.es, f.off) < f.es[f.lo].len && Sound(f.es[f.lo])
    && f.ino in f.owners && f.owners[f.ino] == SetOf(f.es)
  }

  /** What is kept of the first touched extent. */
  ghost function Head(f: Deletion): nat {
    Inside(f.es, f.off)
  }

  /** The first extent that is removed. */
  ghost function From(f: Deletion): nat {
    f.lo + if Head(f) > 0 then 1 else 0
  }

  ghost function MidOf(f: Deletion, k: nat): nat
    requires f.lo <= f.hi
  {
    if k <= f.lo then f.lo else if k <= f.hi then k else f.hi
  }

  /** The i-th extent of the list once the loop has passed it. */
  ghost function Edited(f: Deletion, i: nat): Extent
    requires DeleteBegun(f) && i < |f.es|
  {
    if i >= f.hi then Shift(f.es[i], f.end - f.off)
    else if i == f.lo && Head(f) > 0 then Cut(f.es[i], Head(f))
    else f.es[i]
  }

  ghost function EditedUpTo(f: Deletion, k: nat): seq<Extent>
    requires DeleteBegun(f)
  {
    seq(|f.es|, i requires 0 <= i < |f.es| => if i < k then Edited(f, i) else f.es[i])
  }

  ghost function OwnedLeft(f: Deletion, m: nat, second: Option<Extent>): set<Extent>
    requires DeleteBegun(f) && f.lo <= m <= |f.es|
  {
    SetOf(f.es[..f.lo]) + (if m > f.lo then KeptSet(f.es, f.lo, Head(f)) else {}) + SetOf(f.es[m..]) + OptSet(second)
  }

  ghost predicate ListsOk(f: Deletion, k: nat, p: Trimming)
    requires DeleteBegun(f) && k <= |f.es|
  {
    && p.entries == EditedUpTo(f, k)
    && (MidOf(f, k) == f.lo ==> p.removeList == [] && p.insertIndex == -1)
    && (MidOf(f, k) > f.lo ==> p.removeList == Pointers(f.es[From(f)..MidOf(f, k)]) && p.insertIndex == From(f))
  }

  /** The lists are right for the touched extents passed so far, and so is the piece kept behind the range. */
  ghost predicate Trimmed(f: Deletion, pages: map<nat, Bytes>, k: nat, p: Trimming)
    requires DeleteBegun(f) && k <= |f.es| && WholePages(pages)
  {
    && ListsOk(f, k, p)
    && (if MidOf(f, k) < f.hi then p.second == None
        else KeepsTail(f.pages, pages, f.es, f.hi, f.end, Beyond(f.es, f.end), p.second))
    && OptSet(p.second) !! SetOf(f.es[f.hi..])
  }

  /** Untouched extents, the cut one, and those of other objects read as at the start. */
  ghost predicate LeftAsBefore(f: Deletion, pages: map<nat, Bytes>, m: nat)
    requires DeleteBegun(f) && WholePages(pages) && f.lo <= m <= |f.es|
  {
    && SameBytes(f.pages, pages, SetOf(f.es[..f.lo])) && SameBytes(f.pages, pages, SetOf(f.es[m..]))
    && ExtentBytes(pages, f.es[f.lo]) == ExtentBytes(f.pages, f.es[f.lo])
    && (forall i :: i in f.owners && i != f.ino ==> SameBytes(f.pages, pages, f.owners[i]))
  }

  lemma DeleteCutAt(f: Deletion, k: nat)
    requires DeleteBegun(f) && k < |f.es|
    ensures Sound(f.es[k])
    ensures k < f.lo <==> f.es[k].offset + f.es[k].len <= f.off
    ensures k >= f.lo ==> (k >= f.hi <==> f.es[k].offset >= f.end)
    ensures f.lo <= k < f.hi ==>
      && Before(f.es[k], f.off) == (if k == f.lo then Head(f) else 0)
      && After(f.es[k], f.end) == (if k == f.hi - 1 then Beyond(f.es, f.end) else 0)
  {
    TilesAt(f.es, 0, k);
    if f.lo <= k < f.hi {
      PrefixCut(f.es, f.off, f.end, f.lo, f.hi);
      SuffixCut(f.es, f.off, f.end, f.lo, f.hi);
      MiddleCut(f.es, f.off, f.end, f.lo, f.hi, k);
    }
  }

  lemma EditNext(f: Deletion, k: nat)
    requires DeleteBegun(f) && k < |f.es|
    ensures EditedUpTo(f, k + 1) == EditedUpTo(f, k)[k := Edited(f, k)]
    ensures EditedUpTo(f, k)[k] == f.es[k]
  {}

  ghost function Keep(f: Deletion, k: nat): nat {
    if k == f.lo then Head(f) else 0
  }

  /** The accounts after the extent at k was given back but for what is kept of it. */
  lemma ReleasedOwned(f: Deletion, k: nat)
    requires DeleteBegun(f) && f.lo <= k < f.hi
    ensures f.es[k] in OwnedLeft(f, k, None)
    ensures OwnedLeft(f, k, None) - {f.es[k]} + (if Keep(f, k) > 0 then {Kept(f.es[k], Keep(f, k))} else {})
         == OwnedLeft(f, k + 1, None)
  {
    assert f.es[k..] == [f.es[k]] + f.es[k + 1..];
    assert SetOf(f.es[k..]) == {f.es[k]} + SetOf(f.es[k + 1..]);
    forall i | 0 <= i < |f.es| && i != k ensures f.es[i] != f.es[k] {
      TilesDistinct(f.es, i, k);
    }
    assert f.es[k] !in SetOf(f.es[..f.lo]) && f.es[k] !in SetOf(f.es[k + 1..]);
    if k > f.lo {
      TilesOrder(f.es, 0, f.lo, k);
      assert f.es[k] !in KeptSet(f.es, f.lo, Head(f));
    }
  }

  /** The loop's variables after the extent at k was given back but for its first keep bytes. */
  function ListStep(k: nat, keep: nat, entry: Extent, p: Trimming): Trimming
    requires k < |p.entries|
  {
    if keep == 0 then
      p.(removeList := p.removeList + [entry.pagePointer],
         insertIndex := if p.insertIndex == -1 then k else p.insertIndex)
    else
      p.(entries := p.entries[k := Cut(entry, keep)],
         insertIndex := if p.insertIndex == -1 then k + 1 else p.insertIndex)
  }

  lemma TrimLists(f: Deletion, k: nat, p: Trimming)
    requires DeleteBegun(f) && f.lo <= k < f.hi && ListsOk(f, k, p)
    ensures k < |p.entries| && ListsOk(f, k + 1, ListStep(k, Keep(f, k), f.es[k], p))
  {
    EditNext(f, k);
    if Keep(f, k) == 0 {
      assert EditedUpTo(f, k + 1) == EditedUpTo(f, k) by { assert Edited(f, k) == f.es[k]; }
      assert Pointers(f.es[From(f)..k + 1]) ==
          (if k == From(f) then [] else Pointers(f.es[From(f)..k])) + [f.es[k].pagePointer];
    } else {
      assert Pointers(f.es[From(f)..k + 1]) == [];
    }
  }

  /** The loop's variables after an extent outside the range: left alone in front of it, moved up behind it. */
  function PassStep(k: nat, off: nat, end: nat, entry: Extent, p: Trimming): Trimming
    requires k < |p.entries| && off <= end
  {
    if entry.offset + entry.len <= off then p else p.(entries := p.entries[k := Shift(entry, end - off)])
  }

  lemma PassBy(f: Deletion, pages: map<nat, Bytes>, k: nat, p: Trimming)
    requires DeleteBegun(f) && k < |f.es| && WholePages(pages) && Trimmed(f, pages, k, p) && !(f.lo <= k < f.hi)
    ensures MidOf(f, k + 1) == MidOf(f, k) && |p.entries| == |f.es|
    ensures var q := PassStep(k, f.off, f.end, f.es[k], p); Trimmed(f, pages, k + 1, q) && q.second == p.second
  {
    DeleteCutAt(f, k);
    EditNext(f, k);
    if k < f.lo {
      assert Edited(f, k) == f.es[k];
      assert EditedUpTo(f, k + 1) == EditedUpTo(f, k);
    }
  }

  /** The tail behind the range, copied to a new extent. */
  lemma TailKept(f: Deletion, k: nat, n: nat, pages: map<nat, Bytes>, pages': map<nat, Bytes>, second: Option<Extent>)
    requires DeleteBegun(f) && WholePages(pages) && WholePages(pages') && f.lo <= k == f.hi - 1
    requires Sound(f.es[k]) && n == Beyond(f.es, f.end) && 0 < n <= f.es[k].len
    requires f.es[k].offset + f.es[k].len - n == f.end
    requires ExtentBytes(pages, f.es[k]) == ExtentBytes(f.pages, f.es[k])
    requires Part(pages, pages', second, f.es[k], f.es[k].len - n, n, f.end)
    ensures KeepsTail(f.pages, pages', f.es, f.hi, f.end, Beyond(f.es, f.end), second)
  {}

  /** A write at a frontier after the release leaves everything readable that has to stay so. */
  lemma LeftAfterWrite(f: Deletion, pages: map<nat, Bytes>, pages': map<nat, Bytes>, m: nat)
    requires DeleteBegun(f) && f.lo <= m <= |f.es| && WholePages(pages) && WholePages(pages')
    requires LeftAsBefore(f, pages, m)
    requires AllSame(pages, pages', f.owners[f.ino := OwnedLeft(f, m, None)])
    requires ExtentBytes(pages', f.es[f.lo]) == ExtentBytes(pages, f.es[f.lo])
    ensures LeftAsBefore(f, pages', m)
  {
    var had := OwnedLeft(f, m, None);
    var now := f.owners[f.ino := had];
    assert f.ino in now && now[f.ino] == had;
    SameTrans(f.pages, pages, pages', SetOf(f.es[..f.lo]), had);
    SameTrans(f.pages, pages, pages', SetOf(f.es[m..]), had);
    forall i | i in f.owners && i != f.ino ensures SameBytes(f.pages, pages', f.owners[i]) {
      SameTrans(f.pages, pages, pages', f.owners[i], now[i]);
    }
  }

  lemma LeftOneLess(f: Deletion, pages: map<nat, Bytes>, k: nat)
    requires DeleteBegun(f) && f.lo <= k < f.hi && WholePages(pages) && LeftAsBefore(f, pages, k)
    ensures LeftAsBefore(f, pages, k + 1) && f.es[k].archivedLen >= 1
    ensures ExtentBytes(pages, f.es[k]) == ExtentBytes(f.pages, f.es[k])
  {
    assert f.es[k..] == [f.es[k]] + f.es[k + 1..];
    assert f.es[k] in SetOf(f.es[k..]);
    assert SetOf(f.es[k + 1..]) <= SetOf(f.es[k..]);
  }

  /** What giving back the extent at k needs and leaves. */
  lemma ReleasedFacts(f: Deletion, k: nat, p: Trimming, pages: map<nat, Bytes>)
    requires DeleteBegun(f) && f.lo <= k < f.hi && WholePages(pages) && ListsOk(f, k, p) && LeftAsBefore(f, pages, k)
    ensures f.es[k] in OwnedLeft(f, k, None) && k < |p.entries|
    ensures ListsOk(f, k + 1, ListStep(k, Keep(f, k), f.es[k], p)) && LeftAsBefore(f, pages, k + 1)
    ensures f.es[k].archivedLen >= 1 && ExtentBytes(pages, f.es[k]) == ExtentBytes(f.pages, f.es[k])
  {
    ReleasedOwned(f, k);
    LeftOneLess(f, pages, k);
    TrimLists(f, k, p);
  }

  lemma BelowSame(v: Blocks, v': Blocks, e: Extent)
    requires BelowFrontier(v, e) && v'.frontier == v.frontier
    ensures BelowFrontier(v', e)
  {}

  /** With the tail copied the last touched extent has been dealt with. */
  lemma TailTrimmed(f: Deletion, pages: map<nat, Bytes>, k: nat, p: Trimming, second: Option<Extent>)
    requires DeleteBegun(f) && k == f.hi && WholePages(pages) && ListsOk(f, k, p)
    requires KeepsTail(f.pages, pages, f.es, f.hi, f.end, Beyond(f.es, f.end), second)
    requires OptSet(second) !! SetOf(f.es[f.hi..])
    ensures Trimmed(f, pages, k, p.(second := second))
  {}

  lemma TailOwned(f: Deletion, m: nat, second: Option<Extent>, owners: Owners)
    requires DeleteBegun(f) && f.lo <= m <= |f.es| && second.Some?
    requires owners == Extended(f.owners[f.ino := OwnedLeft(f, m, None)], f.ino, OptSet(second))
    ensures owners == f.owners[f.ino := OwnedLeft(f, m, second)]
  {
    assert OwnedLeft(f, m, second) == OwnedLeft(f, m, None) + {second.value};
  }

  lemma TailFresh(f: Deletion, second: Option<Extent>)
    requires DeleteBegun(f) && Unowned(f.owners[f.ino := OwnedLeft(f, f.hi, None)], OptSet(second))
    ensures OptSet(second) !! SetOf(f.es[f.hi..])
  {
    var now := f.owners[f.ino := OwnedLeft(f, f.hi, None)];
    assert f.ino in now && SetOf(f.es[f.hi..]) <= now[f.ino];
  }

  lemma TailDone(f: Deletion, m: nat, p: Trimming, second: Option<Extent>, pages: map<nat, Bytes>,
                 pages': map<nat, Bytes>,
                 owners: Owners)
    requires DeleteBegun(f) && m == f.hi && WholePages(pages) && WholePages(pages') && second.Some?
    requires ListsOk(f, m, p) && LeftAsBefore(f, pages, m)
    requires AllSame(pages, pages', f.owners[f.ino := OwnedLeft(f, m, None)])
    requires ExtentBytes(pages', f.es[f.lo]) == ExtentBytes(pages, f.es[f.lo])
    requires owners == Extended(f.owners[f.ino := OwnedLeft(f, m, None)], f.ino, OptSet(second))
    requires KeepsTail(f.pages, pages', f.es, f.hi, f.end, Beyond(f.es, f.end), second)
    requires Unowned(f.owners[f.ino := OwnedLeft(f, m, None)], OptSet(second))
    ensures MidOf(f, m) == m
    ensures Trimmed(f, pages', m, p.(second := second)) && LeftAsBefore(f, pages', m)
    ensures owners == f.owners[f.ino := OwnedLeft(f, m, second)]
  {
    TailWritten(f, m, p, second, pages, pages');
    TailOwned(f, m, second, owners);
  }

  lemma TailWritten(f: Deletion, m: nat, p: Trimming, second: Option<Extent>, pages: map<nat, Bytes>,
                    pages': map<nat, Bytes>)
    requires DeleteBegun(f) && m == f.hi && WholePages(pages) && WholePages(pages')
    requires ListsOk(f, m, p) && LeftAsBefore(f, pages, m)
    requires AllSame(pages, pages', f.owners[f.ino := OwnedLeft(f, m, None)])
    requires ExtentBytes(pages', f.es[f.lo]) == ExtentBytes(pages, f.es[f.lo])
    requires KeepsTail(f.pages, pages', f.es, f.hi, f.end, Beyond(f.es, f.end), second)
    requires Unowned(f.owners[f.ino := OwnedLeft(f, m, None)], OptSet(second))
    ensures Trimmed(f, pages', m, p.(second := second)) && LeftAsBefore(f, pages', m)
  {
    LeftAfterWrite(f, pages, pages', m);
    TailFresh(f, second);
    TailTrimmed(f, pages', m, p, second);
  }

  lemma ReleaseOwned(f: Deletion, k: nat, owners: Owners, keep: nat)
    requires DeleteBegun(f) && f.lo <= k < f.hi && keep == Keep(f, k)
    requires var was := f.owners[f.ino := OwnedLeft(f, k, None)];
      owners == was[f.ino := was[f.ino] - {f.es[k]} + if keep > 0 then {Kept(f.es[k], keep)} else {}]
    ensures owners == f.owners[f.ino := OwnedLeft(f, k + 1, None)]
  {
    ReleasedOwned(f, k);
  }

  /** The extents behind the range are different from each other and from all others in use. */
  lemma TailDistinct(f: Deletion, second: Option<Extent>, a: set<Extent>, es: seq<Extent>)
    requires DeleteBegun(f) && es == f.es[f.hi..] && OptSet(second) !! SetOf(es)
    requires a == SetOf(f.es[..f.lo]) + KeptSet(f.es, f.lo, Head(f)) + OptSet(second)
    ensures forall i, j :: 0 <= i < j < |es| ==> es[i] != es[j]
    ensures forall i :: 0 <= i < |es| ==> es[i] !in a
  {
    forall i, j | 0 <= i < j < |es| ensures es[i] != es[j] { TilesDistinct(f.es, f.hi + i, f.hi + j); }
    forall i | 0 <= i < |es| ensures es[i] !in a {
      TilesOrder(f.es, 0, f.lo, f.hi + i);
      assert es[i] in SetOf(es);
      forall j | 0 <= j < f.lo ensures f.es[j] != es[i] { TilesDistinct(f.es, j, f.hi + i); }
    }
  }

  /** The accounts at the end of the loop, once the moved extents are entered under their new offsets. */
  lemma DeleteAccounts(f: Deletion, second: Option<Extent>, v: Blocks, owners: Owners)
    requires DeleteBegun(f) && Consistent(v, owners) && owners == f.owners[f.ino := OwnedLeft(f, f.hi, second)]
    requires OptSet(second) !! SetOf(f.es[f.hi..]) && (second.Some? ==> Sound(second.value))
    ensures Consistent(v, f.owners[f.ino := InUse(Remaining(f.es, f.off, f.end, f.lo, f.hi, second))])
  {
    var es := f.es[f.hi..];
    var es' := Shifted(es, f.end - f.off);
    var a := SetOf(f.es[..f.lo]) + KeptSet(f.es, f.lo, Head(f)) + OptSet(second);
    OwnedParts(f, second, a, es);
    TailDistinct(f, second, a, es);
    RelabelKeeps(v, owners, f.ino, a, es, es');
    RemainingInUse(f, second, a, es');
    EnteredOver(v, f.owners, owners, f.ino, a + SetOf(es), a + SetOf(es'));
  }

  lemma EnteredOver(v: Blocks, was: Owners, owners: Owners, ino: nat, x: set<Extent>, y: set<Extent>)
    requires owners == was[ino := x] && Consistent(v, owners[ino := y])
    ensures Consistent(v, was[ino := y])
  {
    assert owners[ino := y] == was[ino := y];
  }

  lemma OwnedParts(f: Deletion, second: Option<Extent>, a: set<Extent>, es: seq<Extent>)
    requires DeleteBegun(f) && es == f.es[f.hi..]
    requires a == SetOf(f.es[..f.lo]) + KeptSet(f.es, f.lo, Head(f)) + OptSet(second)
    ensures OwnedLeft(f, f.hi, second) == a + SetOf(es)
  {}

  lemma FourInUse(a: seq<Extent>, b: seq<Extent>, c: seq<Extent>, d: seq<Extent>)
    ensures InUse(a + b + c + d) == InUse(a) + InUse(b) + InUse(c) + InUse(d)
  {
    InUseConcat(a + b + c, d);
    InUseConcat(a + b, c);
    InUseConcat(a, b);
  }

  lemma RemainingInUse(f: Deletion, second: Option<Extent>, a: set<Extent>, tail: seq<Extent>)
    requires DeleteBegun(f) && (second.Some? ==> Sound(second.value))
    requires a == SetOf(f.es[..f.lo]) + KeptSet(f.es, f.lo, Head(f)) + OptSet(second)
    requires tail == Shifted(f.es[f.hi..], f.end - f.off)
    ensures InUse(Remaining(f.es, f.off, f.end, f.lo, f.hi, second)) == a + SetOf(tail)
  {
    var front, cut := f.es[..f.lo], CutSeq(f.es, f.lo, Head(f));
    TilesSound(f.es, 0);
    FrontSound(f.es, f.lo);
    ShiftedSound(f.es, f.hi, f.end - f.off);
    InUseCut(f.es, f.lo, Head(f));
    PartsInUse(front, cut, second, tail, Remaining(f.es, f.off, f.end, f.lo, f.hi, second));
  }

  lemma PartsInUse(a: seq<Extent>, b: seq<Extent>, second: Option<Extent>, d: seq<Extent>, all: seq<Extent>)
    requires (forall e :: e in a ==> Sound(e)) && (forall e :: e in d ==> Sound(e))
    requires second.Some? ==> Sound(second.value)
    requires all == a + b + OptSeq(second) + d
    ensures InUse(all) == SetOf(a) + InUse(b) + OptSet(second) + SetOf(d)
  {
    FourInUse(a, b, OptSeq(second), d);
    InUseSound(a);
    InUseOpt(second);
    InUseSound(d);
  }

  lemma FrontSound(es: seq<Extent>, lo: nat)
    requires lo <= |es| && forall e :: e in es ==> Sound(e)
    ensures forall e :: e in es[..lo] ==> Sound(e)
  {}

  lemma InUseCut(es: seq<Extent>, lo: nat, n: nat)
    ensures InUse(CutSeq(es, lo, n)) == KeptSet(es, lo, n)
  {
    if lo < |es| && n > 0 {
      assert CutSeq(es, lo, n) == [Cut(es[lo], n)];
      assert Kept(Cut(es[lo], n), n) == Kept(es[lo], n);
    }
  }

  lemma ShiftedSound(es: seq<Extent>, hi: nat, len: nat)
    requires hi <= |es| && forall e :: e in es ==> Sound(e)
    ensures forall e :: e in Shifted(es[hi..], len) ==> Sound(e)
  {
    var d := Shifted(es[hi..], len);
    forall e | e in d ensures Sound(e) {
      var i :| 0 <= i < |d| && d[i] == e;
      assert es[hi + i] in es && d[i] == Shift(es[hi + i], len);
    }
  }

  /** The range begins and ends where extents do, or past the end of the object. */
  ghost predicate OnBoundaries(es: seq<Extent>, off: nat, end: nat) {
    Inside(es, off) == 0 && Beyond(es, end) == 0
  }

  /** The list without a stretch, the extents behind it moved up by len. */
  ghost predicate CutOut(es: seq<Extent>, es': seq<Extent>, len: nat) {
    exists lo, hi :: 0 <= lo <= hi <= |es| && es' == es[..lo] + Shifted(es[hi..], len)
  }

  /** What a deletion does to an object, as it is written. */
  ghost predicate DeletedAsWritten(pages: map<nat, Bytes>, pages': map<nat, Bytes>, obj: DataObject, obj': DataObject,
                                   off: nat, end: nat)
    requires WholePages(pages) && WholePages(pages') && Tiled(obj) && off < obj.size && off < end
  {
    BytesLength(pages, obj.entries, 0);
    && obj'.size == obj.size - ((if end <= obj.size then end else obj.size) - off)
    && (Tiled(obj') <==> OnBoundaries(obj.entries, off, end))
    && (OnBoundaries(obj.entries, off, end) ==> CutOut(obj.entries, obj'.entries, end - off))
    && Archived(obj'.entries)
    && (BytesOf(pages', obj'.entries) == Removed(BytesOf(pages, obj.entries), off, end) <==>
        Inside(obj.entries, off) == 0)
  }

  lemma DeleteFinishes(f: Deletion, pages: map<nat, Bytes>, p: Trimming, obj: DataObject, obj': DataObject)
    requires DeleteBegun(f) && WholePages(pages) && Trimmed(f, pages, |f.es|, p) && LeftAsBefore(f, pages, f.hi)
    requires obj == DataObject(SumLen(f.es), f.es)
    requires obj'.entries == Remaining(f.es, f.off, f.end, f.lo, f.hi, p.second) && obj'.size == SumLen(obj'.entries)
    ensures DeletedAsWritten(f.pages, pages, obj, obj', f.off, f.end)
  {
    assert KeepsTail(f.pages, pages, f.es, f.hi, f.end, Beyond(f.es, f.end), p.second);
    RemainingSize(f.es, f.off, f.end, f.lo, f.hi, p.second);
    RemainingTiles(f.es, f.off, f.end, f.lo, f.hi, p.second);
    RemainingReads(f.pages, pages, f.es, f.off, f.end, f.lo, f.hi, p.second);
    RemainingCutOut(f, p.second);
  }

  lemma OverRange(pages: map<nat, Bytes>, pages': map<nat, Bytes>, obj: DataObject, obj': DataObject,
                  off: nat, end: nat, off': nat, end': nat)
    requires WholePages(pages) && WholePages(pages') && Tiled(obj) && off < obj.size && off < end
    requires DeletedAsWritten(pages, pages', obj, obj', off, end) && off' == off && end' == end
    ensures DeletedAsWritten(pages, pages', obj, obj', off', end')
  {}

  lemma RemainingCutOut(f: Deletion, second: Option<Extent>)
    requires DeleteBegun(f) && Piece(second, Beyond(f.es, f.end), f.end)
    ensures OnBoundaries(f.es, f.off, f.end) ==>
      CutOut(f.es, Remaining(f.es, f.off, f.end, f.lo, f.hi, second), f.end - f.off)
  {
    if OnBoundaries(f.es, f.off, f.end) {
      assert Remaining(f.es, f.off, f.end, f.lo, f.hi, second) == f.es[..f.lo] + Shifted(f.es[f.hi..], f.end - f.off);
    }
  }

  /** The frontiers after the tail, as long as it is still to be copied, has taken its pages. */
  ghost function TailTaken(f: Deletion, k: nat, fr: seq<nat>): Option<seq<nat>> {
    Take(Some(fr), if k < f.hi then PartPages(Beyond(f.es, f.end)) else 0)
  }

  /** Where the deletion stands before the extent at k is looked at. */
  ghost predicate DeleteAt(f: Deletion, k: nat, p: Trimming, s: Snapshot) {
    && InOrder(s) && DeleteBegun(f) && k <= |f.es|
    && s.owners == f.owners[f.ino := OwnedLeft(f, MidOf(f, k), p.second)]
    && Trimmed(f, s.pages, k, p)
    && LeftAsBefore(f, s.pages, MidOf(f, k))
    && (MidOf(f, k) < f.hi ==> BelowFrontier(s.view, f.es[f.lo]))
  }

  /** The deletion has got to index k and will end at the goal, or has given up, and there is no such goal. */
  ghost predicate DeleteStage(f: Deletion, k: nat, p: Trimming, goal: Option<seq<nat>>, ok: bool, s: Snapshot) {
    if ok then DeleteAt(f, k, p, s) && goal == TailTaken(f, k, s.view.frontier) else goal == None
  }

  /** The states the deletion may be in at index k. */
  ghost function DeletesAt(f: Deletion, k: nat, p: Trimming, goal: Option<seq<nat>>, ok: bool): iset<Snapshot> {
    iset s | DeleteStage(f, k, p, goal, ok, s)
  }

  /** Between giving back the extent at k and copying its tail. */
  ghost predicate ReleasedAt(f: Deletion, k: nat, p: Trimming, s: Snapshot) {
    && InOrder(s) && DeleteBegun(f) && f.lo <= k < f.hi && p.second == None
    && s.owners == f.owners[f.ino := OwnedLeft(f, k + 1, None)]
    && ListsOk(f, k + 1, p) && LeftAsBefore(f, s.pages, k + 1)
    && Sound(f.es[k]) && ExtentBytes(s.pages, f.es[k]) == ExtentBytes(f.pages, f.es[k])
    && BelowFrontier(s.view, f.es[f.lo])
  }

  ghost function ReleasesAt(f: Deletion, k: nat, p: Trimming): iset<Snapshot> {
    iset s | ReleasedAt(f, k, p, s)
  }

  /** What trimming the extent at k may count on. */
  lemma TrimStarts(f: Deletion, k: nat, p: Trimming, goal: Option<seq<nat>>, s: Snapshot)
    requires s in DeletesAt(f, k, p, goal, true) && f.lo <= k < f.hi
    ensures k < |f.es| && Sound(f.es[k]) && Before(f.es[k], f.off) == Keep(f, k)
    ensures After(f.es[k], f.end) == if k == f.hi - 1 then Beyond(f.es, f.end) else 0
    ensures goal == Take(Some(s.view.frontier), PartPages(Beyond(f.es, f.end)))
  {
    DeleteCutAt(f, k);
  }

  lemma ReleaseStarts(f: Deletion, k: nat, p: Trimming, goal: Option<seq<nat>>, s: Snapshot)
    requires s in DeletesAt(f, k, p, goal, true) && f.lo <= k < f.hi <= |f.es|
    ensures f.ino in s.owners && f.es[k] in s.owners[f.ino] && InOrder(s) && k < |p.entries|
  {
    ReleasedFacts(f, k, p, s.pages);
  }

  /** Where giving back the extent at k, but for what is kept of it, leaves the deletion. */
  lemma ReleaseEnds(f: Deletion, k: nat, p: Trimming, goal: Option<seq<nat>>, s: Snapshot, s': Snapshot, keep: nat,
                    p': Trimming)
    requires s in DeletesAt(f, k, p, goal, true) && f.lo <= k < f.hi <= |f.es| && Sound(f.es[k])
    requires InOrder(s') && s'.pages == s.pages && s'.view.frontier == s.view.frontier && f.ino in s.owners
    requires keep == Keep(f, k) && k < |p.entries| && p' == ListStep(k, keep, f.es[k], p)
    requires s'.owners ==
      s.owners[f.ino := s.owners[f.ino] - {f.es[k]} + if keep > 0 then {Kept(f.es[k], keep)} else {}]
    ensures s' in ReleasesAt(f, k, p')
  {
    assert MidOf(f, k) == k && DeleteAt(f, k, p, s);
    ReleasedFacts(f, k, p, s.pages);
    ReleaseOwned(f, k, s'.owners, keep);
    BelowSame(s.view, s'.view, f.es[f.lo]);
    assert ReleasedAt(f, k, p', s');
  }

  lemma KeepStarts(f: Deletion, k: nat, p: Trimming, s: Snapshot)
    requires s in ReleasesAt(f, k, p) && k == f.hi - 1 < |f.es|
    ensures InOrder(s) && f.ino in s.owners && Sound(f.es[k]) && f.lo <= k && BelowFrontier(s.view, f.es[f.lo])
  {}

  lemma TailKeptAt(f: Deletion, k: nat, p: Trimming, s: Snapshot, s': Snapshot, n: nat, second: Option<Extent>)
    requires s in ReleasesAt(f, k, p) && f.lo <= k == f.hi - 1 < |f.es| && Sound(f.es[k]) && InOrder(s) && InOrder(s')
    requires n == Beyond(f.es, f.end) == After(f.es[k], f.end) && 0 < n <= f.es[k].len
    requires Part(s.pages, s'.pages, second, f.es[k], f.es[k].len - n, n, f.es[k].offset + f.es[k].len - n)
    ensures DeleteBegun(f) && second.Some?
    ensures KeepsTail(f.pages, s'.pages, f.es, f.hi, f.end, Beyond(f.es, f.end), second)
  {
    assert ReleasedAt(f, k, p, s);
    TailKept(f, k, n, s.pages, s'.pages, second);
  }

  lemma TailDoneAt(f: Deletion, k: nat, p: Trimming, goal: Option<seq<nat>>, s: Snapshot, s': Snapshot,
                   second: Option<Extent>)
    requires s in ReleasesAt(f, k, p) && k == f.hi - 1 && InOrder(s) && InOrder(s') && DeleteBegun(f) && second.Some?
    requires f.ino in s.owners && s'.owners == Extended(s.owners, f.ino, OptSet(second))
    requires Unowned(s.owners, OptSet(second)) && AllSame(s.pages, s'.pages, s.owners)
    requires ExtentBytes(s'.pages, f.es[f.lo]) == ExtentBytes(s.pages, f.es[f.lo])
    requires KeepsTail(f.pages, s'.pages, f.es, f.hi, f.end, Beyond(f.es, f.end), second)
    requires goal == Some(s'.view.frontier)
    ensures s' in DeletesAt(f, k + 1, p.(second := second), goal, true)
  {
    assert ReleasedAt(f, k, p, s) && k + 1 == f.hi;
    TailDone(f, k + 1, p, second, s.pages, s'.pages, s'.owners);
    TailStands(f, k + 1, p.(second := second), goal, s');
  }

  /** Where copying the tail leaves it. */
  lemma KeepEnds(f: Deletion, k: nat, p: Trimming, goal: Option<seq<nat>>, s: Snapshot, s': Snapshot, n: nat,
                 second: Option<Extent>)
    requires s in ReleasesAt(f, k, p) && f.lo <= k == f.hi - 1 < |f.es| && Sound(f.es[k]) && InOrder(s) && InOrder(s')
    requires n == Beyond(f.es, f.end) == After(f.es[k], f.end) && 0 < n <= f.es[k].len && f.ino in s.owners
    requires Part(s.pages, s'.pages, second, f.es[k], f.es[k].len - n, n, f.es[k].offset + f.es[k].len - n)
    requires s'.owners == Extended(s.owners, f.ino, OptSet(second)) && Unowned(s.owners, OptSet(second))
    requires AllSame(s.pages, s'.pages, s.owners)
    requires ExtentBytes(s'.pages, f.es[f.lo]) == ExtentBytes(s.pages, f.es[f.lo])
    requires goal == Some(s'.view.frontier)
    ensures s' in DeletesAt(f, k + 1, p.(second := second), goal, true)
  {
    TailKeptAt(f, k, p, s, s', n, second);
    TailDoneAt(f, k, p, goal, s, s', second);
  }

  lemma TailStands(f: Deletion, m: nat, p: Trimming, goal: Option<seq<nat>>, s: Snapshot)
    requires DeleteBegun(f) && m == f.hi && InOrder(s) && goal == Some(s.view.frontier)
    requires s.owners == f.owners[f.ino := OwnedLeft(f, m, p.second)]
    requires Trimmed(f, s.pages, m, p) && LeftAsBefore(f, s.pages, m)
    ensures s in DeletesAt(f, m, p, goal, true)
  {
    assert MidOf(f, m) == m && DeleteAt(f, m, p, s);
  }

  /** Where there is no tail to copy the deletion has got one further. */
  lemma NothingBehind(f: Deletion, k: nat, p: Trimming, goal: Option<seq<nat>>, s: Snapshot)
    requires s in ReleasesAt(f, k, p) && goal == Take(Some(s.view.frontier), PartPages(Beyond(f.es, f.end)))
    requires k == f.hi - 1 ==> Beyond(f.es, f.end) == 0
    ensures s in DeletesAt(f, k + 1, p, goal, true)
  {}

  /** Where it has given up the index does not matter. */
  lemma DeleteEnds(f: Deletion, at: nat, k: nat, p: Trimming, goal: Option<seq<nat>>, ok: bool, s: Snapshot)
    requires s in DeletesAt(f, at, p, goal, ok) && (ok ==> at == k)
    ensures s in DeletesAt(f, k, p, goal, ok)
  {}

  /** Before the first turn of the delete loop nothing has been given back. */
  lemma StartsOwning(f: Deletion)
    requires DeleteBegun(f)
    ensures SetOf(f.es) == SetOf(f.es[..f.lo]) + SetOf(f.es[f.lo..]) && f.es[f.lo] in SetOf(f.es)
    ensures f.owners == f.owners[f.ino := OwnedLeft(f, f.lo, None)]
  {
    SetOfParts(f.es, f.es[..f.lo], f.es[f.lo..]);
    assert OwnedLeft(f, f.lo, None) == SetOf(f.es);
  }

  lemma StartsDeleting(f: Deletion, v: Blocks)
    requires DeleteBegun(f) && Consistent(v, f.owners)
    ensures f.owners == f.owners[f.ino := OwnedLeft(f, f.lo, None)]
    ensures LeftAsBefore(f, f.pages, f.lo) && BelowFrontier(v, f.es[f.lo])
  {
    StartsOwning(f);
    PlacedBelow(v, f.owners, f.ino, f.es[f.lo]);
    AllSameRefl(f.pages, v, f.owners);
    StartReads(f);
  }

  lemma StartReads(f: Deletion)
    requires DeleteBegun(f) && AllSame(f.pages, f.pages, f.owners)
    requires SetOf(f.es) == SetOf(f.es[..f.lo]) + SetOf(f.es[f.lo..])
    ensures LeftAsBefore(f, f.pages, f.lo)
  {
    assert SameBytes(f.pages, f.pages, f.owners[f.ino]);
    SameTrans(f.pages, f.pages, f.pages, SetOf(f.es[..f.lo]), SetOf(f.es));
    SameTrans(f.pages, f.pages, f.pages, SetOf(f.es[f.lo..]), SetOf(f.es));
  }

  lemma StartsTrimmed(f: Deletion)
    requires DeleteBegun(f)
    ensures MidOf(f, 0) == f.lo && Trimmed(f, f.pages, 0, Trimming(f.es, [], -1, None))
  {
    assert EditedUpTo(f, 0) == f.es;
  }

  /** What a deletion starts from, and where it then stands. */
  lemma StartDelete(obj: DataObject, off: nat, len: nat, ino: nat, p: Trimming, goal: Option<seq<nat>>, s: Snapshot)
      returns (f: Deletion)
    requires InOrder(s) && ino in s.owners && s.owners[ino] == SetOf(obj.entries) && Tiled(obj) && len >= 1
    requires off < obj.size && p == Trimming(obj.entries, [], -1, None)
    requires goal == Take(Some(s.view.frontier), PartPages(Beyond(obj.entries, off + len)))
    ensures f.es == obj.entries && f.off == off && f.end == off + len && f.ino == ino
    ensures f.pages == s.pages && f.owners == s.owners
    ensures DeleteStage(f, 0, p, goal, true, s) && DistinctPointers(f.es)
  {
    var lo, hi := FindTouched(obj.entries, off, off + len);
    PrefixCut(obj.entries, off, off + len, lo, hi);
    TilesAt(obj.entries, 0, lo);
    OwnedPointers(s.view, s.owners, ino, obj.entries);
    f := Deletion(obj.entries, off, off + len, ino, lo, hi, s.pages, s.owners);
    StartsStage(f, p, goal, s);
  }

  lemma StartsStage(f: Deletion, p: Trimming, goal: Option<seq<nat>>, s: Snapshot)
    requires DeleteBegun(f) && InOrder(s) && s.pages == f.pages && s.owners == f.owners
    requires p == Trimming(f.es, [], -1, None) && goal == Take(Some(s.view.frontier), PartPages(Beyond(f.es, f.end)))
    ensures DeleteStage(f, 0, p, goal, true, s)
  {
    StartsDeleting(f, s.view);
    StartsTrimmed(f);
  }

  /** The edited list still has the same page pointers, and those to be removed stand in one stretch. */
  lemma EditedLists(f: Deletion, p: Trimming)
    requires DeleteBegun(f) && ListsOk(f, |f.es|, p) && DistinctPointers(f.es)
    ensures |p.entries| == |f.es| && DistinctPointers(p.entries) && From(f) <= f.hi
    ensures p.removeList == Pointers(p.entries[From(f)..f.hi])
  {
    forall i | 0 <= i < |f.es| ensures p.entries[i].pagePointer == f.es[i].pagePointer {}
    SamePointers(p.entries, f.es, From(f), f.hi);
  }

  lemma SamePointers(es: seq<Extent>, es': seq<Extent>, lo: nat, hi: nat)
    requires lo <= hi <= |es| == |es'| && forall i :: 0 <= i < |es| ==> es[i].pagePointer == es'[i].pagePointer
    ensures Pointers(es[lo..hi]) == Pointers(es'[lo..hi])
  {
    forall i | 0 <= i < hi - lo ensures Pointers(es[lo..hi])[i] == Pointers(es'[lo..hi])[i] {
      assert es[lo..hi][i] == es[lo + i] && es'[lo..hi][i] == es'[lo + i];
    }
  }

  /** The edited list without the removed stretch, with the tail put in. */
  lemma EditedFront(f: Deletion)
    requires DeleteBegun(f)
    ensures From(f) <= f.hi
    ensures EditedUpTo(f, |f.es|)[..From(f)] == f.es[..f.lo] + CutSeq(f.es, f.lo, Head(f))
  {}

  lemma EditedBack(f: Deletion)
    requires DeleteBegun(f)
    ensures EditedUpTo(f, |f.es|)[f.hi..] == Shifted(f.es[f.hi..], f.end - f.off)
  {}

  lemma JoinEdited(f: Deletion, p: Trimming, rest: seq<Extent>)
    requires DeleteBegun(f) && ListsOk(f, |f.es|, p) && From(f) <= f.hi && |p.entries| == |f.es|
    requires rest == p.entries[..From(f)] + p.entries[f.hi..]
    ensures rest[..From(f)] + OptSeq(None) + OptSeq(None) + OptSeq(p.second) + rest[From(f)..]
         == Remaining(f.es, f.off, f.end, f.lo, f.hi, p.second)
  {
    EditedFront(f);
    EditedBack(f);
    var front, back := p.entries[..From(f)], p.entries[f.hi..];
    assert rest[..From(f)] == front && rest[From(f)..] == back;
    assert front + OptSeq(None) + OptSeq(None) == front;
  }

  /** The list after the loop: the touched extents out, the tail in, the length added up. */
  method EditList(p: Trimming, ghost f: Deletion) returns (obj': DataObject)
    requires DeleteBegun(f) && ListsOk(f, |f.es|, p) && DistinctPointers(f.es) && MidOf(f, |f.es|) == f.hi
    ensures obj'.entries == Remaining(f.es, f.off, f.end, f.lo, f.hi, p.second) && obj'.size == SumLen(obj'.entries)
  {
    EditedLists(f, p);
    var rest := RemoveTouched(p.entries, p.removeList, From(f), f.hi);
    var entries := InsertPieces(rest, p.insertIndex, None, None, p.second);
    var size := TotalLen(entries);
    obj' := DataObject(size, entries);
    JoinEdited(f, p, rest);
  }

  /** Where the loop leaves the list, the pages and the accounts. */
  lemma FinishStarts(f: Deletion, p: Trimming, s: Snapshot)
    requires DeleteAt(f, |f.es|, p, s)
    ensures DeleteBegun(f) && WholePages(s.pages) && Trimmed(f, s.pages, |f.es|, p) && LeftAsBefore(f, s.pages, f.hi)
    ensures Consistent(s.view, f.owners[f.ino := InUse(Remaining(f.es, f.off, f.end, f.lo, f.hi, p.second))])
    ensures AllSame(f.pages, s.pages, f.owners - {f.ino})
  {
    assert MidOf(f, |f.es|) == f.hi;
    DeleteAccounts(f, p.second, s.view, s.owners);
  }

  /** The object the deletion ends with. */
  method DeletedObject(p: Trimming, obj: DataObject, ghost f: Deletion, ghost off: nat, ghost len: nat,
                       ghost was: map<nat, Bytes>, ghost pages: map<nat, Bytes>) returns (obj': DataObject)
    requires f.off == off && f.end == off + len && f.pages == was
    requires DeleteBegun(f) && WholePages(pages) && Trimmed(f, pages, |f.es|, p) && LeftAsBefore(f, pages, f.hi)
    requires DistinctPointers(f.es) && obj == DataObject(SumLen(f.es), f.es)
    ensures obj'.entries == Remaining(f.es, f.off, f.end, f.lo, f.hi, p.second)
    ensures DeletedAsWritten(was, pages, obj, obj', off, off + len)
  {
    obj' := EditList(p, f);
    DeleteFinishes(f, pages, p, obj, obj');
    OverRange(was, pages, obj, obj', f.off, f.end, off, off + len);
  }

  /** Deleting from the middle of an extent, or up to the middle of one, misses both boundaries. */
  lemma MidExtentDeletion()
    ensures var es := [Extent(10, 10, 0, 0, 0), Extent(10, 10, 10, 1, 0)];
      && TilesFrom(es, 0)
      && Inside(es, 4) == 4 && !OnBoundaries(es, 4, 10)
      && Inside(es, 10) == 0 && Beyond(es, 12) == 8 && !OnBoundaries(es, 10, 12)
  {
    var e, f := Extent(10, 10, 0, 0, 0), Extent(10, 10, 10, 1, 0);
    var es := [e, f];
    assert es[..1] == [e] && es == [e] + [f];
    TilesOne(e, 0);
    TilesOne(f, 10);
    TilesConcat([e], [f], 0);
    InsideAt(es, 4, 0);
    InsideNone(es, 10);
    InsideAt(es, 12, 1);
  }
}
