/**
 The overwrite of a range, step by step: what each touched extent leaves behind, and why the list put
 together at the end tiles the object and reads as the spliced bytes.
 */
module Overwriting {
  import opened Prelude
  import opened SstRecord
  import opened Flash
  import opened Extents
  import opened ExtentCuts
  import opened EntryLists
  import opened ObjectAccounts
  import opened Frontiers

  /** What an overwrite starts from: the old extents, the range, the new extent, and the pages and accounts before. */
  datatype Overwrite = Overwrite(es: seq<Extent>, off: nat, end: nat, ino: nat, lo: nat, hi: nat, added: Extent,
                                 value: Bytes, pages: map<nat, Bytes>, owners: Owners)

  /** The loop's variables: pointers to remove, where to insert, and the two pieces kept. */
  datatype Progress = Progress(removeList: seq<nat>, insertIndex: int, first: Option<Extent>, second: Option<Extent>)

  ghost predicate Begun(f: Overwrite) {
    && WholePages(f.pages)
    && TilesFrom(f.es, 0) && Touched(f.es, f.off, f.end, f.lo, f.hi) && f.off <= SumLen(f.es)
    && f.ino in f.owners && f.owners[f.ino] == SetOf(f.es)
    && Unowned(f.owners, {f.added}) && Sound(f.added)
  }

  /** The touched extents before index k have been dealt with: those from lo up to here. */
  ghost function Mid(f: Overwrite, k: nat): nat
    requires f.lo <= f.hi
  {
    if k <= f.lo then f.lo else if k <= f.hi then k else f.hi
  }

  ghost function OwnedAfter(f: Overwrite, m: nat, p: Progress): set<Extent>
    requires f.lo <= m <= |f.es|
  {
    SetOf(f.es[..f.lo]) + SetOf(f.es[m..]) + {f.added} + OptSet(p.first) + OptSet(p.second)
  }

  /** The pieces and lists are right for the touched extents from lo up to m. */
  ghost predicate Collected(f: Overwrite, pages: map<nat, Bytes>, m: nat, p: Progress)
    requires Begun(f) && f.lo <= m <= f.hi && WholePages(pages)
  {
    && p.removeList == Pointers(f.es[f.lo..m])
    && p.insertIndex == (if m == f.lo then -1 else f.lo)
    && (if m == f.lo then p.first == None
        else KeepsHead(f.pages, pages, f.es, f.lo, Inside(f.es, f.off), p.first))
    && (if m < f.hi || m == f.lo then p.second == None
        else KeepsTail(f.pages, pages, f.es, f.hi, f.end, Beyond(f.es, f.end), p.second))
  }

  /** The frontiers after the pieces still to be copied behind index m have taken their pages. */
  ghost function PiecesTaken(f: Overwrite, m: nat, t: Option<seq<nat>>): Option<seq<nat>> {
    Take(Take(t, if m == f.lo && f.lo < f.hi then PartPages(Inside(f.es, f.off)) else 0),
         if m < f.hi then PartPages(Beyond(f.es, f.end)) else 0)
  }

  /** The range touches the extent at k exactly for k from lo up to hi, and cuts it as Inside and Beyond say. */
  lemma CutAt(f: Overwrite, k: nat)
    requires Begun(f) && k < |f.es|
    ensures Sound(f.es[k])
    ensures k < f.lo <==> f.es[k].offset + f.es[k].len <= f.off
    ensures k >= f.lo ==> (k >= f.hi <==> f.es[k].offset >= f.end)
    ensures f.lo <= k < f.hi ==>
      && Before(f.es[k], f.off) == (if k == f.lo then Inside(f.es, f.off) else 0)
      && After(f.es[k], f.end) == (if k == f.hi - 1 then Beyond(f.es, f.end) else 0)
    ensures k == f.lo ==> f.es[k].offset == SumLen(f.es[..f.lo])
  {
    TilesAt(f.es, 0, k);
    if f.lo <= k < f.hi {
      PrefixCut(f.es, f.off, f.end, f.lo, f.hi);
      SuffixCut(f.es, f.off, f.end, f.lo, f.hi);
      MiddleCut(f.es, f.off, f.end, f.lo, f.hi, k);
    }
  }

  lemma NotTouched(f: Overwrite, k: nat)
    requires Begun(f) && k < |f.es| && !(f.lo <= k < f.hi)
    ensures Mid(f, k + 1) == Mid(f, k)
  {}

  function Either(a: Option<Extent>, b: Option<Extent>): Option<Extent> {
    if a.Some? then a else b
  }

  /** The loop's variables after the extent at k was cut. */
  function Advanced(es: seq<Extent>, k: nat, p: Progress, first: Option<Extent>, second: Option<Extent>): Progress
    requires k < |es|
  {
    Progress(p.removeList + [es[k].pagePointer], if p.insertIndex == -1 then k else p.insertIndex,
             Either(first, p.first), Either(second, p.second))
  }

  lemma AdvanceLists(f: Overwrite, pages: map<nat, Bytes>, k: nat, p: Progress, first: Option<Extent>,
                     second: Option<Extent>)
    requires Begun(f) && f.lo <= k < f.hi && WholePages(pages) && Collected(f, pages, k, p)
    ensures var q := Advanced(f.es, k, p, first, second);
      q.removeList == Pointers(f.es[f.lo..k + 1]) && q.insertIndex == f.lo
  {
    assert Pointers(f.es[f.lo..k + 1]) == Pointers(f.es[f.lo..k]) + [f.es[k].pagePointer];
  }

  lemma AdvanceHead(f: Overwrite, pages: map<nat, Bytes>, pages': map<nat, Bytes>, k: nat, p: Progress,
                    first: Option<Extent>)
    requires Begun(f) && f.lo <= k < f.hi && WholePages(pages) && WholePages(pages')
    requires Collected(f, pages, k, p) && SameBytes(pages, pages', OptSet(p.first))
    requires Sound(f.es[k]) && ExtentBytes(pages, f.es[k]) == ExtentBytes(f.pages, f.es[k])
    requires Part(pages, pages', first, f.es[k], 0, Before(f.es[k], f.off), f.es[k].offset)
    ensures KeepsHead(f.pages, pages', f.es, f.lo, Inside(f.es, f.off), Either(first, p.first))
  {
    CutAt(f, k);
    if k > f.lo {
      assert first == None && (p.first.Some? ==> p.first.value in OptSet(p.first));
    }
  }

  lemma AdvanceTail(f: Overwrite, pages: map<nat, Bytes>, pages': map<nat, Bytes>, k: nat, p: Progress,
                    second: Option<Extent>)
    requires Begun(f) && f.lo <= k < f.hi && WholePages(pages) && WholePages(pages') && Collected(f, pages, k, p)
    requires Sound(f.es[k]) && ExtentBytes(pages, f.es[k]) == ExtentBytes(f.pages, f.es[k])
    requires Part(pages, pages', second, f.es[k], f.es[k].len - After(f.es[k], f.end), After(f.es[k], f.end), f.end)
    ensures k < f.hi - 1 ==> Either(second, p.second) == None
    ensures k == f.hi - 1 ==>
        KeepsTail(f.pages, pages', f.es, f.hi, f.end, Beyond(f.es, f.end), Either(second, p.second))
  {
    CutAt(f, k);
    if k == f.hi - 1 {
      TailPart(f.pages, pages, pages', f.es, f.hi, f.end, Beyond(f.es, f.end), second);
    }
  }

  lemma TailPart(p0: map<nat, Bytes>, p1: map<nat, Bytes>, p2: map<nat, Bytes>, es: seq<Extent>, hi: nat, end: nat,
                 n: nat,
                 second: Option<Extent>)
    requires WholePages(p0) && WholePages(p1) && WholePages(p2) && 0 < hi <= |es| && Sound(es[hi - 1])
    requires n <= es[hi - 1].len
    requires ExtentBytes(p1, es[hi - 1]) == ExtentBytes(p0, es[hi - 1])
    requires Part(p1, p2, second, es[hi - 1], es[hi - 1].len - n, n, end)
    ensures KeepsTail(p0, p2, es, hi, end, n, second)
  {}

  /** One touched extent more has been dealt with. */
  lemma AdvanceCollected(f: Overwrite, pages: map<nat, Bytes>, pages': map<nat, Bytes>, k: nat, p: Progress,
                         first: Option<Extent>, second: Option<Extent>)
    requires Begun(f) && f.lo <= k < f.hi && WholePages(pages) && WholePages(pages')
    requires Collected(f, pages, k, p) && SameBytes(pages, pages', OptSet(p.first))
    requires Sound(f.es[k]) && ExtentBytes(pages, f.es[k]) == ExtentBytes(f.pages, f.es[k])
    requires Part(pages, pages', first, f.es[k], 0, Before(f.es[k], f.off), f.es[k].offset)
    requires Part(pages, pages', second, f.es[k], f.es[k].len - After(f.es[k], f.end), After(f.es[k], f.end), f.end)
    ensures Collected(f, pages', k + 1, Advanced(f.es, k, p, first, second))
  {
    AdvanceLists(f, pages, k, p, first, second);
    AdvanceHead(f, pages, pages', k, p, first);
    AdvanceTail(f, pages, pages', k, p, second);
  }

  /** The accounts of the object after one more cut. */
  lemma AdvanceOwned(f: Overwrite, k: nat, p: Progress, first: Option<Extent>, second: Option<Extent>, had: set<Extent>)
    requires Begun(f) && f.lo <= k < f.hi && had == OwnedAfter(f, k, p)
    requires (k > f.lo ==> first == None) && (k == f.lo ==> p.first == None) && p.second == None
    requires forall e :: e in OptSet(p.first) ==> e !in SetOf(f.es)
    ensures f.es[k] in had
    ensures had - {f.es[k]} + OptSet(first) + OptSet(second)
         == OwnedAfter(f, k + 1, Advanced(f.es, k, p, first, second))
  {
    assert f.es[k..] == [f.es[k]] + f.es[k + 1..];
    assert SetOf(f.es[k..]) == {f.es[k]} + SetOf(f.es[k + 1..]);
    forall i | 0 <= i < |f.es| && i != k ensures f.es[i] != f.es[k] {
      TilesDistinct(f.es, i, k);
    }
    assert f.es[k] in SetOf(f.es);
    assert f.es[k] !in SetOf(f.es[..f.lo]) && f.es[k] !in SetOf(f.es[k + 1..]);
  }

  /** The frontiers after a set, which past the end of the object takes nothing. */
  ghost function SetTakes(obj: DataObject, off: nat, len: nat, fr: seq<nat>): Option<seq<nat>>
    requires len >= 1
  {
    if off > obj.size then Some(fr) else WriteTakes(obj.entries, off, len, fr)
  }

  /** A set goes through exactly if one after the other the value and the two kept parts find a first block. */
  lemma SetGoesThrough(obj: DataObject, off: nat, len: nat, fr: seq<nat>)
    requires len >= 1
    ensures off <= obj.size ==> (SetTakes(obj, off, len, fr).Some? <==>
      AllInTurn(fr, PagesFor(len), PartPages(Inside(obj.entries, off)), PartPages(Beyond(obj.entries, off + len))))
    ensures off > obj.size ==> SetTakes(obj, off, len, fr) == Some(fr)
  {
    TakesInTurn(fr, PagesFor(len), PartPages(Inside(obj.entries, off)), PartPages(Beyond(obj.entries, off + len)));
  }

  /** The frontiers after a write: the value takes its pages, then the kept front, then the kept tail. */
  ghost function WriteTakes(es: seq<Extent>, off: nat, len: nat, fr: seq<nat>): Option<seq<nat>>
    requires len >= 1
  {
    Take(Take(Take(Some(fr), PagesFor(len)), PartPages(Inside(es, off))), PartPages(Beyond(es, off + len)))
  }

  /** The object has one extent of n bytes more, at its end. */
  ghost predicate Appended(obj: DataObject, obj': DataObject, n: nat) {
    exists e :: Sound(e) && e.len == n && obj'.entries == obj.entries + [e]
  }

  /** The new object reads as the old one with value written over it, and is as long; at the end it is appended. */
  ghost predicate Spliced(pages: map<nat, Bytes>, pages': map<nat, Bytes>, obj: DataObject, obj': DataObject,
                          off: nat, value: Bytes)
    requires WholePages(pages) && WholePages(pages') && Tiled(obj) && Tiled(obj') && off <= obj.size
  {
    BytesLength(pages, obj.entries, 0);
    BytesLength(pages', obj'.entries, 0);
    && BytesOf(pages', obj'.entries) == Splice(BytesOf(pages, obj.entries), off, value)
    && obj'.size == (if off + |value| <= obj.size then obj.size else off + |value|)
    && (off == obj.size ==> Appended(obj, obj', |value|))
  }

  lemma StartsOwned(f: Overwrite)
    requires Begun(f)
    ensures SetOf(f.es) == SetOf(f.es[..f.lo]) + SetOf(f.es[f.lo..])
    ensures Extended(f.owners, f.ino, {f.added}) == f.owners[f.ino := OwnedAfter(f, f.lo, Progress([], -1, None, None))]
  {
    SetOfParts(f.es, f.es[..f.lo], f.es[f.lo..]);
    assert OwnedAfter(f, f.lo, Progress([], -1, None, None)) == SetOf(f.es) + {f.added};
  }

  lemma StartsReading(f: Overwrite, pages: map<nat, Bytes>)
    requires Begun(f) && WholePages(pages) && AllSame(f.pages, pages, f.owners)
    requires ExtentBytes(pages, f.added) == f.value
    requires SetOf(f.es) == SetOf(f.es[..f.lo]) + SetOf(f.es[f.lo..])
    ensures ReadsAsBefore(f, pages, f.lo)
  {
    assert SameBytes(f.pages, pages, f.owners[f.ino]);
  }

  /** At the start both pieces are still to be copied. */
  lemma PiecesAtStart(f: Overwrite, t: Option<seq<nat>>)
    requires Begun(f)
    ensures PiecesTaken(f, f.lo, t) == Take(Take(t, PartPages(Inside(f.es, f.off))), PartPages(Beyond(f.es, f.end)))
  {
    PrefixCut(f.es, f.off, f.end, f.lo, f.hi);
    if f.lo == f.hi {
      InsideNone(f.es, f.end);
    }
  }

  lemma ReassembledTiles(f: Overwrite, p: Progress, pages: map<nat, Bytes>)
    requires Begun(f) && WholePages(pages) && f.added.offset == f.off && f.added.len == |f.value| == f.end - f.off
    requires Collected(f, pages, f.hi, p)
    ensures var es' := Rebuilt(f.es, f.lo, f.hi, p.first, f.added, p.second);
      TilesFrom(es', 0) && SumLen(es') == if f.end <= SumLen(f.es) then SumLen(f.es) else f.end
  {
    BothKept(f, p, pages);
    RebuiltTiles(f.es, f.off, f.end, f.lo, f.hi, p.first, f.added, p.second);
  }

  /** A write at the end touches no extent. */
  lemma ReassembledAtEnd(f: Overwrite, p: Progress, pages: map<nat, Bytes>)
    requires Begun(f) && WholePages(pages) && Collected(f, pages, f.hi, p) && f.off == SumLen(f.es)
    ensures Rebuilt(f.es, f.lo, f.hi, p.first, f.added, p.second) == f.es + [f.added]
  {
    PrefixCut(f.es, f.off, f.end, f.lo, f.hi);
    assert p.first == None && p.second == None;
  }

  lemma ReassembledSet(f: Overwrite, p: Progress)
    requires Begun(f)
    ensures SetOf(Rebuilt(f.es, f.lo, f.hi, p.first, f.added, p.second)) == OwnedAfter(f, f.hi, p)
  {
    SetOfConcat(f.es[..f.lo], OptSeq(p.first));
    SetOfConcat(f.es[..f.lo] + OptSeq(p.first), [f.added]);
    SetOfConcat(f.es[..f.lo] + OptSeq(p.first) + [f.added], OptSeq(p.second));
    SetOfConcat(f.es[..f.lo] + OptSeq(p.first) + [f.added] + OptSeq(p.second), f.es[f.hi..]);
    assert SetOf(OptSeq(p.first)) == OptSet(p.first) && SetOf(OptSeq(p.second)) == OptSet(p.second);
    assert SetOf([f.added]) == {f.added};
  }

  /** After the last turn: the rebuilt list is the tiling of the spliced bytes. */
  lemma Reassembled(f: Overwrite, p: Progress, pages: map<nat, Bytes>)
    requires Begun(f) && WholePages(pages) && f.added.offset == f.off && f.added.len == |f.value| == f.end - f.off
    requires Collected(f, pages, f.hi, p) && ReadsAsBefore(f, pages, f.hi)
    ensures var es' := Rebuilt(f.es, f.lo, f.hi, p.first, f.added, p.second);
      && Archived(f.es) && Archived(es')
      && f.off <= |BytesOf(f.pages, f.es)|
      && BytesOf(pages, es') == Splice(BytesOf(f.pages, f.es), f.off, f.value)
  {
    BothKept(f, p, pages);
    ReassembledTiles(f, p, pages);
    TilesSound(Rebuilt(f.es, f.lo, f.hi, p.first, f.added, p.second), 0);
    RebuiltBytes(f.pages, pages, f.es, f.off, f.end, f.value, f.lo, f.hi, p.first, f.added, p.second);
  }

  lemma BothKept(f: Overwrite, p: Progress, pages: map<nat, Bytes>)
    requires Begun(f) && WholePages(pages) && Collected(f, pages, f.hi, p)
    ensures KeepsHead(f.pages, pages, f.es, f.lo, Inside(f.es, f.off), p.first)
    ensures KeepsTail(f.pages, pages, f.es, f.hi, f.end, Beyond(f.es, f.end), p.second)
  {
    if f.lo == f.hi {
      PrefixCut(f.es, f.off, f.end, f.lo, f.hi);
      forall i | 0 <= i < |f.es| ensures !(f.es[i].offset < f.end < f.es[i].offset + f.es[i].len) { }
      InsideNone(f.es, f.end);
    }
  }

  /** Extents not touched so far, and those of other objects, read as at the start, and the new extent as written. */
  ghost predicate ReadsAsBefore(f: Overwrite, pages: map<nat, Bytes>, m: nat)
    requires WholePages(f.pages) && WholePages(pages) && f.lo <= m <= |f.es| && Sound(f.added)
  {
    && SameBytes(f.pages, pages, SetOf(f.es[..f.lo])) && SameBytes(f.pages, pages, SetOf(f.es[m..]))
    && (forall i :: i in f.owners && i != f.ino ==> SameBytes(f.pages, pages, f.owners[i]))
    && ExtentBytes(pages, f.added) == f.value
  }

  /** Where the overwrite stands before the extent at k is looked at. */
  ghost predicate OverwriteAt(f: Overwrite, k: nat, p: Progress, s: Snapshot) {
    && InOrder(s) && Begun(f) && k <= |f.es|
    && s.owners == f.owners[f.ino := OwnedAfter(f, Mid(f, k), p)]
    && Collected(f, s.pages, Mid(f, k), p)
    && Unowned(f.owners, OptSet(p.first))
    && ReadsAsBefore(f, s.pages, Mid(f, k))
  }

  /** The overwrite has got to index k and will end at the goal, or has given up, and there is no such goal. */
  ghost predicate OverwriteStage(f: Overwrite, k: nat, p: Progress, goal: Option<seq<nat>>, ok: bool, s: Snapshot) {
    if ok then OverwriteAt(f, k, p, s) && goal == PiecesTaken(f, Mid(f, k), Some(s.view.frontier)) else goal == None
  }

  /** The states the overwrite may be in at index k. */
  ghost function StagesAt(f: Overwrite, k: nat, p: Progress, goal: Option<seq<nat>>, ok: bool): iset<Snapshot> {
    iset s | OverwriteStage(f, k, p, goal, ok, s)
  }

  /** Where it has given up the index does not matter. */
  lemma StageEnds(f: Overwrite, at: nat, k: nat, p: Progress, goal: Option<seq<nat>>, ok: bool, s: Snapshot)
    requires s in StagesAt(f, at, p, goal, ok) && (ok ==> at == k)
    ensures s in StagesAt(f, k, p, goal, ok)
  {}

  /** Behind the last turn the lists are complete, and nothing more is needed. */
  lemma StageDone(f: Overwrite, p: Progress, goal: Option<seq<nat>>, s: Snapshot)
    requires s in StagesAt(f, |f.es|, p, goal, true)
    ensures f.lo <= f.hi <= |f.es| && (f.lo == f.hi ==> f.lo == |f.es|) && goal == Some(s.view.frontier)
    ensures p.removeList == Pointers(f.es[f.lo..f.hi]) && p.insertIndex == if f.lo == f.hi then -1 else f.lo
  {
    PrefixCut(f.es, f.off, f.end, f.lo, f.hi);
  }

  /** Behind the last turn an object of the rebuilt list is the spliced one, and owns the pages. */
  lemma StageSpliced(f: Overwrite, p: Progress, goal: Option<seq<nat>>, s: Snapshot, obj: DataObject, obj': DataObject)
    requires s in StagesAt(f, |f.es|, p, goal, true)
    requires f.lo <= f.hi <= |f.es| && obj.entries == f.es && Tiled(obj)
    requires f.added.offset == f.off && f.added.len == |f.value| == f.end - f.off
    requires obj'.entries == Rebuilt(f.es, f.lo, f.hi, p.first, f.added, p.second)
    requires obj'.size == SumLen(obj'.entries)
    ensures InOrder(s) && Tiled(obj') && s.owners == f.owners[f.ino := SetOf(obj'.entries)]
    ensures Spliced(f.pages, s.pages, obj, obj', f.off, f.value)
    ensures AllSame(f.pages, s.pages, f.owners - {f.ino})
  {
    assert OverwriteAt(f, |f.es|, p, s) && Mid(f, |f.es|) == f.hi;
    Reassembled(f, p, s.pages);
    ReassembledTiles(f, p, s.pages);
    ReassembledSet(f, p);
    if f.off == obj.size {
      ReassembledAtEnd(f, p, s.pages);
      assert Appended(obj, obj', |f.value|);
    }
  }

  /** Before the first turn of the loop. */
  lemma StartsStanding(f: Overwrite, p: Progress, s: Snapshot)
    requires Begun(f) && InOrder(s) && p == Progress([], -1, None, None)
    requires s.owners == Extended(f.owners, f.ino, {f.added}) && AllSame(f.pages, s.pages, f.owners)
    requires ExtentBytes(s.pages, f.added) == f.value
    ensures OverwriteAt(f, 0, p, s)
  {
    assert Mid(f, 0) == f.lo;
    StartsOwned(f);
    StartsReading(f, s.pages);
  }

  /** Behind the write of the value the overwrite stands at its first extent. */
  lemma StartsWriting(f: Overwrite, p: Progress, goal: Option<seq<nat>>, len: nat, fr: seq<nat>, s: Snapshot)
    requires Begun(f) && InOrder(s) && p == Progress([], -1, None, None) && len >= 1 && f.end == f.off + len
    requires s.owners == Extended(f.owners, f.ino, {f.added}) && AllSame(f.pages, s.pages, f.owners)
    requires ExtentBytes(s.pages, f.added) == f.value
    requires goal == WriteTakes(f.es, f.off, len, fr) && Take(Some(fr), PagesFor(len)) == Some(s.view.frontier)
    ensures s in StagesAt(f, 0, p, goal, true)
  {
    StartsStanding(f, p, s);
    PiecesAtStart(f, Some(s.view.frontier));
    assert Mid(f, 0) == f.lo && OverwriteAt(f, 0, p, s);
  }

  lemma BeforeCut(f: Overwrite, k: nat, p: Progress, pages: map<nat, Bytes>)
    requires Begun(f) && f.lo <= k < f.hi && WholePages(pages) && Collected(f, pages, k, p)
    ensures f.es[k] in OwnedAfter(f, k, p) && Sound(f.es[k])
  {
    CutAt(f, k);
    assert f.es[k] in f.es[k..];
  }

  lemma AfterCutReads(f: Overwrite, k: nat, p: Progress, pages: map<nat, Bytes>, pages': map<nat, Bytes>)
    requires Begun(f) && f.lo <= k < f.hi && WholePages(pages) && WholePages(pages')
    requires ReadsAsBefore(f, pages, k)
    requires AllSame(pages, pages', f.owners[f.ino := OwnedAfter(f, k, p)])
    ensures ReadsAsBefore(f, pages', k + 1)
  {
    var had := OwnedAfter(f, k, p);
    OwnedRest(f, k, p);
    var now := f.owners[f.ino := had];
    assert f.ino in now && now[f.ino] == had;
    SameTrans(f.pages, pages, pages', SetOf(f.es[..f.lo]), had);
    SameTrans(f.pages, pages, pages', SetOf(f.es[k + 1..]), had);
    OthersRead(f, pages, pages', had);
  }

  lemma OwnedRest(f: Overwrite, k: nat, p: Progress)
    requires Begun(f) && f.lo <= k < f.hi
    ensures SetOf(f.es[k + 1..]) <= SetOf(f.es[k..]) && SetOf(f.es[k + 1..]) <= OwnedAfter(f, k, p)
  {
    assert f.es[k..] == [f.es[k]] + f.es[k + 1..];
  }

  lemma OthersRead(f: Overwrite, pages: map<nat, Bytes>, pages': map<nat, Bytes>, had: set<Extent>)
    requires WholePages(f.pages) && WholePages(pages) && WholePages(pages')
    requires forall i :: i in f.owners && i != f.ino ==> SameBytes(f.pages, pages, f.owners[i])
    requires AllSame(pages, pages', f.owners[f.ino := had])
    ensures forall i :: i in f.owners && i != f.ino ==> SameBytes(f.pages, pages', f.owners[i])
  {
    forall i | i in f.owners && i != f.ino ensures SameBytes(f.pages, pages', f.owners[i]) {
      SameTrans(f.pages, pages, pages', f.owners[i], f.owners[f.ino := had][i]);
    }
  }

  lemma AfterCutOwned(f: Overwrite, k: nat, p: Progress, first: Option<Extent>, second: Option<Extent>,
                      pages: map<nat, Bytes>, owners': Owners)
    requires Begun(f) && f.lo <= k < f.hi && WholePages(pages) && Collected(f, pages, k, p)
    requires Unowned(f.owners, OptSet(p.first)) && (k > f.lo ==> first == None)
    requires Unowned(f.owners[f.ino := OwnedAfter(f, k, p)], OptSet(first))
    requires owners' == f.owners[f.ino := OwnedAfter(f, k, p) - {f.es[k]} + OptSet(first) + OptSet(second)]
    ensures var q := Advanced(f.es, k, p, first, second);
      && owners' == f.owners[f.ino := OwnedAfter(f, k + 1, q)]
      && Unowned(f.owners, OptSet(q.first))
  {
    AdvanceOwned(f, k, p, first, second, OwnedAfter(f, k, p));
    if k == f.lo {
      FirstUnowned(f, p, first);
    }
  }

  lemma FirstUnowned(f: Overwrite, p: Progress, first: Option<Extent>)
    requires Begun(f) && f.lo <= |f.es|
    requires Unowned(f.owners[f.ino := OwnedAfter(f, f.lo, p)], OptSet(first))
    ensures Unowned(f.owners, OptSet(first))
  {
    SetOfParts(f.es, f.es[..f.lo], f.es[f.lo..]);
    var o := f.owners[f.ino := OwnedAfter(f, f.lo, p)];
    forall i, e | i in f.owners && e in OptSet(first) ensures e !in f.owners[i] {
      assert i in o && e !in o[i];
    }
  }

  lemma UpdateAgain(owners: Owners, ino: nat, a: set<Extent>, b: set<Extent>)
    ensures owners[ino := a][ino := b] == owners[ino := b]
  {}

  lemma AfterCut(f: Overwrite, k: nat, p: Progress, first: Option<Extent>, second: Option<Extent>,
                 pages: map<nat, Bytes>, pages': map<nat, Bytes>, owners: Owners, owners': Owners, q: Progress)
    requires Begun(f) && f.lo <= k < f.hi && WholePages(pages) && WholePages(pages') && Sound(f.es[k])
    requires f.off < f.es[k].offset + f.es[k].len && f.es[k].offset < f.end
    requires Collected(f, pages, k, p) && ReadsAsBefore(f, pages, k) && Unowned(f.owners, OptSet(p.first))
    requires owners == f.owners[f.ino := OwnedAfter(f, k, p)] && q == Advanced(f.es, k, p, first, second)
    requires CutDone(pages, pages', owners, owners', f.ino, f.es[k], f.off, f.end, first, second)
    ensures owners' == f.owners[f.ino := OwnedAfter(f, k + 1, q)] && Unowned(f.owners, OptSet(q.first))
    ensures Collected(f, pages', k + 1, q) && ReadsAsBefore(f, pages', k + 1)
  {
    OnlyFirstHead(f, k, pages, pages', first);
    var was := OwnedAfter(f, k, p);
    UpdateAgain(f.owners, f.ino, was, was - {f.es[k]} + OptSet(first) + OptSet(second));
    AfterCutOwned(f, k, p, first, second, pages, owners');
    AfterCutReads(f, k, p, pages, pages');
    AfterCutCollected(f, k, p, first, second, pages, pages');
  }

  /** Only the first touched extent can leave something in front of the range. */
  lemma OnlyFirstHead(f: Overwrite, k: nat, pages: map<nat, Bytes>, pages': map<nat, Bytes>, first: Option<Extent>)
    requires Begun(f) && f.lo <= k < f.hi && WholePages(pages) && WholePages(pages') && Sound(f.es[k])
    requires f.off < f.es[k].offset + f.es[k].len
    requires Part(pages, pages', first, f.es[k], 0, Before(f.es[k], f.off), f.es[k].offset)
    ensures k > f.lo ==> first == None
  {
    CutAt(f, k);
  }

  lemma AfterCutCollected(f: Overwrite, k: nat, p: Progress, first: Option<Extent>, second: Option<Extent>,
                          pages: map<nat, Bytes>, pages': map<nat, Bytes>)
    requires Begun(f) && f.lo <= k < f.hi && WholePages(pages) && WholePages(pages') && Sound(f.es[k])
    requires f.off < f.es[k].offset + f.es[k].len && f.es[k].offset < f.end
    requires Collected(f, pages, k, p) && ReadsAsBefore(f, pages, k)
    requires AllSame(pages, pages', f.owners[f.ino := OwnedAfter(f, k, p)])
    requires Part(pages, pages', first, f.es[k], 0, Before(f.es[k], f.off), f.es[k].offset)
    requires Part(pages, pages', second, f.es[k], f.es[k].len - After(f.es[k], f.end), After(f.es[k], f.end), f.end)
    ensures Collected(f, pages', k + 1, Advanced(f.es, k, p, first, second))
  {
    assert f.es[k] in f.es[k..];
    assert f.ino in f.owners[f.ino := OwnedAfter(f, k, p)] && SameBytes(pages, pages', OwnedAfter(f, k, p));
    AdvanceCollected(f, pages, pages', k, p, first, second);
  }

  /** The entry has given way to what is kept of it, and everything else is as before. */
  ghost predicate CutDone(p0: map<nat, Bytes>, p1: map<nat, Bytes>, o0: Owners, o1: Owners, ino: nat,
                          entry: Extent, off: nat, end: nat, first: Option<Extent>, second: Option<Extent>)
    requires WholePages(p0) && WholePages(p1) && Sound(entry) && ino in o0
    requires off < entry.offset + entry.len && entry.offset < end
  {
    && Part(p0, p1, first, entry, 0, Before(entry, off), entry.offset)
    && Part(p0, p1, second, entry, entry.len - After(entry, end), After(entry, end), end)
    && o1 == o0[ino := o0[ino] - {entry} + OptSet(first) + OptSet(second)]
    && Unowned(o0, OptSet(first)) && Unowned(o0, OptSet(second))
    && AllSame(p0, p1, o0)
  }

  lemma CutParts(p0: map<nat, Bytes>, p1: map<nat, Bytes>, p2: map<nat, Bytes>, o0: Owners, o1: Owners, ino: nat,
                 entry: Extent, off: nat, end: nat, first: Option<Extent>, second: Option<Extent>)
    requires WholePages(p0) && WholePages(p1) && WholePages(p2) && Sound(entry)
    requires off < entry.offset + entry.len && entry.offset < end
    requires ino in o0 && entry in o0[ino] && o1 == Extended(o0, ino, OptSet(first))
    requires AllSame(p0, p1, o0) && AllSame(p1, p2, o1)
    requires Part(p0, p1, first, entry, 0, Before(entry, off), entry.offset)
    requires Part(p1, p2, second, entry, entry.len - After(entry, end), After(entry, end),
                  entry.offset + entry.len - After(entry, end))
    requires Unowned(o0, OptSet(first)) && Unowned(o1, OptSet(second))
    ensures var o2 := Extended(o1, ino, OptSet(second));
      CutDone(p0, p2, o0, o2[ino := o2[ino] - {entry}], ino, entry, off, end, first, second)
  {
    AllSameTrans(p0, p1, p2, o0, o1);
    CutSets(o0[ino], entry, OptSet(first), OptSet(second));
    assert SameBytes(p0, p1, o0[ino]);
    if first.Some? {
      assert first.value in o1[ino] && SameBytes(p1, p2, o1[ino]);
    }
    NoPart(p0, p2, second, entry, end);
  }

  /** A part that is empty stands anywhere. */
  lemma NoPart(p0: map<nat, Bytes>, p1: map<nat, Bytes>, p: Option<Extent>, e: Extent, end: nat)
    requires WholePages(p0) && WholePages(p1) && Sound(e) && e.offset < end
    requires Part(p0, p1, p, e, e.len - After(e, end), After(e, end), e.offset + e.len - After(e, end))
    ensures Part(p0, p1, p, e, e.len - After(e, end), After(e, end), end)
  {}

  /** What cutting the extent at k may count on. */
  lemma CutStarts(f: Overwrite, k: nat, p: Progress, goal: Option<seq<nat>>, s: Snapshot)
    requires f.lo <= k < f.hi && OverwriteStage(f, k, p, goal, true, s)
    ensures k < |f.es| && f.ino in s.owners && f.es[k] in s.owners[f.ino] && Sound(f.es[k])
    ensures goal == PiecesTaken(f, k + 1, CutTakes(f.es[k], f.off, f.end, s.view.frontier))
  {
    BeforeCut(f, k, p, s.pages);
    CutPieces(f, k, Some(s.view.frontier));
  }

  /** The frontiers after the parts kept of one extent have taken their pages. */
  ghost function CutTakes(e: Extent, off: nat, end: nat, fr: seq<nat>): Option<seq<nat>> {
    Take(Take(Some(fr), PartPages(Before(e, off))), PartPages(After(e, end)))
  }

  /** The pieces behind index k are what the extent at k leaves and the pieces behind it. */
  lemma CutPieces(f: Overwrite, k: nat, t: Option<seq<nat>>)
    requires Begun(f) && f.lo <= k < f.hi
    ensures PiecesTaken(f, k, t) ==
            PiecesTaken(f, k + 1, Take(Take(t, PartPages(Before(f.es[k], f.off))), PartPages(After(f.es[k], f.end))))
  {
    CutAt(f, k);
  }

  /** And where it leaves the overwrite. */
  lemma CutEnds(f: Overwrite, k: nat, p: Progress, goal: Option<seq<nat>>, s: Snapshot, first: Option<Extent>,
                second: Option<Extent>,
                s': Snapshot, q: Progress)
    requires f.lo <= k < f.hi && OverwriteStage(f, k, p, goal, true, s) && InOrder(s') && Sound(f.es[k])
    requires f.off < f.es[k].offset + f.es[k].len && f.es[k].offset < f.end
    requires CutDone(s.pages, s'.pages, s.owners, s'.owners, f.ino, f.es[k], f.off, f.end, first, second)
    requires goal == PiecesTaken(f, k + 1, Some(s'.view.frontier))
    requires q == Advanced(f.es, k, p, first, second)
    ensures OverwriteStage(f, k + 1, q, goal, true, s')
  {
    assert Mid(f, k) == k && Mid(f, k + 1) == k + 1;
    AfterCut(f, k, p, first, second, s.pages, s'.pages, s.owners, s'.owners, q);
  }
}
