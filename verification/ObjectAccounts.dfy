/** What an object's extents own, what they read as, and how both survive writes elsewhere. */
module ObjectAccounts {
  import opened Prelude
  import opened SstRecord
  import opened Flash
  import opened BlockTable
  import opened Extents
  import opened ExtentCuts
  import opened EntryLists

  const EMPTY_OBJECT := DataObject(0, [])

  /** The extents of every stored object. */
  function OwnersOf(objects: map<nat, DataObject>): Owners {
    map ino | ino in objects :: SetOf(objects[ino].entries)
  }

  /** The page states, the pages and the accounts at one moment. */
  datatype Snapshot = Snapshot(view: Blocks, pages: map<nat, Bytes>, owners: Owners)

  ghost predicate InOrder(s: Snapshot) {
    match s
    case Snapshot(view, pages, owners) => WholePages(pages) && Consistent(view, owners)
  }

  function PartPages(n: nat): nat {
    if n == 0 then 0 else PagesFor(n)
  }

  /** Every extent in the accounts reads the same before and after. */
  ghost predicate AllSame(pages: map<nat, Bytes>, pages': map<nat, Bytes>, owners: Owners)
    requires WholePages(pages) && WholePages(pages')
  {
    forall ino :: ino in owners ==> SameBytes(pages, pages', owners[ino])
  }

  /** None of the extents is in the accounts. */
  ghost predicate Unowned(owners: Owners, es: set<Extent>) {
    forall i, e :: i in owners && e in es ==> e !in owners[i]
  }

  ghost function Extended(owners: Owners, ino: nat, add: set<Extent>): Owners
    requires ino in owners
  {
    owners[ino := owners[ino] + add]
  }

  /** What the entries of an object have in use: for each the bytes up to its length. */
  function InUse(es: seq<Extent>): set<Extent> {
    set e | e in es :: Kept(e, e.len)
  }

  lemma InUseSound(es: seq<Extent>)
    requires forall e :: e in es ==> Sound(e)
    ensures InUse(es) == SetOf(es)
  {
    forall e | e in es ensures Kept(e, e.len) == e {}
    forall e | e in SetOf(es) ensures e in InUse(es) { assert Kept(e, e.len) == e; }
  }

  lemma InUseConcat(a: seq<Extent>, b: seq<Extent>)
    ensures InUse(a + b) == InUse(a) + InUse(b)
  {
    forall x | x in InUse(a) + InUse(b) ensures x in InUse(a + b) {
      if x in InUse(a) {
        var e :| e in a && Kept(e, e.len) == x;
        assert e in a + b;
      } else {
        var e :| e in b && Kept(e, e.len) == x;
        assert e in a + b;
      }
    }
  }

  lemma InUseOpt(p: Option<Extent>)
    requires p.Some? ==> Sound(p.value)
    ensures InUse(OptSeq(p)) == OptSet(p)
  {
    InUseSound(OptSeq(p));
  }

  lemma PlacedBelow(v: Blocks, owners: Owners, ino: nat, e: Extent)
    requires Consistent(v, owners) && ino in owners && e in owners[ino]
    ensures BelowFrontier(v, e)
  {
    assert Placed(v, ino, e);
  }

  /** Extents of one object start on different pages. */
  lemma OwnedPointers(v: Blocks, owners: Owners, ino: nat, es: seq<Extent>)
    requires Consistent(v, owners) && ino in owners && owners[ino] == SetOf(es) && TilesFrom(es, 0)
    ensures DistinctPointers(es)
  {
    forall i, j | 0 <= i < j < |es| ensures es[i].pagePointer != es[j].pagePointer {
      TilesDistinct(es, i, j);
      assert es[i] in owners[ino] && es[j] in owners[ino];
      assert Placed(v, ino, es[i]) && Placed(v, ino, es[j]);
      PagesPositive(es[i]);
      PagesPositive(es[j]);
      assert Apart(es[i], es[j]);
    }
  }

  lemma SetOfParts(es: seq<Extent>, a: seq<Extent>, b: seq<Extent>)
    requires es == a + b
    ensures SetOf(es) == SetOf(a) + SetOf(b)
  {}

  lemma SetOfConcat(a: seq<Extent>, b: seq<Extent>)
    ensures SetOf(a + b) == SetOf(a) + SetOf(b)
  {}

  lemma SameTrans(p0: map<nat, Bytes>, p1: map<nat, Bytes>, p2: map<nat, Bytes>, es: set<Extent>, more: set<Extent>)
    requires WholePages(p0) && WholePages(p1) && WholePages(p2) && es <= more
    requires (SameBytes(p0, p1, es) || p0 == p1) && SameBytes(p1, p2, more)
    ensures SameBytes(p0, p2, es)
  {
    forall e | e in es ensures e.archivedLen >= 1 && ExtentBytes(p2, e) == ExtentBytes(p0, e) {
      assert e in more;
    }
  }

  /** How much of the extent lies before off. */
  function Before(e: Extent, off: nat): nat {
    if off > e.offset then off - e.offset else 0
  }

  /** How much of the extent lies from end on. */
  function After(e: Extent, end: nat): nat {
    if end < e.offset + e.len then e.offset + e.len - end else 0
  }

  /** p is a new extent for n bytes of e, from position from on; none for no bytes. */
  ghost predicate Part(pages: map<nat, Bytes>, pages': map<nat, Bytes>, p: Option<Extent>, e: Extent, from: nat, n: nat,
                       offset: nat)
    requires WholePages(pages) && WholePages(pages') && Sound(e) && from + n <= e.len
  {
    Piece(p, n, offset) && OptBytes(pages', p) == ExtentBytes(pages, e)[from..from + n]
  }

  lemma CutSets(a: set<Extent>, e: Extent, f: set<Extent>, g: set<Extent>)
    requires e !in f && e !in g
    ensures a + f + g - {e} == a - {e} + f + g
  {}

  lemma AllSameTrans(p0: map<nat, Bytes>, p1: map<nat, Bytes>, p2: map<nat, Bytes>, o0: Owners, o1: Owners)
    requires WholePages(p0) && WholePages(p1) && WholePages(p2)
    requires forall i :: i in o0 ==> i in o1 && o0[i] <= o1[i]
    requires AllSame(p0, p1, o0) && AllSame(p1, p2, o1)
    ensures AllSame(p0, p2, o0)
  {
    forall i, e | i in o0 && e in o0[i] ensures e.archivedLen >= 1 && ExtentBytes(p2, e) == ExtentBytes(p0, e) {
      assert e in o1[i];
      assert SameBytes(p0, p1, o0[i]) && SameBytes(p1, p2, o1[i]);
    }
  }

  lemma AllSameRefl(pages: map<nat, Bytes>, v: Blocks, owners: Owners)
    requires WholePages(pages) && Consistent(v, owners)
    ensures AllSame(pages, pages, owners)
  {
    forall ino, e | ino in owners && e in owners[ino] ensures e.archivedLen >= 1 {
      assert Placed(v, ino, e);
    }
  }
}
