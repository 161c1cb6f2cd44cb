/**
 Planning a collection: first fit over the block frontiers, the runs of busy pages found by one scan of the
 block, and exactly when the scan finds the extents of the block.
 */
module GcPlan {
  import opened Prelude
  import opened BlockTable
  import opened Extents
  import opened Frontiers
  import opened GcMoves

  // ----- where to write

  /** The frontier of the first block from b on, other than skip, with room for size pages. */
  ghost function FirstFit(v: Blocks, b: nat, size: nat, skip: Option<nat>): Option<nat>
    decreases |v.frontier| - b
  {
    if b >= |v.frontier| then None
    else if v.frontier[b] + size <= BLOCK && skip != Some(b) then Some(b * BLOCK + v.frontier[b])
    else FirstFit(v, b + 1, size, skip)
  }

  ghost predicate Usable(v: Blocks, b: nat, size: nat, skip: Option<nat>) {
    b < |v.frontier| && v.frontier[b] + size <= BLOCK && skip != Some(b)
  }

  /** First fit names the frontier of the first block with room, and fails only if no block has any. */
  lemma {:induction false} FirstFitFinds(v: Blocks, b: nat, size: nat, skip: Option<nat>)
    requires Shaped(v) && size > 0
    ensures FirstFit(v, b, size, skip) == None <==> forall c :: b <= c < |v.frontier| ==> !Usable(v, c, size, skip)
    ensures var r := FirstFit(v, b, size, skip); r.Some? ==>
      && Usable(v, r.value / BLOCK, size, skip)
      && AtFrontier(v, r.value, size) && r.value + size <= |v.status|
      && forall c :: b <= c < r.value / BLOCK ==> !Usable(v, c, size, skip)
    decreases |v.frontier| - b
  {
    if b < |v.frontier| {
      if Usable(v, b, size, skip) {
        assert (b * BLOCK + v.frontier[b]) / BLOCK == b;
      } else {
        FirstFitFinds(v, b + 1, size, skip);
      }
    }
  }

  /** First fit, told on the frontiers: with a block left out, and with none. */
  lemma FirstFitIsFirst(v: Blocks, size: nat, skip: Option<nat>)
    requires Shaped(v) && size > 0
    ensures var fr := v.frontier;
      match FirstFit(v, 0, size, skip)
      case None => forall b :: 0 <= b < |fr| && skip != Some(b) ==> fr[b] + size > BLOCK
      case Some(a) =>
        var b := a / BLOCK;
        && b < |fr| && a == b * BLOCK + fr[b] && skip != Some(b) && fr[b] + size <= BLOCK
        && forall c :: 0 <= c < b && skip != Some(c) ==> fr[c] + size > BLOCK
  {
    FirstFitFinds(v, 0, size, skip);
    var fr, r := v.frontier, FirstFit(v, 0, size, skip);
    var n := if r.None? then |fr| else r.value / BLOCK;
    forall c | 0 <= c < n && skip != Some(c) ensures fr[c] + size > BLOCK {
      assert !Usable(v, c, size, skip);
    }
  }

  // ----- the scan

  datatype Found = Found(ino: nat, size: nat, oAddress: nat)

  /** The scan's variables: the running size, the run being followed, and the runs closed so far. */
  datatype Scan = Scan(size: nat, last: Option<Found>, used: seq<Found>)

  const SCAN_START := Scan(0, None, [])

  /** The run being followed is closed with the size counted so far. */
  function CloseRun(s: Scan): seq<Found> {
    if s.last.Some? then s.used + [s.last.value.(size := s.size)] else s.used
  }

  /** One page: the running size starts again behind a page that is not busy, but not where the owner changes. */
  function ScanPage(s: Scan, address: nat, status: PageStatus): Scan {
    match status
    case Busy(ino) =>
      if s.last.None? then Scan(1, Some(Found(ino, 0, address)), s.used)
      else if s.last.value.ino == ino then s.(size := s.size + 1)
      else Scan(s.size, Some(Found(ino, 0, address)), CloseRun(s))
    case _ =>
      if s.last.None? then s else Scan(0, None, CloseRun(s))
  }

  ghost function ScanTo(st: seq<PageStatus>, lo: nat, n: nat): Scan
    requires lo + n <= |st|
  {
    if n == 0 then SCAN_START else ScanPage(ScanTo(st, lo, n - 1), lo + n - 1, st[lo + n - 1])
  }

  // ----- what it finds

  /** Where the run of one owner that p lies in begins. */
  ghost function StartOf(st: seq<PageStatus>, lo: nat, p: nat): (s: nat)
    requires lo <= p < |st|
    ensures lo <= s <= p
    decreases p
  {
    if p == lo || st[p - 1] != st[p] then p else StartOf(st, lo, p - 1)
  }

  /** The size counted when the page at p has been looked at. */
  ghost function SizeAt(st: seq<PageStatus>, lo: nat, p: nat): (n: nat)
    requires lo <= p < |st|
    ensures n >= 1
    decreases p
  {
    if p == lo || !st[p - 1].Busy? then 1
    else if st[p - 1] == st[p] then SizeAt(st, lo, p - 1) + 1
    else SizeAt(st, lo, p - 1)
  }

  /** The run that ends at q, as the scan records it. */
  ghost function RunAt(st: seq<PageStatus>, lo: nat, q: nat): Found
    requires lo <= q < |st| && st[q].Busy?
  {
    Found(st[q].ino, SizeAt(st, lo, q), StartOf(st, lo, q))
  }

  /** A run ends at q, before the page hi; with whole set, also if it is cut off there. */
  ghost predicate EndsAt(st: seq<PageStatus>, lo: nat, hi: nat, whole: bool, q: nat)
    requires hi <= |st|
  {
    lo <= q < hi && st[q].Busy? && (if q + 1 == hi then whole else st[q + 1] != st[q])
  }

  ghost predicate IsRun(st: seq<PageStatus>, lo: nat, hi: nat, whole: bool, u: Found)
    requires hi <= |st|
  {
    exists q :: EndsAt(st, lo, hi, whole, q) && u == RunAt(st, lo, q)
  }

  ghost predicate Ascending(used: seq<Found>) {
    forall i, j :: 0 <= i < j < |used| ==> used[i].oAddress < used[j].oAddress
  }

  /** The list holds the runs that end before hi, each once, in order. */
  ghost predicate Lists(st: seq<PageStatus>, lo: nat, hi: nat, whole: bool, used: seq<Found>)
    requires hi <= |st|
  {
    && (forall k :: 0 <= k < |used| ==> IsRun(st, lo, hi, whole, used[k]))
    && (forall q :: EndsAt(st, lo, hi, whole, q) ==> RunAt(st, lo, q) in used)
    && Ascending(used)
  }

  /** Everything listed begins before the run being followed. */
  ghost predicate AllBefore(used: seq<Found>, limit: nat) {
    forall k :: 0 <= k < |used| ==> used[k].oAddress < limit
  }

  ghost function Limit(s: Scan, hi: nat): nat {
    if s.last.Some? then s.last.value.oAddress else hi
  }

  /** The scan follows the run of the last page looked at. */
  ghost predicate Follows(st: seq<PageStatus>, lo: nat, n: nat, s: Scan)
    requires lo + n <= |st|
  {
    if n == 0 || !st[lo + n - 1].Busy? then s.last == None
    else
      var p := lo + n - 1;
      s.last == Some(Found(st[p].ino, 0, StartOf(st, lo, p))) && s.size == SizeAt(st, lo, p)
  }

  lemma {:induction false} ScanFollows(st: seq<PageStatus>, lo: nat, n: nat)
    requires lo + n <= |st|
    ensures Follows(st, lo, n, ScanTo(st, lo, n))
  {
    if n != 0 {
      ScanFollows(st, lo, n - 1);
    }
  }

  lemma EndOf(st: seq<PageStatus>, lo: nat, hi: nat, whole: bool, u: Found) returns (q: nat)
    requires hi <= |st| && IsRun(st, lo, hi, whole, u)
    ensures EndsAt(st, lo, hi, whole, q) && u == RunAt(st, lo, q)
  {
    q :| EndsAt(st, lo, hi, whole, q) && u == RunAt(st, lo, q);
  }

  /** Another page that ends no run leaves the list right. */
  lemma ListsOn(st: seq<PageStatus>, lo: nat, hi: nat, used: seq<Found>)
    requires lo <= hi < |st| && Lists(st, lo, hi, false, used)
    requires hi > lo && st[hi - 1].Busy? ==> st[hi] == st[hi - 1]
    ensures Lists(st, lo, hi + 1, false, used)
  {
    forall k | 0 <= k < |used| ensures IsRun(st, lo, hi + 1, false, used[k]) {
      var q := EndOf(st, lo, hi, false, used[k]);
      assert EndsAt(st, lo, hi + 1, false, q);
    }
    forall q | EndsAt(st, lo, hi + 1, false, q) ensures RunAt(st, lo, q) in used {
      assert EndsAt(st, lo, hi, false, q);
    }
  }

  /** A run that ends at the last page looked at is put on the list. */
  lemma ListsClose(st: seq<PageStatus>, lo: nat, hi: nat, used: seq<Found>, hi': nat, whole: bool)
    requires lo < hi <= |st| && Lists(st, lo, hi, false, used) && st[hi - 1].Busy?
    requires AllBefore(used, StartOf(st, lo, hi - 1))
    requires if whole then hi' == hi else hi' == hi + 1 <= |st| && st[hi] != st[hi - 1]
    ensures Lists(st, lo, hi', whole, used + [RunAt(st, lo, hi - 1)])
  {
    var u := RunAt(st, lo, hi - 1);
    var used' := used + [u];
    assert EndsAt(st, lo, hi', whole, hi - 1);
    forall k | 0 <= k < |used'| ensures IsRun(st, lo, hi', whole, used'[k]) {
      if k < |used| {
        var q := EndOf(st, lo, hi, false, used[k]);
        assert EndsAt(st, lo, hi', whole, q);
      }
    }
    forall q | EndsAt(st, lo, hi', whole, q) ensures RunAt(st, lo, q) in used' {
      if q != hi - 1 {
        assert EndsAt(st, lo, hi, false, q);
      }
    }
  }

  lemma ScanListsStep(st: seq<PageStatus>, lo: nat, hi: nat, s: Scan)
    requires lo <= hi < |st| && Lists(st, lo, hi, false, s.used) && AllBefore(s.used, Limit(s, hi))
    requires Follows(st, lo, hi - lo, s)
    ensures var s' := ScanPage(s, hi, st[hi]); Lists(st, lo, hi + 1, false, s'.used)
  {
    if s.last.None? || st[hi - 1] == st[hi] {
      ListsOn(st, lo, hi, s.used);
    } else {
      ListsClose(st, lo, hi, s.used, hi + 1, false);
    }
  }

  lemma {:induction false} ScanLists(st: seq<PageStatus>, lo: nat, n: nat)
    requires lo + n <= |st|
    ensures var s := ScanTo(st, lo, n); Lists(st, lo, lo + n, false, s.used) && AllBefore(s.used, Limit(s, lo + n))
  {
    if n != 0 {
      ScanLists(st, lo, n - 1);
      ScanFollows(st, lo, n - 1);
      ScanListsStep(st, lo, lo + n - 1, ScanTo(st, lo, n - 1));
    }
  }

  /** The scan of a block lists its runs, each with the size counted at its last page. */
  lemma ScanFinds(st: seq<PageStatus>, lo: nat, n: nat)
    requires lo + n <= |st|
    ensures Lists(st, lo, lo + n, true, CloseRun(ScanTo(st, lo, n)))
  {
    ScanLists(st, lo, n);
    ScanFollows(st, lo, n);
    var s := ScanTo(st, lo, n);
    if s.last.Some? {
      ListsClose(st, lo, lo + n, s.used, lo + n, true);
    } else {
      forall k | 0 <= k < |s.used| ensures IsRun(st, lo, lo + n, true, s.used[k]) {
        var q := EndOf(st, lo, lo + n, false, s.used[k]);
        assert EndsAt(st, lo, lo + n, true, q);
      }
      forall q | EndsAt(st, lo, lo + n, true, q) ensures RunAt(st, lo, q) in s.used {
        assert EndsAt(st, lo, lo + n, false, q);
      }
    }
  }

  // ----- runs and extents

  /** The run ends of a block, and the pages of a block. */
  ghost predicate InBlock(v: Blocks, block: nat, a: nat) {
    Shaped(v) && block < |v.frontier| && block * BLOCK <= a < (block + 1) * BLOCK <= |v.status|
  }

  /** Extents of the block that touch each other belong to different files, and the first takes one page. */
  ghost predicate Tidy(owners: Owners, block: nat) {
    forall i, j, e, f ::
      (i in owners && j in owners && e in owners[i] && f in owners[j] && Adjacent(e, f)
       && e.pagePointer / BLOCK == block && f.pagePointer / BLOCK == block)
      ==> i != j && Pages(e) == 1
  }

  ghost predicate Adjacent(e: Extent, f: Extent) {
    e.archivedLen >= 1 && f.archivedLen >= 1 && e.pagePointer + Pages(e) == f.pagePointer
  }

  /** The extent that a busy page belongs to. */
  lemma Cover(v: Blocks, owners: Owners, a: nat) returns (ino: nat, e: Extent)
    requires Consistent(v, owners) && a < |v.status| && v.status[a].Busy?
    ensures ino == v.status[a].ino && ino in owners && e in owners[ino] && CoversPage(e, a)
    ensures e.pagePointer / BLOCK == a / BLOCK && e.pagePointer + Pages(e) <= (a / BLOCK + 1) * BLOCK
  {
    ino := v.status[a].ino;
    assert Accounted(owners, ino, a);
    e :| e in owners[ino] && CoversPage(e, a);
    assert Placed(v, ino, e);
  }

  lemma OwnPages(v: Blocks, owners: Owners, ino: nat, e: Extent, a: nat)
    requires Consistent(v, owners) && ino in owners && e in owners[ino] && CoversPage(e, a)
    ensures a < |v.status| && v.status[a] == Busy(ino) && a / BLOCK == e.pagePointer / BLOCK
    ensures e.pagePointer + Pages(e) <= (a / BLOCK + 1) * BLOCK <= |v.status|
  {
    assert Placed(v, ino, e);
    PlacedBounds(v, ino, e);
  }

  /** Extents of one file that share a page are the same. */
  lemma SamePage(v: Blocks, owners: Owners, ino: nat, e: Extent, f: Extent, a: nat)
    requires Consistent(v, owners) && ino in owners && e in owners[ino] && f in owners[ino]
    requires CoversPage(e, a) && CoversPage(f, a)
    ensures e == f
  {
    assert e != f ==> Apart(e, f);
  }

  lemma SizeSteps(st: seq<PageStatus>, lo: nat, p: nat)
    requires lo <= p < |st|
    ensures p == lo || !st[p - 1].Busy? ==> SizeAt(st, lo, p) == 1
    ensures p > lo && st[p - 1].Busy? ==>
      SizeAt(st, lo, p) == SizeAt(st, lo, p - 1) + if st[p - 1] == st[p] then 1 else 0
  {}

  lemma AllOwnPages(v: Blocks, owners: Owners, ino: nat, e: Extent)
    requires Consistent(v, owners) && ino in owners && e in owners[ino]
    ensures forall a: nat :: CoversPage(e, a) ==>
      a < |v.status| && v.status[a] == Busy(ino) && a / BLOCK == e.pagePointer / BLOCK
  {
    forall a: nat | CoversPage(e, a)
      ensures a < |v.status| && v.status[a] == Busy(ino) && a / BLOCK == e.pagePointer / BLOCK
    {
      OwnPages(v, owners, ino, e, a);
    }
  }

  /** Within a run the start stays and the size goes up page by page. */
  lemma {:induction false} RunBack(st: seq<PageStatus>, lo: nat, p: nat, q: nat)
    requires lo <= p <= q < |st| && st[p].Busy? && forall a :: p <= a <= q ==> st[a] == st[p]
    ensures StartOf(st, lo, q) == StartOf(st, lo, p)
    ensures SizeAt(st, lo, q) == SizeAt(st, lo, p) + (q - p)
    decreases q
  {
    if q > p {
      RunBack(st, lo, p, q - 1);
      SizeSteps(st, lo, q);
    }
  }

  /** In a tidy block a run begins, and the count with it, at the first page of every extent. */
  lemma {:induction false} TidyFirst(v: Blocks, owners: Owners, block: nat, ino: nat, e: Extent)
    requires Consistent(v, owners) && Tidy(owners, block) && ino in owners && e in owners[ino] && e.archivedLen >= 1
    requires InBlock(v, block, e.pagePointer)
    ensures v.status[e.pagePointer] == Busy(ino)
    ensures StartOf(v.status, block * BLOCK, e.pagePointer) == e.pagePointer
    ensures SizeAt(v.status, block * BLOCK, e.pagePointer) == 1
    decreases e.pagePointer
  {
    PagesPositive(e);
    OwnPages(v, owners, ino, e, e.pagePointer);
    SizeSteps(v.status, block * BLOCK, e.pagePointer);
    if e.pagePointer > block * BLOCK && v.status[e.pagePointer - 1].Busy? {
      var j, g := TidyNeighbour(v, owners, block, ino, e);
      TidyFirst(v, owners, block, j, g);
    }
  }

  /** And the scan counts the extent's pages one by one. */
  lemma TidyCount(v: Blocks, owners: Owners, block: nat, ino: nat, e: Extent, p: nat)
    requires Consistent(v, owners) && Tidy(owners, block) && ino in owners && e in owners[ino] && CoversPage(e, p)
    requires InBlock(v, block, p)
    ensures StartOf(v.status, block * BLOCK, p) == e.pagePointer
    ensures SizeAt(v.status, block * BLOCK, p) == p - e.pagePointer + 1
  {
    PagesPositive(e);
    OwnPages(v, owners, ino, e, e.pagePointer);
    OwnPages(v, owners, ino, e, p);
    TidyFirst(v, owners, block, ino, e);
    SameStatus(v, owners, ino, e, p);
    RunBack(v.status, block * BLOCK, e.pagePointer, p);
  }

  lemma SameStatus(v: Blocks, owners: Owners, ino: nat, e: Extent, p: nat)
    requires Consistent(v, owners) && ino in owners && e in owners[ino] && CoversPage(e, p) && p < |v.status|
    ensures forall a :: e.pagePointer <= a <= p ==> v.status[a] == v.status[e.pagePointer]
  {
    AllOwnPages(v, owners, ino, e);
    forall a | e.pagePointer <= a <= p ensures v.status[a] == v.status[e.pagePointer] {
      assert CoversPage(e, a) && CoversPage(e, e.pagePointer);
    }
  }

  /** In a tidy block the extent right in front of another takes one page and belongs to another file. */
  lemma TidyNeighbour(v: Blocks, owners: Owners, block: nat, ino: nat, e: Extent) returns (j: nat, g: Extent)
    requires Consistent(v, owners) && Tidy(owners, block) && ino in owners && e in owners[ino] && e.archivedLen >= 1
    requires InBlock(v, block, e.pagePointer) && e.pagePointer > block * BLOCK && v.status[e.pagePointer - 1].Busy?
    ensures j in owners && g in owners[j] && CoversPage(g, e.pagePointer - 1) && g.pagePointer == e.pagePointer - 1
    ensures v.status[e.pagePointer - 1] == Busy(j) && j != ino
  {
    var p := e.pagePointer;
    PagesPositive(e);
    j, g := Cover(v, owners, p - 1);
    assert (p - 1) / BLOCK == block && p / BLOCK == block;
    Neighbour(v, owners, j, g, ino, e, p);
  }

  /** An extent that covers the page before another begins ends there. */
  lemma Neighbour(v: Blocks, owners: Owners, j: nat, g: Extent, ino: nat, e: Extent, p: nat)
    requires Consistent(v, owners) && j in owners && g in owners[j] && ino in owners && e in owners[ino]
    requires p > 0 && CoversPage(g, p - 1) && CoversPage(e, p) && e.pagePointer == p
    ensures Adjacent(g, e)
  {
    OwnPages(v, owners, ino, e, p);
    if CoversPage(g, p) {
      OwnPages(v, owners, j, g, p);
      SamePage(v, owners, j, g, e, p);
    }
  }

  /** The run takes exactly the pages of one extent of its owner. */
  ghost predicate RunTakes(u: Found, ino: nat, e: Extent) {
    u.ino == ino && e.archivedLen >= 1 && u.oAddress == e.pagePointer && u.size == Pages(e)
  }

  ghost predicate RunTakesOne(owners: Owners, u: Found) {
    u.ino in owners && exists e :: e in owners[u.ino] && RunTakes(u, u.ino, e)
  }

  ghost predicate RunTaken(used: seq<Found>, ino: nat, e: Extent) {
    exists k :: 0 <= k < |used| && RunTakes(used[k], ino, e)
  }

  /** The runs are the extents of the block, each taken once. */
  ghost predicate ExactRuns(owners: Owners, block: nat, used: seq<Found>) {
    && (forall k :: 0 <= k < |used| ==> RunTakesOne(owners, used[k]))
    && (forall ino, e :: ino in owners && e in owners[ino] && e.pagePointer / BLOCK == block ==> RunTaken(used, ino, e))
  }

  ghost predicate FoundIn(v: Blocks, block: nat, used: seq<Found>) {
    && Shaped(v) && block < |v.frontier| && (block + 1) * BLOCK <= |v.status|
    && Lists(v.status, block * BLOCK, (block + 1) * BLOCK, true, used)
  }

  /** In a tidy block no other extent of the same file begins on the page behind an extent. */
  lemma TidyLast(v: Blocks, owners: Owners, block: nat, ino: nat, e: Extent, q: nat)
    requires Consistent(v, owners) && Tidy(owners, block) && ino in owners && e in owners[ino]
    requires e.pagePointer / BLOCK == block && e.archivedLen >= 1 && q == e.pagePointer + Pages(e) - 1
    requires (q + 1) / BLOCK == block && q + 1 < |v.status|
    ensures v.status[q + 1] != Busy(ino)
  {
    if v.status[q + 1] == Busy(ino) {
      var j, h := Cover(v, owners, q + 1);
      NextOne(v, owners, ino, e, h, q);
    }
  }

  lemma LastPage(v: Blocks, owners: Owners, ino: nat, e: Extent) returns (q: nat)
    requires Consistent(v, owners) && ino in owners && e in owners[ino]
    ensures e.archivedLen >= 1 && q == e.pagePointer + Pages(e) - 1 && CoversPage(e, q)
    ensures InBlock(v, e.pagePointer / BLOCK, q) && v.status[q] == Busy(ino)
  {
    assert Placed(v, ino, e);
    PagesPositive(e);
    q := e.pagePointer + Pages(e) - 1;
    OwnPages(v, owners, ino, e, q);
  }

  /** In a tidy block a run ends with the last page of each extent. */
  lemma TidyEnd(v: Blocks, owners: Owners, block: nat, ino: nat, e: Extent) returns (q: nat)
    requires Consistent(v, owners) && Tidy(owners, block) && ino in owners && e in owners[ino]
    requires e.pagePointer / BLOCK == block
    ensures InBlock(v, block, q) && CoversPage(e, q)
    ensures EndsAt(v.status, block * BLOCK, (block + 1) * BLOCK, true, q)
    ensures RunTakes(RunAt(v.status, block * BLOCK, q), ino, e)
  {
    q := LastPage(v, owners, ino, e);
    TidyCount(v, owners, block, ino, e, q);
    if q + 1 < (block + 1) * BLOCK {
      TidyLast(v, owners, block, ino, e, q);
    }
  }

  /** Another extent of the same file on the next page would begin there. */
  lemma NextOne(v: Blocks, owners: Owners, ino: nat, e: Extent, h: Extent, q: nat)
    requires Consistent(v, owners) && ino in owners && e in owners[ino] && h in owners[ino]
    requires e.archivedLen >= 1 && q == e.pagePointer + Pages(e) - 1 && CoversPage(h, q + 1)
    ensures Adjacent(e, h)
  {
    PagesPositive(e);
    if h.pagePointer <= q {
      SamePage(v, owners, ino, e, h, q);
    }
  }

  /** Where a run ends the extent there ends. */
  lemma EndCovered(v: Blocks, owners: Owners, block: nat, ino: nat, e: Extent, q: nat)
    requires Consistent(v, owners) && block < |v.frontier| && (block + 1) * BLOCK <= |v.status|
    requires EndsAt(v.status, block * BLOCK, (block + 1) * BLOCK, true, q)
    requires ino in owners && e in owners[ino] && CoversPage(e, q)
    ensures q + 1 == e.pagePointer + Pages(e)
  {
    AllOwnPages(v, owners, ino, e);
    var n: nat := q + 1;
    assert CoversPage(e, n) || n == e.pagePointer + Pages(e);
  }

  /** In a tidy block every run found is an extent. */
  lemma TidyRun(v: Blocks, owners: Owners, block: nat, q: nat)
    requires Consistent(v, owners) && Tidy(owners, block) && block < |v.frontier| && (block + 1) * BLOCK <= |v.status|
    requires EndsAt(v.status, block * BLOCK, (block + 1) * BLOCK, true, q)
    ensures RunTakesOne(owners, RunAt(v.status, block * BLOCK, q))
  {
    var ino, e := Cover(v, owners, q);
    assert q / BLOCK == block;
    EndCovered(v, owners, block, ino, e, q);
    var q' := TidyEnd(v, owners, block, ino, e);
    EndCovered(v, owners, block, ino, e, q');
  }

  lemma TidyExact(v: Blocks, owners: Owners, block: nat, used: seq<Found>)
    requires Consistent(v, owners) && Tidy(owners, block) && FoundIn(v, block, used)
    ensures ExactRuns(owners, block, used)
  {
    var st, lo, hi := v.status, block * BLOCK, (block + 1) * BLOCK;
    forall k | 0 <= k < |used| ensures RunTakesOne(owners, used[k]) {
      var q := EndOf(st, lo, hi, true, used[k]);
      TidyRun(v, owners, block, q);
    }
    forall ino, e | ino in owners && e in owners[ino] && e.pagePointer / BLOCK == block ensures RunTaken(used, ino, e) {
      var q := TidyEnd(v, owners, block, ino, e);
      assert RunAt(st, lo, q) in used;
    }
  }

  // ----- the converse

  /** The run that p lies in ends somewhere. */
  lemma RunEndFrom(st: seq<PageStatus>, lo: nat, hi: nat, p: nat) returns (q: nat)
    requires lo <= p < hi <= |st| && st[p].Busy?
    ensures p <= q && EndsAt(st, lo, hi, true, q) && forall a :: p <= a <= q ==> st[a] == st[p]
    decreases hi - p
  {
    if p + 1 < hi && st[p + 1] == st[p] {
      q := RunEndFrom(st, lo, hi, p + 1);
    } else {
      q := p;
    }
  }

  lemma {:induction false} SizeCovers(st: seq<PageStatus>, lo: nat, p: nat)
    requires lo <= p < |st| && st[p].Busy?
    ensures SizeAt(st, lo, p) >= p - StartOf(st, lo, p) + 1
    decreases p
  {
    if p > lo && st[p - 1] == st[p] {
      SizeCovers(st, lo, p - 1);
    }
  }

  /** If every run found is an extent, the run that an extent lies in begins and ends with it. */
  lemma ExactRun(v: Blocks, owners: Owners, block: nat, used: seq<Found>, j: nat, f: Extent) returns (q: nat)
    requires Consistent(v, owners) && FoundIn(v, block, used) && ExactRuns(owners, block, used)
    requires j in owners && f in owners[j] && f.pagePointer / BLOCK == block
    ensures f.archivedLen >= 1 && f.pagePointer <= q < |v.status|
    ensures forall a :: f.pagePointer <= a <= q ==> v.status[a] == Busy(j)
    ensures StartOf(v.status, block * BLOCK, q) == f.pagePointer
    ensures SizeAt(v.status, block * BLOCK, q) == Pages(f)
    ensures SizeAt(v.status, block * BLOCK, q) == SizeAt(v.status, block * BLOCK, f.pagePointer) + (q - f.pagePointer)
    ensures Pages(f) == q - f.pagePointer + 1
  {
    assert Placed(v, j, f);
    PagesPositive(f);
    var st, lo, hi := v.status, block * BLOCK, (block + 1) * BLOCK;
    OwnPages(v, owners, j, f, f.pagePointer);
    q := RunEndFrom(st, lo, hi, f.pagePointer);
    RunBack(st, lo, f.pagePointer, q);
    SizeCovers(st, lo, q);
    var u := RunAt(st, lo, q);
    assert u in used;
    var k :| 0 <= k < |used| && used[k] == u;
    assert RunTakesOne(owners, used[k]);
    var x :| x in owners[u.ino] && RunTakes(u, u.ino, x);
    SamePage(v, owners, j, x, f, f.pagePointer);
    EndCovered(v, owners, block, j, f, q);
  }

  lemma ExactTidy(v: Blocks, owners: Owners, block: nat, used: seq<Found>)
    requires Consistent(v, owners) && FoundIn(v, block, used) && ExactRuns(owners, block, used)
    ensures Tidy(owners, block)
  {
    forall i, j, e, f | i in owners && j in owners && e in owners[i] && f in owners[j] && Adjacent(e, f)
      && e.pagePointer / BLOCK == block && f.pagePointer / BLOCK == block ensures i != j && Pages(e) == 1
    {
      AdjacentTidy(v, owners, block, used, i, j, e, f);
    }
  }

  lemma AdjacentTidy(v: Blocks, owners: Owners, block: nat, used: seq<Found>, i: nat, j: nat, e: Extent, f: Extent)
    requires Consistent(v, owners) && FoundIn(v, block, used) && ExactRuns(owners, block, used)
    requires i in owners && j in owners && e in owners[i] && f in owners[j] && Adjacent(e, f)
    requires e.pagePointer / BLOCK == block && f.pagePointer / BLOCK == block
    ensures i != j && Pages(e) == 1
  {
    var st, lo := v.status, block * BLOCK;
    var q := ExactRun(v, owners, block, used, j, f);
    var p := f.pagePointer - 1;
    PagesPositive(e);
    assert CoversPage(e, p);
    OwnPages(v, owners, i, e, p);
    if i == j {
      RunBack(st, lo, p, q);
      assert false;
    }
    SizeSteps(st, lo, f.pagePointer);
    forall a | e.pagePointer <= a <= p ensures st[a] == st[e.pagePointer] {
      assert CoversPage(e, a);
      OwnPages(v, owners, i, e, a);
      OwnPages(v, owners, i, e, e.pagePointer);
    }
    RunBack(st, lo, e.pagePointer, p);
  }

  // ----- the plan

  /** The runs one scan of the block finds. */
  ghost function UsedRuns(v: Blocks, block: nat): seq<Found>
    requires Shaped(v) && block < |v.frontier|
  {
    BlockEnd(v, block);
    CloseRun(ScanTo(v.status, block * BLOCK, BLOCK))
  }

  lemma BlockEnd(v: Blocks, block: nat)
    requires Shaped(v) && block < |v.frontier|
    ensures (block + 1) * BLOCK <= |v.status|
  {}

  lemma UsedFound(v: Blocks, block: nat)
    requires Shaped(v) && block < |v.frontier|
    ensures FoundIn(v, block, UsedRuns(v, block))
  {
    BlockEnd(v, block);
    ScanFinds(v.status, block * BLOCK, BLOCK);
  }

  /** Where a run goes: first fit among the other blocks, as they stand before any move. */
  ghost function TargetOf(v: Blocks, block: nat, u: Found): Option<nat> {
    FirstFit(v, 0, u.size, Some(block))
  }

  ghost function MoveOf(v: Blocks, block: nat, u: Found): MoveGCEvent
    requires TargetOf(v, block, u).Some?
  {
    MoveGCEvent(u.ino, u.size, u.oAddress, TargetOf(v, block, u).value)
  }

  /** The moves planned for the runs; None where a run fits into no other block. */
  ghost function MovesFor(v: Blocks, block: nat, used: seq<Found>): Option<seq<MoveGCEvent>> {
    if forall k :: 0 <= k < |used| ==> TargetOf(v, block, used[k]).Some?
    then Some(seq(|used|, k requires 0 <= k < |used| && TargetOf(v, block, used[k]).Some? => MoveOf(v, block, used[k])))
    else None
  }

  lemma MovesForAll(v: Blocks, block: nat, used: seq<Found>, moves: seq<MoveGCEvent>)
    requires |moves| == |used|
    requires forall k :: 0 <= k < |used| ==> TargetOf(v, block, used[k]).Some? && moves[k] == MoveOf(v, block, used[k])
    ensures MovesFor(v, block, used) == Some(moves)
  {
    assert moves == MovesFor(v, block, used).value;
  }

  ghost function PlanFor(v: Blocks, block: nat): Option<seq<MoveGCEvent>>
    requires Shaped(v) && block < |v.frontier|
  {
    MovesFor(v, block, UsedRuns(v, block))
  }

  /** No two moves go to the same block. */
  ghost predicate DistinctTargets(moves: seq<MoveGCEvent>) {
    forall i, j :: 0 <= i < j < |moves| ==> moves[i].dAddress / BLOCK != moves[j].dAddress / BLOCK
  }

  lemma MovesTargets(v: Blocks, block: nat, used: seq<Found>, moves: seq<MoveGCEvent>, k: nat)
    requires Shaped(v) && MovesFor(v, block, used) == Some(moves) && k < |used| && used[k].size >= 1
    ensures |moves| == |used| && GoodTarget(v, block, moves[k])
    ensures moves[k].ino == used[k].ino && moves[k].size == used[k].size && moves[k].oAddress == used[k].oAddress
  {
    assert TargetOf(v, block, used[k]).Some?;
    FirstFitFinds(v, 0, used[k].size, Some(block));
  }

  /** The move goes to the frontier of the first other block that has the pages. */
  ghost predicate GoesFirst(fr: seq<nat>, block: nat, m: MoveGCEvent) {
    var b := m.dAddress / BLOCK;
    b < |fr| && m.dAddress == b * BLOCK + fr[b] && IsFirstBut(fr, m.size, b, block)
  }

  /** Every move of a plan goes there, in page order, and there is no plan exactly if some run has no such block. */
  lemma PlanGoesFirst(v: Blocks, block: nat)
    requires Shaped(v) && block < |v.frontier|
    ensures PlanFor(v, block).Some? ==>
      forall k :: 0 <= k < |PlanFor(v, block).value| ==> GoesFirst(v.frontier, block, PlanFor(v, block).value[k])
    ensures PlanFor(v, block).Some? ==> var moves := PlanFor(v, block).value;
      forall i, j :: 0 <= i < j < |moves| ==> moves[i].oAddress < moves[j].oAddress
    ensures PlanFor(v, block).None? <==>
      exists k :: 0 <= k < |UsedRuns(v, block)| && NoneFits(v.frontier, UsedRuns(v, block)[k].size, block)
  {
    var used := UsedRuns(v, block);
    UsedFound(v, block);
    RunSizes(v, block);
    forall k | 0 <= k < |used|
      ensures TargetOf(v, block, used[k]).None? <==> NoneFits(v.frontier, used[k].size, block)
    {
      FirstFitIsFirst(v, used[k].size, Some(block));
    }
    if PlanFor(v, block).Some? {
      forall k | 0 <= k < |used| ensures GoesFirst(v.frontier, block, PlanFor(v, block).value[k]) {
        assert TargetOf(v, block, used[k]).Some?;
        FirstFitIsFirst(v, used[k].size, Some(block));
      }
    }
  }

  ghost predicate NoneFits(fr: seq<nat>, n: nat, block: nat) {
    forall b :: 0 <= b < |fr| && b != block ==> fr[b] + n > BLOCK
  }

  /** A move takes what its run takes. */
  lemma MovesTake(v: Blocks, owners: Owners, block: nat, used: seq<Found>, moves: seq<MoveGCEvent>, k: nat)
    requires Shaped(v) && FoundIn(v, block, used) && MovesFor(v, block, used) == Some(moves) && k < |used|
    ensures |moves| == |used| && used[k].size >= 1 && GoodTarget(v, block, moves[k])
    ensures moves[k].oAddress == used[k].oAddress
    ensures TakesOne(owners, block, moves[k]) <==> RunTakesOne(owners, used[k])
    ensures forall ino, e :: Takes(moves[k], ino, e) <==> RunTakes(used[k], ino, e)
  {
    var q := EndOf(v.status, block * BLOCK, (block + 1) * BLOCK, true, used[k]);
    MovesTargets(v, block, used, moves, k);
    assert moves[k].oAddress / BLOCK == block;
    if RunTakesOne(owners, used[k]) {
      var e :| e in owners[used[k].ino] && RunTakes(used[k], used[k].ino, e);
      assert Takes(moves[k], used[k].ino, e);
    }
    if TakesOne(owners, block, moves[k]) {
      var e :| e in owners[moves[k].ino] && Takes(moves[k], moves[k].ino, e);
      assert RunTakes(used[k], moves[k].ino, e);
    }
  }

  lemma MovesExact(v: Blocks, owners: Owners, block: nat, used: seq<Found>, moves: seq<MoveGCEvent>)
    requires Shaped(v) && FoundIn(v, block, used) && MovesFor(v, block, used) == Some(moves)
    ensures WellFormed(v, owners, block, moves) <==> ExactRuns(owners, block, used) && DistinctTargets(moves)
  {
    forall k | 0 <= k < |used|
      ensures |moves| == |used| && GoodTarget(v, block, moves[k]) && moves[k].oAddress == used[k].oAddress
      ensures TakesOne(owners, block, moves[k]) <==> RunTakesOne(owners, used[k])
      ensures forall ino, e :: Takes(moves[k], ino, e) <==> RunTakes(used[k], ino, e)
    {
      MovesTake(v, owners, block, used, moves, k);
    }
    forall ino, e ensures Taken(moves, ino, e) <==> RunTaken(used, ino, e) {
      TakenAlike(moves, used, ino, e);
    }
  }

  lemma TakenAlike(moves: seq<MoveGCEvent>, used: seq<Found>, ino: nat, e: Extent)
    requires |moves| == |used| && forall k :: 0 <= k < |used| ==>
        (Takes(moves[k], ino, e) <==> RunTakes(used[k], ino, e))
    ensures Taken(moves, ino, e) <==> RunTaken(used, ino, e)
  {
    if Taken(moves, ino, e) {
      var k :| 0 <= k < |moves| && Takes(moves[k], ino, e);
      assert RunTakes(used[k], ino, e);
    }
    if RunTaken(used, ino, e) {
      var k :| 0 <= k < |used| && RunTakes(used[k], ino, e);
      assert Takes(moves[k], ino, e);
    }
  }

  // ----- when the plan is well-formed, told from the state before

  ghost predicate Sits(owners: Owners, block: nat, ino: nat, e: Extent) {
    ino in owners && e in owners[ino] && e.pagePointer / BLOCK == block
  }

  /** Where first fit sends an extent, as long as nothing has moved. */
  ghost function TargetFor(v: Blocks, block: nat, e: Extent): Option<nat>
    requires e.archivedLen >= 1
  {
    FirstFit(v, 0, Pages(e), Some(block))
  }

  /** Every extent of the block fits into some other block. */
  ghost predicate AllFit(v: Blocks, owners: Owners, block: nat) {
    forall ino, e {:trigger Sits(owners, block, ino, e)} :: Sits(owners, block, ino, e) ==>
      e.archivedLen >= 1 && TargetFor(v, block, e).Some?
  }

  /** First fit sends no two extents of the block to the same place. */
  ghost predicate TargetsDiffer(v: Blocks, owners: Owners, block: nat) {
    forall i, e, j, f {:trigger Sits(owners, block, i, e), Sits(owners, block, j, f)} ::
      Sits(owners, block, i, e) && Sits(owners, block, j, f) && (i != j || e != f) ==>
        e.archivedLen >= 1 && f.archivedLen >= 1 && TargetFor(v, block, e) != TargetFor(v, block, f)
  }

  /** What a block must be like for its collection to be planned right. */
  ghost predicate Collectable(v: Blocks, owners: Owners, block: nat) {
    Tidy(owners, block) && AllFit(v, owners, block) && TargetsDiffer(v, owners, block)
  }

  /** The extent that a run takes, where every run takes one. */
  lemma TakenBy(v: Blocks, owners: Owners, block: nat, used: seq<Found>, k: nat) returns (e: Extent)
    requires Shaped(v) && FoundIn(v, block, used) && ExactRuns(owners, block, used) && k < |used|
    ensures Sits(owners, block, used[k].ino, e) && RunTakes(used[k], used[k].ino, e)
    ensures TargetOf(v, block, used[k]) == TargetFor(v, block, e)
  {
    var q := EndOf(v.status, block * BLOCK, (block + 1) * BLOCK, true, used[k]);
    assert used[k].oAddress / BLOCK == block;
    assert RunTakesOne(owners, used[k]);
    e :| e in owners[used[k].ino] && RunTakes(used[k], used[k].ino, e);
  }

  /** The run that takes an extent. */
  lemma TakenAt(v: Blocks, owners: Owners, block: nat, used: seq<Found>, ino: nat, e: Extent) returns (k: nat)
    requires Shaped(v) && ExactRuns(owners, block, used) && Sits(owners, block, ino, e)
    ensures k < |used| && RunTakes(used[k], ino, e) && TargetOf(v, block, used[k]) == TargetFor(v, block, e)
  {
    assert RunTaken(used, ino, e);
    k :| 0 <= k < |used| && RunTakes(used[k], ino, e);
  }

  /** In a tidy block there is a plan exactly if every extent fits somewhere; otherwise the program stops. */
  lemma PlanExists(v: Blocks, owners: Owners, block: nat)
    requires Consistent(v, owners) && block < |v.frontier| && Tidy(owners, block)
    ensures PlanFor(v, block).Some? <==> AllFit(v, owners, block)
  {
    var used := UsedRuns(v, block);
    UsedFound(v, block);
    TidyExact(v, owners, block, used);
    if AllFit(v, owners, block) {
      forall k | 0 <= k < |used| ensures TargetOf(v, block, used[k]).Some? {
        var e := TakenBy(v, owners, block, used, k);
      }
    }
    if PlanFor(v, block).Some? {
      forall ino, e | Sits(owners, block, ino, e) ensures e.archivedLen >= 1 && TargetFor(v, block, e).Some? {
        var k := TakenAt(v, owners, block, used, ino, e);
      }
    }
  }

  /** Different targets lie in different blocks. */
  lemma TargetBlocks(v: Blocks, block: nat, m: nat, n: nat)
    requires Shaped(v) && m >= 1 && n >= 1
    requires FirstFit(v, 0, m, Some(block)).Some? && FirstFit(v, 0, n, Some(block)).Some?
    ensures var d, e := FirstFit(v, 0, m, Some(block)).value, FirstFit(v, 0, n, Some(block)).value;
      d == e <==> d / BLOCK == e / BLOCK
  {
    FirstFitFinds(v, 0, m, Some(block));
    FirstFitFinds(v, 0, n, Some(block));
  }

  /** The moves of a plan go to different blocks exactly if the targets of the extents differ. */
  lemma MovesApart(v: Blocks, owners: Owners, block: nat, used: seq<Found>, moves: seq<MoveGCEvent>)
    requires Consistent(v, owners) && FoundIn(v, block, used) && ExactRuns(owners, block, used)
    requires MovesFor(v, block, used) == Some(moves)
    ensures DistinctTargets(moves) <==> TargetsDiffer(v, owners, block)
  {
    if TargetsDiffer(v, owners, block) {
      forall i, j | 0 <= i < j < |moves| ensures moves[i].dAddress / BLOCK != moves[j].dAddress / BLOCK {
        MovesDiffer(v, owners, block, used, moves, i, j);
      }
    }
    if DistinctTargets(moves) {
      forall i, e, j, f | Sits(owners, block, i, e) && Sits(owners, block, j, f) && (i != j || e != f)
        ensures e.archivedLen >= 1 && f.archivedLen >= 1 && TargetFor(v, block, e) != TargetFor(v, block, f)
      {
        ExtentsDiffer(v, owners, block, used, moves, i, e, j, f);
      }
    }
  }

  lemma MovesDiffer(v: Blocks, owners: Owners, block: nat, used: seq<Found>, moves: seq<MoveGCEvent>, i: nat, j: nat)
    requires Consistent(v, owners) && FoundIn(v, block, used) && ExactRuns(owners, block, used)
    requires MovesFor(v, block, used) == Some(moves) && TargetsDiffer(v, owners, block) && i < j < |moves|
    ensures moves[i].dAddress / BLOCK != moves[j].dAddress / BLOCK
  {
    var e := TakenBy(v, owners, block, used, i);
    var f := TakenBy(v, owners, block, used, j);
    assert used[i].oAddress < used[j].oAddress;
    assert TargetOf(v, block, used[i]).Some? && TargetOf(v, block, used[j]).Some?;
    PagesPositive(e);
    PagesPositive(f);
    TargetBlocks(v, block, used[i].size, used[j].size);
  }

  lemma ExtentsDiffer(v: Blocks, owners: Owners, block: nat, used: seq<Found>, moves: seq<MoveGCEvent>,
                      i: nat, e: Extent, j: nat, f: Extent)
    requires Consistent(v, owners) && FoundIn(v, block, used) && ExactRuns(owners, block, used)
    requires MovesFor(v, block, used) == Some(moves) && DistinctTargets(moves)
    requires Sits(owners, block, i, e) && Sits(owners, block, j, f) && (i != j || e != f)
    ensures e.archivedLen >= 1 && f.archivedLen >= 1 && TargetFor(v, block, e) != TargetFor(v, block, f)
  {
    var k := TakenAt(v, owners, block, used, i, e);
    var l := TakenAt(v, owners, block, used, j, f);
    if k == l {
      SamePointer(v, owners, i, e, f);
    }
    assert TargetOf(v, block, used[k]).Some? && TargetOf(v, block, used[l]).Some?;
    var a, b := if k < l then k else l, if k < l then l else k;
    assert moves[a].dAddress / BLOCK != moves[b].dAddress / BLOCK;
  }

  /**
   The planner yields a well-formed plan for a block exactly when, before anything moves, touching extents in it
   belong to different files with the first one a single page, every extent fits into some other block, and
   first fit sends no two of them to the same place.
   */
  lemma PlanWellFormed(v: Blocks, owners: Owners, block: nat)
    requires Consistent(v, owners) && block < |v.frontier|
    ensures PlanFor(v, block).Some? && WellFormed(v, owners, block, PlanFor(v, block).value)
            <==> Collectable(v, owners, block)
  {
    var used := UsedRuns(v, block);
    UsedFound(v, block);
    if PlanFor(v, block).Some? {
      MovesExact(v, owners, block, used, PlanFor(v, block).value);
    }
    if Tidy(owners, block) {
      TidyExact(v, owners, block, used);
      PlanExists(v, owners, block);
    }
    if ExactRuns(owners, block, used) {
      ExactTidy(v, owners, block, used);
      if PlanFor(v, block).Some? {
        MovesApart(v, owners, block, used, PlanFor(v, block).value);
      }
    }
  }

  // ----- when a plan is well-formed, and two blocks where none is

  ghost predicate OneExtent(owners: Owners, block: nat, ino: nat, e: Extent) {
    && ino in owners && e in owners[ino] && e.archivedLen >= 1 && e.pagePointer / BLOCK == block
    && forall j, f :: j in owners && f in owners[j] && f.pagePointer / BLOCK == block ==> j == ino && f == e
  }

  /** A block with a single extent, for which another block has room, gets a well-formed plan. */
  lemma SingleExtentPlan(v: Blocks, owners: Owners, block: nat, ino: nat, e: Extent, c: nat)
    requires Consistent(v, owners) && block < |v.frontier| && OneExtent(owners, block, ino, e)
    requires Usable(v, c, Pages(e), Some(block))
    ensures PlanFor(v, block).Some? && WellFormed(v, owners, block, PlanFor(v, block).value)
  {
    PagesPositive(e);
    FirstFitFinds(v, 0, Pages(e), Some(block));
    PlanWellFormed(v, owners, block);
  }

  ghost function PagesOf(f: nat -> PageStatus): seq<PageStatus> {
    seq(2 * BLOCK, i requires 0 <= i => f(i))
  }

  /** No run is counted longer than the pages scanned. */
  lemma {:induction false} ScanSizes(st: seq<PageStatus>, lo: nat, n: nat)
    requires lo + n <= |st|
    ensures ScanTo(st, lo, n).size <= n
    ensures forall k :: 0 <= k < |ScanTo(st, lo, n).used| ==> ScanTo(st, lo, n).used[k].size <= n
  {
    if n != 0 {
      ScanSizes(st, lo, n - 1);
    }
  }

  /** No run is empty. */
  lemma RunSizes(v: Blocks, block: nat)
    requires Shaped(v) && block < |v.frontier|
    ensures forall k :: 0 <= k < |UsedRuns(v, block)| ==> UsedRuns(v, block)[k].size >= 1
  {
    UsedFound(v, block);
    forall k | 0 <= k < |UsedRuns(v, block)| ensures UsedRuns(v, block)[k].size >= 1 {
      var q := EndOf(v.status, block * BLOCK, (block + 1) * BLOCK, true, UsedRuns(v, block)[k]);
    }
  }

  /** With a wholly free block elsewhere there is always a plan. */
  lemma FreeBlockPlan(v: Blocks, block: nat, c: nat)
    requires Shaped(v) && block < |v.frontier| && c < |v.frontier| && c != block && v.frontier[c] == 0
    ensures PlanFor(v, block).Some?
  {
    BlockEnd(v, block);
    ScanSizes(v.status, block * BLOCK, BLOCK);
    RunSizes(v, block);
    var used := UsedRuns(v, block);
    forall k | 0 <= k < |used| ensures TargetOf(v, block, used[k]).Some? {
      assert Usable(v, c, used[k].size, Some(block));
      FirstFitFinds(v, 0, used[k].size, Some(block));
    }
  }

  /** Two extents of two pages and more that touch: the second run is planned too long. */
  lemma TouchingRunsBreakPlan()
    ensures var e, f := Extent(5000, 5000, 0, 0, 0), Extent(9000, 9000, 0, 2, 0);
      var v := Blocks(PagesOf(i => if i < 2 then Busy(1) else if i < 5 then Busy(2) else Clean), [5, 0]);
      var owners: Owners := map[1 := {e}, 2 := {f}];
      && Consistent(v, owners)
      && PlanFor(v, 0).Some? && !WellFormed(v, owners, 0, PlanFor(v, 0).value)
  {
    var e, f := Extent(5000, 5000, 0, 0, 0), Extent(9000, 9000, 0, 2, 0);
    var v := Blocks(PagesOf(i => if i < 2 then Busy(1) else if i < 5 then Busy(2) else Clean), [5, 0]);
    var owners: Owners := map[1 := {e}, 2 := {f}];
    assert Pages(e) == 2 && Pages(f) == 3;
    forall a | 0 <= a < |v.status| && v.status[a].Busy? ensures Accounted(owners, v.status[a].ino, a) {
      assert CoversPage(if a < 2 then e else f, a);
    }
    assert Consistent(v, owners);
    assert Adjacent(e, f) && 1 in owners && 2 in owners && e in owners[1] && f in owners[2];
    FreeBlockPlan(v, 0, 1);
    PlanWellFormed(v, owners, 0);
  }

  const ONE_PAGE := Extent(7, 7, 0, 0, 0)
  const OTHER_PAGE := Extent(9, 9, 0, 2, 0)

  ghost function SeparatePages(): Blocks {
    Blocks(PagesOf(i => if i == 0 then Busy(1) else if i == 1 then Dirty else if i == 2 then Busy(2) else Clean),
        [3, 0])
  }

  ghost function SeparateOwners(): Owners {
    map[1 := {ONE_PAGE}, 2 := {OTHER_PAGE}]
  }

  lemma SeparateConsistent()
    ensures Consistent(SeparatePages(), SeparateOwners())
  {
    var v, owners := SeparatePages(), SeparateOwners();
    assert Pages(ONE_PAGE) == 1 && Pages(OTHER_PAGE) == 1;
    forall a | 0 <= a < |v.status| && v.status[a].Busy? ensures Accounted(owners, v.status[a].ino, a) {
      assert CoversPage(if a < 1 then ONE_PAGE else OTHER_PAGE, a);
    }
  }

  /** Without touching extents a block is tidy. */
  lemma NoneAdjacent(owners: Owners, block: nat, all: set<Extent>)
    requires forall i :: i in owners ==> owners[i] <= all
    requires forall e, f :: e in all && f in all ==> !Adjacent(e, f)
    ensures Tidy(owners, block)
  {}

  lemma SeparateTidy()
    ensures Tidy(SeparateOwners(), 0)
  {
    assert Pages(ONE_PAGE) == 1 && Pages(OTHER_PAGE) == 1;
    NoneAdjacent(SeparateOwners(), 0, {ONE_PAGE, OTHER_PAGE});
  }

  lemma OnePageFits(v: Blocks, owners: Owners, block: nat, c: nat)
    requires Shaped(v) && Usable(v, c, 1, Some(block))
    requires forall ino, e :: ino in owners && e in owners[ino] ==> e.archivedLen >= 1 && Pages(e) == 1
    ensures AllFit(v, owners, block)
  {
    FirstFitFinds(v, 0, 1, Some(block));
  }

  /** Two separate extents that fit into the same block: both are sent to the same pages. */
  lemma SharedTargetBreaksPlan(v: Blocks, owners: Owners)
    requires v == SeparatePages() && owners == SeparateOwners()
    ensures Consistent(v, owners) && Tidy(owners, 0) && AllFit(v, owners, 0)
    ensures PlanFor(v, 0).Some? && !WellFormed(v, owners, 0, PlanFor(v, 0).value)
  {
    SeparateConsistent();
    SeparateTidy();
    OnePageFits(v, owners, 0, 1);
    SharedTarget(v, owners, 0, 1, ONE_PAGE, 2, OTHER_PAGE);
  }

  /** Extents of as many pages as each other are sent to the same place. */
  lemma SharedTarget(v: Blocks, owners: Owners, block: nat, i: nat, e: Extent, j: nat, f: Extent)
    requires Consistent(v, owners) && block < |v.frontier| && Tidy(owners, block) && AllFit(v, owners, block)
    requires Sits(owners, block, i, e) && Sits(owners, block, j, f) && e != f
    requires e.archivedLen >= 1 && f.archivedLen >= 1 && Pages(e) == Pages(f)
    ensures PlanFor(v, block).Some? && !WellFormed(v, owners, block, PlanFor(v, block).value)
  {
    PlanExists(v, owners, block);
    PlanWellFormed(v, owners, block);
  }

  // ----- which block to collect

  ghost function DirtyCount(v: Blocks, b: nat): (n: nat)
    requires Shaped(v) && b < |v.frontier|
    ensures n <= BLOCK
  {
    BlockEnd(v, b);
    CountsAddUp(v.status[b * BLOCK..(b + 1) * BLOCK]);
    Count(v.status[b * BLOCK..(b + 1) * BLOCK], IsDirty)
  }

  /** No block has more dirty pages, and none before it has as many. */
  ghost predicate MostDirty(v: Blocks, b: nat, n: nat)
    requires Shaped(v) && n <= |v.frontier|
  {
    && b < |v.frontier|
    && forall c :: 0 <= c < n ==>
        DirtyCount(v, c) <= DirtyCount(v, b) && (c < b ==> DirtyCount(v, c) < DirtyCount(v, b))
  }

  lemma MostDirtyUnique(v: Blocks, b: nat, c: nat)
    requires Shaped(v) && MostDirty(v, b, |v.frontier|) && MostDirty(v, c, |v.frontier|)
    ensures b == c
  {
    assert DirtyCount(v, b) == DirtyCount(v, c);
  }

  function RatioOf(d: nat): Ratio
    requires d <= BLOCK
  {
    if d == 0 then Infinite else Finite((BLOCK - d) as real / d as real)
  }

  /** The ratio is the lower the more pages are dirty. */
  lemma RatioOrder(d: nat, e: nat)
    requires d <= BLOCK && e <= BLOCK
    ensures Below(RatioOf(d), RatioOf(e)) <==> d > e
  {
    if d != 0 && e != 0 {
      var x, y := (BLOCK - d) as real / d as real, (BLOCK - e) as real / e as real;
      assert (x + 1.0) * d as real == BLOCK as real && (y + 1.0) * e as real == BLOCK as real;
      if d > e {
        assert x < y by { RatioLess(x + 1.0, d as real, y + 1.0, e as real); }
      } else if d < e {
        assert y < x by { RatioLess(y + 1.0, e as real, x + 1.0, d as real); }
      }
    }
  }

  lemma RatioLess(x: real, d: real, y: real, e: real)
    requires d > e > 0.0 && x * d == y * e && x * d > 0.0
    ensures x < y
  {
    ProductSign(x, d);
    ProductSign(x, d - e);
    assert (y - x) * e == x * (d - e);
    ProductSign(y - x, e);
  }

  lemma ProductSign(x: real, d: real)
    requires d > 0.0
    ensures x > 0.0 <==> x * d > 0.0
  {}
}
