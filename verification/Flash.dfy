/** Flash pages as one flat store, under the page cache and the translation layer. */
module Flash {
  import opened SstRecord

  const PAGE: nat := 4096
  const PAGES_PER_BLOCK: nat := 128

  function ZeroPage(): (p: Bytes)
    ensures |p| == PAGE
  {
    seq(PAGE, i => 0)
  }

  /** What a page reads as; a page never written reads as zeros. */
  function ReadPage(pages: map<nat, Bytes>, address: nat): Bytes {
    if address in pages then pages[address] else ZeroPage()
  }

  ghost predicate WholePages(pages: map<nat, Bytes>) {
    forall a :: a in pages ==> |pages[a]| == PAGE
  }

  /** n pages in a row. */
  ghost function Run(pages: map<nat, Bytes>, address: nat, n: nat): Bytes {
    if n == 0 then [] else Run(pages, address, n - 1) + ReadPage(pages, address + n - 1)
  }

  lemma {:induction false} RunLength(pages: map<nat, Bytes>, address: nat, n: nat)
    requires WholePages(pages)
    ensures |Run(pages, address, n)| == n * PAGE
  {
    if n != 0 {
      RunLength(pages, address, n - 1);
    }
  }

  lemma {:induction false} RunSplit(pages: map<nat, Bytes>, address: nat, m: nat, n: nat)
    ensures Run(pages, address, m + n) == Run(pages, address, m) + Run(pages, address + m, n)
  {
    if n != 0 {
      RunSplit(pages, address, m, n - 1);
      assert Run(pages, address, m) + (Run(pages, address + m, n - 1) + ReadPage(pages, address + m + n - 1))
          == Run(pages, address, m) + Run(pages, address + m, n - 1) + ReadPage(pages, address + m + n - 1);
    } else {
      assert Run(pages, address, m) + [] == Run(pages, address, m);
    }
  }

  lemma {:induction false} RunUnchanged(pages: map<nat, Bytes>, pages': map<nat, Bytes>, address: nat, n: nat)
    requires forall a :: address <= a < address + n ==> ReadPage(pages, a) == ReadPage(pages', a)
    ensures Run(pages, address, n) == Run(pages', address, n)
  {
    if n != 0 {
      RunUnchanged(pages, pages', address, n - 1);
    }
  }

  /** The page cache and what lies under it, as one flat store. */
  class PageStore {
    var pages: map<nat, Bytes>

    constructor ()
      ensures pages == map[]
    {
      pages := map[];
    }

    method Read(address: nat) returns (p: Bytes)
      ensures p == ReadPage(pages, address)
    {
      p := ReadPage(pages, address);
    }

    method Write(address: nat, data: Bytes)
      requires |data| == PAGE
      modifies this
      ensures pages == old(pages)[address := data]
    {
      pages := pages[address := data];
    }

    /** The pages of a block go back to reading as zeros. */
    method EraseBlock(block: nat)
      requires WholePages(pages)
      modifies this
      ensures WholePages(pages)
      ensures forall a: nat {:trigger ReadPage(pages, a)} ::
        ReadPage(pages, a) == if block * PAGES_PER_BLOCK <= a < (block + 1) * PAGES_PER_BLOCK then ZeroPage()
                              else ReadPage(old(pages), a)
    {
      for i := 0 to PAGES_PER_BLOCK
        invariant forall a :: a in pages ==> a in old(pages) && pages[a] == old(pages)[a]
        invariant forall a :: a in old(pages) ==>
          (a in pages <==> a < block * PAGES_PER_BLOCK || block * PAGES_PER_BLOCK + i <= a)
      {
        pages := pages - {block * PAGES_PER_BLOCK + i};
      }
    }
  }
}
