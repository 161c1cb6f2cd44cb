/**
 Writing a memtable out: records run on over page boundaries, except the end record, which must fit in
 what is left of the last page.
 */
module TableWriter {
  import opened Prelude
  import opened SstRecord
  import opened Flash
  import opened BlockParser
  import opened Memtable

  const EOF_SIZE: nat := 18

  function PageHeader(id: nat): Bytes {
    [0x22, 0x22, 0xff, 0xff, 1, (id / 0x1_0000 % 256) as byte, (id / 0x100 % 256) as byte, (id % 256) as byte,
     0, 0, 0, 0]
  }

  ghost function Blank(n: nat): Bytes {
    seq(n, i => 0)
  }

  /** The bytes before, written as index full pages and the first size bytes of a page else blank. */
  ghost predicate Filled(pages: map<nat, Bytes>, base: nat, index: nat, page: Bytes, size: nat, before: Bytes) {
    && WholePages(pages)
    && |page| == PAGE && 1 <= size <= PAGE
    && Run(pages, base, index) + page[..size] == before
    && page[size..] == Blank(PAGE - size)
  }

  /** Only the pages from first up to, not including, last may read differently. */
  ghost predicate OnlyBetween(pages: map<nat, Bytes>, pages': map<nat, Bytes>, first: nat, last: nat) {
    forall a: nat {:trigger ReadPage(pages', a)} :: a < first || last <= a ==> ReadPage(pages', a) == ReadPage(pages, a)
  }

  method ClearPage(page: array<byte>)
    requires page.Length == PAGE
    modifies page
    ensures page[..] == Blank(PAGE)
  {
    forall i | 0 <= i < page.Length {
      page[i] := 0;
    }
  }

  method CopyInto(page: array<byte>, at: nat, data: Bytes)
    requires at + |data| <= page.Length
    modifies page
    ensures page[..] == old(page[..])[..at] + data + old(page[..])[at + |data|..]
  {
    forall i | 0 <= i < |data| {
      page[at + i] := data[i];
    }
  }

  lemma RunWrite(pages: map<nat, Bytes>, base: nat, index: nat, page: Bytes)
    requires WholePages(pages) && |page| == PAGE
    ensures Run(pages[base + index := page], base, index + 1) == Run(pages, base, index) + page
    ensures WholePages(pages[base + index := page])
    ensures OnlyBetween(pages, pages[base + index := page], base + index, base + index + 1)
  {
    RunUnchanged(pages, pages[base + index := page], base, index);
  }

  /** The full page goes out and the buffer is cleared. */
  method NextPage(store: PageStore, page: array<byte>, base: nat, index: nat)
    requires WholePages(store.pages) && page.Length == PAGE
    modifies store, page
    ensures WholePages(store.pages)
    ensures Run(store.pages, base, index + 1) == old(Run(store.pages, base, index)) + old(page[..])
    ensures OnlyBetween(old(store.pages), store.pages, base + index, base + index + 1)
    ensures page[..] == Blank(PAGE)
  {
    RunWrite(store.pages, base, index, page[..]);
    store.Write(base + index, page[..]);
    ClearPage(page);
  }

  /** The part of data that did not fit, from position done on, over as many pages as it takes. */
  method WriteRemainder(store: PageStore, page: array<byte>, base: nat, index: nat, data: Bytes, done: nat,
                        ghost before: Bytes)
      returns (index': nat, size: nat)
    requires WholePages(store.pages) && page.Length == PAGE && page[..] == Blank(PAGE)
    requires done < |data| && Run(store.pages, base, index) == before + data[..done]
    modifies store, page
    ensures index <= index'
    ensures Filled(store.pages, base, index', page[..], size, before + data)
    ensures OnlyBetween(old(store.pages), store.pages, base + index, base + index')
  {
    var remainNum := |data| - done;
    index', size := index, 0;
    while remainNum != 0
      invariant 0 <= remainNum < |data| || remainNum == |data| - done
      invariant WholePages(store.pages) && index <= index'
      invariant remainNum != 0 ==> page[..] == Blank(PAGE) && size == 0
      invariant remainNum != 0 ==> Run(store.pages, base, index') == before + data[..|data| - remainNum]
      invariant remainNum == 0 ==> Filled(store.pages, base, index', page[..], size, before + data)
      invariant OnlyBetween(old(store.pages), store.pages, base + index, base + index')
    {
      index', size, remainNum := WritePiece(store, page, base, index', data, remainNum, before);
    }
  }

  /** One turn of the loop: a page's worth of the remainder, and the page itself if more is to come. */
  method WritePiece(store: PageStore, page: array<byte>, base: nat, index: nat, data: Bytes, remainNum: nat,
                    ghost before: Bytes)
      returns (index': nat, size: nat, remainNum': nat)
    requires WholePages(store.pages) && page.Length == PAGE && page[..] == Blank(PAGE)
    requires 0 < remainNum <= |data|
    requires Run(store.pages, base, index) == before + data[..|data| - remainNum]
    modifies store, page
    ensures remainNum' < remainNum && index <= index' && WholePages(store.pages)
    ensures remainNum' != 0 ==>
      && page[..] == Blank(PAGE) && size == 0
      && Run(store.pages, base, index') == before + data[..|data| - remainNum']
    ensures remainNum' == 0 ==> Filled(store.pages, base, index', page[..], size, before + data)
    ensures OnlyBetween(old(store.pages), store.pages, base + index, base + index')
  {
    var writeNum := if PAGE < remainNum then PAGE else remainNum;
    var done := |data| - remainNum;
    CopyInto(page, 0, data[done..done + writeNum]);
    size, remainNum', index' := writeNum, remainNum - writeNum, index;
    assert before + data[..done] + data[done..done + writeNum] == before + data[..done + writeNum];
    if remainNum' != 0 {
      assert page[..] == data[done..done + writeNum];
      NextPage(store, page, base, index');
      index', size := index' + 1, 0;
    } else {
      assert page[..][..size] == data[done..] && data[..done + writeNum] == data;
    }
  }

  /** One record: what fits goes into the current page, the rest into the following pages. */
  method WriteRecord(store: PageStore, page: array<byte>, base: nat, index: nat, size: nat, data: Bytes,
                     ghost before: Bytes)
      returns (index': nat, size': nat)
    requires page.Length == PAGE && Filled(store.pages, base, index, page[..], size, before)
    modifies store, page
    ensures index <= index'
    ensures Filled(store.pages, base, index', page[..], size', before + data)
    ensures OnlyBetween(old(store.pages), store.pages, base + index, base + index')
  {
    var writeNum := if PAGE - size < |data| then PAGE - size else |data|;
    ghost var was := page[..];
    CopyInto(page, size, data[..writeNum]);
    index', size' := index, size + writeNum;
    assert page[..][..size'] == was[..size] + data[..writeNum];
    assert Run(store.pages, base, index) + page[..][..size'] == before + data[..writeNum];
    if writeNum != |data| {
      assert page[..][..PAGE] == page[..];
      NextPage(store, page, base, index');
      index', size' := WriteRemainder(store, page, base, index' + 1, data, writeNum, before);
    } else {
      assert data[..writeNum] == data;
    }
  }

  /** What a table file's pages hold, up to the padding of the last one. */
  ghost function TableBytes(id: nat, es: seq<Entry>): Bytes {
    PageHeader(id) + EncodeAll(es)
  }

  /** The end record fits in the page where the records stop. */
  predicate EofFits(es: seq<Entry>) {
    (HEADER_SIZE + SizeOf(es) - 1) % PAGE + 1 + EOF_SIZE <= PAGE
  }

  /** One entry well within a memtable's bound whose records end 10 bytes before the end of a page. */
  lemma EndRecordMissing(e: Entry)
    requires e == Entry([1], Blank(4061))
    ensures Storable(e) && SizeOf([e]) <= PAGE * PAGES_PER_BLOCK - 50
    ensures !EofFits([e])
  {
    assert [e][..0] == [];
    assert SizeOf([e]) == 4074;
  }

  function PagesUsed(es: seq<Entry>): nat {
    (HEADER_SIZE + SizeOf(es) - 1) / PAGE + 1
  }

  lemma LastPage(index: nat, size: nat, total: nat)
    requires total == index * PAGE + size && 1 <= size <= PAGE
    ensures (total - 1) / PAGE == index && (total - 1) % PAGE + 1 == size
  {}

  lemma FilledSize(pages: map<nat, Bytes>, base: nat, index: nat, page: Bytes, size: nat, id: nat, es: seq<Entry>)
    requires Filled(pages, base, index, page, size, TableBytes(id, es))
    ensures PagesUsed(es) == index + 1
    ensures EofFits(es) <==> size + EOF_SIZE <= PAGE
  {
    EndFits(pages, base, index, page, size, id, es);
  }

  /** The pages from base on hold the table file, blank after the end record. */
  ghost predicate HoldsTable(pages: map<nat, Bytes>, base: nat, id: nat, es: seq<Entry>) {
    && EofFits(es)
    && Run(pages, base, PagesUsed(es))
       == TableBytes(id, es) + EncodeEntry(EOF_ENTRY)
          + Blank(PAGE - ((HEADER_SIZE + SizeOf(es) - 1) % PAGE + 1 + EOF_SIZE))
  }

  /** The records, then the end record; it stops short (ok is false) exactly when the end record does not fit. */
  method WriteTable(store: PageStore, base: nat, id: nat, es: seq<Entry>) returns (ok: bool)
    requires WholePages(store.pages)
    modifies store
    ensures WholePages(store.pages)
    ensures ok <==> EofFits(es)
    ensures ok ==> HoldsTable(store.pages, base, id, es)
    ensures OnlyBetween(old(store.pages), store.pages, base, base + PagesUsed(es))
  {
    var page := new byte[PAGE];
    ClearPage(page);
    CopyInto(page, 0, PageHeader(id));
    var index: nat, size: nat := 0, HEADER_SIZE;
    assert Filled(store.pages, base, 0, page[..], HEADER_SIZE, TableBytes(id, es[..0]));
    for i := 0 to |es|
      invariant fresh(page) && Filled(store.pages, base, index, page[..], size, TableBytes(id, es[..i]))
      invariant OnlyBetween(old(store.pages), store.pages, base, base + index)
    {
      assert es[..i + 1][..i] == es[..i];
      assert TableBytes(id, es[..i + 1]) == TableBytes(id, es[..i]) + EncodeEntry(es[i]);
      index, size := WriteRecord(store, page, base, index, size, EncodeEntry(es[i]), TableBytes(id, es[..i]));
    }
    assert es[..|es|] == es;
    FilledSize(store.pages, base, index, page[..], size, id, es);
    ok := size + EOF_SIZE <= PAGE;
    if ok {
      WriteEnd(store, page, base, index, size, id, es);
    }
  }

  /** The end record goes behind the first size bytes of the page. */
  method AddEnd(page: array<byte>, size: nat)
    requires page.Length == PAGE && size + EOF_SIZE <= PAGE && page[size..] == Blank(PAGE - size)
    modifies page
    ensures page[..] == old(page[..])[..size] + EncodeEntry(EOF_ENTRY) + Blank(PAGE - (size + EOF_SIZE))
  {
    var end := EncodeEntry(EOF_ENTRY);
    EndPage(page[..], size, end);
    CopyInto(page, size, end);
  }

  method WriteEnd(store: PageStore, page: array<byte>, base: nat, index: nat, size: nat,
                  ghost id: nat, ghost es: seq<Entry>)
    requires page.Length == PAGE && Filled(store.pages, base, index, page[..], size, TableBytes(id, es))
    requires size + EOF_SIZE <= PAGE
    modifies store, page
    ensures WholePages(store.pages) && HoldsTable(store.pages, base, id, es)
    ensures OnlyBetween(old(store.pages), store.pages, base + index, base + index + 1)
  {
    ghost var was := page[..];
    AddEnd(page, size);
    EndWritten(store.pages, base, index, was, size, id, es, page[..]);
    store.Write(base + index, page[..]);
  }

  /** The pages once the page with the end record is on flash. */
  lemma EndWritten(pages: map<nat, Bytes>, base: nat, index: nat, was: Bytes, size: nat, id: nat, es: seq<Entry>,
                   page: Bytes)
    requires Filled(pages, base, index, was, size, TableBytes(id, es)) && size + EOF_SIZE <= PAGE
    requires page == was[..size] + EncodeEntry(EOF_ENTRY) + Blank(PAGE - (size + EOF_SIZE))
    ensures var pages' := pages[base + index := page];
      && WholePages(pages') && HoldsTable(pages', base, id, es)
      && OnlyBetween(pages, pages', base + index, base + index + 1)
  {
    EndFits(pages, base, index, was, size, id, es);
    RunWrite(pages, base, index, page);
    FourParts(Run(pages, base, index), was[..size], EncodeEntry(EOF_ENTRY), Blank(PAGE - (size + EOF_SIZE)));
  }

  lemma EndFits(pages: map<nat, Bytes>, base: nat, index: nat, page: Bytes, size: nat, id: nat, es: seq<Entry>)
    requires Filled(pages, base, index, page, size, TableBytes(id, es))
    ensures PagesUsed(es) == index + 1 && (HEADER_SIZE + SizeOf(es) - 1) % PAGE + 1 == size
  {
    RunLength(pages, base, index);
    SizeOfEncoded(es);
    LastPage(index, size, HEADER_SIZE + SizeOf(es));
  }

  lemma EndPage(page: Bytes, size: nat, end: Bytes)
    requires |page| == PAGE && size + EOF_SIZE <= PAGE && page[size..] == Blank(PAGE - size)
    requires end == EncodeEntry(EOF_ENTRY)
    ensures |end| == EOF_SIZE && page[size + |end|..] == Blank(PAGE - (size + EOF_SIZE))
  {
    assert page[size + EOF_SIZE..] == page[size..][EOF_SIZE..];
  }

  lemma FourParts(a: Bytes, b: Bytes, c: Bytes, d: Bytes)
    ensures a + (b + c + d) == a + b + c + d
  {}

  /** Writing out and reading back: the block parses to exactly the entries of the memtable. */
  lemma TableParses(pages: map<nat, Bytes>, block: nat, id: nat, es: seq<Entry>)
    requires WholePages(pages) && HoldsTable(pages, block * PAGES_PER_BLOCK, id, es)
    requires PagesUsed(es) <= PAGES_PER_BLOCK
    requires forall i :: 0 <= i < |es| ==> Storable(es[i])
    ensures ParsedBlock(pages, block) == RecordAll(EMPTY_BLOCK, es)
  {
    var base, used := block * PAGES_PER_BLOCK, PagesUsed(es);
    var rest := Run(pages, base + used, PAGES_PER_BLOCK - used);
    RunSplit(pages, base, used, PAGES_PER_BLOCK - used);
    var blank := Blank(PAGE - ((HEADER_SIZE + SizeOf(es) - 1) % PAGE + 1 + EOF_SIZE));
    StreamOf(PageHeader(id), EncodeAll(es), EncodeEntry(EOF_ENTRY), blank, rest);
    RoundTrip(es, blank + rest);
  }

  lemma StreamOf(h: Bytes, body: Bytes, eof: Bytes, blank: Bytes, rest: Bytes)
    requires |h| == HEADER_SIZE
    ensures (h + body + eof + blank + rest)[HEADER_SIZE..] == body + eof + (blank + rest)
  {}
}
