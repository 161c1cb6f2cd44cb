/**
 The incremental parser that reads a block of pages: six states, a page at a time, with sizes, keys and values
 carried over page boundaries.
 */
module BlockParser {
  import opened SstRecord
  import opened Flash

  /** The parser's variables between two steps. */
  datatype Parser = Parser(readIndex: nat, keySize: nat, valueSize: nat, key: Bytes, value: Bytes,
                           temp: Bytes, found: BlockIter)

  /** The byte stream of a block, without the header of its first page. */
  ghost function BlockStream(pages: map<nat, Bytes>, block: nat): Bytes
    requires WholePages(pages)
  {
    RunLength(pages, block * PAGES_PER_BLOCK, PAGES_PER_BLOCK);
    Run(pages, block * PAGES_PER_BLOCK, PAGES_PER_BLOCK)[HEADER_SIZE..]
  }

  ghost function ParsedBlock(pages: map<nat, Bytes>, block: nat): BlockIter
    requires WholePages(pages)
  {
    ParseInto(EMPTY_BLOCK, BlockStream(pages, block))
  }

  /** The number of bytes the current state collects. */
  function Need(p: Parser): nat {
    if p.readIndex <= 2 then 4 else if p.readIndex == 3 then p.keySize else p.valueSize
  }

  /** pending is what has been consumed of the record being read. */
  ghost predicate Pending(p: Parser, pending: Bytes) {
    && p.readIndex <= 5
    && (p.readIndex <= 2 ==> |pending| == 4 * p.readIndex + |p.temp| && p.temp == pending[4 * p.readIndex..])
    && (p.readIndex < 5 ==> |p.temp| < Need(p))
    && (p.readIndex >= 2 ==> |pending| >= 8 && p.keySize == DecodeU32(pending[4..8]))
    && (p.readIndex >= 3 ==>
          && |pending| >= 12 && p.valueSize == DecodeU32(pending[8..12])
          && p.keySize > 0 && p.valueSize > 0)
    && (p.readIndex == 3 ==> |pending| == 12 + |p.temp| && p.temp == pending[12..])
    && (p.readIndex >= 4 ==> |pending| >= 12 + p.keySize && p.key == pending[12..12 + p.keySize])
    && (p.readIndex == 4 ==> |pending| == 12 + p.keySize + |p.temp| && p.temp == pending[12 + p.keySize..])
    && (p.readIndex == 5 ==>
          && |pending| == 12 + p.keySize + p.valueSize
          && p.value == pending[12 + p.keySize..] && p.temp == [])
  }

  /** One collecting step: as much as is needed or as the page still holds. */
  function Collect(p: Parser, chunk: Bytes): Parser
    requires p.readIndex < 5
  {
    var temp := p.temp + chunk;
    if |temp| != Need(p) then p.(temp := temp)
    else match p.readIndex
      case 0 => p.(temp := [], readIndex := 1)
      case 1 => p.(temp := [], readIndex := 2, keySize := DecodeU32(temp))
      case 2 =>
        var vs := DecodeU32(temp);
        p.(temp := [], valueSize := vs, readIndex := if p.keySize == 0 || vs == 0 then 0 else 3)
      case 3 => p.(temp := [], readIndex := 4, key := temp)
      case _ => p.(temp := [], readIndex := 5, value := temp)
  }

  /** What the collecting step leaves pending. */
  ghost function PendingAfter(p: Parser, pending: Bytes, chunk: Bytes): Bytes
    requires p.readIndex < 5
  {
    if Collect(p, chunk).readIndex == 0 && p.readIndex == 2 then [] else pending + chunk
  }

  lemma CollectSmall(p: Parser, pending: Bytes, chunk: Bytes)
    requires Pending(p, pending) && p.readIndex < 2
    requires |p.temp| + |chunk| <= Need(p)
    ensures Pending(Collect(p, chunk), pending + chunk)
  {
    var q := pending + chunk;
    assert q[4 * p.readIndex..] == p.temp + chunk;
    if |p.temp| + |chunk| == 4 {
      assert |q| == 4 * (p.readIndex + 1) && q[4 * (p.readIndex + 1)..] == [];
    }
  }

  lemma CollectSizes(p: Parser, pending: Bytes, chunk: Bytes, rest: Bytes)
    requires Pending(p, pending) && p.readIndex == 2
    requires |p.temp| + |chunk| <= 4
    ensures Pending(Collect(p, chunk), PendingAfter(p, pending, chunk))
    ensures ParseInto(p.found, pending + (chunk + rest))
         == ParseInto(p.found, PendingAfter(p, pending, chunk) + rest)
  {
    var q := pending + chunk;
    var all := pending + (chunk + rest);
    assert all == q + rest;
    assert q[8..] == p.temp + chunk;
    assert q[4..8] == pending[4..8];
    if |p.temp| + |chunk| == 4 {
      assert q[8..12] == p.temp + chunk && q[12..] == [];
      assert all[4..8] == q[4..8] && all[8..12] == q[8..12];
      assert all[12..] == rest && [] + rest == rest;
    }
  }

  lemma CollectBody(p: Parser, pending: Bytes, chunk: Bytes)
    requires Pending(p, pending) && 3 <= p.readIndex < 5
    requires |p.temp| + |chunk| <= Need(p)
    ensures Pending(Collect(p, chunk), pending + chunk)
  {
    var q := pending + chunk;
    assert q[4..8] == pending[4..8] && q[8..12] == pending[8..12];
    if p.readIndex == 3 {
      assert q[12..] == p.temp + chunk;
      if |p.temp| + |chunk| == p.keySize {
        assert q[12..12 + p.keySize] == p.temp + chunk && q[12 + p.keySize..] == [];
      }
    } else {
      assert q[12..12 + p.keySize] == pending[12..12 + p.keySize];
      assert q[12 + p.keySize..] == p.temp + chunk;
    }
  }

  /** A collecting step changes nothing about what the whole stream says. */
  lemma CollectKeeps(p: Parser, pending: Bytes, chunk: Bytes, rest: Bytes)
    requires Pending(p, pending) && p.readIndex < 5
    requires |p.temp| + |chunk| <= Need(p)
    ensures Collect(p, chunk).found == p.found
    ensures Pending(Collect(p, chunk), PendingAfter(p, pending, chunk))
    ensures ParseInto(p.found, pending + (chunk + rest))
         == ParseInto(p.found, PendingAfter(p, pending, chunk) + rest)
  {
    assert pending + (chunk + rest) == pending + chunk + rest;
    if p.readIndex < 2 {
      CollectSmall(p, pending, chunk);
    } else if p.readIndex == 2 {
      CollectSizes(p, pending, chunk, rest);
    } else {
      CollectBody(p, pending, chunk);
    }
  }

  /** In state 5 a record is complete; with a byte left to read it is accepted, unless it is the end record. */
  lemma CompleteRecord(p: Parser, pending: Bytes, rest: Bytes)
    requires Pending(p, pending) && p.readIndex == 5 && |rest| > 0
    ensures Entry(p.key, p.value) == EOF_ENTRY ==> ParseInto(p.found, pending + rest) == p.found
    ensures Entry(p.key, p.value) != EOF_ENTRY ==>
      ParseInto(p.found, pending + rest) == ParseInto(Record(p.found, Entry(p.key, p.value)), rest)
  {
    var all := pending + rest;
    var ks, vs := p.keySize, p.valueSize;
    assert all[4..8] == pending[4..8] && all[8..12] == pending[8..12];
    assert all[12..12 + ks] == p.key && all[12 + ks..12 + ks + vs] == p.value;
    assert all[12 + ks + vs..] == rest;
    assert ReadFront(all) == if Entry(p.key, p.value) == EOF_ENTRY then Stop else Accept(Entry(p.key, p.value));
  }

  /** When the block ends inside a record, that record is dropped. */
  lemma Unfinished(p: Parser, pending: Bytes)
    requires Pending(p, pending)
    ensures ParseInto(p.found, pending) == p.found
  {
    assert ReadFront(pending) == Stop;
  }

  /** States 0 to 4: take what is needed, or what is left of the page. */
  method CollectStep(page: Bytes, j: nat, p: Parser, ghost pending: Bytes, ghost rest: Bytes)
      returns (p': Parser, j': nat, ghost pending': Bytes)
    requires |page| == PAGE && j < PAGE && Pending(p, pending) && p.readIndex < 5
    ensures j < j' <= PAGE && Pending(p', pending')
    ensures ParseInto(p.found, pending + (page[j..] + rest)) == ParseInto(p'.found, pending' + (page[j'..] + rest))
  {
    var remainNum := Need(p) - |p.temp|;
    var readNum := if remainNum < PAGE - j then remainNum else PAGE - j;
    var chunk := page[j..j + readNum];
    j' := j + readNum;
    assert page[j..] + rest == chunk + (page[j'..] + rest);
    CollectKeeps(p, pending, chunk, page[j'..] + rest);
    pending' := PendingAfter(p, pending, chunk);
    p' := Collect(p, chunk);
  }

  /** State 5: back to state 0, with the record accepted unless it ends the block. */
  method AcceptStep(p: Parser, ghost pending: Bytes, ghost bytes: Bytes)
      returns (p': Parser, isEnd: bool, ghost pending': Bytes)
    requires Pending(p, pending) && p.readIndex == 5 && |bytes| > 0
    ensures isEnd ==> ParseInto(p.found, pending + bytes) == p'.found
    ensures !isEnd ==> p'.readIndex == 0 && Pending(p', pending')
    ensures !isEnd ==> ParseInto(p.found, pending + bytes) == ParseInto(p'.found, pending' + bytes)
  {
    CompleteRecord(p, pending, bytes);
    p', isEnd, pending' := p.(readIndex := 0), false, [];
    if p.key == EOF && p.value == EOF {
      isEnd := true;
    } else {
      p' := p'.(found := Record(p.found, Entry(p.key, p.value)));
      assert [] + bytes == bytes;
    }
  }

  /** The parser, with the bytes still to come, says what the whole stream says. */
  ghost predicate Says(p: Parser, isEnd: bool, pending: Bytes, bytes: Bytes, said: BlockIter) {
    if isEnd then said == p.found
    else Pending(p, pending) && said == ParseInto(p.found, pending + bytes)
  }

  /**
   Reads one page from position start on.  The loop ends although state 5 consumes nothing: it is left at
   once for state 0, and every other state takes at least one byte.
   */
  method ParsePage(page: Bytes, start: nat, p0: Parser, ghost pending0: Bytes, ghost rest: Bytes, ghost said: BlockIter)
      returns (p: Parser, isEnd: bool, ghost pending: Bytes)
    requires |page| == PAGE && start <= PAGE && Says(p0, false, pending0, page[start..] + rest, said)
    ensures Says(p, isEnd, pending, rest, said)
  {
    var j := start;
    p, isEnd, pending := p0, false, pending0;
    while j < PAGE && !isEnd
      invariant start <= j <= PAGE && Says(p, isEnd, pending, page[j..] + rest, said)
      decreases PAGE - j, if isEnd then 0 else if p.readIndex == 5 then 2 else 1
    {
      if p.readIndex == 5 {
        p, isEnd, pending := AcceptStep(p, pending, page[j..] + rest);
      } else {
        p, j, pending := CollectStep(page, j, p, pending, rest);
      }
    }
    assert page[PAGE..] + rest == rest;
  }

  /** The following n pages, unless the end record comes first. */
  method ParsePages(store: PageStore, address: nat, n: nat, p0: Parser, ghost pending0: Bytes, ghost said: BlockIter)
      returns (found: BlockIter)
    requires WholePages(store.pages) && Says(p0, false, pending0, Run(store.pages, address, n), said)
    ensures found == said
  {
    var p, isEnd, next, left := p0, false, address, n;
    ghost var pending := pending0;
    while left > 0 && !isEnd
      invariant Says(p, isEnd, pending, Run(store.pages, next, left), said)
    {
      p, isEnd, pending := ParseNext(store, next, left, p, pending, said);
      next, left := next + 1, left - 1;
    }
    found := p.found;
    if !isEnd {
      NothingLeft(p, pending, said);
    }
  }

  method ParseNext(store: PageStore, address: nat, n: nat, p0: Parser, ghost pending0: Bytes, ghost said: BlockIter)
      returns (p: Parser, isEnd: bool, ghost pending: Bytes)
    requires WholePages(store.pages) && n > 0 && Says(p0, false, pending0, Run(store.pages, address, n), said)
    ensures Says(p, isEnd, pending, Run(store.pages, address + 1, n - 1), said)
  {
    var page := store.Read(address);
    RunFirst(store.pages, address, n);
    p, isEnd, pending := ParsePage(page, 0, p0, pending0, Run(store.pages, address + 1, n - 1), said);
  }

  lemma NothingLeft(p: Parser, pending: Bytes, said: BlockIter)
    requires Says(p, false, pending, [], said)
    ensures said == p.found
  {
    assert pending + [] == pending;
    Unfinished(p, pending);
  }

  /** Parses a whole block, on any page contents. */
  method ParseBlock(store: PageStore, blockId: nat) returns (b: BlockIter)
    requires WholePages(store.pages)
    ensures b == ParsedBlock(store.pages, blockId)
  {
    var base := blockId * PAGES_PER_BLOCK;
    var page := store.Read(base);
    ghost var rest := Run(store.pages, base + 1, PAGES_PER_BLOCK - 1);
    ghost var said := ParsedBlock(store.pages, blockId);
    RunFirst(store.pages, base, PAGES_PER_BLOCK);
    FirstPage(page, rest);
    var p, isEnd; ghost var pending;
    p, isEnd, pending := ParsePage(page, HEADER_SIZE, Parser(0, 0, 0, [], [], [], EMPTY_BLOCK), [], rest, said);
    if isEnd {
      b := p.found;
    } else {
      b := ParsePages(store, base + 1, PAGES_PER_BLOCK - 1, p, pending, said);
    }
  }

  lemma FirstPage(page: Bytes, rest: Bytes)
    requires |page| == PAGE
    ensures [] + (page[HEADER_SIZE..] + rest) == (page + rest)[HEADER_SIZE..]
  {}

  lemma RunFirst(pages: map<nat, Bytes>, address: nat, n: nat)
    requires WholePages(pages) && n > 0
    ensures var page := ReadPage(pages, address);
      && |page| == PAGE && page[0..] == page
      && Run(pages, address, n) == page + Run(pages, address + 1, n - 1)
  {
    RunSplit(pages, address, 1, n - 1);
    assert Run(pages, address, 1) == [] + ReadPage(pages, address) == ReadPage(pages, address);
  }
}
