/**
 The byte format of an SSTable: 12-byte page header, then records, then an end record.  A record is a
 checksum word (always 0), the key size and the value size as big-endian words, the key and the value.
 */
module SstRecord {
  import opened Prelude

  type Bytes = seq<byte>

  datatype Entry = Entry(key: Bytes, value: Bytes)

  /** The entries a block was parsed into, and how many records were accepted. */
  datatype BlockIter = BlockIter(entries: map<Bytes, Bytes>, entryNum: nat)

  const EMPTY_BLOCK := BlockIter(map[], 0)

  const EOF: Bytes := [69, 79, 70]

  const HEADER_SIZE: nat := 12

  const TWO_32: nat := 0x1_0000_0000

  function EncodeU32(n: nat): Bytes {
    [(n / 0x100_0000 % 256) as byte, (n / 0x1_0000 % 256) as byte, (n / 0x100 % 256) as byte, (n % 256) as byte]
  }

  function DecodeU32(b: Bytes): nat
    requires |b| == 4
  {
    b[0] as nat * 0x100_0000 + b[1] as nat * 0x1_0000 + b[2] as nat * 0x100 + b[3] as nat
  }

  /** Sizes are kept in 32 bits. */
  function EncodeEntry(e: Entry): (r: Bytes)
    ensures |r| == 12 + |e.key| + |e.value|
  {
    EncodeU32(0) + EncodeU32(|e.key| % TWO_32) + EncodeU32(|e.value| % TWO_32) + e.key + e.value
  }

  function EncodeAll(es: seq<Entry>): Bytes {
    if |es| == 0 then [] else EncodeAll(es[..|es| - 1]) + EncodeEntry(es[|es| - 1])
  }

  const EOF_ENTRY := Entry(EOF, EOF)

  /** Entries the format can carry: non-empty keys and values of 32-bit size, and not the end record. */
  ghost predicate Storable(e: Entry) {
    0 < |e.key| < TWO_32 && 0 < |e.value| < TWO_32 && e != EOF_ENTRY
  }

  function Record(b: BlockIter, e: Entry): BlockIter {
    BlockIter(b.entries[e.key := e.value], b.entryNum + 1)
  }

  function RecordAll(b: BlockIter, es: seq<Entry>): BlockIter {
    if |es| == 0 then b else Record(RecordAll(b, es[..|es| - 1]), es[|es| - 1])
  }

  /** What stands at the front of a byte stream: nothing more to read, a bare header, or a record. */
  datatype Front = Stop | Skip | Accept(entry: Entry)

  function ReadFront(bs: Bytes): (r: Front)
    ensures r.Skip? ==> |bs| >= 12
    ensures r.Accept? ==> |bs| > 12 + |r.entry.key| + |r.entry.value|
  {
    if |bs| < 12 then Stop
    else
      var ks, vs := DecodeU32(bs[4..8]), DecodeU32(bs[8..12]);
      if ks == 0 || vs == 0 then Skip
      else if |bs| <= 12 + ks + vs then Stop
      else
        var e := Entry(bs[12..12 + ks], bs[12 + ks..12 + ks + vs]);
        if e == EOF_ENTRY then Stop else Accept(e)
  }

  /**
   What a byte stream says, record by record.  A record with an empty key or value is skipped as a bare
   header, the end record stops the reading, and a record is accepted only if at least one byte follows it.
   */
  function ParseInto(acc: BlockIter, bs: Bytes): BlockIter
    decreases |bs|
  {
    match ReadFront(bs)
    case Stop => acc
    case Skip => ParseInto(acc, bs[12..])
    case Accept(e) => ParseInto(Record(acc, e), bs[12 + |e.key| + |e.value|..])
  }

  lemma DecodeEncodeU32(n: nat)
    requires n < TWO_32
    ensures DecodeU32(EncodeU32(n)) == n
  {
    var a := n / 0x100;
    var b := n / 0x1_0000;
    var c := n / 0x100_0000;
    assert n == 0x100 * a + n % 0x100;
    assert a == 0x100 * b + a % 0x100 && b == a / 0x100;
    assert b == 0x100 * c + b % 0x100 && c == b / 0x100;
    assert c < 256;
  }

  /** Where the parts of a record stand in a stream that begins with it. */
  lemma RecordLayout(e: Entry, rest: Bytes)
    ensures var bs, ks, vs := EncodeEntry(e) + rest, |e.key|, |e.value|;
      && bs[4..8] == EncodeU32(ks % TWO_32) && bs[8..12] == EncodeU32(vs % TWO_32)
      && bs[12..12 + ks] == e.key && bs[12 + ks..12 + ks + vs] == e.value
      && bs[12 + ks + vs..] == rest
  {
    var words := EncodeU32(0) + EncodeU32(|e.key| % TWO_32) + EncodeU32(|e.value| % TWO_32);
    assert words[4..8] == EncodeU32(|e.key| % TWO_32) && words[8..12] == EncodeU32(|e.value| % TWO_32);
    assert EncodeEntry(e) == words + (e.key + e.value);
    RecordBody(words, e.key, e.value, rest);
    assert words + (e.key + e.value) + rest == words + e.key + e.value + rest;
  }

  lemma RecordBody(words: Bytes, key: Bytes, value: Bytes, rest: Bytes)
    requires |words| == 12
    ensures var bs, ks, vs := words + key + value + rest, |key|, |value|;
      && bs[4..8] == words[4..8] && bs[8..12] == words[8..12]
      && bs[12..12 + ks] == key && bs[12 + ks..12 + ks + vs] == value && bs[12 + ks + vs..] == rest
  {}

  lemma FrontFromSizes(bs: Bytes, e: Entry)
    requires Storable(e) && |bs| > 12 + |e.key| + |e.value|
    requires DecodeU32(bs[4..8]) == |e.key| && DecodeU32(bs[8..12]) == |e.value|
    requires bs[12..12 + |e.key|] == e.key && bs[12 + |e.key|..12 + |e.key| + |e.value|] == e.value
    ensures ReadFront(bs) == Accept(e)
  {}

  lemma FrontOfRecord(e: Entry, rest: Bytes)
    requires Storable(e) && |rest| > 0
    ensures ReadFront(EncodeEntry(e) + rest) == Accept(e)
  {
    var bs := EncodeEntry(e) + rest;
    RecordLayout(e, rest);
    SizeReads(bs[4..8], |e.key|);
    SizeReads(bs[8..12], |e.value|);
    FrontFromSizes(bs, e);
  }

  lemma SizeReads(word: Bytes, n: nat)
    requires n < TWO_32 && word == EncodeU32(n % TWO_32)
    ensures |word| == 4 && DecodeU32(word) == n
  {
    DecodeEncodeU32(n);
  }

  /** A storable record at the head of the stream is read back and leaves the rest. */
  lemma ParseRecord(acc: BlockIter, e: Entry, rest: Bytes)
    requires Storable(e) && |rest| > 0
    ensures ParseInto(acc, EncodeEntry(e) + rest) == ParseInto(Record(acc, e), rest)
  {
    FrontOfRecord(e, rest);
    RecordLayout(e, rest);
  }

  lemma ParseEnd(acc: BlockIter, junk: Bytes)
    ensures ParseInto(acc, EncodeEntry(EOF_ENTRY) + junk) == acc
  {
    RecordLayout(EOF_ENTRY, junk);
    DecodeEncodeU32(3);
    assert ReadFront(EncodeEntry(EOF_ENTRY) + junk) == Stop;
  }

  lemma {:induction false} ParseEncoded(acc: BlockIter, es: seq<Entry>, rest: Bytes)
    requires forall i :: 0 <= i < |es| ==> Storable(es[i])
    requires |rest| > 0
    ensures ParseInto(acc, EncodeAll(es) + rest) == ParseInto(RecordAll(acc, es), rest)
    decreases |es|
  {
    if |es| == 0 {
      assert EncodeAll(es) + rest == rest;
    } else {
      var n := |es| - 1;
      assert EncodeAll(es) + rest == EncodeAll(es[..n]) + (EncodeEntry(es[n]) + rest);
      ParseEncoded(acc, es[..n], EncodeEntry(es[n]) + rest);
      ParseRecord(RecordAll(acc, es[..n]), es[n], rest);
    }
  }

  /** Printing and parsing: the records written come back, whatever bytes follow the end record. */
  lemma RoundTrip(es: seq<Entry>, junk: Bytes)
    requires forall i :: 0 <= i < |es| ==> Storable(es[i])
    ensures ParseInto(EMPTY_BLOCK, EncodeAll(es) + EncodeEntry(EOF_ENTRY) + junk) == RecordAll(EMPTY_BLOCK, es)
  {
    var rest := EncodeEntry(EOF_ENTRY) + junk;
    assert EncodeAll(es) + EncodeEntry(EOF_ENTRY) + junk == EncodeAll(es) + rest;
    ParseEncoded(EMPTY_BLOCK, es, rest);
    ParseEnd(RecordAll(EMPTY_BLOCK, es), junk);
  }

  ghost predicate DistinctKeys(es: seq<Entry>) {
    forall i, j :: 0 <= i < j < |es| ==> es[i].key != es[j].key
  }

  lemma {:induction false} RecordAllEntries(es: seq<Entry>)
    ensures RecordAll(EMPTY_BLOCK, es).entryNum == |es|
    ensures forall k :: k in RecordAll(EMPTY_BLOCK, es).entries <==> exists i :: 0 <= i < |es| && es[i].key == k
    ensures DistinctKeys(es) ==> forall i :: 0 <= i < |es| ==>
              RecordAll(EMPTY_BLOCK, es).entries[es[i].key] == es[i].value
  {
    if |es| != 0 {
      var n := |es| - 1;
      RecordAllEntries(es[..n]);
      assert forall i :: 0 <= i < n ==> es[..n][i] == es[i];
    }
  }

  /** An empty value is not skipped as a record: its key bytes are read as the next header. */
  lemma EmptyValueIsLost(key: Bytes, junk: Bytes)
    requires 0 < |key| < TWO_32
    ensures ParseInto(EMPTY_BLOCK, EncodeEntry(Entry(key, [])) + junk) == ParseInto(EMPTY_BLOCK, key + junk)
  {
    var e := Entry(key, []);
    RecordLayout(e, junk);
    DecodeEncodeU32(0);
    assert EncodeEntry(e) == EncodeU32(0) + EncodeU32(|key| % TWO_32) + EncodeU32(0) + key;
    assert (EncodeEntry(e) + junk)[12..] == key + junk;
  }
}
