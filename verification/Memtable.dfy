/** The memtable: a set of entries ordered by key, with a running size. */
module Memtable {
  import opened Prelude
  import opened SstRecord

  /** Byte strings in dictionary order. */
  predicate Less(a: Bytes, b: Bytes) {
    |b| > 0 && (|a| == 0 || a[0] < b[0] || (a[0] == b[0] && Less(a[1..], b[1..])))
  }

  lemma {:induction false} LessTotal(a: Bytes, b: Bytes)
    ensures !(Less(a, b) && Less(b, a))
    ensures !Less(a, a)
    ensures Less(a, b) || Less(b, a) || a == b
  {
    if |a| > 0 && |b| > 0 && a[0] == b[0] {
      LessTotal(a[1..], b[1..]);
      assert a == [a[0]] + a[1..] && b == [b[0]] + b[1..];
    }
    if |a| > 0 {
      LessTotal(a[1..], a[1..]);
    }
  }

  lemma {:induction false} LessTransitive(a: Bytes, b: Bytes, c: Bytes)
    requires Less(a, b) && Less(b, c)
    ensures Less(a, c)
  {
    if |a| > 0 && a[0] == b[0] && b[0] == c[0] {
      LessTransitive(a[1..], b[1..], c[1..]);
    }
  }

  ghost predicate Sorted(es: seq<Entry>) {
    forall i, j :: 0 <= i < j < |es| ==> Less(es[i].key, es[j].key)
  }

  lemma SortedDistinct(es: seq<Entry>)
    requires Sorted(es)
    ensures DistinctKeys(es)
  {
    forall i, j | 0 <= i < j < |es| ensures es[i].key != es[j].key {
      LessTotal(es[i].key, es[j].key);
    }
  }

  /** The space an entry takes in a table file. */
  function EntrySize(e: Entry): nat {
    |e.key| + |e.value| + 12
  }

  function SizeOf(es: seq<Entry>): nat {
    if |es| == 0 then 0 else SizeOf(es[..|es| - 1]) + EntrySize(es[|es| - 1])
  }

  lemma {:induction false} SizeOfEncoded(es: seq<Entry>)
    ensures |EncodeAll(es)| == SizeOf(es)
  {
    if |es| != 0 {
      SizeOfEncoded(es[..|es| - 1]);
    }
  }

  lemma {:induction false} SizeOfConcat(s: seq<Entry>, t: seq<Entry>)
    ensures SizeOf(s + t) == SizeOf(s) + SizeOf(t)
  {
    if |t| == 0 {
      assert s + t == s;
    } else {
      var n := |t| - 1;
      assert (s + t)[..|s + t| - 1] == s + t[..n];
      SizeOfConcat(s, t[..n]);
    }
  }

  function PutAll(m: map<Bytes, Bytes>, es: seq<Entry>): map<Bytes, Bytes> {
    if |es| == 0 then m else PutAll(m, es[..|es| - 1])[es[|es| - 1].key := es[|es| - 1].value]
  }

  /** The map the entries stand for, later entries winning. */
  function Table(es: seq<Entry>): map<Bytes, Bytes> {
    PutAll(map[], es)
  }

  lemma {:induction false} RecordAllIsPutAll(b: BlockIter, es: seq<Entry>)
    ensures RecordAll(b, es) == BlockIter(PutAll(b.entries, es), b.entryNum + |es|)
  {
    if |es| != 0 {
      RecordAllIsPutAll(b, es[..|es| - 1]);
    }
  }

  lemma {:induction false} PutAllConcat(m: map<Bytes, Bytes>, s: seq<Entry>, t: seq<Entry>)
    ensures PutAll(m, s + t) == PutAll(PutAll(m, s), t)
  {
    if |t| == 0 {
      assert s + t == s;
    } else {
      var n := |t| - 1;
      assert (s + t)[..|s + t| - 1] == s + t[..n];
      PutAllConcat(m, s, t[..n]);
    }
  }

  /** An update of a key the entries do not have can be made before or after them. */
  lemma {:induction false} PutAllCommutes(m: map<Bytes, Bytes>, es: seq<Entry>, key: Bytes, value: Bytes)
    requires forall i :: 0 <= i < |es| ==> es[i].key != key
    ensures PutAll(m[key := value], es) == PutAll(m, es)[key := value]
  {
    if |es| != 0 {
      var n := |es| - 1;
      PutAllCommutes(m, es[..n], key, value);
      assert es[n].key != key;
    }
  }

  lemma {:induction false} TableHas(m: map<Bytes, Bytes>, es: seq<Entry>, key: Bytes)
    ensures (forall i :: 0 <= i < |es| ==> es[i].key != key) ==> Lookup(PutAll(m, es), key) == Lookup(m, key)
    ensures DistinctKeys(es) ==> forall i :: 0 <= i < |es| && es[i].key == key ==>
              Lookup(PutAll(m, es), key) == Some(es[i].value)
  {
    if |es| != 0 {
      var n := |es| - 1;
      TableHas(m, es[..n], key);
      assert forall i :: 0 <= i < n ==> es[..n][i] == es[i];
    }
  }

  ghost function Lookup(m: map<Bytes, Bytes>, key: Bytes): Option<Bytes> {
    if key in m then Some(m[key]) else None
  }

  /** es with the entry at p, or the place before it, given to e. */
  function ReplaceAt(es: seq<Entry>, p: nat, e: Entry): seq<Entry>
    requires p <= |es|
  {
    if p < |es| && es[p].key == e.key then es[p := e] else es[..p] + [e] + es[p..]
  }

  /** p is where key stands, or belongs, among the entries. */
  ghost predicate Place(es: seq<Entry>, p: nat, key: Bytes) {
    && p <= |es|
    && (forall i :: 0 <= i < p ==> Less(es[i].key, key))
    && (forall i :: p <= i < |es| ==> !Less(es[i].key, key))
  }

  ghost function PlaceOf(es: seq<Entry>, key: Bytes): (p: nat)
    ensures p <= |es|
  {
    if |es| == 0 || !Less(es[0].key, key) then 0 else 1 + PlaceOf(es[1..], key)
  }

  lemma {:induction false} PlaceIs(es: seq<Entry>, p: nat, key: Bytes)
    requires Place(es, p, key)
    ensures PlaceOf(es, key) == p
  {
    if p != 0 {
      assert forall i :: 0 <= i < |es| - 1 ==> es[1..][i] == es[i + 1];
      PlaceIs(es[1..], p - 1, key);
    }
  }

  /** The sorted entries with one put among them. */
  ghost function PutInto(es: seq<Entry>, e: Entry): seq<Entry> {
    ReplaceAt(es, PlaceOf(es, e.key), e)
  }

  lemma ReplaceSorted(es: seq<Entry>, p: nat, e: Entry)
    requires Sorted(es) && Place(es, p, e.key)
    ensures Sorted(ReplaceAt(es, p, e))
    ensures (p < |es| && es[p].key == e.key) || forall i :: p <= i < |es| ==> Less(e.key, es[i].key)
  {
    if p < |es| && es[p].key == e.key {
    } else {
      forall i | p <= i < |es| ensures Less(e.key, es[i].key) {
        LessTotal(es[p].key, e.key);
        if i > p { LessTransitive(e.key, es[p].key, es[i].key); }
      }
      var r := ReplaceAt(es, p, e);
      forall i, j | 0 <= i < j < |r| ensures Less(r[i].key, r[j].key) {
        assert i < p ==> r[i] == es[i];
        assert i > p ==> r[i] == es[i - 1];
        assert j < p ==> r[j] == es[j];
        assert j > p ==> r[j] == es[j - 1];
      }
    }
  }

  lemma ReplaceParts(es: seq<Entry>, p: nat, e: Entry)
    requires p <= |es|
    ensures var r := ReplaceAt(es, p, e);
      && p < |r| && r[p] == e && r[..p] == es[..p] && es == es[..p] + es[p..]
      && r[p + 1..] == if p < |es| && es[p].key == e.key then es[p + 1..] else es[p..]
  {}

  /** Behind its place, and behind its own entry, the key does not occur. */
  lemma NotBehind(es: seq<Entry>, p: nat, key: Bytes)
    requires Sorted(es) && Place(es, p, key)
    ensures var n := if p < |es| && es[p].key == key then p + 1 else p;
      forall i :: 0 <= i < |es[n..]| ==> es[n..][i].key != key
  {
    ReplaceSorted(es, p, Entry(key, []));
    forall i | p <= i < |es| && (i > p || es[p].key != key) ensures es[i].key != key {
      if es[p].key == key {
        LessTotal(es[p].key, es[i].key);
      } else {
        LessTotal(key, es[i].key);
      }
    }
  }

  lemma ReplaceTable(es: seq<Entry>, p: nat, e: Entry)
    requires Sorted(es) && Place(es, p, e.key)
    ensures Table(ReplaceAt(es, p, e)) == Table(es)[e.key := e.value]
  {
    var m := Table(es[..p]);
    ReplaceParts(es, p, e);
    NotBehind(es, p, e.key);
    SplitAt(ReplaceAt(es, p, e), p);
    if p < |es| && es[p].key == e.key {
      SplitAt(es, p);
      PutAllCommutes(m, es[p + 1..], e.key, e.value);
      PutAllCommutes(m, es[p + 1..], e.key, es[p].value);
    } else {
      PutAllConcat(map[], es[..p], es[p..]);
      PutAllCommutes(m, es[p..], e.key, e.value);
    }
  }

  /** The map of a sequence, through the entry at p. */
  lemma SplitAt(es: seq<Entry>, p: nat)
    requires p < |es|
    ensures Table(es) == PutAll(Table(es[..p])[es[p].key := es[p].value], es[p + 1..])
  {
    assert es == es[..p + 1] + es[p + 1..];
    PutAllConcat(map[], es[..p + 1], es[p + 1..]);
    assert es[..p + 1][..p] == es[..p];
  }

  lemma {:induction false} SizeOfSplit(es: seq<Entry>, p: nat)
    requires p < |es|
    ensures SizeOf(es) == SizeOf(es[..p]) + EntrySize(es[p]) + SizeOf(es[p + 1..])
  {
    assert es == es[..p + 1] + es[p + 1..];
    SizeOfConcat(es[..p + 1], es[p + 1..]);
    assert es[..p + 1][..p] == es[..p];
  }

  lemma SizeOfParts(s: seq<Entry>, t: seq<Entry>, es: seq<Entry>)
    requires es == s + t
    ensures SizeOf(es) == SizeOf(s) + SizeOf(t)
  {
    SizeOfConcat(s, t);
  }

  lemma ReplaceSize(es: seq<Entry>, p: nat, e: Entry)
    requires p <= |es|
    ensures SizeOf(ReplaceAt(es, p, e)) ==
            SizeOf(es) + EntrySize(e) - if p < |es| && es[p].key == e.key then EntrySize(es[p]) else 0
  {
    var r := ReplaceAt(es, p, e);
    ReplaceParts(es, p, e);
    SizeOfSplit(r, p);
    if p < |es| && es[p].key == e.key {
      SizeOfSplit(es, p);
    } else {
      SizeOfParts(es[..p], es[p..], es);
    }
  }

  class Memtable {
    var size: nat
    const threshold: nat
    var entries: seq<Entry>

    /** size is the sum over the live entries. */
    ghost predicate Valid()
      reads this
    {
      Sorted(entries) && size == SizeOf(entries)
    }

    constructor (threshold: nat)
      ensures Valid() && entries == [] && this.threshold == threshold
    {
      this.threshold, size, entries := threshold, 0, [];
    }

    method FindPlace(key: Bytes) returns (p: nat)
      requires Valid()
      ensures Place(entries, p, key)
    {
      p := 0;
      while p < |entries| && Less(entries[p].key, key)
        invariant p <= |entries|
        invariant forall i :: 0 <= i < p ==> Less(entries[i].key, key)
      {
        p := p + 1;
      }
      forall i | p <= i < |entries| ensures !Less(entries[i].key, key) {
        if i > p && Less(entries[i].key, key) {
          LessTransitive(entries[p].key, entries[i].key, key);
        }
      }
    }

    method Get(key: Bytes) returns (r: Option<Bytes>)
      requires Valid()
      ensures r == Lookup(Table(entries), key)
    {
      SortedDistinct(entries);
      TableHas(map[], entries, key);
      var p := FindPlace(key);
      ReplaceSorted(entries, p, Entry(key, []));
      if p < |entries| && entries[p].key == key {
        r := Some(entries[p].value);
      } else {
        r := None;
        forall i | 0 <= i < |entries| ensures entries[i].key != key {
          LessTotal(entries[i].key, key);
        }
      }
    }

    method Put(key: Bytes, value: Bytes)
      requires Valid()
      modifies this
      ensures Valid()
      ensures entries == PutInto(old(entries), Entry(key, value))
      ensures Table(entries) == old(Table(entries))[key := value]
      ensures size <= old(size) + EntrySize(Entry(key, value))
      ensures forall e :: e in entries ==> e in old(entries) || e == Entry(key, value)
    {
      var query := Entry(key, value);
      var p := FindPlace(key);
      PlaceIs(entries, p, key);
      ReplaceSorted(entries, p, query);
      ReplaceTable(entries, p, query);
      ReplaceSize(entries, p, query);
      var ret := if p < |entries| && entries[p].key == key then Some(entries[p]) else None;
      entries := ReplaceAt(entries, p, query);
      size := size + (|key| + |value| + 12);
      if ret.Some? {
        size := size - EntrySize(ret.value);
      }
    }

    method Flush() returns (es: seq<Entry>)
      requires Valid()
      modifies this
      ensures Valid() && entries == [] && es == old(entries)
    {
      es := entries;
      Clear();
    }

    method Clear()
      modifies this
      ensures Valid() && entries == []
    {
      entries, size := [], 0;
    }

    /** Leaves 50 bytes for the page header and the end record. */
    predicate CanPut(n: nat)
      reads this
    {
      size + n <= threshold - 50
    }
  }
}
