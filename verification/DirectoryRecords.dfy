/**
 Directory records: 259 bytes, a big-endian inode number and a name padded with NULs to 255 bytes.  A directory
 is a list of them, and stands for a map from names to inode numbers.
 */
module DirectoryRecords {
  import opened Prelude
  import opened SstRecord
  import opened ExtentCuts
  import opened ExtentDeletes

  const NAME: nat := 255

  datatype DirectoryInodeEntry = DirectoryInodeEntry(fileName: Bytes, ino: nat)

  predicate GoodName(name: Bytes) {
    1 <= |name| <= NAME && 0 !in name
  }

  function PadName(name: Bytes): (r: Bytes)
    ensures |r| == NAME
  {
    if |name| >= NAME then name[..NAME] else name + seq(NAME - |name|, i => 0)
  }

  function EncodeRecord(e: DirectoryInodeEntry): (r: Bytes)
    ensures |r| == 259
  {
    EncodeU32(e.ino) + PadName(e.fileName)
  }

  function NonZero(b: Bytes): (n: nat)
    ensures n <= |b|
  {
    if |b| == 0 then 0 else NonZero(b[..|b| - 1]) + if b[|b| - 1] != 0 then 1 else 0
  }

  /** The name is as many bytes as there are bytes other than NUL; a record without any is refused. */
  function DecodeRecord(buf: Bytes): Option<DirectoryInodeEntry>
    requires |buf| == 259
  {
    var len := NonZero(buf[4..]);
    if len == 0 then None else Some(DirectoryInodeEntry(buf[4..4 + len], DecodeU32(buf[..4])))
  }

  lemma {:induction false} NonZeroConcat(a: Bytes, b: Bytes)
    ensures NonZero(a + b) == NonZero(a) + NonZero(b)
  {
    if |b| == 0 {
      assert a + b == a;
    } else {
      assert (a + b)[..|a + b| - 1] == a + b[..|b| - 1];
      NonZeroConcat(a, b[..|b| - 1]);
    }
  }

  lemma {:induction false} NonZeroAll(b: Bytes)
    ensures NonZero(b) == |b| <==> 0 !in b
  {
    if |b| != 0 {
      var n := |b| - 1;
      NonZeroAll(b[..n]);
      assert b == b[..n] + [b[n]];
    }
  }

  lemma {:induction false} NonZeroPadding(n: nat)
    ensures NonZero(seq(n, i => 0 as byte)) == 0
  {
    if n != 0 {
      NonZeroPadding(n - 1);
      assert seq(n, i => 0 as byte)[..n - 1] == seq(n - 1, i => 0 as byte);
    }
  }

  /** A record reads back as it was written exactly if its name has 1 to 255 bytes and no NUL. */
  lemma RecordRoundTrip(e: DirectoryInodeEntry)
    requires e.ino < TWO_32
    ensures DecodeRecord(EncodeRecord(e)) == Some(e) <==> GoodName(e.fileName)
  {
    var r, name := EncodeRecord(e), e.fileName;
    assert r[..4] == EncodeU32(e.ino) && r[4..] == PadName(name);
    DecodeEncodeU32(e.ino);
    if |name| <= NAME {
      assert PadName(name) == name + seq(NAME - |name|, i => 0);
      NonZeroConcat(name, seq(NAME - |name|, i => 0));
      NonZeroPadding(NAME - |name|);
      NonZeroAll(name);
      assert r[4..4 + |name|] == name;
    }
  }

  method Encode(entry: DirectoryInodeEntry) returns (res: Bytes)
    ensures res == EncodeRecord(entry)
  {
    res := EncodeU32(entry.ino);
    var name := entry.fileName;
    while |name| < NAME
      invariant name == entry.fileName + seq(|name| - |entry.fileName|, i => 0) && |entry.fileName| <= |name|
      invariant |name| <= NAME || name == entry.fileName
    {
      name := name + [0];
    }
    for i := 0 to NAME
      invariant res == EncodeU32(entry.ino) + name[..i]
    {
      res := res + [name[i]];
    }
    assert name[..NAME] == PadName(entry.fileName);
  }

  /** None where the program stops at a record without a name. */
  method Decode(buf: Bytes) returns (r: Option<DirectoryInodeEntry>)
    requires |buf| == 259
    ensures r == DecodeRecord(buf)
  {
    var ino := DecodeU32(buf[0..4]);
    var len := 0;
    for i := 4 to 259
      invariant len == NonZero(buf[4..i])
    {
      assert buf[4..i + 1][..i - 4] == buf[4..i];
      if buf[i] != 0 {
        len := len + 1;
      }
    }
    assert buf[4..259] == buf[4..];
    if len == 0 {
      return None;
    }
    r := Some(DirectoryInodeEntry(buf[4..4 + len], ino));
  }

  // ----- lists of records

  /** The bytes of blocks in a row. */
  function Flat(rs: seq<Bytes>): Bytes {
    if |rs| == 0 then [] else Flat(rs[..|rs| - 1]) + rs[|rs| - 1]
  }

  ghost predicate AllRecords(rs: seq<Bytes>) {
    forall k :: 0 <= k < |rs| ==> |rs[k]| == 259
  }

  lemma {:induction false} FlatLength(rs: seq<Bytes>)
    requires AllRecords(rs)
    ensures |Flat(rs)| == 259 * |rs|
  {
    if |rs| != 0 {
      FlatLength(rs[..|rs| - 1]);
    }
  }

  lemma {:induction false} FlatConcat(s: seq<Bytes>, t: seq<Bytes>)
    ensures Flat(s + t) == Flat(s) + Flat(t)
  {
    if |t| == 0 {
      assert s + t == s;
    } else {
      var u, r := t[..|t| - 1], t[|t| - 1];
      FlatConcat(s, u);
      assert (s + t)[..|s + t| - 1] == s + u;
      AppendLast(Flat(s), Flat(u), r);
    }
  }

  lemma AppendLast(a: Bytes, b: Bytes, c: Bytes)
    ensures a + b + c == a + (b + c)
  {}

  lemma FlatJoin(s: seq<Bytes>, t: seq<Bytes>, rs: seq<Bytes>)
    requires rs == s + t
    ensures Flat(rs) == Flat(s) + Flat(t)
  {
    FlatConcat(s, t);
  }

  lemma FlatOne(r: Bytes)
    ensures Flat([r]) == r
  {
    assert [r][..0] == [];
  }

  /** The bytes before, of and after a block. */
  lemma FlatParts(s: seq<Bytes>, r: Bytes, t: seq<Bytes>, rs: seq<Bytes>)
    requires rs == s + ([r] + t)
    ensures Flat(rs) == Flat(s) + (r + Flat(t))
  {
    FlatJoin(s, [r] + t, rs);
    FlatJoin([r], t, [r] + t);
    FlatOne(r);
  }

  lemma FlatWithin(s: seq<Bytes>, r: Bytes, t: seq<Bytes>, rs: seq<Bytes>)
    requires rs == s + ([r] + t) && AllRecords(s) && |r| == 259
    ensures 259 * |s| + 259 <= |Flat(rs)| && Flat(rs)[259 * |s|..259 * |s| + 259] == r
  {
    FlatLength(s);
    FlatParts(s, r, t, rs);
    MiddlePart(Flat(s), r, Flat(t));
  }

  lemma FlatWithout(s: seq<Bytes>, r: Bytes, t: seq<Bytes>, rs: seq<Bytes>, d: seq<Bytes>, off: nat)
    requires rs == s + ([r] + t) && d == s + t && AllRecords(s) && |r| == 259 && off == 259 * |s|
    ensures off <= |Flat(rs)| && Removed(Flat(rs), off, off + 259) == Flat(d)
  {
    FlatLength(s);
    FlatParts(s, r, t, rs);
    FlatJoin(s, t, d);
    TakeOut(Flat(s), r, Flat(t), Flat(rs), Flat(d), off);
  }

  lemma MiddlePart(a: Bytes, x: Bytes, b: Bytes)
    ensures (a + (x + b))[|a|..|a| + |x|] == x
  {}

  lemma TakeOut(a: Bytes, x: Bytes, b: Bytes, whole: Bytes, rest: Bytes, off: nat)
    requires whole == a + (x + b) && rest == a + b && off == |a| && |x| == 259
    ensures off <= |whole| && Removed(whole, off, off + 259) == rest
  {}

  function Records(es: seq<DirectoryInodeEntry>): (rs: seq<Bytes>)
    ensures |rs| == |es| && AllRecords(rs)
  {
    seq(|es|, i requires 0 <= i < |es| => EncodeRecord(es[i]))
  }

  /** The bytes of a directory. */
  function EncodeListing(es: seq<DirectoryInodeEntry>): (r: Bytes)
    ensures |r| == 259 * |es|
  {
    FlatLength(Records(es));
    Flat(Records(es))
  }

  lemma ListingAppend(es: seq<DirectoryInodeEntry>, e: DirectoryInodeEntry)
    ensures EncodeListing(es + [e]) == EncodeListing(es) + EncodeRecord(e)
  {
    assert Records(es + [e])[..|es|] == Records(es);
  }

  /** The bytes of the i-th record. */
  lemma ListingAround(es: seq<DirectoryInodeEntry>, i: nat)
    requires i < |es|
    ensures 259 * i + 259 <= |EncodeListing(es)|
    ensures EncodeListing(es)[259 * i..259 * i + 259] == EncodeRecord(es[i])
  {
    var rs := Records(es);
    RecordsAround(es, i);
    FlatWithin(rs[..i], rs[i], rs[i + 1..], rs);
  }

  function Dropped(es: seq<DirectoryInodeEntry>, i: nat): seq<DirectoryInodeEntry>
    requires i < |es|
  {
    es[..i] + es[i + 1..]
  }

  /** Taking a record's bytes out takes the record out. */
  lemma ListingDrop(es: seq<DirectoryInodeEntry>, i: nat)
    requires i < |es|
    ensures 259 * i <= |EncodeListing(es)|
    ensures Removed(EncodeListing(es), 259 * i, 259 * i + 259) == EncodeListing(Dropped(es, i))
  {
    var rs := Records(es);
    RecordsAround(es, i);
    RecordsDropped(es, i);
    FlatWithout(rs[..i], rs[i], rs[i + 1..], rs, Records(Dropped(es, i)), 259 * i);
  }

  lemma RecordsAround(es: seq<DirectoryInodeEntry>, i: nat)
    requires i < |es|
    ensures var rs := Records(es); rs == rs[..i] + ([rs[i]] + rs[i + 1..]) && AllRecords(rs[..i]) && |rs[i]| == 259
  {}

  lemma RecordsDropped(es: seq<DirectoryInodeEntry>, i: nat)
    requires i < |es|
    ensures Records(Dropped(es, i)) == Records(es)[..i] + Records(es)[i + 1..]
  {}

  lemma SpliceEnd(b: Bytes, value: Bytes)
    ensures Splice(b, |b|, value) == b + value
  {}

  // ----- a directory as a finite map

  ghost predicate GoodEntries(es: seq<DirectoryInodeEntry>) {
    && (forall e :: e in es ==> GoodName(e.fileName) && 0 < e.ino < TWO_32)
    && (forall i, j :: 0 <= i < j < |es| ==> es[i].fileName != es[j].fileName)
  }

  /** What the records say, name by name. */
  ghost function Table(es: seq<DirectoryInodeEntry>): map<Bytes, nat> {
    if |es| == 0 then map[] else Table(es[..|es| - 1])[es[|es| - 1].fileName := es[|es| - 1].ino]
  }

  ghost function FindFrom(es: seq<DirectoryInodeEntry>, name: Bytes, i: nat): Option<(nat, nat)>
    decreases |es| - i
  {
    if i >= |es| then None
    else if es[i].ino != 0 && es[i].fileName == name then Some((es[i].ino, i))
    else FindFrom(es, name, i + 1)
  }

  /** The first record of that name, with its position. */
  ghost function FindName(es: seq<DirectoryInodeEntry>, name: Bytes): Option<(nat, nat)> {
    FindFrom(es, name, 0)
  }

  lemma {:induction false} TableHas(es: seq<DirectoryInodeEntry>, name: Bytes)
    requires GoodEntries(es)
    ensures name in Table(es) <==> exists i :: 0 <= i < |es| && es[i].fileName == name
    ensures forall i :: 0 <= i < |es| ==> es[i].fileName in Table(es) && Table(es)[es[i].fileName] == es[i].ino
  {
    if |es| != 0 {
      var n := |es| - 1;
      TableHas(es[..n], name);
      forall i | 0 <= i < n
        ensures es[i].fileName in Table(es[..n]) && Table(es[..n])[es[i].fileName] == es[i].ino
      {
        assert es[..n][i] == es[i];
      }
      if name in Table(es[..n]) {
        var i :| 0 <= i < n && es[..n][i].fileName == name;
        assert es[i].fileName == name;
      }
    }
  }

  lemma {:induction false} FindFromFinds(es: seq<DirectoryInodeEntry>, name: Bytes, i: nat)
    requires GoodEntries(es)
    ensures match FindFrom(es, name, i)
      case Some((ino, k)) => i <= k < |es| && es[k] == DirectoryInodeEntry(name, ino)
      case None => forall k :: i <= k < |es| ==> es[k].fileName != name
    decreases |es| - i
  {
    if i < |es| {
      FindFromFinds(es, name, i + 1);
      assert es[i] in es;
    }
  }

  /** Lookup agrees with the map. */
  lemma LookupAgrees(es: seq<DirectoryInodeEntry>, name: Bytes)
    requires GoodEntries(es)
    ensures FindName(es, name).Some? <==> name in Table(es)
    ensures FindName(es, name).Some? ==> FindName(es, name).value.0 == Table(es)[name]
  {
    FindFromFinds(es, name, 0);
    TableHas(es, name);
  }

  // ----- link and unlink

  datatype DirOp = Link(ino: nat, name: Bytes) | Unlink(ino: nat, name: Bytes)

  ghost predicate GoodOp(op: DirOp) {
    op.Link? ==> GoodName(op.name) && 0 < op.ino < TWO_32
  }

  /** What linking and unlinking do to the list of records. */
  ghost function Apply(es: seq<DirectoryInodeEntry>, op: DirOp): seq<DirectoryInodeEntry> {
    var found := FindName(es, op.name);
    match op
    case Link(ino, name) => if found.Some? then es else es + [DirectoryInodeEntry(name, ino)]
    case Unlink(ino, name) =>
      if found.Some? && found.value.0 == ino && found.value.1 < |es| then Dropped(es, found.value.1) else es
  }

  /** And to the map: a name in use keeps its inode, and only the right inode's name is taken out. */
  ghost function ApplyTable(t: map<Bytes, nat>, op: DirOp): map<Bytes, nat> {
    match op
    case Link(ino, name) => if name in t then t else t[name := ino]
    case Unlink(ino, name) => if name in t && t[name] == ino then t - {name} else t
  }

  lemma GoodDropped(es: seq<DirectoryInodeEntry>, i: nat)
    requires GoodEntries(es) && i < |es|
    ensures GoodEntries(Dropped(es, i))
  {
    var d := Dropped(es, i);
    forall e | e in d ensures e in es {}
    forall j, k | 0 <= j < k < |d| ensures d[j].fileName != d[k].fileName {
      assert d[j] == es[if j < i then j else j + 1] && d[k] == es[if k < i then k else k + 1];
    }
  }

  /** The record that puts a name into the map. */
  lemma NamedBy(es: seq<DirectoryInodeEntry>, name: Bytes) returns (k: nat)
    requires GoodEntries(es) && name in Table(es)
    ensures k < |es| && es[k].fileName == name && Table(es)[name] == es[k].ino
  {
    TableHas(es, name);
    k :| 0 <= k < |es| && es[k].fileName == name;
  }

  lemma NamesIt(es: seq<DirectoryInodeEntry>, k: nat)
    requires GoodEntries(es) && k < |es|
    ensures es[k].fileName in Table(es) && Table(es)[es[k].fileName] == es[k].ino
  {
    TableHas(es, es[k].fileName);
  }

  lemma DroppedAt(es: seq<DirectoryInodeEntry>, i: nat, k: nat)
    requires i < |es| && k < |es| && k != i
    ensures var d, j := Dropped(es, i), if k < i then k else k - 1; 0 <= j < |d| && d[j] == es[k]
  {}

  lemma DroppedFrom(es: seq<DirectoryInodeEntry>, i: nat, j: nat)
    requires i < |es| && j < |es| - 1
    ensures var k := if j < i then j else j + 1; k != i && k < |es| && Dropped(es, i)[j] == es[k]
  {}

  lemma DroppedKeeps(es: seq<DirectoryInodeEntry>, i: nat, name: Bytes)
    requires GoodEntries(es) && i < |es| && GoodEntries(Dropped(es, i)) && name in Table(es) && name != es[i].fileName
    ensures name in Table(Dropped(es, i))
  {
    var k := NamedBy(es, name);
    DroppedAt(es, i, k);
    NamesIt(Dropped(es, i), if k < i then k else k - 1);
  }

  lemma DroppedKeys(es: seq<DirectoryInodeEntry>, i: nat)
    requires GoodEntries(es) && i < |es| && GoodEntries(Dropped(es, i))
    ensures forall name :: name in Table(es) && name != es[i].fileName ==> name in Table(Dropped(es, i))
  {
    forall name | name in Table(es) && name != es[i].fileName ensures name in Table(Dropped(es, i)) {
      DroppedKeeps(es, i, name);
    }
  }

  lemma DroppedValues(es: seq<DirectoryInodeEntry>, i: nat)
    requires GoodEntries(es) && i < |es| && GoodEntries(Dropped(es, i))
    ensures forall name :: name in Table(Dropped(es, i)) ==>
      name in Table(es) && name != es[i].fileName && Table(Dropped(es, i))[name] == Table(es)[name]
  {
    forall name | name in Table(Dropped(es, i))
      ensures name in Table(es) && name != es[i].fileName && Table(Dropped(es, i))[name] == Table(es)[name]
    {
      DroppedNamed(es, i, name);
    }
  }

  lemma MapLess(t: map<Bytes, nat>, t': map<Bytes, nat>, name: Bytes)
    requires forall n :: n in t && n != name ==> n in t'
    requires forall n :: n in t' ==> n in t && n != name && t'[n] == t[n]
    ensures t' == t - {name}
  {}

  lemma DroppedTable(es: seq<DirectoryInodeEntry>, i: nat)
    requires GoodEntries(es) && i < |es|
    ensures GoodEntries(Dropped(es, i)) && Table(Dropped(es, i)) == Table(es) - {es[i].fileName}
  {
    GoodDropped(es, i);
    DroppedKeys(es, i);
    DroppedValues(es, i);
    MapLess(Table(es), Table(Dropped(es, i)), es[i].fileName);
  }

  lemma DroppedNamed(es: seq<DirectoryInodeEntry>, i: nat, name: Bytes)
    requires GoodEntries(es) && i < |es| && GoodEntries(Dropped(es, i)) && name in Table(Dropped(es, i))
    ensures name in Table(es) && name != es[i].fileName && Table(Dropped(es, i))[name] == Table(es)[name]
  {
    var j := NamedBy(Dropped(es, i), name);
    DroppedFrom(es, i, j);
    var k := if j < i then j else j + 1;
    NamesIt(es, k);
    DifferentNames(es, i, k);
  }

  lemma DifferentNames(es: seq<DirectoryInodeEntry>, i: nat, k: nat)
    requires GoodEntries(es) && i < |es| && k < |es| && i != k
    ensures es[i].fileName != es[k].fileName
  {
    var a, b := if i < k then i else k, if i < k then k else i;
    assert es[a].fileName != es[b].fileName;
  }

  /** One operation does to the map what it should, and keeps names unique. */
  lemma ApplyAgrees(es: seq<DirectoryInodeEntry>, op: DirOp)
    requires GoodEntries(es) && GoodOp(op)
    ensures GoodEntries(Apply(es, op)) && Table(Apply(es, op)) == ApplyTable(Table(es), op)
  {
    LookupAgrees(es, op.name);
    FindFromFinds(es, op.name, 0);
    var found := FindName(es, op.name);
    if op.Link? && found.None? {
      LinkedTable(es, DirectoryInodeEntry(op.name, op.ino));
    } else if op.Unlink? && found.Some? {
      DroppedTable(es, found.value.1);
    }
  }

  lemma LinkedTable(es: seq<DirectoryInodeEntry>, e: DirectoryInodeEntry)
    requires GoodEntries(es) && GoodName(e.fileName) && 0 < e.ino < TWO_32
    requires forall k :: 0 <= k < |es| ==> es[k].fileName != e.fileName
    ensures GoodEntries(es + [e]) && Table(es + [e]) == Table(es)[e.fileName := e.ino]
  {
    assert (es + [e])[..|es|] == es;
  }

  ghost function ApplyAll(es: seq<DirectoryInodeEntry>, ops: seq<DirOp>): seq<DirectoryInodeEntry> {
    if |ops| == 0 then es else Apply(ApplyAll(es, ops[..|ops| - 1]), ops[|ops| - 1])
  }

  ghost function ApplyAllTable(t: map<Bytes, nat>, ops: seq<DirOp>): map<Bytes, nat> {
    if |ops| == 0 then t else ApplyTable(ApplyAllTable(t, ops[..|ops| - 1]), ops[|ops| - 1])
  }

  /** Over any run from an empty directory, lookup agrees with the map and names stay unique. */
  lemma {:induction false} EveryRunIsAMap(ops: seq<DirOp>, name: Bytes)
    requires forall op :: op in ops ==> GoodOp(op)
    ensures GoodEntries(ApplyAll([], ops)) && Table(ApplyAll([], ops)) == ApplyAllTable(map[], ops)
    ensures var found, t := FindName(ApplyAll([], ops), name), ApplyAllTable(map[], ops);
      (found.Some? <==> name in t) && (found.Some? ==> found.value.0 == t[name])
  {
    if |ops| != 0 {
      EveryRunIsAMap(ops[..|ops| - 1], name);
      ApplyAgrees(ApplyAll([], ops[..|ops| - 1]), ops[|ops| - 1]);
    }
    LookupAgrees(ApplyAll([], ops), name);
  }
}
