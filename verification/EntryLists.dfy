/** Editing an object's list of extents: removing by page pointer, putting pieces in, adding up lengths. */
module EntryLists {
  import opened Prelude
  import opened Extents
  import opened ExtentCuts

  ghost function Pointers(es: seq<Extent>): seq<nat> {
    seq(|es|, i requires 0 <= i < |es| => es[i].pagePointer)
  }

  function InsertAt<T>(s: seq<T>, i: nat, x: T): seq<T>
    requires i <= |s|
  {
    s[..i] + [x] + s[i..]
  }

  ghost predicate DistinctPointers(es: seq<Extent>) {
    forall i, j :: 0 <= i < j < |es| ==> es[i].pagePointer != es[j].pagePointer
  }

  /** Removes the first extent with the given page pointer, if there is one. */
  method RemovePointer(es: seq<Extent>, pointer: nat, ghost at: nat) returns (r: seq<Extent>)
    requires at < |es| && DistinctPointers(es) && es[at].pagePointer == pointer
    ensures r == RemoveAt(es, at)
  {
    r := es;
    for i := 0 to |es|
      invariant i <= at && r == es
    {
      if es[i].pagePointer == pointer {
        r := RemoveAt(es, i);
        return;
      }
    }
  }

  /** Without the j extents from lo on: pointers still differ, and the next one to go stands at lo. */
  lemma WithoutSome(es: seq<Extent>, lo: nat, j: nat)
    requires DistinctPointers(es) && lo + j < |es|
    ensures var r := es[..lo] + es[lo + j..];
      DistinctPointers(r) && r[lo] == es[lo + j] && RemoveAt(r, lo) == es[..lo] + es[lo + j + 1..]
  {
    var r := es[..lo] + es[lo + j..];
    forall a, b | 0 <= a < b < |r| ensures r[a].pagePointer != r[b].pagePointer {
      assert es[if a < lo then a else a + j].pagePointer != es[if b < lo then b else b + j].pagePointer;
    }
  }

  /** Removes the touched extents, one pointer after the other. */
  method RemoveTouched(es: seq<Extent>, removeList: seq<nat>, ghost lo: nat, ghost hi: nat) returns (r: seq<Extent>)
    requires lo <= hi <= |es| && DistinctPointers(es) && removeList == Pointers(es[lo..hi])
    ensures r == es[..lo] + es[hi..]
  {
    r := es;
    assert es[..lo] + es[lo + 0..] == es;
    for j := 0 to |removeList|
      invariant r == es[..lo] + es[lo + j..]
    {
      WithoutSome(es, lo, j);
      r := RemovePointer(r, removeList[j], lo);
    }
  }

  /** Puts the pieces where the touched extents were. */
  method InsertPieces(rest: seq<Extent>, insertIndex: int, first: Option<Extent>, added: Option<Extent>,
                      second: Option<Extent>)
      returns (r: seq<Extent>)
    requires -1 <= insertIndex <= |rest|
    ensures var at := if insertIndex == -1 then |rest| else insertIndex;
      r == rest[..at] + OptSeq(first) + OptSeq(added) + OptSeq(second) + rest[at..]
  {
    var index: nat := if insertIndex == -1 then |rest| else insertIndex;
    ghost var head, tail := rest[..index], rest[index..];
    r := rest;
    assert r == head + tail;
    if first.Some? {
      InsertBetween(r, head, tail, index, first.value);
      r := InsertAt(r, index, first.value);
      index := index + 1;
    }
    ghost var head1 := head + OptSeq(first);
    assert r == head1 + tail && index == |head1|;
    if added.Some? {
      InsertBetween(r, head1, tail, index, added.value);
      r := InsertAt(r, index, added.value);
      index := index + 1;
    }
    ghost var head2 := head1 + OptSeq(added);
    assert r == head2 + tail && index == |head2|;
    if second.Some? {
      InsertBetween(r, head2, tail, index, second.value);
      r := InsertAt(r, index, second.value);
    }
  }

  lemma InsertBetween(r: seq<Extent>, head: seq<Extent>, tail: seq<Extent>, i: nat, e: Extent)
    requires r == head + tail && i == |head|
    ensures InsertAt(r, i, e) == head + [e] + tail
  {}

  method TotalLen(es: seq<Extent>) returns (len: nat)
    ensures len == SumLen(es)
  {
    len := 0;
    for i := 0 to |es|
      invariant len == SumLen(es[..i])
    {
      assert es[..i + 1][..i] == es[..i];
      len := len + es[i].len;
    }
    assert es[..|es|] == es;
  }
}
