/**
 First fit on the blocks' frontiers alone: which block gives the next pages, and what is left when several
 requests are met one after the other.
 */
module Frontiers {
  import opened Prelude
  import opened BlockTable
  import opened Extents

  /** b is the first block with n pages left. */
  ghost predicate IsFirst(fr: seq<nat>, n: nat, b: nat) {
    && b < |fr| && fr[b] + n <= BLOCK
    && forall c :: 0 <= c < b ==> fr[c] + n > BLOCK
  }

  /** b is the first block with n pages left, one block not counted. */
  ghost predicate IsFirstBut(fr: seq<nat>, n: nat, b: nat, but: nat) {
    && b < |fr| && b != but && fr[b] + n <= BLOCK
    && forall c :: 0 <= c < b && c != but ==> fr[c] + n > BLOCK
  }

  /** The first block from b on with n pages left; the number of blocks if there is none. */
  ghost function FirstFrom(fr: seq<nat>, n: nat, b: nat): nat
    decreases |fr| - b
  {
    if b >= |fr| || fr[b] + n <= BLOCK then b else FirstFrom(fr, n, b + 1)
  }

  /** The frontiers after n more pages were taken from the first block that has them; nothing if none has. */
  ghost function Take(t: Option<seq<nat>>, n: nat): Option<seq<nat>> {
    if t.None? || n == 0 then t
    else
      var b := FirstFrom(t.value, n, 0);
      if b < |t.value| then Some(t.value[b := t.value[b] + n]) else None
  }

  /** The frontiers where an operation came to its end; nothing where it gave up. */
  ghost function Ended(ok: bool, fr: seq<nat>): Option<seq<nat>> {
    if ok then Some(fr) else None
  }

  lemma {:induction false} FirstFromIs(fr: seq<nat>, n: nat, b: nat, a: nat)
    requires b <= a <= |fr| && (forall c :: b <= c < a ==> fr[c] + n > BLOCK)
    requires a < |fr| ==> fr[a] + n <= BLOCK
    ensures FirstFrom(fr, n, b) == a
    decreases a - b
  {
    if b < a {
      FirstFromIs(fr, n, b + 1, a);
    }
  }

  /** Pages are taken from the first block that has them. */
  lemma TakeFirst(fr: seq<nat>, n: nat, b: nat)
    requires n > 0 && IsFirst(fr, n, b)
    ensures Take(Some(fr), n) == Some(fr[b := fr[b] + n])
  {
    FirstFromIs(fr, n, 0, b);
  }

  lemma TakeNone(fr: seq<nat>, n: nat)
    requires n > 0 && forall c :: 0 <= c < |fr| ==> fr[c] + n > BLOCK
    ensures Take(Some(fr), n) == None
  {
    FirstFromIs(fr, n, 0, |fr|);
  }

  lemma {:induction false} FirstUpTo(fr: seq<nat>, n: nat, b: nat) returns (a: nat)
    requires b < |fr| && fr[b] + n <= BLOCK
    ensures a <= b && IsFirst(fr, n, a)
    decreases b
  {
    a := b;
    if c :| 0 <= c < b && fr[c] + n <= BLOCK {
      a := FirstUpTo(fr, n, c);
    }
  }

  /** fr' is fr with n more pages taken from the first block that has them; the same for no pages. */
  ghost predicate FirstTaken(fr: seq<nat>, n: nat, fr': seq<nat>) {
    if n == 0 then fr' == fr else exists b: nat :: IsFirst(fr, n, b) && fr' == fr[b := fr[b] + n]
  }

  lemma TakeIs(fr: seq<nat>, n: nat, fr': seq<nat>)
    ensures Take(Some(fr), n) == Some(fr') <==> FirstTaken(fr, n, fr')
  {
    if n > 0 {
      TakeGoesThrough(fr, n);
      if b :| 0 <= b < |fr| && fr[b] + n <= BLOCK {
        var a := FirstUpTo(fr, n, b);
        TakeFirst(fr, n, a);
        forall c: nat | IsFirst(fr, n, c) ensures c == a { TakesOnly(fr, n, a, c); }
      }
    }
  }

  lemma TakesOnly(fr: seq<nat>, n: nat, a: nat, b: nat)
    requires IsFirst(fr, n, a) && IsFirst(fr, n, b)
    ensures a == b
  {}

  /** Each of three requests in a row finds a first block after the ones before. */
  ghost predicate AllInTurn(fr: seq<nat>, k: nat, l: nat, m: nat) {
    exists a, b, c :: FirstTaken(fr, k, a) && FirstTaken(a, l, b) && FirstTaken(b, m, c)
  }

  lemma TakesInTurn(fr: seq<nat>, k: nat, l: nat, m: nat)
    ensures Take(Take(Take(Some(fr), k), l), m).Some? <==> AllInTurn(fr, k, l, m)
  {
    forall a, b, c | FirstTaken(fr, k, a) && FirstTaken(a, l, b) && FirstTaken(b, m, c)
      ensures Take(Take(Take(Some(fr), k), l), m) == Some(c)
    {
      TakeIs(fr, k, a);
      TakeIs(a, l, b);
      TakeIs(b, m, c);
    }
    if Take(Take(Take(Some(fr), k), l), m).Some? {
      var a := Take(Some(fr), k).value;
      var b := Take(Some(a), l).value;
      TakeIs(fr, k, a);
      TakeIs(a, l, b);
      TakeIs(b, m, Take(Some(b), m).value);
    }
  }

  /** The pieces of a write need not go to one block: 1, 20 and 20 pages fit where no block has 41. */
  lemma PiecesSpread()
    ensures Take(Take(Take(Some([100, 100]), 1), 20), 20) == Some([121, 120])
    ensures MostFree([100, 100]) < 41
  {
    TakeFirst([100, 100], 1, 0);
    assert [100, 100][0 := 101] == [101, 100];
    TakeFirst([101, 100], 20, 0);
    assert [101, 100][0 := 121] == [121, 100];
    TakeFirst([121, 100], 20, 1);
    assert [121, 100][1 := 120] == [121, 120];
    assert [100, 100][..1] == [100] && [100][..0] == [];
  }

  /** Taking goes through exactly if some block has the pages. */
  lemma TakeGoesThrough(fr: seq<nat>, n: nat)
    ensures n > 0 ==> (Take(Some(fr), n).Some? <==> exists b :: 0 <= b < |fr| && fr[b] + n <= BLOCK)
  {
    if n > 0 {
      if b :| 0 <= b < |fr| && fr[b] + n <= BLOCK {
        var a := FirstUpTo(fr, n, b);
        TakeFirst(fr, n, a);
      } else {
        TakeNone(fr, n);
      }
    }
  }

  /** If one block has n + room pages, n can be taken, from wherever, and some block has room pages left. */
  lemma TakeLeaves(fr: seq<nat>, n: nat, room: nat)
    requires MostFree(fr) >= n + room
    ensures Take(Some(fr), n).Some? && MostFree(Take(Some(fr), n).value) >= room
  {
    if n > 0 {
      var b := MostFreeAt(fr);
      var a := FirstUpTo(fr, n, b);
      TakeFirst(fr, n, a);
      MostFreeFits(fr[a := fr[a] + n], b);
    }
  }

  /** The pages that all blocks together have left. */
  ghost function Free(fr: seq<nat>): nat {
    if |fr| == 0 then 0
    else Free(fr[..|fr| - 1]) + if fr[|fr| - 1] <= BLOCK then BLOCK - fr[|fr| - 1] else 0
  }

  lemma {:induction false} FreeLess(fr: seq<nat>, b: nat)
    requires b < |fr| && fr[b] + 1 <= BLOCK
    ensures Free(fr) == Free(fr[b := fr[b] + 1]) + 1
  {
    var n := |fr| - 1;
    if b < n {
      FreeLess(fr[..n], b);
      assert fr[b := fr[b] + 1][..n] == fr[..n][b := fr[b] + 1];
    } else {
      assert fr[b := fr[b] + 1][..n] == fr[..n];
    }
  }

  lemma {:induction false} NoneFree(fr: seq<nat>)
    requires forall b :: 0 <= b < |fr| ==> fr[b] + 1 > BLOCK
    ensures Free(fr) == 0
  {
    if |fr| != 0 {
      NoneFree(fr[..|fr| - 1]);
    }
  }

  /** A single page can be taken exactly if any is left, and then one fewer is. */
  lemma TakeOne(fr: seq<nat>)
    ensures match Take(Some(fr), 1)
      case None => Free(fr) == 0
      case Some(fr') => Free(fr) == Free(fr') + 1
  {
    if b :| 0 <= b < |fr| && fr[b] + 1 <= BLOCK {
      var a := FirstUpTo(fr, 1, b);
      TakeFirst(fr, 1, a);
      FreeLess(fr, a);
    } else {
      TakeNone(fr, 1);
      NoneFree(fr);
    }
  }

  lemma {:induction false} AllFree(size: nat)
    ensures Free(seq(size, i => 0)) == size * BLOCK
  {
    if size != 0 {
      AllFree(size - 1);
      assert seq(size, i => 0)[..size - 1] == seq(size - 1, i => 0);
    }
  }
}
