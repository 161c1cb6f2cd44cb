/**
 Packing codes into bytes and greedy decoding.

 The decoder does not know how many padding bits end the last byte, and decodes them too.  What it
 returns is therefore the text followed by one more leftmost symbol for every complete all-zero code
 that fits in the padding (DecodeEncode).
 */
module HuffmanCodec {
  import opened Prelude
  import opened PrefixCodes
  import opened HuffmanForest
  import opened HuffmanTable
  import opened Huffman

  // ----- bits

  /** The low count bits of buf, most significant first. */
  function Low(buf: nat, count: nat): Code {
    if count == 0 then [] else Low(buf / 2, count - 1) + [buf % 2 == 1]
  }

  function BitsOf(bytes: seq<byte>): Code {
    if |bytes| == 0 then [] else BitsOf(bytes[..|bytes| - 1]) + Low(bytes[|bytes| - 1] as nat, 8)
  }

  function Bits(codes: map<char, Code>, s: seq<char>): Code
    requires forall i :: 0 <= i < |s| ==> s[i] in codes
  {
    if |s| == 0 then [] else Bits(codes, s[..|s| - 1]) + codes[s[|s| - 1]]
  }

  function Zeros(n: nat): Code {
    seq(n, i => false)
  }

  /** The number of zero bits that fill up the last byte. */
  function Padding(n: nat): nat {
    (8 - n % 8) % 8
  }

  /** The bytes hold the codes of s in a row, and the last byte is filled up with zeros. */
  ghost predicate Encodes(codes: map<char, Code>, s: seq<char>, bytes: seq<byte>) {
    && (forall i :: 0 <= i < |s| ==> s[i] in codes)
    && BitsOf(bytes) == Bits(codes, s) + Zeros(Padding(|Bits(codes, s)|))
  }

  lemma {:induction false} LowLength(buf: nat, count: nat)
    ensures |Low(buf, count)| == count
  {
    if count != 0 {
      LowLength(buf / 2, count - 1);
    }
  }

  lemma {:induction false} BitsOfLength(bytes: seq<byte>)
    ensures |BitsOf(bytes)| == 8 * |bytes|
  {
    if |bytes| != 0 {
      BitsOfLength(bytes[..|bytes| - 1]);
      LowLength(bytes[|bytes| - 1] as nat, 8);
    }
  }

  lemma BitsOfSnoc(bytes: seq<byte>, b: byte)
    ensures BitsOf(bytes + [b]) == BitsOf(bytes) + Low(b as nat, 8)
  {
    assert (bytes + [b])[..|bytes|] == bytes;
  }

  lemma {:induction false} LowShift(buf: nat, count: nat, space: nat)
    ensures Low(buf * Pow2(space), count + space) == Low(buf, count) + Zeros(space)
  {
    if space != 0 {
      var half := buf * Pow2(space - 1);
      assert buf * Pow2(space) == 2 * half;
      LowShift(buf, count, space - 1);
      assert Zeros(space) == Zeros(space - 1) + [false];
    } else {
      assert Low(buf, count) + Zeros(0) == Low(buf, count);
    }
  }

  lemma ShiftFits(buf: nat, count: nat)
    requires count < 8 && buf < Pow2(count)
    ensures buf * Pow2(8 - count) < 256
  {
    assert Pow2(0) == 1 && Pow2(1) == 2 && Pow2(2) == 4 && Pow2(3) == 8 && Pow2(4) == 16;
    assert Pow2(5) == 32 && Pow2(6) == 64 && Pow2(7) == 128 && Pow2(8) == 256;
  }

  // ----- encoding

  lemma ByteBound(count: nat)
    requires count < 8
    ensures Pow2(count + 1) == 2 * Pow2(count) <= 256
  {
    assert Pow2(0) == 1 && Pow2(1) == 2 && Pow2(2) == 4 && Pow2(3) == 8 && Pow2(4) == 16;
    assert Pow2(5) == 32 && Pow2(6) == 64 && Pow2(7) == 128 && Pow2(8) == 256;
  }

  lemma LowNext(buf: nat, count: nat, b: bool)
    ensures Low(buf * 2 + if b then 1 else 0, count + 1) == Low(buf, count) + [b]
  {
    var next := buf * 2 + if b then 1 else 0;
    assert next / 2 == buf && (next % 2 == 1) == b;
  }

  lemma PushLow(buf: nat, count: nat, b: bool)
    requires count < 8 && buf < Pow2(count)
    ensures var next := buf * 2 + if b then 1 else 0;
      next < Pow2(count + 1) <= 256 && Low(next, count + 1) == Low(buf, count) + [b]
  {
    ByteBound(count);
    LowNext(buf, count, b);
  }

  /** What one more bit does to the byte being filled: shift left, set the low bit, hand over a full byte. */
  method PushBit(result: seq<byte>, buf: nat, count: nat, b: bool)
      returns (result': seq<byte>, buf': nat, count': nat)
    requires count < 8 && buf < Pow2(count)
    ensures count' < 8 && buf' < Pow2(count')
    ensures BitsOf(result') + Low(buf', count') == BitsOf(result) + Low(buf, count) + [b]
  {
    PushLow(buf, count, b);
    assert 0 < Pow2(0);
    var shifted := (buf * 2) % 256;
    assert shifted == buf * 2;
    result', buf', count' := result, if b then shifted + 1 else shifted, count + 1;
    AppendAssociates(BitsOf(result), Low(buf, count), [b]);
    if count' >= 8 {
      ByteDone(result, buf');
      result', buf', count' := result + [buf' as byte], 0, 0;
    }
  }

  lemma ByteDone(result: seq<byte>, buf: nat)
    requires buf < 256
    ensures BitsOf(result + [buf as byte]) + Low(0, 0) == BitsOf(result) + Low(buf, 8)
  {
    BitsOfSnoc(result, buf as byte);
  }

  method PushCode(result: seq<byte>, buf: nat, count: nat, code: Code)
      returns (result': seq<byte>, buf': nat, count': nat)
    requires count < 8 && buf < Pow2(count)
    ensures count' < 8 && buf' < Pow2(count')
    ensures BitsOf(result') + Low(buf', count') == BitsOf(result) + Low(buf, count) + code
  {
    ghost var before := BitsOf(result) + Low(buf, count);
    result', buf', count' := result, buf, count;
    for j := 0 to |code|
      invariant count' < 8 && buf' < Pow2(count')
      invariant BitsOf(result') + Low(buf', count') == before + code[..j]
    {
      result', buf', count' := PushBit(result', buf', count', code[j]);
      assert before + code[..j] + [code[j]] == before + code[..j + 1];
    }
    assert code[..|code|] == code;
  }

  /** Packs the text; None where it holds a symbol without a code. */
  method Encode(codes: map<char, Code>, source: seq<char>) returns (r: Option<seq<byte>>)
    ensures r.Some? <==> forall i :: 0 <= i < |source| ==> source[i] in codes
    ensures r.Some? ==> Encodes(codes, source, r.value)
  {
    var result: seq<byte> := [];
    var buf: nat, count: nat := 0, 0;
    for i := 0 to |source|
      invariant count < 8 && buf < Pow2(count)
      invariant forall k :: 0 <= k < i ==> source[k] in codes
      invariant BitsOf(result) + Low(buf, count) == Bits(codes, source[..i])
    {
      if source[i] !in codes {
        return None;
      }
      result, buf, count := PushCode(result, buf, count, codes[source[i]]);
      assert source[..i + 1][..i] == source[..i];
    }
    assert source[..|source|] == source;
    if count != 0 {
      FinishByte(codes, source, result, buf, count);
      result := result + [LastByte(buf, count)];
    } else {
      WholeBytes(codes, source, result);
    }
    r := Some(result);
  }

  function PowerOfTwo(n: nat): (r: nat)
    ensures r == Pow2(n)
  {
    if n == 0 then 1 else 2 * PowerOfTwo(n - 1)
  }

  /** The last byte: what is left in the buffer, shifted to the top. */
  function LastByte(buf: nat, count: nat): byte
    requires 0 < count < 8 && buf < Pow2(count)
  {
    ShiftFits(buf, count);
    (buf * PowerOfTwo(8 - count) % 256) as byte
  }

  lemma LastByteBits(buf: nat, count: nat)
    requires 0 < count < 8 && buf < Pow2(count)
    ensures Low(LastByte(buf, count) as nat, 8) == Low(buf, count) + Zeros(8 - count)
  {
    ShiftFits(buf, count);
    ShiftedBits(buf, count, 8 - count, buf * Pow2(8 - count), LastByte(buf, count) as nat);
  }

  lemma ShiftedBits(buf: nat, count: nat, space: nat, v: nat, last: nat)
    requires count + space == 8 && v == buf * Pow2(space) && v < 256 && last == v % 256
    ensures Low(last, 8) == Low(buf, count) + Zeros(space)
  {
    LowShift(buf, count, space);
    SameLow(v, last, count + space, 8);
  }

  lemma SameLow(v: nat, last: nat, n: nat, width: nat)
    requires v < 256 && last == v % 256 && n == width
    ensures Low(v, n) == Low(last, width)
  {}

  lemma FinishByte(codes: map<char, Code>, s: seq<char>, result: seq<byte>, buf: nat, count: nat)
    requires forall i :: 0 <= i < |s| ==> s[i] in codes
    requires 0 < count < 8 && buf < Pow2(count)
    requires BitsOf(result) + Low(buf, count) == Bits(codes, s)
    ensures Encodes(codes, s, result + [LastByte(buf, count)])
  {
    var b := LastByte(buf, count);
    LastByteBits(buf, count);
    BitsOfSnoc(result, b);
    FullLength(result, buf, count);
    AppendAssociates(BitsOf(result), Low(buf, count), Zeros(8 - count));
  }

  lemma AppendAssociates(a: Code, b: Code, c: Code)
    ensures a + (b + c) == a + b + c
  {}

  lemma WholeBytes(codes: map<char, Code>, s: seq<char>, result: seq<byte>)
    requires forall i :: 0 <= i < |s| ==> s[i] in codes
    requires BitsOf(result) + [] == Bits(codes, s)
    ensures Encodes(codes, s, result)
  {
    BitsOfLength(result);
    assert BitsOf(result) + Zeros(0) == BitsOf(result) + [];
  }

  lemma FullLength(result: seq<byte>, buf: nat, count: nat)
    requires 0 < count < 8
    ensures Padding(|BitsOf(result) + Low(buf, count)|) == 8 - count
  {
    BitsOfLength(result);
    LowLength(buf, count);
    PaddingAfter(|result|, count);
  }

  lemma PaddingAfter(n: nat, count: nat)
    requires 0 < count < 8
    ensures Padding(8 * n + count) == 8 - count
  {
    assert (8 * n + count) % 8 == count;
  }

  // ----- decoding

  /** Greedy decoding: digits are collected until they are a key of the table. */
  function Greedy(dm: map<string, char>, bits: string, tmp: string): seq<char>
    decreases |bits|
  {
    if |bits| == 0 then []
    else
      var tmp' := tmp + [bits[0]];
      if tmp' in dm then [dm[tmp']] + Greedy(dm, bits[1..], "") else Greedy(dm, bits[1..], tmp')
  }

  /** Decodes all digits of the bytes but the last cfg.space; None where there are not that many. */
  method Decode(cfg: DecodeConfig, bytes: seq<byte>) returns (r: Option<seq<char>>)
    ensures r.None? <==> cfg.space > 8 * |bytes|
    ensures r.Some? ==>
      && cfg.space <= |BitsOf(bytes)|
      && r.value == Greedy(cfg.inner, BitString(BitsOf(bytes)[..|BitsOf(bytes)| - cfg.space]), "")
  {
    var bitStr := BitString(BitsOf(bytes));
    BitsOfLength(bytes);
    if cfg.space > |bitStr| {
      return None;
    }
    var lastIdx := |bitStr| - cfg.space;
    var result, tmpStr := [], "";
    var bits := bitStr[..lastIdx];
    assert bits == BitString(BitsOf(bytes)[..lastIdx]);
    for i := 0 to lastIdx
      invariant result + Greedy(cfg.inner, bits[i..], tmpStr) == Greedy(cfg.inner, bits, "")
    {
      tmpStr := tmpStr + [bitStr[i]];
      assert bits[i..][0] == bitStr[i] && bits[i..][1..] == bits[i + 1..];
      if tmpStr in cfg.inner {
        result := result + [cfg.inner[tmpStr]];
        tmpStr := "";
      }
    }
    assert bits[lastIdx..] == "";
    r := Some(result);
  }

  // ----- decoding undoes encoding

  lemma BitStringConcat(a: Code, b: Code)
    ensures BitString(a + b) == BitString(a) + BitString(b)
  {}

  /** Part of a code is no code, so the decoder reads on to its end. */
  lemma {:induction false} GreedyCode(dm: map<string, char>, codes: map<char, Code>, c: char, k: nat, rest: string)
    requires Inverts(dm, codes) && PrefixFree(codes) && c in codes && k < |codes[c]|
    ensures Greedy(dm, BitString(codes[c])[k..] + rest, BitString(codes[c])[..k]) == [c] + Greedy(dm, rest, "")
    decreases |codes[c]| - k
  {
    var all := BitString(codes[c]);
    var bits := all[k..] + rest;
    assert bits[0] == all[k] && all[..k] + [all[k]] == all[..k + 1];
    if k + 1 == |all| {
      assert all[..k + 1] == all && bits[1..] == rest;
    } else {
      NoPartialCode(dm, codes, c, k + 1);
      assert bits[1..] == all[k + 1..] + rest;
      GreedyCode(dm, codes, c, k + 1, rest);
    }
  }

  lemma NoPartialCode(dm: map<string, char>, codes: map<char, Code>, c: char, k: nat)
    requires Inverts(dm, codes) && PrefixFree(codes) && c in codes && k < |codes[c]|
    ensures BitString(codes[c])[..k] !in dm
  {
    var part := BitString(codes[c])[..k];
    if part in dm {
      var d := dm[part];
      assert part == BitString(codes[c][..k]);
      BitStringInjective(codes[d], codes[c][..k]);
    }
  }

  lemma {:induction false} GreedyText(dm: map<string, char>, codes: map<char, Code>, s: seq<char>, rest: string)
    requires Inverts(dm, codes) && PrefixFree(codes)
    requires forall i :: 0 <= i < |s| ==> s[i] in codes
    requires forall c :: c in codes ==> |codes[c]| > 0
    ensures Greedy(dm, BitString(Bits(codes, s)) + rest, "") == s + Greedy(dm, rest, "")
    decreases |s|
  {
    if |s| == 0 {
      assert BitString(Bits(codes, s)) + rest == rest;
    } else {
      var n := |s| - 1;
      var last := BitString(codes[s[n]]);
      BitStringConcat(Bits(codes, s[..n]), codes[s[n]]);
      assert BitString(Bits(codes, s)) + rest == BitString(Bits(codes, s[..n])) + (last + rest);
      GreedyText(dm, codes, s[..n], last + rest);
      GreedyCode(dm, codes, s[n], 0, rest);
      assert last[0..] == last && last[..0] == "";
      assert s == s[..n] + [s[n]];
    }
  }

  function LeftmostSymbol(t: Tree): char {
    match t case Leaf(c, _) => c case Fork(l, _) => LeftmostSymbol(l)
  }

  function LeftDepth(t: Tree): nat {
    match t case Leaf(_, _) => 0 case Fork(l, _) => 1 + LeftDepth(l)
  }

  lemma {:induction false} LeftmostCode(t: Tree, path: Code)
    requires Distinct(Leaves(t))
    ensures LeftmostSymbol(t) in Codes(t, path)
    ensures Codes(t, path)[LeftmostSymbol(t)] == path + Zeros(LeftDepth(t))
  {
    if t.Fork? {
      DistinctParts(t);
      LeftmostCode(t.left, path + [false]);
      assert path + [false] + Zeros(LeftDepth(t.left)) == path + Zeros(LeftDepth(t));
    } else {
      assert path + Zeros(0) == path;
    }
  }

  lemma OneZero(n: nat, k: nat)
    requires n > 0
    ensures |BitString(Zeros(n))| > 0 && BitString(Zeros(n))[0] == '0'
    ensures BitString(Zeros(n))[1..] == BitString(Zeros(n - 1))
    ensures BitString(Zeros(k)) + ['0'] == BitString(Zeros(k + 1))
    ensures BitString(Zeros(0)) == ""
  {}

  function Repeat(c: char, n: nat): (r: seq<char>)
    ensures |r| == n
  {
    if n == 0 then [] else [c] + Repeat(c, n - 1)
  }

  /** How many codes of length len fit in n bits. */
  function Fits(n: nat, len: nat): nat
    requires len > 0
  {
    if n < len then 0 else 1 + Fits(n - len, len)
  }

  /** A tail of n zeros, decoded with k zeros already collected. */
  lemma {:induction false} GreedyZeros(dm: map<string, char>, codes: map<char, Code>, c: char, k: nat, n: nat)
    requires Inverts(dm, codes) && PrefixFree(codes) && c in codes && k < |codes[c]|
    requires codes[c] == Zeros(|codes[c]|)
    ensures Greedy(dm, BitString(Zeros(n)), BitString(Zeros(k))) == Repeat(c, Fits(k + n, |codes[c]|))
    decreases n
  {
    var len := |codes[c]|;
    if n == 0 {
    } else {
      OneZero(n, k);
      if k + 1 == len {
        GreedyZeros(dm, codes, c, 0, n - 1);
        assert Fits(k + n, len) == 1 + Fits(n - 1, len);
      } else {
        NoPartialCode(dm, codes, c, k + 1);
        assert BitString(codes[c])[..k + 1] == BitString(Zeros(k + 1));
        GreedyZeros(dm, codes, c, k + 1, n - 1);
      }
    }
  }

  lemma {:induction false} CodesNotEmpty(t: Tree, path: Code)
    requires t.Fork? || |path| > 0
    ensures forall c :: c in Codes(t, path) ==> |Codes(t, path)[c]| > 0
  {
    CodesExtendPath(t, path);
    if t.Fork? {
      CodesExtendPath(t.left, path + [false]);
      CodesExtendPath(t.right, path + [true]);
    }
  }

  /** The symbols the decoder makes out of the padding. */
  function Spill(t: Tree, codes: map<char, Code>, s: seq<char>): seq<char>
    requires t.Fork?
    requires forall i :: 0 <= i < |s| ==> s[i] in codes
  {
    Repeat(LeftmostSymbol(t), Fits(Padding(|Bits(codes, s)|), LeftDepth(t)))
  }

  /**
   Decoding what was encoded gives the text and then the padding read as leftmost symbols; so the text
   alone comes back exactly when the padding is shorter than the leftmost code.
   */
  lemma DecodeEncode(t: Tree, codes: map<char, Code>, dm: map<string, char>, s: seq<char>, bytes: seq<byte>)
    requires t.Fork? && Distinct(Leaves(t)) && codes == Codes(t, []) && Inverts(dm, codes)
    requires Encodes(codes, s, bytes)
    ensures Greedy(dm, BitString(BitsOf(bytes)), "") == s + Spill(t, codes, s)
    ensures s + Spill(t, codes, s) == s <==> Padding(|Bits(codes, s)|) < LeftDepth(t)
  {
    var pad := Padding(|Bits(codes, s)|);
    CodesPrefixFree(t, []);
    CodesNotEmpty(t, []);
    BitStringConcat(Bits(codes, s), Zeros(pad));
    GreedyText(dm, codes, s, BitString(Zeros(pad)));
    DecodePadding(t, codes, dm, pad);
    SpillEmpty(t, codes, s);
  }

  lemma SpillEmpty(t: Tree, codes: map<char, Code>, s: seq<char>)
    requires t.Fork?
    requires forall i :: 0 <= i < |s| ==> s[i] in codes
    ensures s + Spill(t, codes, s) == s <==> Padding(|Bits(codes, s)|) < LeftDepth(t)
  {
    var extra := Spill(t, codes, s);
    assert |s + extra| == |s| + |extra|;
    if |extra| == 0 {
      assert s + extra == s;
    }
  }

  const TWO_SYMBOLS: Tree := Fork(Leaf('a', 1), Leaf('b', 1))

  lemma SecondSymbolBits(codes: map<char, Code>)
    requires codes == Codes(TWO_SYMBOLS, [])
    ensures 'b' in codes && Bits(codes, "b") == [true]
  {
    assert codes['b'] == [] + [true] == [true];
    assert "b"[..0] == "";
    assert Bits(codes, "") == [];
  }

  lemma HighBit(b: byte)
    requires b == 128
    ensures BitsOf([b]) == [true] + Zeros(7)
  {
    BitsOfSnoc([], b);
    assert [] + [b] == [b];
    assert Pow2(7) == 128;
    LowShift(1, 1, 7);
    assert Low(1, 1) == [true];
  }

  lemma RepeatSeven(c: char)
    ensures Repeat(c, Fits(7, 1)) == [c, c, c, c, c, c, c]
  {
    assert Fits(7, 1) == 7;
    assert Repeat(c, 1) == [c] && Repeat(c, 2) == [c] + Repeat(c, 1) && Repeat(c, 3) == [c] + Repeat(c, 2);
    assert Repeat(c, 4) == [c] + Repeat(c, 3) && Repeat(c, 5) == [c] + Repeat(c, 4);
    assert Repeat(c, 6) == [c] + Repeat(c, 5) && Repeat(c, 7) == [c] + Repeat(c, 6);
  }

  lemma SecondSymbolEncoded(codes: map<char, Code>, s: seq<char>, bytes: seq<byte>)
    requires codes == Codes(TWO_SYMBOLS, []) && s == "b" && bytes == [128]
    ensures Encodes(codes, s, bytes)
  {
    SecondSymbolBits(codes);
    HighBit(bytes[0]);
    assert bytes == [bytes[0]];
    assert Padding(1) == 7;
  }

  lemma SecondSymbolSpills(codes: map<char, Code>, s: seq<char>)
    requires codes == Codes(TWO_SYMBOLS, []) && s == "b"
    requires 'b' in codes
    ensures s + Spill(TWO_SYMBOLS, codes, s) == "baaaaaaa"
  {
    SecondSymbolBits(codes);
    RepeatSeven('a');
    assert Padding(1) == 7;
    assert LeftDepth(TWO_SYMBOLS) == 1;
    assert LeftmostSymbol(TWO_SYMBOLS) == 'a';
  }

  /**
   Two symbols have one-bit codes; a text that is just the second symbol fills one byte with seven
   padding bits, and decoding that byte gives seven symbols that were never encoded.
   */
  lemma PaddingSpills(dm: map<string, char>)
    requires Inverts(dm, Codes(TWO_SYMBOLS, []))
    ensures Encodes(Codes(TWO_SYMBOLS, []), "b", [128])
    ensures Greedy(dm, BitString(BitsOf([128])), "") == "baaaaaaa"
  {
    var codes := Codes(TWO_SYMBOLS, []);
    SecondSymbolEncoded(codes, "b", [128]);
    SecondSymbolSpills(codes, "b");
    DecodeEncode(TWO_SYMBOLS, codes, dm, "b", [128]);
  }

  lemma DecodePadding(t: Tree, codes: map<char, Code>, dm: map<string, char>, pad: nat)
    requires t.Fork? && Distinct(Leaves(t)) && codes == Codes(t, []) && Inverts(dm, codes)
    ensures Greedy(dm, BitString(Zeros(pad)), "") == Repeat(LeftmostSymbol(t), Fits(pad, LeftDepth(t)))
  {
    CodesPrefixFree(t, []);
    LeftmostCode(t, []);
    FromEmpty(Zeros(LeftDepth(t)));
    GreedyZeros(dm, codes, LeftmostSymbol(t), 0, pad);
    NoZeros();
  }

  lemma FromEmpty(c: Code)
    ensures [] + c == c
  {}

  lemma NoZeros()
    ensures BitString(Zeros(0)) == ""
  {}

  lemma LeafCount(t: Tree, charWeight: seq<(char, nat)>)
    requires multiset(Leaves(t)) == multiset(charWeight)
    ensures |Leaves(t)| == |charWeight|
  {
    assert |Leaves(t)| == |multiset(Leaves(t))| == |multiset(charWeight)| == |charWeight|;
  }

  /**
   The codec: the code table and the decoder's table read back from its printed form.
   */
  class HuffmanCodec {
    var bitMap: map<char, Code>
    var decodeMap: DecodeConfig
    ghost var tree: Tree

    ghost predicate Valid()
      reads this
    {
      && tree.Fork? && Distinct(Leaves(tree)) && bitMap == Codes(tree, [])
      && Inverts(decodeMap.inner, bitMap) && decodeMap.space == 0
    }

    constructor (charWeight: seq<(char, nat)>)
      requires |charWeight| >= 2 && Distinct(charWeight)
      requires TotalWeight(charWeight) <= U32_MAX
      requires forall i :: 0 <= i < |charWeight| ==> charWeight[i].1 < U32_MAX
      ensures Valid() && IsCodeFor(bitMap, charWeight) && Complete(bitMap, charWeight)
      ensures forall c :: c in bitMap <==> IsSymbol(c, charWeight)
      ensures forall m :: IsCodeFor(m, charWeight) ==> CodeCost(bitMap, charWeight) <= CodeCost(m, charWeight)
    {
      var codes; ghost var t;
      codes, t := BuildBitMap(charWeight);
      SameSymbols(t, charWeight);
      LeafCount(t, charWeight);
      var order := ReadEntries(codes);
      var text := Display(order);
      var config := BuildDecodeConfig(HEADER + text);
      PrintedTableInverts(order, codes);
      bitMap, decodeMap, tree := codes, config.value, t;
    }

    /** What decoding gives for the bytes that a text was encoded to. */
    method DecodeBytes(bytes: seq<byte>) returns (r: seq<char>)
      requires Valid()
      ensures forall s :: Encodes(bitMap, s, bytes) ==>
        && r == s + Spill(tree, bitMap, s)
        && (r == s <==> Padding(|Bits(bitMap, s)|) < LeftDepth(tree))
    {
      BitsOfLength(bytes);
      var decoded := Decode(decodeMap, bytes);
      r := decoded.value;
      assert BitsOf(bytes)[..|BitsOf(bytes)|] == BitsOf(bytes);
      forall s | Encodes(bitMap, s, bytes)
        ensures r == s + Spill(tree, bitMap, s)
        ensures r == s <==> Padding(|Bits(bitMap, s)|) < LeftDepth(tree)
      {
        DecodeEncode(tree, bitMap, decodeMap.inner, s, bytes);
      }
    }

    method EncodeText(source: seq<char>) returns (r: Option<seq<byte>>)
      requires Valid()
      ensures r.Some? <==> forall i :: 0 <= i < |source| ==> source[i] in bitMap
      ensures r.Some? ==> Encodes(bitMap, source, r.value)
    {
      r := Encode(bitMap, source);
    }
  }
}
