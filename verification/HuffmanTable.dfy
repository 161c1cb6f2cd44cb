/**
 The printed code table: one line per symbol, its code point in decimal, a colon, its code in binary
 digits.  The decoder's table is read back from this text.
 */
module HuffmanTable {
  import opened Prelude
  import opened PrefixCodes

  datatype DecodeConfig = DecodeConfig(inner: map<string, char>, space: nat, capacity: nat)

  function BitString(code: Code): string {
    seq(|code|, i requires 0 <= i < |code| => if code[i] then '1' else '0')
  }

  // ----- decimal numbers

  function Digit(n: nat): char
    requires n < 10
  {
    '0' + n as char
  }

  function Decimal(n: nat): string {
    if n < 10 then [Digit(n)] else Decimal(n / 10) + [Digit(n % 10)]
  }

  predicate IsDigit(c: char) {
    '0' <= c <= '9'
  }

  function ParseDigits(s: string): Option<nat> {
    if |s| == 0 then Some(0)
    else if !IsDigit(s[|s| - 1]) then None
    else match ParseDigits(s[..|s| - 1])
         case None => None
         case Some(n) => Some(10 * n + (s[|s| - 1] as int - '0' as int))
  }

  /** An unsigned decimal number up to max, with an optional plus sign before its digits. */
  function ParseUnsigned(s: string, max: nat): Option<nat> {
    var digits := if |s| > 1 && s[0] == '+' then s[1..] else s;
    if |digits| == 0 then None
    else match ParseDigits(digits)
         case None => None
         case Some(n) => if n <= max then Some(n) else None
  }

  predicate IsScalar(n: nat) {
    n < 0xD800 || 0xE000 <= n < 0x11_0000
  }

  lemma {:induction false} DecimalParses(n: nat)
    ensures |Decimal(n)| > 0 && (forall i :: 0 <= i < |Decimal(n)| ==> IsDigit(Decimal(n)[i]))
    ensures ParseDigits(Decimal(n)) == Some(n)
  {
    if n >= 10 {
      DecimalParses(n / 10);
      assert Decimal(n)[..|Decimal(n)| - 1] == Decimal(n / 10);
    } else {
      assert [Digit(n)][..0] == [];
    }
  }

  // ----- splitting

  function Split(s: string, sep: char): (parts: seq<string>)
    ensures |parts| > 0
  {
    if |s| == 0 then [[]]
    else
      var rest := Split(s[1..], sep);
      if s[0] == sep then [[]] + rest else [[s[0]] + rest[0]] + rest[1..]
  }

  lemma {:induction false} SplitNone(a: string, sep: char)
    requires sep !in a
    ensures Split(a, sep) == [a]
  {
    if |a| != 0 {
      SplitNone(a[1..], sep);
      assert a[0] in a && [a[0]] + a[1..] == a;
      assert [[a[0]] + a[1..]] + [a[1..]][1..] == [a];
    }
  }

  lemma {:induction false} SplitFirst(a: string, sep: char, b: string)
    requires sep !in a
    ensures Split(a + [sep] + b, sep) == [a] + Split(b, sep)
  {
    var s := a + [sep] + b;
    if |a| == 0 {
      assert s[1..] == b;
    } else {
      SplitFirst(a[1..], sep, b);
      assert s[1..] == a[1..] + [sep] + b;
      assert s[0] == a[0] && a[0] in a && [a[0]] + a[1..] == a;
      assert ([a[1..]] + Split(b, sep))[1..] == Split(b, sep);
    }
  }

  // ----- writing the table

  function Line(entry: (char, Code)): string {
    Decimal(entry.0 as int) + ":" + BitString(entry.1)
  }

  function Lines(order: seq<(char, Code)>): string {
    if |order| == 0 then [] else Line(order[0]) + "\n" + Lines(order[1..])
  }

  lemma {:induction false} LinesSnoc(order: seq<(char, Code)>, e: (char, Code))
    ensures Lines(order + [e]) == Lines(order) + Line(e) + "\n"
  {
    if |order| == 0 {
      assert Lines([e]) == Line(e) + "\n" + Lines([]);
    } else {
      LinesSnoc(order[1..], e);
      assert (order + [e])[1..] == order[1..] + [e];
    }
  }

  /** order lists the entries of the code table, each once. */
  ghost predicate Enumerates(order: seq<(char, Code)>, codes: map<char, Code>) {
    && (forall i :: 0 <= i < |order| ==> order[i].0 in codes && codes[order[i].0] == order[i].1)
    && (forall i, j :: 0 <= i < j < |order| ==> order[i].0 != order[j].0)
    && (forall c :: c in codes ==> (c, codes[c]) in order)
  }

  /** The entries of the hash map, in the order it happens to be read. */
  method ReadEntries(codes: map<char, Code>) returns (order: seq<(char, Code)>)
    ensures Enumerates(order, codes)
  {
    order := [];
    var left := codes.Keys;
    while left != {}
      invariant left <= codes.Keys
      invariant forall i :: 0 <= i < |order| ==>
        order[i].0 in codes && order[i].0 !in left && codes[order[i].0] == order[i].1
      invariant forall i, j :: 0 <= i < j < |order| ==> order[i].0 != order[j].0
      invariant forall c :: c in codes && c !in left ==> (c, codes[c]) in order
      decreases left
    {
      var c :| c in left;
      left := left - {c};
      order := order + [(c, codes[c])];
    }
  }

  /** The table as text. */
  method Display(order: seq<(char, Code)>) returns (buf: string)
    ensures buf == Lines(order)
  {
    buf := "";
    for i := 0 to |order|
      invariant buf == Lines(order[..i])
    {
      var bitStr := "";
      var code := order[i].1;
      for j := 0 to |code|
        invariant bitStr == BitString(code[..j])
      {
        bitStr := bitStr + if code[j] then "1" else "0";
      }
      assert code[..|code|] == code;
      buf := buf + (Decimal(order[i].0 as int) + ":" + bitStr + "\n");
      LinesSnoc(order[..i], order[i]);
      assert order[..i + 1] == order[..i] + [order[i]];
    }
    assert order[..|order|] == order;
  }

  // ----- reading it back

  /** What one line adds; None where the program stops with a parse error. */
  function ReadLine(cfg: DecodeConfig, line: string): Option<DecodeConfig> {
    var pair := Split(line, ':');
    if |pair| != 2 then Some(cfg)
    else if pair[0] == "space" then
      match ParseUnsigned(pair[1], 255) case None => None case Some(n) => Some(cfg.(space := n))
    else if pair[0] == "capacity" then
      match ParseUnsigned(pair[1], USIZE_MAX) case None => None case Some(n) => Some(cfg.(capacity := n))
    else
      match ParseUnsigned(pair[0], U32_MAX)
      case None => None
      case Some(n) => if IsScalar(n) then Some(cfg.(inner := cfg.inner[pair[1] := n as char])) else None
  }

  function ReadLines(cfg: Option<DecodeConfig>, lines: seq<string>): Option<DecodeConfig>
    decreases |lines|
  {
    if cfg == None || |lines| == 0 then cfg else ReadLines(ReadLine(cfg.value, lines[0]), lines[1..])
  }

  const EMPTY_CONFIG := DecodeConfig(map[], 0, 0)

  method BuildDecodeConfig(source: string) returns (r: Option<DecodeConfig>)
    ensures r == ReadLines(Some(EMPTY_CONFIG), Split(source, '\n'))
  {
    var arr := Split(source, '\n');
    r := Some(EMPTY_CONFIG);
    for i := 0 to |arr|
      invariant r.Some?
      invariant ReadLines(r, arr[i..]) == ReadLines(Some(EMPTY_CONFIG), arr)
    {
      var next := ReadLine(r.value, arr[i]);
      assert arr[i..][1..] == arr[i + 1..];
      if next == None {
        return None;
      }
      r := next;
    }
  }

  /** The decoder's table that inverts the entries: each code's digits to its symbol, later entries winning. */
  function InverseTable(inner: map<string, char>, order: seq<(char, Code)>): map<string, char>
    decreases |order|
  {
    if |order| == 0 then inner
    else InverseTable(inner[BitString(order[0].1) := order[0].0], order[1..])
  }

  lemma LineReads(cfg: DecodeConfig, e: (char, Code))
    ensures '\n' !in Line(e)
    ensures ReadLine(cfg, Line(e)) == Some(cfg.(inner := cfg.inner[BitString(e.1) := e.0]))
  {
    var n := e.0 as int;
    DecimalParses(n);
    var d := Decimal(n);
    assert ':' !in d && '\n' !in d && d[0] != '+' && d[0] != 's' && d[0] != 'c';
    SplitFirst(d, ':', BitString(e.1));
    SplitNone(BitString(e.1), ':');
    assert Line(e) == d + [':'] + BitString(e.1);
    assert Split(Line(e), ':') == [d, BitString(e.1)];
    assert "space"[0] == 's' && "capacity"[0] == 'c';
    assert IsScalar(n);
  }

  lemma {:induction false} LinesRead(cfg: DecodeConfig, order: seq<(char, Code)>)
    ensures ReadLines(Some(cfg), Split(Lines(order), '\n'))
         == Some(cfg.(inner := InverseTable(cfg.inner, order)))
    decreases |order|
  {
    if |order| == 0 {
      assert Split("", '\n') == [""];
      assert Split("", ':') == [""];
      assert ReadLine(cfg, "") == Some(cfg);
      assert ReadLines(Some(cfg), [""]) == ReadLines(Some(cfg), [""][1..]);
    } else {
      LineReads(cfg, order[0]);
      SplitFirst(Line(order[0]), '\n', Lines(order[1..]));
      assert Lines(order) == Line(order[0]) + ['\n'] + Lines(order[1..]);
      var next := cfg.(inner := cfg.inner[BitString(order[0].1) := order[0].0]);
      LinesRead(next, order[1..]);
      var rest := Split(Lines(order[1..]), '\n');
      assert ([Line(order[0])] + rest)[1..] == rest;
    }
  }

  const HEADER := "space:0\ncapacity:0\n"

  lemma HeaderLine(cfg: DecodeConfig, name: string)
    requires name == "space" || name == "capacity"
    ensures name == "space" ==> ReadLine(cfg, name + ":0") == Some(cfg.(space := 0))
    ensures name == "capacity" ==> ReadLine(cfg, name + ":0") == Some(cfg.(capacity := 0))
    ensures '\n' !in name + ":0"
  {
    SplitNone("0", ':');
    SplitFirst(name, ':', "0");
    assert name + ":0" == name + [':'] + "0";
    assert "0"[..0] == "";
    assert ParseDigits("0") == Some(0);
  }

  lemma ReadFirst(cfg: DecodeConfig, line: string, text: string)
    requires '\n' !in line
    ensures ReadLines(Some(cfg), Split(line + ['\n'] + text, '\n'))
         == ReadLines(ReadLine(cfg, line), Split(text, '\n'))
  {
    SplitFirst(line, '\n', text);
    var rest := Split(text, '\n');
    assert ([line] + rest)[1..] == rest;
  }

  /** Reading back the printed table gives the inverse table, without padding and without capacity. */
  lemma PrintedTableReads(order: seq<(char, Code)>)
    ensures ReadLines(Some(EMPTY_CONFIG), Split(HEADER + Lines(order), '\n'))
         == Some(DecodeConfig(InverseTable(map[], order), 0, 0))
  {
    var cfg := EMPTY_CONFIG;
    var s1, s2, body := "space" + ":0", "capacity" + ":0", Lines(order);
    HeaderLine(cfg, "space");
    HeaderLine(cfg, "capacity");
    ReadFirst(cfg, s1, s2 + ['\n'] + body);
    ReadFirst(cfg, s2, body);
    LinesRead(cfg, order);
    HeaderText(body);
  }

  lemma HeaderText(body: string)
    ensures HEADER + body == "space" + ":0" + ['\n'] + ("capacity" + ":0" + ['\n'] + body)
  {
    assert HEADER == "space" + ":0" + "\n" + "capacity" + ":0" + "\n";
  }

  /** dm takes the digits of every code back to its symbol, and knows no other digits. */
  ghost predicate Inverts(dm: map<string, char>, codes: map<char, Code>) {
    && (forall c :: c in codes ==> BitString(codes[c]) in dm && dm[BitString(codes[c])] == c)
    && (forall k :: k in dm ==> dm[k] in codes && BitString(codes[dm[k]]) == k)
  }

  lemma BitStringInjective(a: Code, b: Code)
    requires BitString(a) == BitString(b)
    ensures a == b
  {
    forall i | 0 <= i < |a| ensures a[i] == b[i] {
      assert BitString(a)[i] == BitString(b)[i];
    }
  }

  lemma {:induction false} InverseTableEntries(inner: map<string, char>, order: seq<(char, Code)>)
    requires forall i, j :: 0 <= i < j < |order| ==> order[i].1 != order[j].1
    requires forall i :: 0 <= i < |order| ==> BitString(order[i].1) !in inner
    ensures var dm := InverseTable(inner, order);
      && (forall k :: k in inner ==> k in dm && dm[k] == inner[k])
      && (forall i :: 0 <= i < |order| ==> BitString(order[i].1) in dm && dm[BitString(order[i].1)] == order[i].0)
      && (forall k :: k in dm ==> k in inner || exists i :: 0 <= i < |order| && k == BitString(order[i].1))
    decreases |order|
  {
    if |order| != 0 {
      var k0 := BitString(order[0].1);
      forall i | 0 <= i < |order[1..]| ensures BitString(order[1..][i].1) != k0 {
        assert order[1..][i] == order[i + 1];
        if BitString(order[1..][i].1) == k0 { BitStringInjective(order[i + 1].1, order[0].1); }
      }
      InverseTableEntries(inner[k0 := order[0].0], order[1..]);
      assert forall i :: 1 <= i < |order| ==> order[i] == order[1..][i - 1];
    }
  }

  /** For a prefix-free table the text reads back as the exact inverse, whatever order it was printed in. */
  lemma TableInverts(order: seq<(char, Code)>, codes: map<char, Code>)
    requires Enumerates(order, codes) && PrefixFree(codes)
    ensures Inverts(InverseTable(map[], order), codes)
  {
    forall i, j | 0 <= i < j < |order| ensures order[i].1 != order[j].1 {
      assert !(codes[order[i].0] <= codes[order[j].0]);
    }
    InverseTableEntries(map[], order);
  }

  /** Printed in whatever order and parsed again, a prefix-free table gives its exact inverse, and no padding. */
  lemma PrintedTableInverts(order: seq<(char, Code)>, codes: map<char, Code>)
    requires Enumerates(order, codes) && PrefixFree(codes)
    ensures var parsed := ReadLines(Some(EMPTY_CONFIG), Split(HEADER + Lines(order), '\n'));
      parsed.Some? && Inverts(parsed.value.inner, codes) && parsed.value.space == 0
  {
    PrintedTableReads(order);
    TableInverts(order, codes);
  }
}
