/**
 The flash image tool: the image as a table of blocks, its text form with a checksum, and
 the proof that storing and loading are inverse.
 */
module Lod {
  import opened Options
  import opened Utf8
  import opened Printing

  type Table = map<nat, seq<nat>>

  const WORD: nat := 0x1_0000_0000

  // ---- Hexadecimal text ----

  function Hex(n: nat): (s: string)
    ensures s != ""
  {
    if n < 16 then [HexDigit(n)] else Hex(n / 16) + [HexDigit(n % 16)]
  }

  /** `%08x`. */
  function Hex8(n: nat): (s: string)
    ensures |s| >= 8
  {
    Zeros(8 - |Hex(n)|) + Hex(n)
  }

  function Zeros(n: int): (s: string)
    ensures |s| == if n < 0 then 0 else n
  {
    if n <= 0 then "" else "0" + Zeros(n - 1)
  }

  predicate AllHex(s: string) {
    forall i | 0 <= i < |s| :: HexValue(s[i]).Some?
  }

  function ReadHex(acc: nat, s: string): nat
    requires AllHex(s)
    decreases s
  {
    if s == "" then acc else ReadHex(16 * acc + HexValue(s[0]).value, s[1..])
  }

  lemma {:induction false} ReadHexAppend(acc: nat, s: string, c: char)
    requires AllHex(s) && HexValue(c).Some?
    ensures AllHex(s + [c]) && ReadHex(acc, s + [c]) == 16 * ReadHex(acc, s) + HexValue(c).value
    decreases s
  {
    hide HexValue;
    if s == "" {
      assert s + [c] == [c];
    } else {
      assert (s + [c])[1..] == s[1..] + [c];
      ReadHexAppend(16 * acc + HexValue(s[0]).value, s[1..], c);
    }
  }

  lemma {:induction false} HexReads(n: nat)
    ensures AllHex(Hex(n)) && ReadHex(0, Hex(n)) == n
  {
    HexDigitReads(n % 16);
    hide HexValue, HexDigit;
    if n >= 16 {
      HexReads(n / 16);
      ReadHexAppend(0, Hex(n / 16), HexDigit(n % 16));
    } else {
      assert Hex(n)[1..] == "";
    }
  }

  lemma HexDigitReads(d: nat)
    requires d < 16
    ensures HexValue(HexDigit(d)) == Some(d)
  {
  }

  lemma {:induction false} ZerosRead(n: int, s: string)
    requires AllHex(s)
    ensures AllHex(Zeros(n) + s) && ReadHex(0, Zeros(n) + s) == ReadHex(0, s)
    decreases if n < 0 then 0 else n
  {
    if n <= 0 {
      assert "" + s == s;
    } else {
      ZerosRead(n - 1, s);
      var t := Zeros(n) + s;
      assert t[0] == '0' && t[1..] == Zeros(n - 1) + s;
      assert HexValue('0') == Some(0);
      hide HexValue;
    }
  }

  lemma {:induction false} HexLength(n: nat, k: nat)
    requires 0 < k && n < Power16(k)
    ensures |Hex(n)| <= k
  {
    if n >= 16 {
      assert k > 1;
      HexLength(n / 16, k - 1);
    }
  }

  function Power16(k: nat): (p: nat)
    ensures p > 0
  {
    if k == 0 then 1 else 16 * Power16(k - 1)
  }

  /** A 32-bit word is written in exactly eight digits, which read back as the word. */
  lemma Hex8Reads(n: nat)
    requires n < WORD
    ensures |Hex8(n)| == 8 && AllHex(Hex8(n)) && ReadHex(0, Hex8(n)) == n
  {
    assert Power16(4) == 0x10000;
    assert Power16(8) == 16 * (16 * (16 * (16 * Power16(4))));
    hide Power16;
    HexLength(n, 8);
    HexReads(n);
    ZerosRead(8 - |Hex(n)|, Hex(n));
  }

  // ---- Sums ----

  function Sum(data: seq<nat>): nat {
    if data == [] then 0 else data[0] + Sum(data[1..])
  }

  lemma {:induction false} SumAppend(data: seq<nat>, w: nat)
    ensures Sum(data + [w]) == Sum(data) + w
  {
    if data == [] {
      assert data + [w] == [w];
    } else {
      assert (data + [w])[1..] == data[1..] + [w];
      SumAppend(data[1..], w);
    }
  }

  ghost function Least(s: set<nat>): (k: nat)
    requires s != {}
    ensures k in s && forall x | x in s :: k <= x
  {
    var x :| x in s;
    LeastBelow(s, x)
  }

  ghost function LeastBelow(s: set<nat>, x: nat): (k: nat)
    requires x in s
    ensures k in s && forall y | y in s :: k <= y
    decreases x
  {
    if exists y :: y in s && y < x then
      var y :| y in s && y < x;
      LeastBelow(s, y)
    else x
  }

  /** The sum of all words, block by block from the lowest address on. */
  ghost function Total(table: Table): nat
    decreases |table|
  {
    if table.Keys == {} then 0
    else
      var k := Least(table.Keys);
      assert table.Keys == (table - {k}).Keys + {k};
      Sum(table[k]) + Total(table - {k})
  }

  /** The order in which the blocks are visited does not matter. */
  lemma {:induction false} TotalAnyOrder(table: Table, k: nat)
    requires k in table
    ensures Total(table) == Sum(table[k]) + Total(table - {k})
    decreases |table|
  {
    hide Sum;
    var l := Least(table.Keys);
    if k != l {
      var t, u := table - {l}, table - {k};
      TwoRemovals(table, k, l);
      TotalAnyOrder(t, k);
      assert Least(u.Keys) == l;
    }
  }

  lemma TwoRemovals(table: Table, k: nat, l: nat)
    requires k in table && l in table && k != l
    ensures var t, u := table - {l}, table - {k};
            k in t && l in u && u - {l} == t - {k} && t[k] == table[k] && u[l] == table[l] && |t| < |table|
  { }

  // ---- Lines ----

  /** How far it is to the end of the line. */
  function LineLength(text: string): (n: nat)
    ensures n <= |text| && '\n' !in text[..n] && (n < |text| ==> text[n] == '\n')
  {
    if text == "" || text[0] == '\n' then 0
    else
      var n := 1 + LineLength(text[1..]);
      assert text[..n] == [text[0]] + text[1..][..n - 1];
      n
  }

  /** `readlines`, without the line ends. */
  function Lines(text: string): seq<string>
    decreases |text|
  {
    if text == "" then []
    else
      var n := LineLength(text);
      [text[..n]] + (if n < |text| then Lines(text[n + 1..]) else [])
  }

  function JoinLines(lines: seq<string>): string {
    if lines == [] then "" else lines[0] + "\n" + JoinLines(lines[1..])
  }

  predicate NoBreak(s: string) {
    '\n' !in s && '\r' !in s
  }

  lemma {:induction false} LineLengthOf(line: string, rest: string)
    requires '\n' !in line
    ensures LineLength(line + "\n" + rest) == |line|
  {
    var s := line + "\n" + rest;
    if line != "" {
      assert s[1..] == line[1..] + "\n" + rest;
      assert line[0] in line;
      LineLengthOf(line[1..], rest);
    }
  }

  lemma {:induction false} LinesOfJoin(lines: seq<string>)
    requires forall i | 0 <= i < |lines| :: '\n' !in lines[i]
    ensures Lines(JoinLines(lines)) == lines
  {
    if lines != [] {
      var line, rest := lines[0], JoinLines(lines[1..]);
      var text := line + "\n" + rest;
      LineLengthOf(line, rest);
      LinesOfJoin(lines[1..]);
      assert text[..|line|] == line && text[|line| + 1..] == rest;
      assert lines == [line] + lines[1..];
    }
  }

  // ---- Attribute lines ----

  /** What `strip` removes. */
  predicate IsSpace(c: char) {
    '\t' <= c <= '\r' || '\U{1C}' <= c <= ' ' || c == '\U{85}' || c == '\U{A0}'
  }

  function Strip(s: string): string
    decreases |s|
  {
    if s != "" && IsSpace(s[0]) then Strip(s[1..])
    else if s != "" && IsSpace(s[|s| - 1]) then Strip(s[..|s| - 1])
    else s
  }

  function Split(s: string): (fields: seq<string>)
    ensures fields != []
  {
    if s == "" then [""]
    else
      var rest := Split(s[1..]);
      if s[0] == '=' then [""] + rest else [[s[0]] + rest[0]] + rest[1..]
  }

  lemma {:induction false} SplitPlain(s: string)
    requires '=' !in s
    ensures Split(s) == [s]
  {
    if s != "" {
      assert s[0] in s;
      SplitPlain(s[1..]);
      assert s == [s[0]] + s[1..];
    }
  }

  lemma {:induction false} SplitPair(name: string, value: string)
    requires '=' !in name && '=' !in value
    ensures Split(name + "=" + value) == [name, value]
  {
    var s := name + "=" + value;
    if name == "" {
      assert s[1..] == value;
      SplitPlain(value);
    } else {
      assert name[0] in name;
      assert s[1..] == name[1..] + "=" + value;
      SplitPair(name[1..], value);
      assert name == [name[0]] + name[1..];
    }
  }

  // ---- Finding numbers in a line ----

  predicate Hex8At(line: string, i: nat) {
    i + 8 <= |line| && AllHex(line[i..i + 8])
  }

  /** The first eight digits in a row, behind a mark if one is asked for. */
  function FindHex8(line: string, mark: bool): Option<nat> {
    if line == "" then None
    else if mark && line[0] == '@' && Hex8At(line, 1) then Some(ReadHex(0, line[1..9]))
    else if !mark && Hex8At(line, 0) then Some(ReadHex(0, line[..8]))
    else FindHex8(line[1..], mark)
  }

  lemma FoundHex8(n: nat)
    requires n < WORD
    ensures FindHex8(Hex8(n), false) == Some(n) && FindHex8("@" + Hex8(n), true) == Some(n)
  {
    Hex8Reads(n);
    var s := Hex8(n);
    assert s[..8] == s && s[0..8] == s && ("@" + s)[1..9] == s;
    hide Hex8, ReadHex, AllHex;
  }

  // ---- Loading, line by line ----

  datatype Outcome = Success | SyntaxError | ChecksumError | Exception

  datatype Image = Image(names: seq<string>, attrs: map<string, string>, blocks: Table)

  /** The image so far, and the block that is being read. */
  datatype Loading = Loading(image: Image, base: Option<nat>, data: seq<nat>)

  function Flush(l: Loading): Loading {
    if l.base.None? then l
    else Loading(l.image.(blocks := l.image.blocks[l.base.value := l.data]), None, [])
  }

  const CHECKSUM := "#checksum="

  function Behind(s: string, n: nat): string {
    if n <= |s| then s[n..] else ""
  }

  ghost function Step(l: Loading, line: string): (Loading, Outcome) {
    if "#$" <= line then
      var fields := Split(Strip(line[2..]));
      if |fields| != 2 then (l, SyntaxError)
      else (l.(image := l.image.(names := l.image.names + [fields[0]], attrs := l.image.attrs[fields[0] := fields[1]])), Success)
    else if CHECKSUM <= line then
      var f := Flush(l);
      var digits := Behind(Strip(line), |CHECKSUM|);
      if digits == "" || !AllHex(digits) then (f, Exception)
      else if ReadHex(0, digits) != Total(f.image.blocks) % WORD then (f, ChecksumError)
      else (f, Success)
    else if "@" <= line then
      var base := FindHex8(line, true);
      if base.None? then (l, SyntaxError) else (Flush(l).(base := base), Success)
    else
      var word := FindHex8(line, false);
      if word.None? || l.base.None? then (l, SyntaxError) else (l.(data := l.data + [word.value]), Success)
  }

  ghost function LoadLines(l: Loading, lines: seq<string>): (Loading, Outcome)
    decreases |lines|
  {
    if lines == [] then (Flush(l), Success)
    else
      var (next, outcome) := Step(l, lines[0]);
      if outcome != Success then (next, outcome) else LoadLines(next, lines[1..])
  }

  const NOTHING := Loading(Image([], map[], map[]), None, [])

  // ---- Storing ----

  function AttrLines(names: seq<string>, attrs: map<string, string>): seq<string>
    requires forall i | 0 <= i < |names| :: names[i] in attrs
  {
    if names == [] then [] else ["#$" + names[0] + "=" + attrs[names[0]]] + AttrLines(names[1..], attrs)
  }

  function WordLines(data: seq<nat>): seq<string> {
    if data == [] then [] else [Hex8(data[0])] + WordLines(data[1..])
  }

  /** The blocks from the lowest address on. */
  ghost function TableLines(table: Table): seq<string>
    decreases |table|
  {
    if table.Keys == {} then []
    else
      var k := Least(table.Keys);
      assert table.Keys == (table - {k}).Keys + {k};
      ["@" + Hex8(k)] + WordLines(table[k]) + TableLines(table - {k})
  }

  ghost function StoreLines(image: Image): seq<string>
    requires forall i | 0 <= i < |image.names| :: image.names[i] in image.attrs
  {
    AttrLines(image.names, image.attrs) + TableLines(image.blocks) + [CHECKSUM + Hex8(Total(image.blocks) % WORD)]
  }

  // ---- Loading what was stored ----

  predicate CleanName(s: string) {
    '=' !in s && NoBreak(s) && (s != "" ==> !IsSpace(s[0]))
  }

  predicate CleanValue(s: string) {
    '=' !in s && NoBreak(s) && (s != "" ==> !IsSpace(s[|s| - 1]))
  }

  /** Every attribute is listed and clean. */
  predicate CleanAttrs(image: Image) {
    && (forall i | 0 <= i < |image.names| :: image.names[i] in image.attrs)
    && (forall n | n in image.attrs :: n in image.names && CleanName(n) && CleanValue(image.attrs[n]))
  }

  /** Bases and words fit in 32 bits. */
  predicate Fits(table: Table) {
    forall k | k in table :: k < WORD && FitsWords(table[k])
  }

  predicate FitsWords(data: seq<nat>) {
    forall i | 0 <= i < |data| :: data[i] < WORD
  }

  lemma {:induction false} LoadAppend(l: Loading, a: seq<string>, b: seq<string>, m: Loading)
    requires Runs(l, a, m)
    ensures LoadLines(l, a + b) == LoadLines(m, b)
    decreases |a|
  {
    hide Step, Flush;
    if a == [] {
      assert a + b == b;
    } else {
      assert (a + b)[1..] == a[1..] + b;
      LoadAppend(Step(l, a[0]).0, a[1..], b, m);
    }
  }

  /** All of the lines are accepted and lead from `l` to `m`, where more lines may follow. */
  ghost predicate Runs(l: Loading, lines: seq<string>, m: Loading)
    decreases |lines|
  {
    if lines == [] then l == m
    else Step(l, lines[0]).1 == Success && Runs(Step(l, lines[0]).0, lines[1..], m)
  }

  lemma {:induction false} RunsAppend(l: Loading, a: seq<string>, m: Loading, b: seq<string>, r: Loading)
    requires Runs(l, a, m) && Runs(m, b, r)
    ensures Runs(l, a + b, r)
    decreases |a|
  {
    hide Step;
    if a == [] {
      assert a + b == b;
    } else {
      assert (a + b)[1..] == a[1..] + b;
      RunsAppend(Step(l, a[0]).0, a[1..], m, b, r);
    }
  }

  lemma RunsOne(l: Loading, line: string, m: Loading)
    requires Step(l, line) == (m, Success)
    ensures Runs(l, [line], m)
  { }

  lemma StripClean(s: string)
    requires s != "" && !IsSpace(s[0]) && !IsSpace(s[|s| - 1])
    ensures Strip(s) == s
  {
  }

  lemma AttrStep(l: Loading, name: string, value: string)
    requires CleanName(name) && CleanValue(value)
    ensures Step(l, "#$" + name + "=" + value) ==
            (l.(image := l.image.(names := l.image.names + [name], attrs := l.image.attrs[name := value])), Success)
  {
    var line, pair := "#$" + name + "=" + value, name + "=" + value;
    assert line[..2] == "#$" && line[2..] == pair;
    assert pair[0] == if name == "" then '=' else name[0];
    assert pair[|pair| - 1] == if value == "" then '=' else value[|value| - 1];
    StripClean(pair);
    SplitPair(name, value);
    hide Strip, Split;
  }

  function Listed(names: seq<string>, attrs: map<string, string>): map<string, string> {
    map n | n in attrs && n in names :: attrs[n]
  }

  lemma ListedNothing(before: map<string, string>, attrs: map<string, string>)
    ensures before + Listed([], attrs) == before
  {
  }

  lemma {:induction false} AttrsRun(l: Loading, names: seq<string>, attrs: map<string, string>)
    requires forall i | 0 <= i < |names| :: names[i] in attrs && CleanName(names[i]) && CleanValue(attrs[names[i]])
    ensures var image := Image(l.image.names + names, l.image.attrs + Listed(names, attrs), l.image.blocks);
            Runs(l, AttrLines(names, attrs), l.(image := image))
    decreases names
  {
    hide Step, CleanName, CleanValue;
    if names == [] {
      assert l.image.names + [] == l.image.names;
      ListedNothing(l.image.attrs, attrs);
    } else {
      var name := names[0];
      AttrStep(l, name, attrs[name]);
      AttrsRun(Step(l, "#$" + name + "=" + attrs[name]).0, names[1..], attrs);
      assert (l.image.names + [name]) + names[1..] == l.image.names + names;
      AttrsSplit(l.image.attrs, names, attrs);
    }
  }

  lemma AttrsSplit(before: map<string, string>, names: seq<string>, attrs: map<string, string>)
    requires names != [] && names[0] in attrs
    ensures before[names[0] := attrs[names[0]]] + Listed(names[1..], attrs) ==
            before + Listed(names, attrs)
  { }

  lemma WordStep(l: Loading, w: nat)
    requires w < WORD && l.base.Some?
    ensures Step(l, Hex8(w)) == (l.(data := l.data + [w]), Success)
  {
    FoundHex8(w);
    Hex8Reads(w);
    assert HexValue(Hex8(w)[0]).Some?;
    hide FindHex8, Hex8, ReadHex;
  }

  lemma BaseStep(l: Loading, k: nat)
    requires k < WORD
    ensures Step(l, "@" + Hex8(k)) == (Flush(l).(base := Some(k)), Success)
  {
    FoundHex8(k);
    assert ("@" + Hex8(k))[0] == '@' && "@" <= "@" + Hex8(k);
    hide FindHex8, Hex8, Flush;
  }

  lemma {:induction false} WordsRun(l: Loading, data: seq<nat>)
    requires l.base.Some? && FitsWords(data)
    ensures Runs(l, WordLines(data), l.(data := l.data + data))
    decreases data
  {
    hide Step, Hex8;
    if data == [] {
      assert l.data + [] == l.data;
    } else {
      WordStep(l, data[0]);
      WordsRun(l.(data := l.data + [data[0]]), data[1..]);
      assert (l.data + [data[0]]) + data[1..] == l.data + data;
    }
  }

  /** The last block is still being read when the table ends. */
  lemma {:induction false} TableRuns(l: Loading, table: Table) returns (m: Loading)
    requires Fits(table) && (l.base.None? ==> l.data == [])
    ensures Runs(l, TableLines(table), m) && (m.base.None? ==> m.data == [])
    ensures Flush(m).image == l.image.(blocks := Flush(l).image.blocks + table)
    decreases |table|
  {
    hide Step, Hex8, Runs, WordLines;
    if table.Keys == {} {
      m := l;
      NoBlocks(l, table);
    } else {
      var k := Least(table.Keys);
      var rest := table - {k};
      assert table.Keys == rest.Keys + {k};
      var block := Flush(l).(base := Some(k), data := table[k]);
      BlockRuns(l, k, table[k]);
      m := TableRuns(block, rest);
      RunsAppend(l, ["@" + Hex8(k)] + WordLines(table[k]), block, TableLines(rest), m);
      FlushRest(Flush(l).image.blocks, table, k);
    }
  }

  lemma NoBlocks(l: Loading, table: Table)
    requires table.Keys == {}
    ensures Runs(l, TableLines(table), l) && Flush(l).image == l.image.(blocks := Flush(l).image.blocks + table)
  { }

  lemma BlockRuns(l: Loading, k: nat, data: seq<nat>)
    requires k < WORD && FitsWords(data) && (l.base.None? ==> l.data == [])
    ensures Runs(l, ["@" + Hex8(k)] + WordLines(data), Flush(l).(base := Some(k), data := data))
  {
    var first := Flush(l).(base := Some(k));
    assert first.data == [] && [] + data == data;
    hide Step, Hex8, Runs, WordLines, Flush, FitsWords;
    BaseStep(l, k);
    RunsOne(l, "@" + Hex8(k), first);
    WordsRun(first, data);
    RunsAppend(l, ["@" + Hex8(k)], first, WordLines(data), first.(data := data));
  }

  lemma FlushRest(before: Table, table: Table, k: nat)
    requires k in table
    ensures before[k := table[k]] + (table - {k}) == before + table
  {
  }

  lemma ChecksumStep(l: Loading)
    requires l.base.None? ==> l.data == []
    ensures Step(l, CHECKSUM + Hex8(Total(Flush(l).image.blocks) % WORD)) == (Flush(l), Success)
  {
    var sum := Total(Flush(l).image.blocks) % WORD;
    Hex8Reads(sum);
    var digits := Hex8(sum);
    var line := CHECKSUM + digits;
    assert line[0] == '#' && line[1] == 'c' && line[|line| - 1] == digits[7];
    assert HexValue(digits[7]).Some?;
    StripClean(line);
    assert line[|CHECKSUM|..] == digits;
    hide Total, Hex8, ReadHex, Strip;
  }

  /** Loading the stored lines gives the image back, checksum check included. */
  lemma LoadStored(image: Image)
    requires CleanAttrs(image) && Fits(image.blocks)
    ensures LoadLines(NOTHING, StoreLines(image)) == (Loading(image, None, []), Success)
  {
    hide Step, Hex8, Total, TableLines, AttrLines, LoadLines, Runs, Listed;
    var names, table := AttrLines(image.names, image.attrs), TableLines(image.blocks);
    var named := NOTHING.(image := Image(image.names, image.attrs, map[]));
    FromNothing(image);
    AttrsRun(NOTHING, image.names, image.attrs);
    var m := TableRuns(named, image.blocks);
    hide CleanAttrs, Fits, Listed, Flush;
    RunsAppend(NOTHING, names, named, table, m);
    ChecksumStep(m);
    var last := CHECKSUM + Hex8(Total(image.blocks) % WORD);
    LoadAppend(NOTHING, names + table, [last], m);
    LoadLast(m, last);
  }

  lemma FromNothing(image: Image)
    requires CleanAttrs(image)
    ensures [] + image.names == image.names
    ensures map[] + Listed(image.names, image.attrs) == image.attrs
    ensures Flush(NOTHING.(image := Image(image.names, image.attrs, map[]))).image.blocks == map[]
    ensures map[] + image.blocks == image.blocks
  {
    AllNamed(image);
    FlushNothing(image);
    hide *;
    ListedAll(image.names, image.attrs);
    NothingBefore(image.attrs);
    NothingBefore(image.blocks);
  }

  lemma NothingBefore<K, V>(m: map<K, V>)
    ensures map[] + m == m
  {
  }

  lemma AllNamed(image: Image)
    requires CleanAttrs(image)
    ensures forall n | n in image.attrs :: n in image.names
  {
    hide CleanName, CleanValue;
  }

  lemma FlushNothing(image: Image)
    ensures Flush(NOTHING.(image := Image(image.names, image.attrs, map[]))).image.blocks == map[]
  {
  }

  lemma ListedAll(names: seq<string>, attrs: map<string, string>)
    requires forall n | n in attrs :: n in names
    ensures Listed(names, attrs) == attrs
  {
  }

  lemma LoadLast(m: Loading, line: string)
    requires Step(m, line) == (Flush(m), Success)
    ensures LoadLines(m, [line]) == (Flush(m), Success)
  { }

  // ---- The stored text as lines again ----

  predicate BreakFree(lines: seq<string>) {
    forall i | 0 <= i < |lines| :: '\n' !in lines[i]
  }

  lemma BreakFreeAppend(a: seq<string>, b: seq<string>)
    requires BreakFree(a) && BreakFree(b)
    ensures BreakFree(a + b)
  {
  }

  lemma Hex8HasNoBreak(n: nat)
    requires n < WORD
    ensures '\n' !in Hex8(n)
  {
    Hex8Reads(n);
    hide Hex8, ReadHex;
    var s := Hex8(n);
    assert HexValue('\n') == None;
    forall i | 0 <= i < |s| ensures s[i] != '\n' {
      assert HexValue(s[i]).Some?;
    }
  }

  lemma {:induction false} AttrsBreakFree(names: seq<string>, attrs: map<string, string>)
    requires forall i | 0 <= i < |names| :: names[i] in attrs && NoBreak(names[i]) && NoBreak(attrs[names[i]])
    ensures BreakFree(AttrLines(names, attrs))
  {
    if names != [] {
      AttrsBreakFree(names[1..], attrs);
      BreakFreeAppend(["#$" + names[0] + "=" + attrs[names[0]]], AttrLines(names[1..], attrs));
    }
  }

  lemma {:induction false} WordsBreakFree(data: seq<nat>)
    requires FitsWords(data)
    ensures BreakFree(WordLines(data))
  {
    if data != [] {
      Hex8HasNoBreak(data[0]);
      WordsBreakFree(data[1..]);
      hide Hex8;
      BreakFreeAppend([Hex8(data[0])], WordLines(data[1..]));
    }
  }

  lemma {:induction false} TableBreakFree(table: Table)
    requires Fits(table)
    ensures BreakFree(TableLines(table))
    decreases |table|
  {
    hide Hex8, WordLines, BreakFree;
    if table.Keys == {} {
      NoLines();
    } else {
      var k := Least(table.Keys);
      assert table.Keys == (table - {k}).Keys + {k};
      BaseBreakFree(k);
      WordsBreakFree(table[k]);
      TableBreakFree(table - {k});
      BreakFreeAppend(["@" + Hex8(k)], WordLines(table[k]));
      BreakFreeAppend(["@" + Hex8(k)] + WordLines(table[k]), TableLines(table - {k}));
    }
  }

  lemma NoLines()
    ensures BreakFree([])
  {
  }

  lemma BaseBreakFree(k: nat)
    requires k < WORD
    ensures BreakFree(["@" + Hex8(k)])
  {
    Hex8HasNoBreak(k);
    hide Hex8;
  }

  lemma SumBreakFree(n: nat)
    requires n < WORD
    ensures BreakFree([CHECKSUM + Hex8(n)])
  {
    Hex8HasNoBreak(n);
    assert '\n' !in CHECKSUM;
    hide Hex8;
  }

  /**
   `load` undoes `store`: the names in their order, the attributes and the blocks come back,
   and the checksum agrees, for every image with clean attributes and 32-bit words.
   */
  lemma LoadInvertsStore(image: Image)
    requires CleanAttrs(image) && Fits(image.blocks)
    ensures LoadLines(NOTHING, Lines(JoinLines(StoreLines(image)))) == (Loading(image, None, []), Success)
  {
    AttrsBreakFree(image.names, image.attrs);
    TableBreakFree(image.blocks);
    var sum := Total(image.blocks) % WORD;
    SumBreakFree(sum);
    hide Hex8, Total, TableLines, AttrLines, LoadLines, JoinLines, Lines;
    BreakFreeAppend(AttrLines(image.names, image.attrs), TableLines(image.blocks));
    BreakFreeAppend(AttrLines(image.names, image.attrs) + TableLines(image.blocks), [CHECKSUM + Hex8(sum)]);
    LinesOfJoin(StoreLines(image));
    LoadStored(image);
  }
}
