/**
 What `load` accepts, line by line: which lines are right behind which others, what the table
 of an accepted file holds, and that a stored image with a wrong checksum or a changed word
 is refused.
 */
module LodVerdicts {
  import opened Options
  import opened Utf8
  import opened Lod

  // ---- Kinds of lines ----

  predicate IsAttr(line: string) {
    "#$" <= line
  }

  predicate IsSum(line: string) {
    "#checksum=" <= line
  }

  predicate IsBase(line: string) {
    "@" <= line
  }

  predicate IsWord(line: string) {
    !IsAttr(line) && !IsSum(line) && !IsBase(line)
  }

  lemma KindsApart(line: string)
    ensures !(IsAttr(line) && IsSum(line)) && !(IsAttr(line) && IsBase(line)) && !(IsSum(line) && IsBase(line))
  {
    assert IsAttr(line) ==> line[0] == "#$"[0] && line[1] == "#$"[1];
    assert IsSum(line) ==> line[0] == CHECKSUM[0] && line[1] == CHECKSUM[1];
    assert IsBase(line) ==> line[0] == "@"[0];
  }

  // ---- Numbers in a line ----

  /** Eight digits at a position, with the mark in front if one is asked for. */
  predicate NumberAt(line: string, mark: bool, i: nat) {
    Hex8At(line, i) && (mark ==> i > 0 && line[i - 1] == '@')
  }

  /** The first such place gives the number; the digits need no space around them. */
  ghost predicate Bears(line: string, mark: bool, n: nat) {
    exists i: nat :: NumberAt(line, mark, i) && n == ReadHex(0, line[i..i + 8]) && forall k: nat | k < i :: !NumberAt(line, mark, k)
  }

  lemma NumberAtTail(line: string, mark: bool, i: nat)
    requires line != "" && i > 0 && (mark ==> i > 1)
    ensures NumberAt(line, mark, i) <==> NumberAt(line[1..], mark, i - 1)
    ensures i + 8 <= |line| ==> line[i..i + 8] == line[1..][i - 1..i + 7]
  {
    hide AllHex;
    if i + 8 <= |line| { assert line[i..i + 8] == line[1..][i - 1..i + 7]; }
  }

  lemma {:induction false} FindHex8At(line: string, mark: bool) returns (i: nat)
    ensures FindHex8(line, mark).Some? ==>
              && NumberAt(line, mark, i) && FindHex8(line, mark).value == ReadHex(0, line[i..i + 8])
              && forall k: nat | k < i :: !NumberAt(line, mark, k)
    ensures FindHex8(line, mark).None? ==> forall k: nat :: !NumberAt(line, mark, k)
  {
    hide AllHex, ReadHex;
    var here := if mark then 1 else 0;
    if line == "" {
      i := 0;
    } else if NumberAt(line, mark, here) {
      i := here;
      assert line[0..8] == line[..8] || mark;
    } else {
      var j := FindHex8At(line[1..], mark);
      i := j + 1;
      forall k: nat | k >= 1 && (mark ==> k > 1) ensures NumberAt(line, mark, k) <==> NumberAt(line[1..], mark, k - 1) {
        NumberAtTail(line, mark, k);
      }
      assert !NumberAt(line, mark, 0);
      assert mark ==> !NumberAt(line[1..], mark, 0);
      if FindHex8(line[1..], mark).Some? { NumberAtTail(line, mark, i); }
    }
  }

  /** The search finds exactly the first number. */
  lemma FindsFirst(line: string, mark: bool, n: nat)
    ensures FindHex8(line, mark) == Some(n) <==> Bears(line, mark, n)
  {
    hide AllHex, ReadHex, FindHex8;
    var i := FindHex8At(line, mark);
    if Bears(line, mark, n) {
      var j: nat :| NumberAt(line, mark, j) && n == ReadHex(0, line[j..j + 8]) && forall k: nat | k < j :: !NumberAt(line, mark, k);
      assert !(i < j) && !(j < i);
    }
  }

  // ---- The table that lines tell ----

  function WordOf(line: string): nat {
    var w := FindHex8(line, false);
    if w.Some? then w.value else 0
  }

  function BaseOf(line: string): nat {
    var b := FindHex8(line, true);
    if b.Some? then b.value else 0
  }

  /** The words from a line on, up to the next base or checksum. */
  function WordsFrom(lines: seq<string>, i: nat): seq<nat>
    decreases |lines| - i
  {
    if i >= |lines| || IsBase(lines[i]) || IsSum(lines[i]) then []
    else (if IsWord(lines[i]) then [WordOf(lines[i])] else []) + WordsFrom(lines, i + 1)
  }

  /** No base and no checksum from a line on. */
  predicate Unended(lines: seq<string>, i: nat) {
    forall k | i <= k < |lines| :: !IsBase(lines[k]) && !IsSum(lines[k])
  }

  /** The block that begins at a line still goes on at the end. */
  predicate OpenAt(lines: seq<string>, b: nat) {
    b < |lines| && IsBase(lines[b]) && Unended(lines, b + 1)
  }

  /** The last block with its base. */
  predicate LastOf(lines: seq<string>, b: nat) {
    b < |lines| && IsBase(lines[b]) && forall k | b < k < |lines| && IsBase(lines[k]) :: BaseOf(lines[k]) != BaseOf(lines[b])
  }

  /** The table holds the last block of each base, and nothing else. */
  ghost predicate Tells(lines: seq<string>, t: Table) {
    && (forall b: nat | LastOf(lines, b) :: BaseOf(lines[b]) in t && t[BaseOf(lines[b])] == WordsFrom(lines, b + 1))
    && (forall k | k in t :: exists b: nat :: LastOf(lines, b) && BaseOf(lines[b]) == k)
  }

  // ---- Which lines are right ----

  predicate AllSpace(s: string) {
    forall i | 0 <= i < |s| :: IsSpace(s[i])
  }

  /** A checksum line with hexadecimal digits, and maybe space behind them. */
  ghost predicate Sums(line: string, n: nat) {
    exists digits: string, space: string ::
      line == "#checksum=" + digits + space && digits != "" && AllHex(digits) && AllSpace(space) && n == ReadHex(0, digits)
  }

  /**
   What `load` demands of a line behind others: one '=' in an attribute, the sum of the table so
   far in a checksum, a number behind the mark of a base, and a number and an open block for a word.
   */
  ghost predicate Fine(before: seq<string>, line: string) {
    if IsAttr(line) then multiset(line[2..])['='] == 1
    else if IsSum(line) then exists t: Table :: Tells(before, t) && Sums(line, Total(t) % 0x1_0000_0000)
    else if IsBase(line) then exists k: nat :: Bears(line, true, k)
    else (exists w: nat :: Bears(line, false, w)) && exists b: nat :: OpenAt(before, b)
  }

  // ---- Splitting and stripping ----

  lemma {:induction false} SplitCounts(s: string)
    ensures |Split(s)| == 1 + multiset(s)['=']
  {
    if s != "" {
      SplitCounts(s[1..]);
      assert s == [s[0]] + s[1..];
    }
  }

  lemma {:induction false} StripKeepsEquals(s: string)
    ensures multiset(Strip(s))['='] == multiset(s)['=']
    decreases |s|
  {
    if s != "" && IsSpace(s[0]) {
      assert s == [s[0]] + s[1..];
      StripKeepsEquals(s[1..]);
    } else if s != "" && IsSpace(s[|s| - 1]) {
      assert s == s[..|s| - 1] + [s[|s| - 1]];
      StripKeepsEquals(s[..|s| - 1]);
    }
  }

  /** `strip` takes space from both ends only. */
  lemma {:induction false} StripTakes(s: string) returns (a: string, b: string)
    ensures s == a + Strip(s) + b && AllSpace(a) && AllSpace(b)
    ensures Strip(s) != "" ==> !IsSpace(Strip(s)[0]) && !IsSpace(Strip(s)[|Strip(s)| - 1])
    decreases |s|
  {
    hide IsSpace;
    if s != "" && IsSpace(s[0]) {
      var c, d := StripTakes(s[1..]);
      a, b := [s[0]] + c, d;
      assert s == [s[0]] + (c + Strip(s[1..]) + d);
    } else if s != "" && IsSpace(s[|s| - 1]) {
      var c, d := StripTakes(s[..|s| - 1]);
      a, b := c, d + [s[|s| - 1]];
      assert s == (c + Strip(s[..|s| - 1]) + d) + [s[|s| - 1]];
    } else {
      a, b := "", "";
    }
  }

  lemma {:induction false} StripBack(core: string, space: string)
    requires core != "" && !IsSpace(core[0]) && !IsSpace(core[|core| - 1]) && AllSpace(space)
    ensures Strip(core + space) == core
    decreases |space|
  {
    var s := core + space;
    if space == "" {
      assert s == core;
    } else {
      assert s[..|s| - 1] == core + space[..|space| - 1];
      StripBack(core, space[..|space| - 1]);
    }
  }

  lemma HexNoSpace(c: char)
    requires HexValue(c).Some?
    ensures !IsSpace(c)
  {
  }

  /** The digits that `load` takes from a checksum line. */
  function SumDigits(line: string): string {
    Behind(Strip(line), |CHECKSUM|)
  }

  lemma NothingInFront(line: string, a: string)
    requires AllSpace(a) && a <= line && line != "" && !IsSpace(line[0])
    ensures a == ""
  {
  }

  lemma DigitsInLine(line: string) returns (space: string)
    requires IsSum(line) && SumDigits(line) != ""
    ensures line == CHECKSUM + SumDigits(line) + space && AllSpace(space)
  {
    hide Strip;
    var a, b := StripTakes(line);
    var core := Strip(line);
    space := b;
    assert line[0] == CHECKSUM[0];
    hide AllSpace;
    NothingInFront(line, a);
    assert line == core + b && |core| > |CHECKSUM|;
    assert core[..|CHECKSUM|] == line[..|CHECKSUM|] == CHECKSUM;
    assert core == CHECKSUM + SumDigits(line);
  }

  lemma LineToDigits(line: string, digits: string, space: string)
    requires line == CHECKSUM + digits + space && digits != "" && HexValue(digits[|digits| - 1]).Some? && AllSpace(space)
    ensures SumDigits(line) == digits
  {
    var core := CHECKSUM + digits;
    assert core[|core| - 1] == digits[|digits| - 1] && core[0] == '#';
    HexNoSpace(digits[|digits| - 1]);
    hide Strip, HexValue, AllSpace;
    StripBack(core, space);
    assert core[|CHECKSUM|..] == digits;
  }

  lemma SumDigitsRead(line: string, n: nat)
    requires IsSum(line)
    ensures Sums(line, n) <==> SumDigits(line) != "" && AllHex(SumDigits(line)) && n == ReadHex(0, SumDigits(line))
  {
    hide ReadHex, HexValue, SumDigits, AllSpace, IsSum;
    var digits := SumDigits(line);
    if digits != "" {
      var space := DigitsInLine(line);
      assert line == CHECKSUM + digits + space;
    }
    if Sums(line, n) {
      var d: string, space: string :|
        line == CHECKSUM + d + space && d != "" && AllHex(d) && AllSpace(space) && n == ReadHex(0, d);
      LineToDigits(line, d, space);
    }
  }

  // ---- One more line ----

  lemma {:induction false} WordsSnoc(lines: seq<string>, line: string, i: nat)
    requires i <= |lines|
    ensures WordsFrom(lines + [line], i) ==
            WordsFrom(lines, i) + (if Unended(lines, i) && IsWord(line) then [WordOf(line)] else [])
    decreases |lines| - i
  {
    hide WordOf;
    KindsApart(line);
    hide IsAttr, IsSum, IsBase;
    var all := lines + [line];
    if i < |lines| {
      assert all[i] == lines[i];
      if !IsBase(lines[i]) && !IsSum(lines[i]) {
        WordsSnoc(lines, line, i + 1);
      }
    } else {
      assert all[i] == line && WordsFrom(all, i + 1) == [];
    }
  }

  /** What the loop holds behind the lines: the table they tell, and the open block. */
  ghost predicate Shape(lines: seq<string>, m: Loading) {
    && Tells(lines, Flush(m).image.blocks)
    && (m.base.Some? <==> exists b: nat :: OpenAt(lines, b))
    && (m.base.None? ==> m.data == [])
    && (forall b: nat | OpenAt(lines, b) :: m.base == Some(BaseOf(lines[b])) && m.data == WordsFrom(lines, b + 1))
  }

  lemma OneOpen(lines: seq<string>, a: nat, b: nat)
    requires OpenAt(lines, a) && OpenAt(lines, b)
    ensures a == b
  {
  }

  /** A line that is neither a base nor a word leaves the table. */
  lemma TellsMore(lines: seq<string>, line: string, t: Table)
    requires Tells(lines, t) && !IsBase(line) && !IsWord(line)
    ensures Tells(lines + [line], t)
  {
    hide IsBase, IsWord, BaseOf, WordsFrom;
    var all := lines + [line];
    forall b: nat ensures LastOf(all, b) <==> LastOf(lines, b) {
      LastMore(lines, line, b);
    }
    forall b: nat | LastOf(all, b) ensures BaseOf(all[b]) in t && t[BaseOf(all[b])] == WordsFrom(all, b + 1) {
      WordsSnoc(lines, line, b + 1);
      assert all[b] == lines[b];
    }
    forall k | k in t ensures exists b: nat :: LastOf(all, b) && BaseOf(all[b]) == k {
      var b: nat :| LastOf(lines, b) && BaseOf(lines[b]) == k;
      assert LastOf(all, b) && all[b] == lines[b];
    }
  }

  lemma LastMore(lines: seq<string>, line: string, b: nat)
    requires !IsBase(line)
    ensures LastOf(lines + [line], b) <==> LastOf(lines, b)
  {
    hide IsBase, BaseOf;
    var all := lines + [line];
    forall k: nat | k < |lines| ensures all[k] == lines[k] { }
  }

  lemma LastBase(lines: seq<string>, line: string, b: nat)
    requires IsBase(line)
    ensures LastOf(lines + [line], b) <==> b == |lines| || (LastOf(lines, b) && BaseOf(lines[b]) != BaseOf(line))
  {
    hide IsBase, BaseOf;
    var all := lines + [line];
    forall k: nat | k < |lines| ensures all[k] == lines[k] { }
    assert all[|lines|] == line;
  }

  lemma TellsBase(lines: seq<string>, line: string, t: Table)
    requires Tells(lines, t) && IsBase(line)
    ensures Tells(lines + [line], t[BaseOf(line) := []])
  {
    KindsApart(line);
    hide IsBase, BaseOf, WordsFrom, IsAttr, IsSum;
    var all, u := lines + [line], t[BaseOf(line) := []];
    forall b: nat | LastOf(all, b) ensures BaseOf(all[b]) in u && u[BaseOf(all[b])] == WordsFrom(all, b + 1) {
      LastBase(lines, line, b);
      if b < |lines| {
        assert all[b] == lines[b];
        WordsSnoc(lines, line, b + 1);
      } else {
        NothingBehind(all);
      }
    }
    forall k | k in u ensures exists b: nat :: LastOf(all, b) && BaseOf(all[b]) == k {
      if k == BaseOf(line) {
        LastBase(lines, line, |lines|);
        assert all[|lines|] == line;
      } else {
        var b: nat :| LastOf(lines, b) && BaseOf(lines[b]) == k;
        LastBase(lines, line, b);
        assert all[b] == lines[b];
      }
    }
  }

  lemma NothingBehind(lines: seq<string>)
    ensures WordsFrom(lines, |lines|) == []
  {
  }

  lemma OpenIsLast(lines: seq<string>, b: nat)
    requires OpenAt(lines, b)
    ensures LastOf(lines, b)
  {
  }

  lemma WordsMore(lines: seq<string>, line: string, b: nat, c: nat)
    requires IsWord(line) && OpenAt(lines, b) && LastOf(lines, c)
    ensures (lines + [line])[c] == lines[c]
    ensures WordsFrom(lines + [line], c + 1) == WordsFrom(lines, c + 1) + (if c == b then [WordOf(line)] else [])
    ensures c != b ==> BaseOf(lines[c]) != BaseOf(lines[b])
  {
    WordsSnoc(lines, line, c + 1);
    if c != b { LastApart(lines, b, c); }
    hide IsBase, BaseOf, WordsFrom, WordOf, IsAttr, IsSum;
  }

  lemma TellsWord(lines: seq<string>, line: string, t: Table, b: nat)
    requires Tells(lines, t) && IsWord(line) && OpenAt(lines, b)
    ensures var k := BaseOf(lines[b]); k in t && Tells(lines + [line], t[k := t[k] + [WordOf(line)]])
  {
    OpenIsLast(lines, b);
    var all, k := lines + [line], BaseOf(lines[b]);
    var u := t[k := t[k] + [WordOf(line)]];
    forall c: nat ensures LastOf(all, c) <==> LastOf(lines, c) {
      LastMore(lines, line, c);
    }
    hide IsBase, BaseOf, WordsFrom, WordOf, IsWord, LastOf, OpenAt;
    forall c: nat | LastOf(all, c) ensures BaseOf(all[c]) in u && u[BaseOf(all[c])] == WordsFrom(all, c + 1) {
      WordsMore(lines, line, b, c);
    }
    forall j | j in u ensures exists c: nat :: LastOf(all, c) && BaseOf(all[c]) == j {
      var c: nat :| LastOf(lines, c) && BaseOf(lines[c]) == j;
      WordsMore(lines, line, b, c);
      assert LastOf(all, c);
    }
  }

  lemma LastApart(lines: seq<string>, b: nat, c: nat)
    requires OpenAt(lines, b) && LastOf(lines, c) && c != b
    ensures BaseOf(lines[c]) != BaseOf(lines[b]) && !Unended(lines, c + 1)
  {
    hide IsBase, BaseOf, IsSum;
    assert c < b;
  }

  lemma TellsUnique(lines: seq<string>, t: Table, u: Table)
    requires Tells(lines, t) && Tells(lines, u)
    ensures t == u
  {
    hide WordsFrom, BaseOf, IsBase;
    forall k ensures (k in t <==> k in u) && (k in t ==> t[k] == u[k]) {
      if k in t {
        var b: nat :| LastOf(lines, b) && BaseOf(lines[b]) == k;
        assert BaseOf(lines[b]) in u;
      }
      if k in u {
        var b: nat :| LastOf(lines, b) && BaseOf(lines[b]) == k;
        assert BaseOf(lines[b]) in t;
      }
    }
  }

  lemma NoOpen(lines: seq<string>, line: string)
    requires IsBase(line) || IsSum(line)
    ensures forall b: nat :: OpenAt(lines + [line], b) <==> b == |lines| && IsBase(line)
  {
    hide IsBase, IsSum;
    var all := lines + [line];
    assert all[|lines|] == line;
  }

  lemma StillOpen(lines: seq<string>, line: string)
    requires !IsBase(line) && !IsSum(line)
    ensures forall b: nat :: OpenAt(lines + [line], b) <==> OpenAt(lines, b)
  {
    hide IsBase, IsSum;
    var all := lines + [line];
    forall b: nat ensures OpenAt(all, b) <==> OpenAt(lines, b) {
      forall k: nat | k < |lines| ensures all[k] == lines[k] { }
    }
  }

  // ---- One step of the loop ----

  lemma AttrFine(lines: seq<string>, m: Loading, line: string)
    requires Shape(lines, m) && IsAttr(line)
    ensures var (next, outcome) := Step(m, line);
            && (outcome == Success <==> Fine(lines, line)) && (outcome != Success ==> outcome == SyntaxError)
            && (outcome == Success ==> Shape(lines + [line], next))
  {
    SplitCounts(Strip(line[2..]));
    StripKeepsEquals(line[2..]);
    KindsApart(line);
    var (next, outcome) := Step(m, line);
    assert next.base == m.base && next.data == m.data && next.image.blocks == m.image.blocks;
    assert outcome == (if |Split(Strip(line[2..]))| == 2 then Success else SyntaxError);
    hide Step, Strip, Split, IsAttr, IsBase, IsSum, BaseOf, WordsFrom, Tells, OpenAt;
    assert Flush(next).image.blocks == Flush(m).image.blocks;
    if outcome == Success {
      TellsMore(lines, line, Flush(m).image.blocks);
      StillOpen(lines, line);
      KeepsShape(lines, m, line, next);
    }
  }

  lemma KeepsShape(lines: seq<string>, m: Loading, line: string, next: Loading)
    requires Shape(lines, m) && !IsBase(line) && !IsWord(line) && !IsSum(line)
    requires next.base == m.base && next.data == m.data && Tells(lines + [line], Flush(next).image.blocks)
    ensures Shape(lines + [line], next)
  {
    hide IsBase, IsSum, IsWord, BaseOf, WordsFrom, Tells, Flush, Unended;
    var all := lines + [line];
    StillOpen(lines, line);
    forall b: nat | OpenAt(all, b) ensures next.base == Some(BaseOf(all[b])) && next.data == WordsFrom(all, b + 1) {
      InLines(lines, b);
      assert all[b] == lines[b];
      WordsSnoc(lines, line, b + 1);
    }
  }

  lemma InLines(lines: seq<string>, b: nat)
    requires OpenAt(lines, b)
    ensures b < |lines|
  {
  }

  lemma SumFine(lines: seq<string>, m: Loading, line: string)
    requires Shape(lines, m) && IsSum(line)
    ensures var (next, outcome) := Step(m, line);
            && (outcome == Success <==> Fine(lines, line))
            && (outcome != Success ==> outcome == if exists n: nat :: Sums(line, n) then ChecksumError else Exception)
            && (outcome == Success ==> Shape(lines + [line], next))
  {
    KindsApart(line);
    var digits := SumDigits(line);
    var (next, outcome) := Step(m, line);
    assert next == Flush(m);
    assert outcome == if digits == "" || !AllHex(digits) then Exception
                      else if ReadHex(0, digits) != Total(Flush(m).image.blocks) % WORD then ChecksumError else Success;
    hide Step, SumDigits, AllHex, ReadHex, IsAttr, IsSum, IsBase, Tells, OpenAt, Sums, Total, BaseOf, WordsFrom;
    forall n: nat ensures Sums(line, n) <==> digits != "" && AllHex(digits) && n == ReadHex(0, digits) {
      SumDigitsRead(line, n);
    }
    var t := Flush(m).image.blocks;
    forall u | Tells(lines, u) ensures u == t {
      TellsUnique(lines, t, u);
    }
    if outcome == Success {
      assert Sums(line, Total(t) % WORD);
      TellsMore(lines, line, t);
      NoOpen(lines, line);
      assert Flush(next) == next;
    } else if digits != "" && AllHex(digits) {
      assert Sums(line, ReadHex(0, digits));
    }
  }

  lemma BaseFine(lines: seq<string>, m: Loading, line: string)
    requires Shape(lines, m) && IsBase(line)
    ensures var (next, outcome) := Step(m, line);
            && (outcome == Success <==> Fine(lines, line)) && (outcome != Success ==> outcome == SyntaxError)
            && (outcome == Success ==> Shape(lines + [line], next))
  {
    KindsApart(line);
    var (next, outcome) := Step(m, line);
    assert outcome == if FindHex8(line, true).None? then SyntaxError else Success;
    assert outcome == Success ==> next == Flush(m).(base := Some(BaseOf(line)));
    hide Step, FindHex8, IsAttr, IsSum, IsBase, Tells, OpenAt, BaseOf, WordsFrom, Bears;
    forall k: nat ensures Bears(line, true, k) <==> FindHex8(line, true) == Some(k) {
      FindsFirst(line, true, k);
    }
    if outcome == Success {
      assert Bears(line, true, FindHex8(line, true).value);
      assert Flush(m).data == [] && Flush(m).base == None;
      TellsBase(lines, line, Flush(m).image.blocks);
      NoOpen(lines, line);
      assert OpenAt(lines + [line], |lines|) && (lines + [line])[|lines|] == line;
      NothingBehind(lines + [line]);
    }
  }

  lemma WordFine(lines: seq<string>, m: Loading, line: string)
    requires Shape(lines, m) && IsWord(line)
    ensures var (next, outcome) := Step(m, line);
            && (outcome == Success <==> Fine(lines, line)) && (outcome != Success ==> outcome == SyntaxError)
            && (outcome == Success ==> Shape(lines + [line], next))
  {
    var (next, outcome) := Step(m, line);
    assert outcome == if FindHex8(line, false).None? || m.base.None? then SyntaxError else Success;
    assert outcome == Success ==> next == m.(data := m.data + [WordOf(line)]);
    hide Step, FindHex8, IsAttr, IsSum, IsBase, Tells, OpenAt, BaseOf, WordsFrom, Bears, WordOf;
    forall k: nat ensures Bears(line, false, k) <==> FindHex8(line, false) == Some(k) {
      FindsFirst(line, false, k);
    }
    if outcome == Success {
      assert Bears(line, false, FindHex8(line, false).value);
      var b: nat :| OpenAt(lines, b);
      InLines(lines, b);
      WordShape(lines, m, line, b);
    }
  }

  lemma FlushWord(m: Loading, k: nat, w: nat)
    requires m.base == Some(k)
    ensures var t := Flush(m).image.blocks;
            k in t && Flush(m.(data := m.data + [w])).image.blocks == t[k := t[k] + [w]]
  {
    var t := Flush(m).image.blocks;
    assert t == m.image.blocks[k := m.data] && t[k] == m.data;
  }

  lemma OpenBase(lines: seq<string>, m: Loading, b: nat)
    requires Shape(lines, m) && b < |lines| && OpenAt(lines, b)
    ensures m.base == Some(BaseOf(lines[b])) && Tells(lines, Flush(m).image.blocks)
  {
    hide OpenAt, Tells, BaseOf, WordsFrom, Flush;
  }

  lemma WordTable(lines: seq<string>, m: Loading, line: string, b: nat)
    requires Shape(lines, m) && IsWord(line) && b < |lines| && OpenAt(lines, b)
    ensures Tells(lines + [line], Flush(m.(data := m.data + [WordOf(line)])).image.blocks)
  {
    hide *;
    OpenBase(lines, m, b);
    FlushWord(m, BaseOf(lines[b]), WordOf(line));
    TellsWord(lines, line, Flush(m).image.blocks, b);
  }

  lemma WordOpen(lines: seq<string>, m: Loading, line: string, b: nat, c: nat)
    requires Shape(lines, m) && IsWord(line) && OpenAt(lines, b) && c < |lines| + 1 && OpenAt(lines + [line], c)
    ensures m.base == Some(BaseOf((lines + [line])[c]))
    ensures m.data + [WordOf(line)] == WordsFrom(lines + [line], c + 1)
  {
    StillOpen(lines, line);
    OneOpen(lines, b, c);
    OpenIsLast(lines, b);
    WordsMore(lines, line, b, b);
    hide IsBase, IsSum, IsAttr, IsWord, Tells, BaseOf, WordsFrom, WordOf, Flush, OpenAt;
  }

  lemma WordShape(lines: seq<string>, m: Loading, line: string, b: nat)
    requires Shape(lines, m) && IsWord(line) && b < |lines| && OpenAt(lines, b)
    ensures Shape(lines + [line], m.(data := m.data + [WordOf(line)]))
  {
    var next, all := m.(data := m.data + [WordOf(line)]), lines + [line];
    WordTable(lines, m, line, b);
    StillOpen(lines, line);
    assert OpenAt(all, b) && m.base.Some?;
    hide IsBase, IsSum, IsAttr, IsWord, Tells, BaseOf, WordsFrom, WordOf, Flush, Unended;
    forall c: nat | OpenAt(all, c) ensures next.base == Some(BaseOf(all[c])) && next.data == WordsFrom(all, c + 1) {
      WordOpen(lines, m, line, b, c);
    }
  }

  /** How `load` fails at a line. */
  ghost function Fault(line: string): Outcome {
    if !IsSum(line) then SyntaxError else if exists n: nat :: Sums(line, n) then ChecksumError else Exception
  }

  lemma StepFine(lines: seq<string>, m: Loading, line: string)
    requires Shape(lines, m)
    ensures var (next, outcome) := Step(m, line);
            && (outcome == Success <==> Fine(lines, line)) && (outcome != Success ==> outcome == Fault(line))
            && (outcome == Success ==> Shape(lines + [line], next))
  {
    KindsApart(line);
    hide *;
    if IsAttr(line) {
      AttrFine(lines, m, line);
      OrdinaryFault(line);
    } else if IsSum(line) {
      SumFine(lines, m, line);
      SumFault(line);
    } else if IsBase(line) {
      BaseFine(lines, m, line);
      OrdinaryFault(line);
    } else {
      LeftIsWord(line);
      WordFine(lines, m, line);
      OrdinaryFault(line);
    }
  }

  lemma LeftIsWord(line: string)
    requires !IsAttr(line) && !IsSum(line) && !IsBase(line)
    ensures IsWord(line)
  {
  }

  lemma OrdinaryFault(line: string)
    requires !IsSum(line)
    ensures Fault(line) == SyntaxError
  {
  }

  lemma SumFault(line: string)
    requires IsSum(line)
    ensures Fault(line) == if exists n: nat :: Sums(line, n) then ChecksumError else Exception
  {
  }

  // ---- Whole files ----

  lemma EmptyShape()
    ensures Shape([], NOTHING)
  {
  }

  /** The first `n` lines are right, each behind those before it. */
  ghost predicate FineUpTo(lines: seq<string>, n: nat)
    requires n <= |lines|
  {
    forall i | 0 <= i < n :: Fine(lines[..i], lines[i])
  }

  lemma {:induction false} RunsFine(lines: seq<string>, n: nat) returns (m: Loading)
    requires n <= |lines| && FineUpTo(lines, n)
    ensures Runs(NOTHING, lines[..n], m) && Shape(lines[..n], m)
  {
    hide Step, Shape, Fine;
    if n == 0 {
      m := NOTHING;
      EmptyShape();
    } else {
      var l := RunsFine(lines, n - 1);
      StepFine(lines[..n - 1], l, lines[n - 1]);
      m := Step(l, lines[n - 1]).0;
      RunsOne(l, lines[n - 1], m);
      RunsAppend(NOTHING, lines[..n - 1], l, [lines[n - 1]], m);
      assert lines[..n] == lines[..n - 1] + [lines[n - 1]];
    }
  }

  /** A file of right lines is loaded, and the table is the one that the lines tell. */
  lemma LoadAccepts(lines: seq<string>)
    requires FineUpTo(lines, |lines|)
    ensures LoadLines(NOTHING, lines).1 == Success && Tells(lines, LoadLines(NOTHING, lines).0.image.blocks)
  {
    hide Step, Fine, Tells, Runs, FineUpTo, Flush, OpenAt;
    var m := RunsFine(lines, |lines|);
    assert lines[..|lines|] == lines && lines + [] == lines;
    LoadAppend(NOTHING, lines, [], m);
  }

  /** The first wrong line decides how loading fails. */
  lemma LoadRefuses(lines: seq<string>, n: nat)
    requires n < |lines| && FineUpTo(lines, n) && !Fine(lines[..n], lines[n])
    ensures LoadLines(NOTHING, lines).1 == Fault(lines[n]) != Success
  {
    hide Step, Fine, Runs, FineUpTo, Shape;
    var m := RunsFine(lines, n);
    assert lines == lines[..n] + lines[n..];
    LoadAppend(NOTHING, lines[..n], lines[n..], m);
    StepFine(lines[..n], m, lines[n]);
    assert lines[n..][0] == lines[n];
  }

  lemma {:induction false} FirstWrong(lines: seq<string>, n: nat) returns (i: nat)
    requires n <= |lines| && !FineUpTo(lines, n)
    ensures i < n && FineUpTo(lines, i) && !Fine(lines[..i], lines[i])
  {
    hide Fine;
    if FineUpTo(lines, n - 1) { i := n - 1; } else { i := FirstWrong(lines, n - 1); }
  }

  /** Loading succeeds exactly if every line is right behind those before it. */
  lemma LoadExactly(lines: seq<string>)
    ensures LoadLines(NOTHING, lines).1 == Success <==> FineUpTo(lines, |lines|)
  {
    hide *;
    if FineUpTo(lines, |lines|) {
      LoadAccepts(lines);
    } else {
      var i := FirstWrong(lines, |lines|);
      LoadRefuses(lines, i);
    }
  }

  /** The last line of a file need not end in a line feed. */
  lemma {:induction false} LinesOfOpen(lines: seq<string>, last: string)
    requires (forall i | 0 <= i < |lines| :: '\n' !in lines[i]) && last != "" && '\n' !in last
    ensures Lines(JoinLines(lines) + last) == lines + [last]
  {
    if lines == [] {
      assert JoinLines(lines) + last == last;
      NoLineEnd(last);
      assert last[..|last|] == last && [] + [last] == [last] + [];
    } else {
      var line, rest := lines[0], JoinLines(lines[1..]) + last;
      var text := line + "\n" + rest;
      assert JoinLines(lines) + last == text;
      LineLengthOf(line, rest);
      LinesOfOpen(lines[1..], last);
      assert text[..|line|] == line && text[|line| + 1..] == rest;
      assert lines + [last] == [line] + (lines[1..] + [last]);
    }
  }

  lemma {:induction false} NoLineEnd(text: string)
    requires '\n' !in text
    ensures LineLength(text) == |text|
  {
    if text != "" {
      assert text[0] in text;
      NoLineEnd(text[1..]);
    }
  }

  // ---- Attributes ----

  /** What an attribute line says: a name and a value, with space around both together. */
  ghost predicate Names(line: string, name: string, value: string) {
    exists a: string, b: string ::
      && line == "#$" + (a + (name + "=" + value) + b) && AllSpace(a) && AllSpace(b) && '=' !in name && '=' !in value
      && (name != "" ==> !IsSpace(name[0])) && (value != "" ==> !IsSpace(value[|value| - 1]))
  }

  lemma {:induction false} StripFront(a: string, core: string)
    requires AllSpace(a) && core != "" && !IsSpace(core[0]) && !IsSpace(core[|core| - 1])
    ensures forall b: string | AllSpace(b) :: Strip(a + core + b) == core
    decreases |a|
  {
    forall b: string | AllSpace(b) ensures Strip(a + core + b) == core {
      var s := a + core + b;
      if a == "" {
        assert s == core + b;
        StripBack(core, b);
      } else {
        assert s[1..] == a[1..] + core + b;
        StripFront(a[1..], core);
      }
    }
  }

  lemma NamesFields(line: string, name: string, value: string)
    requires Names(line, name, value)
    ensures IsAttr(line) && Split(Strip(line[2..])) == [name, value]
  {
    var a: string, b: string :|
      && line == "#$" + (a + (name + "=" + value) + b) && AllSpace(a) && AllSpace(b) && '=' !in name && '=' !in value
      && (name != "" ==> !IsSpace(name[0])) && (value != "" ==> !IsSpace(value[|value| - 1]));
    var core := name + "=" + value;
    assert line[..2] == "#$" && line[2..] == a + core + b;
    assert core[0] == if name == "" then '=' else name[0];
    assert core[|core| - 1] == if value == "" then '=' else value[|value| - 1];
    hide Strip, Split, AllSpace;
    StripFront(a, core);
    SplitPair(name, value);
  }

  /**
   An attribute line behind an accepted file adds its name to the list, also if it is there
   already, and puts its value in the place of an earlier one.
   */
  lemma AttrAdds(lines: seq<string>, line: string, name: string, value: string)
    requires FineUpTo(lines, |lines|) && Names(line, name, value)
    ensures var before, after := LoadLines(NOTHING, lines), LoadLines(NOTHING, lines + [line]);
            && after.1 == Success
            && after.0.image == before.0.image.(names := before.0.image.names + [name], attrs := before.0.image.attrs[name := value])
  {
    NamesFields(line, name, value);
    hide IsAttr, Strip, Split, Fine, Names, FineUpTo;
    var m := RunsFine(lines, |lines|);
    assert lines[..|lines|] == lines && lines + [] == lines;
    LoadAppend(NOTHING, lines, [], m);
    LoadAppend(NOTHING, lines, [line], m);
    AttrLineStep(m, line, name, value);
    var next := Step(m, line).0;
    assert [line][1..] == [];
    hide Step;
    FlushAttrs(m, next);
  }

  lemma AttrLineStep(m: Loading, line: string, name: string, value: string)
    requires IsAttr(line) && Split(Strip(line[2..])) == [name, value]
    ensures Step(m, line) == (m.(image := m.image.(names := m.image.names + [name], attrs := m.image.attrs[name := value])), Success)
  {
    hide Strip, Split;
  }

  lemma FlushAttrs(m: Loading, next: Loading)
    requires next == m.(image := m.image.(names := next.image.names, attrs := next.image.attrs))
    ensures Flush(next).image == Flush(m).image.(names := next.image.names, attrs := next.image.attrs)
  {
  }

  /** No other line touches the attributes. */
  lemma OthersKeepAttrs(lines: seq<string>, line: string)
    requires FineUpTo(lines, |lines|) && Fine(lines, line) && !IsAttr(line)
    ensures var before, after := LoadLines(NOTHING, lines).0.image, LoadLines(NOTHING, lines + [line]).0.image;
            after.names == before.names && after.attrs == before.attrs
  {
    hide Fine, FineUpTo;
    var m := RunsFine(lines, |lines|);
    assert lines[..|lines|] == lines && lines + [] == lines;
    LoadAppend(NOTHING, lines, [], m);
    LoadAppend(NOTHING, lines, [line], m);
    StepFine(lines, m, line);
    OtherLineStep(m, line);
    hide Step, IsAttr;
    assert [line][1..] == [];
  }

  lemma OtherLineStep(m: Loading, line: string)
    requires !IsAttr(line) && Step(m, line).1 == Success
    ensures var next := Step(m, line).0; next.image.names == m.image.names && next.image.attrs == m.image.attrs
  {
    hide FindHex8, Strip, Total, AllHex, ReadHex;
  }

  // ---- Stored images that were changed ----

  /** The lines that `store` writes in front of the checksum. */
  ghost function Body(image: Image): seq<string>
    requires CleanAttrs(image)
  {
    AttrLines(image.names, image.attrs) + TableLines(image.blocks)
  }

  /** With any other checksum, in eight digits of either case, the image is refused. */
  lemma WrongChecksum(image: Image, digits: string)
    requires CleanAttrs(image) && Fits(image.blocks)
    requires |digits| == 8 && AllHex(digits) && ReadHex(0, digits) != Total(image.blocks) % 0x1_0000_0000
    ensures LoadLines(NOTHING, Lines(JoinLines(Body(image) + ["#checksum=" + digits]))).1 == ChecksumError
  {
    var last := CHECKSUM + digits;
    BodyBreakFree(image);
    HexBreakFree(digits);
    hide AllHex, ReadHex, Total, LoadLines, JoinLines, Lines, Body, Step, CleanAttrs, Fits;
    BreakFreeAppend(Body(image), [last]);
    LinesOfJoin(Body(image) + [last]);
    var m := BodyRuns(image);
    LoadAppend(NOTHING, Body(image), [last], m);
    WrongStep(m, digits);
    LoadFault(m, last);
  }

  lemma BodyBreakFree(image: Image)
    requires CleanAttrs(image) && Fits(image.blocks)
    ensures BreakFree(Body(image))
  {
    AttrsBreakFree(image.names, image.attrs);
    TableBreakFree(image.blocks);
    hide AttrLines, TableLines;
    BreakFreeAppend(AttrLines(image.names, image.attrs), TableLines(image.blocks));
  }

  lemma HexBreakFree(digits: string)
    requires AllHex(digits)
    ensures BreakFree([CHECKSUM + digits])
  {
    assert HexValue('\n') == None;
    assert '\n' !in CHECKSUM;
    hide HexValue;
    var line := CHECKSUM + digits;
    forall i | 0 <= i < |line| ensures line[i] != '\n' {
      if i >= |CHECKSUM| { assert HexValue(digits[i - |CHECKSUM|]).Some?; } else { assert line[i] == CHECKSUM[i]; }
    }
  }

  lemma BodyRuns(image: Image) returns (m: Loading)
    requires CleanAttrs(image) && Fits(image.blocks)
    ensures Runs(NOTHING, Body(image), m) && (m.base.None? ==> m.data == []) && Flush(m).image == image
  {
    hide Step, TableLines, AttrLines, Runs, Listed;
    var named := NOTHING.(image := Image(image.names, image.attrs, map[]));
    FromNothing(image);
    AttrsRun(NOTHING, image.names, image.attrs);
    m := TableRuns(named, image.blocks);
    hide CleanAttrs, Fits, Listed, Flush;
    RunsAppend(NOTHING, AttrLines(image.names, image.attrs), named, TableLines(image.blocks), m);
  }

  lemma WrongStep(m: Loading, digits: string)
    requires digits != "" && AllHex(digits) && ReadHex(0, digits) != Total(Flush(m).image.blocks) % WORD
    ensures Step(m, CHECKSUM + digits).1 == ChecksumError
  {
    var line := CHECKSUM + digits;
    assert line[0] == '#' && line[1] == 'c' && line[|line| - 1] == digits[|digits| - 1];
    HexNoSpace(digits[|digits| - 1]);
    StripClean(line);
    assert line[|CHECKSUM|..] == digits;
    hide Total, ReadHex, Strip, Flush, AllHex;
  }

  lemma LoadFault(m: Loading, line: string)
    requires Step(m, line).1 == ChecksumError
    ensures LoadLines(m, [line]).1 == ChecksumError
  {
    hide Step;
  }

  function WithWord(data: seq<nat>, i: nat, w: nat): seq<nat>
    requires i < |data|
  {
    data[i := w]
  }

  lemma {:induction false} SumChanged(data: seq<nat>, i: nat, w: nat)
    requires i < |data|
    ensures Sum(WithWord(data, i, w)) == Sum(data) - data[i] + w
  {
    if i > 0 {
      assert data[i := w][1..] == WithWord(data[1..], i - 1, w);
      SumChanged(data[1..], i - 1, w);
    } else {
      assert data[i := w][1..] == data[1..];
    }
  }

  lemma TotalChanged(table: Table, k: nat, i: nat, w: nat)
    requires k in table && i < |table[k]|
    ensures Total(table[k := WithWord(table[k], i, w)]) == Total(table) - table[k][i] + w
  {
    var changed := table[k := WithWord(table[k], i, w)];
    TotalAnyOrder(table, k);
    TotalAnyOrder(changed, k);
    assert changed - {k} == table - {k};
    SumChanged(table[k], i, w);
    hide Total, Sum;
  }

  lemma OtherRest(total: nat, a: nat, b: nat)
    requires a < WORD && b < WORD && a != b && a <= total
    ensures (total - a + b) % WORD != total % WORD
  {
    var s: int := total - a + b;
    assert s - total == (s / WORD - total / WORD) * WORD + (s % WORD - total % WORD);
    assert s != total && 0 - WORD < s - total < WORD;
  }

  lemma {:induction false} PartOfSum(data: seq<nat>, i: nat)
    requires i < |data|
    ensures data[i] <= Sum(data)
  {
    if i > 0 { PartOfSum(data[1..], i - 1); }
  }

  /** With one word changed to any other, and the checksum left, the image is refused. */
  lemma WrongWord(image: Image, k: nat, i: nat, w: nat)
    requires CleanAttrs(image) && Fits(image.blocks) && k in image.blocks && i < |image.blocks[k]|
    requires w < WORD && w != image.blocks[k][i]
    ensures var changed := image.(blocks := image.blocks[k := WithWord(image.blocks[k], i, w)]);
            && CleanAttrs(changed)
            && LoadLines(NOTHING, Lines(JoinLines(Body(changed) + [CHECKSUM + Hex8(Total(image.blocks) % WORD)]))).1 == ChecksumError
  {
    var data := image.blocks[k];
    var changed := image.(blocks := image.blocks[k := WithWord(data, i, w)]);
    assert FitsWords(data) && FitsWords(WithWord(data, i, w));
    assert CleanAttrs(changed) && Fits(changed.blocks);
    hide CleanAttrs, Fits, FitsWords, LoadLines, JoinLines, Lines, Body, Hex8, ReadHex, AllHex;
    TotalChanged(image.blocks, k, i, w);
    TotalAnyOrder(image.blocks, k);
    PartOfSum(data, i);
    hide Total, Sum;
    OtherRest(Total(image.blocks), data[i], w);
    Hex8Reads(Total(image.blocks) % WORD);
    WrongChecksum(changed, Hex8(Total(image.blocks) % WORD));
  }

  // ---- The stored text ----

  /** The digits of `%08x`: no capitals. */
  lemma {:induction false} HexIsLower(n: nat)
    ensures forall c | c in Hex(n) :: '0' <= c <= '9' || 'a' <= c <= 'f'
  {
    if n >= 16 { HexIsLower(n / 16); }
  }

  lemma {:induction false} ZerosAreZeros(n: int)
    ensures forall c | c in Zeros(n) :: c == '0'
    decreases if n < 0 then 0 else n
  {
    if n > 0 { ZerosAreZeros(n - 1); }
  }

  lemma Hex8IsLower(n: nat)
    ensures forall c | c in Hex8(n) :: '0' <= c <= '9' || 'a' <= c <= 'f'
  {
    HexIsLower(n);
    ZerosAreZeros(8 - |Hex(n)|);
    hide Hex, Zeros;
  }

  /** The lines of the least block, and of the rest. */
  lemma TableSplit(table: Table) returns (k: nat, words: seq<string>, rest: Table)
    requires Fits(table) && TableLines(table) != []
    ensures k in table && rest == table - {k} && |rest| < |table| && Fits(rest) && forall b | b in rest :: k < b
    ensures TableLines(table) == ["@" + Hex8(k)] + words + TableLines(rest)
    ensures k < WORD && forall i | 0 <= i < |words| :: !IsBase(words[i])
  {
    assert table.Keys != {};
    k := Least(table.Keys);
    rest := table - {k};
    assert table.Keys == rest.Keys + {k};
    words := WordLines(table[k]);
    WordsNoBase(table[k]);
    hide WordLines, Hex8, IsBase;
  }

  /** The bases are stored in ascending order: a base line is never followed by a lesser one. */
  lemma {:induction false} StoredAscending(table: Table, i: nat, j: nat)
    requires Fits(table) && i < j < |TableLines(table)| && IsBase(TableLines(table)[i]) && IsBase(TableLines(table)[j])
    ensures BaseOf(TableLines(table)[i]) < BaseOf(TableLines(table)[j])
    decreases |table|
  {
    hide *;
    var lines := TableLines(table);
    var k, words, rest := TableSplit(table);
    var n, tail := |words| + 1, TableLines(rest);
    assert j >= n && lines[j] == tail[j - n];
    if i == 0 {
      BaseReads(k);
      var b := TableBase(rest, j - n);
    } else {
      assert i >= n && lines[i] == tail[i - n];
      StoredAscending(rest, i - n, j - n);
    }
  }

  lemma BaseReads(k: nat)
    requires k < WORD
    ensures IsBase("@" + Hex8(k)) && BaseOf("@" + Hex8(k)) == k
  {
    FoundHex8(k);
    hide Hex8, FindHex8;
  }

  lemma {:induction false} WordsNoBase(data: seq<nat>)
    requires FitsWords(data)
    ensures forall i | 0 <= i < |WordLines(data)| :: !IsBase(WordLines(data)[i])
  {
    if data != [] {
      Hex8Reads(data[0]);
      assert Hex8(data[0])[0] != '@' by { assert HexValue(Hex8(data[0])[0]).Some?; }
      WordsNoBase(data[1..]);
      hide Hex8;
    }
  }

  /** Every base line of a table's text is one of the table's bases. */
  lemma {:induction false} TableBase(table: Table, i: nat) returns (b: nat)
    requires Fits(table) && i < |TableLines(table)| && IsBase(TableLines(table)[i])
    ensures b in table && BaseOf(TableLines(table)[i]) == b
    decreases |table|
  {
    hide *;
    var lines := TableLines(table);
    var k, words, rest := TableSplit(table);
    var n, tail := |words| + 1, TableLines(rest);
    if i == 0 {
      BaseReads(k);
      b := k;
    } else {
      assert i >= n && lines[i] == tail[i - n];
      b := TableBase(rest, i - n);
    }
  }
}
