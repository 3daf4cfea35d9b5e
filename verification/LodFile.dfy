/**
 The class `LOD` and `dual_merge`: fields filled line by line, a table of blocks that two
 images can share, and the padding loop.
 */
module LodFile {
  import opened Options
  import opened Lod

  /** A dictionary of blocks; images refer to it, so a change through one shows in the other. */
  class Blocks {
    var table: Table

    constructor ()
      ensures table == map[]
    {
      table := map[];
    }
  }

  class LOD {
    var attrnames: seq<string>
    var attrs: map<string, string>
    var blocks: Blocks

    constructor ()
      ensures Holds() == Image([], map[], map[]) && fresh(blocks)
    {
      attrnames, attrs := [], map[];
      blocks := new Blocks();
    }

    ghost function Holds(): Image
      reads this, blocks
    {
      Image(attrnames, attrs, blocks.table)
    }

    /** `checksum`: the blocks are visited in whatever order the dictionary has. */
    method Checksum() returns (sum: nat)
      ensures sum == Total(blocks.table) % WORD
    {
      hide Total, Sum;
      var left := blocks.table.Keys;
      ghost var rest := blocks.table;
      var total: nat := 0;
      while left != {}
        invariant left == rest.Keys <= blocks.table.Keys
        invariant forall k | k in rest :: rest[k] == blocks.table[k]
        invariant Total(blocks.table) == total + Total(rest)
        decreases |left|
      {
        var k :| k in left;
        TotalAnyOrder(rest, k);
        var data := SumOf(blocks.table[k]);
        total := total + data;
        rest := rest - {k};
        left := left - {k};
      }
      NoBlocksNoSum(rest);
      sum := total % WORD;
    }

    /** The inner loop of `checksum`. */
    static method SumOf(data: seq<nat>) returns (sum: nat)
      ensures sum == Sum(data)
    {
      hide Sum;
      sum := 0;
      var i := 0;
      NoWords();
      while i < |data|
        invariant 0 <= i <= |data| && sum == Sum(data[..i])
      {
        assert data[..i + 1] == data[..i] + [data[i]];
        SumAppend(data[..i], data[i]);
        sum := sum + data[i];
        i := i + 1;
      }
      assert data[..|data|] == data;
    }

    /** `load`, on the text of the file. */
    method Load(text: string) returns (outcome: Outcome)
      modifies this
      ensures fresh(blocks)
      ensures (outcome, Holds()) == (LoadLines(NOTHING, Lines(text)).1, LoadLines(NOTHING, Lines(text)).0.image)
    {
      hide LoadLines, Lines, Total, Strip, Split, FindHex8;
      attrnames, attrs := [], map[];
      blocks := new Blocks();
      var base: Option<nat>, data: seq<nat> := None, [];
      var lines := Lines(text);
      var i := 0;
      assert lines[0..] == lines;
      while i < |lines|
        invariant 0 <= i <= |lines| && fresh(blocks)
        invariant LoadLines(NOTHING, lines) == LoadLines(Loading(Holds(), base, data), lines[i..])
      {
        LoadStep(Loading(Holds(), base, data), lines, i);
        outcome, base, data := LoadLine(lines[i], base, data);
        if outcome != Success {
          return;
        }
        i := i + 1;
      }
      LoadEnd(Loading(Holds(), base, data), lines);
      if base.Some? {
        blocks.table := blocks.table[base.value := data];
      }
      outcome := Success;
    }

    /** One round of the loop over lines. */
    method LoadLine(line: string, base: Option<nat>, data: seq<nat>)
      returns (outcome: Outcome, newBase: Option<nat>, newData: seq<nat>)
      modifies this, blocks
      ensures blocks == old(blocks)
      ensures (Loading(Holds(), newBase, newData), outcome) == Step(Loading(old(Holds()), base, data), line)
    {
      hide Total, Strip, Split, FindHex8, AllHex;
      outcome, newBase, newData := Success, base, data;
      if "#$" <= line {
        var fields := Split(Strip(line[2..]));
        if |fields| != 2 {
          outcome := SyntaxError;
          return;
        }
        attrnames := attrnames + [fields[0]];
        attrs := attrs[fields[0] := fields[1]];
      } else if CHECKSUM <= line {
        if base.Some? {
          blocks.table := blocks.table[base.value := data];
          newBase, newData := None, [];
        }
        var digits := Behind(Strip(line), |CHECKSUM|);
        if digits == "" || !AllHex(digits) {
          outcome := Exception;
          return;
        }
        var chk := ReadHex(0, digits);
        var expected := Checksum();
        if chk != expected {
          outcome := ChecksumError;
        }
      } else if "@" <= line {
        var found := FindHex8(line, true);
        if found.None? {
          outcome := SyntaxError;
          return;
        }
        if base.Some? {
          blocks.table := blocks.table[base.value := data];
          newData := [];
        }
        newBase := found;
      } else {
        var found := FindHex8(line, false);
        if found.None? || base.None? {
          outcome := SyntaxError;
          return;
        }
        newData := data + [found.value];
      }
    }

    /** `store`: the text of the file, or an exception at an attribute without a value. */
    method Store() returns (text: string, outcome: Outcome)
      ensures outcome == if forall i | 0 <= i < |attrnames| :: attrnames[i] in attrs then Success else Exception
      ensures outcome == Success ==> text == JoinLines(StoreLines(Holds()))
    {
      hide JoinLines, AttrLines, WordLines, TableLines, Hex8, Total;
      text, outcome := "", Success;
      ghost var lines: seq<string> := [];
      NothingStored();
      var i := 0;
      while i < |attrnames|
        invariant 0 <= i <= |attrnames|
        invariant forall k | 0 <= k < i :: attrnames[k] in attrs
        invariant lines == AttrLines(attrnames[..i], attrs) && text == JoinLines(lines)
      {
        var attr := attrnames[i];
        if attr !in attrs {
          return text, Exception;
        }
        AttrNext(attrnames, attrs, i);
        var line := "#$" + attr + "=" + attrs[attr];
        JoinNext(lines, line);
        text := text + line + "\n";
        lines := lines + [line];
        i := i + 1;
      }
      assert attrnames[..|attrnames|] == attrnames;
      var body := StoreBlocks();
      JoinAppend(lines, TableLines(blocks.table));
      text := text + body;
      lines := lines + TableLines(blocks.table);
      var sum := Checksum();
      JoinNext(lines, CHECKSUM + Hex8(sum));
      text := text + (CHECKSUM + Hex8(sum)) + "\n";
    }

    /** The blocks in ascending order of their bases. */
    method StoreBlocks() returns (text: string)
      ensures text == JoinLines(TableLines(blocks.table))
    {
      hide JoinLines, WordLines, TableLines, Hex8;
      text := "";
      ghost var lines: seq<string> := [];
      ghost var rest := blocks.table;
      NothingStored();
      var keys := blocks.table.Keys;
      assert lines + TableLines(rest) == TableLines(rest);
      while keys != {}
        invariant keys == rest.Keys <= blocks.table.Keys
        invariant forall k | k in rest :: rest[k] == blocks.table[k]
        invariant text == JoinLines(lines)
        invariant lines + TableLines(rest) == TableLines(blocks.table)
        decreases |keys|
      {
        var k := FindLeast(keys);
        TableNext(rest, lines);
        var words := StoreWords(blocks.table[k]);
        JoinNext(lines, "@" + Hex8(k));
        JoinAppend(lines + ["@" + Hex8(k)], WordLines(rest[k]));
        text := text + ("@" + Hex8(k)) + "\n" + words;
        lines := lines + ["@" + Hex8(k)] + WordLines(rest[k]);
        rest := rest - {k};
        keys := keys - {k};
      }
      TableNothing(rest);
      assert lines + [] == lines;
    }

    static method StoreWords(data: seq<nat>) returns (text: string)
      ensures text == JoinLines(WordLines(data))
    {
      hide JoinLines, WordLines, Hex8;
      text := "";
      var i := 0;
      NothingStored();
      while i < |data|
        invariant 0 <= i <= |data| && text == JoinLines(WordLines(data[..i]))
      {
        WordNext(data, i);
        JoinNext(WordLines(data[..i]), Hex8(data[i]));
        text := text + Hex8(data[i]) + "\n";
        i := i + 1;
      }
      assert data[..|data|] == data;
    }

    /** The first of `sorted(keys)`. */
    static method FindLeast(keys: set<nat>) returns (least: nat)
      requires keys != {}
      ensures least == Least(keys)
    {
      var left := keys;
      least :| least in keys;
      left := left - {least};
      ghost var seen := {least};
      while left != {}
        invariant seen + left == keys && least in seen
        invariant forall k | k in seen :: least <= k
        decreases |left|
      {
        var k :| k in left;
        left := left - {k};
        seen := seen + {k};
        if k < least {
          least := k;
        }
      }
    }
  }

  lemma NoBlocksNoSum(table: Table)
    requires table.Keys == {}
    ensures Total(table) == 0
  {
  }

  lemma NoWords()
    ensures forall data: seq<nat> :: Sum(data[..0]) == 0
  {
  }

  lemma LoadStep(l: Loading, lines: seq<string>, i: nat)
    requires i < |lines|
    ensures LoadLines(l, lines[i..]) ==
            var (next, outcome) := Step(l, lines[i]); if outcome != Success then (next, outcome) else LoadLines(next, lines[i + 1..])
  { }

  lemma LoadEnd(l: Loading, lines: seq<string>)
    ensures LoadLines(l, lines[|lines|..]) == (Flush(l), Success)
  {
  }

  lemma NothingStored()
    ensures JoinLines([]) == "" && WordLines([]) == [] && AttrLines([], map[]) == []
    ensures forall names: seq<string>, attrs: map<string, string> :: AttrLines(names[..0], attrs) == []
    ensures forall data: seq<nat> :: WordLines(data[..0]) == []
  {
  }

  lemma TableNothing(table: Table)
    requires table.Keys == {}
    ensures TableLines(table) == []
  {
  }

  lemma TableNext(rest: Table, lines: seq<string>)
    requires rest.Keys != {}
    ensures var k := Least(rest.Keys);
            lines + TableLines(rest) == (lines + ["@" + Hex8(k)] + WordLines(rest[k])) + TableLines(rest - {k})
  { }

  lemma {:induction false} JoinNext(lines: seq<string>, line: string)
    ensures JoinLines(lines + [line]) == JoinLines(lines) + line + "\n"
  {
    if lines == [] {
      assert lines + [line] == [line];
      assert JoinLines([line][1..]) == "";
    } else {
      assert (lines + [line])[1..] == lines[1..] + [line];
      JoinNext(lines[1..], line);
    }
  }

  lemma {:induction false} JoinAppend(a: seq<string>, b: seq<string>)
    ensures JoinLines(a + b) == JoinLines(a) + JoinLines(b)
  {
    if a == [] {
      assert a + b == b;
    } else {
      assert (a + b)[1..] == a[1..] + b;
      JoinAppend(a[1..], b);
      assert (a[0] + "\n") + (JoinLines(a[1..]) + JoinLines(b)) == (a[0] + "\n" + JoinLines(a[1..])) + JoinLines(b);
    }
  }

  lemma {:induction false} AttrAppend(names: seq<string>, attrs: map<string, string>, name: string)
    requires name in attrs && forall i | 0 <= i < |names| :: names[i] in attrs
    ensures AttrLines(names + [name], attrs) == AttrLines(names, attrs) + ["#$" + name + "=" + attrs[name]]
  {
    if names == [] {
      assert names + [name] == [name];
    } else {
      assert (names + [name])[1..] == names[1..] + [name];
      AttrAppend(names[1..], attrs, name);
    }
  }

  lemma AttrNext(names: seq<string>, attrs: map<string, string>, i: nat)
    requires i < |names| && forall k | 0 <= k <= i :: names[k] in attrs
    ensures AttrLines(names[..i + 1], attrs) == AttrLines(names[..i], attrs) + ["#$" + names[i] + "=" + attrs[names[i]]]
  {
    assert names[..i + 1] == names[..i] + [names[i]];
    AttrAppend(names[..i], attrs, names[i]);
  }

  lemma {:induction false} WordAppend(data: seq<nat>, w: nat)
    ensures WordLines(data + [w]) == WordLines(data) + [Hex8(w)]
  {
    if data == [] {
      assert data + [w] == [w];
    } else {
      assert (data + [w])[1..] == data[1..] + [w];
      WordAppend(data[1..], w);
    }
  }

  lemma WordNext(data: seq<nat>, i: nat)
    requires i < |data|
    ensures WordLines(data[..i + 1]) == WordLines(data[..i]) + [Hex8(data[i])]
  {
    assert data[..i + 1] == data[..i] + [data[i]];
    WordAppend(data[..i], data[i]);
  }
}
