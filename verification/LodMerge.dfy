/**
 `dual_merge`: the checks, the padding of the gap between the two images, and what can be
 read from the result.
 */
module LodMerge {
  import opened Decimal
  import opened Options
  import opened Lod
  import opened LodFile

  const PAD: nat := 0xffff_ffff
  const SECTOR: nat := 0x1000
  const SECTORS: nat := 0x1_0000

  // ---- Addresses ----

  function End(base: nat, data: seq<nat>): nat {
    base + 4 * |data|
  }

  /** `end_address`: the highest end of a block, and 0 without blocks. */
  ghost predicate IsEnd(table: Table, ea: nat) {
    && (forall k | k in table :: End(k, table[k]) <= ea)
    && (ea == 0 || exists k :: k in table && End(k, table[k]) == ea)
  }

  method EndAddress(lod: LOD) returns (ea: nat)
    ensures IsEnd(lod.blocks.table, ea)
  {
    var table := lod.blocks.table;
    var left := table.Keys;
    ghost var seen: set<nat> := {};
    ea := 0;
    while left != {}
      invariant seen + left == table.Keys && left <= table.Keys
      invariant forall k | k in seen :: k in table && End(k, table[k]) <= ea
      invariant ea == 0 || exists k :: k in table && End(k, table[k]) == ea
      decreases |left|
    {
      var k: nat :| k in left;
      left := left - {k};
      seen := seen + {k};
      var bea := k + |table[k]| * 4;
      if bea > ea {
        ea := bea;
        assert k in table && End(k, table[k]) == ea;
      }
    }
  }

  lemma EndUnique(table: Table, a: nat, b: nat)
    requires IsEnd(table, a) && IsEnd(table, b)
    ensures a == b
  { }

  // ---- Padding ----

  datatype Padded = Padded(blocks: Table, complete: bool)

  function PadBlock(size: nat): (data: seq<nat>)
    ensures |data| == size / 4 && forall i | 0 <= i < |data| :: data[i] == PAD
  {
    seq(size / 4, _ => PAD)
  }

  /** The size of the next pad, or nothing when the address or the gap is not aligned. */
  function PadSize(pa: nat, sa: nat): (size: Option<nat>)
    requires pa < sa
    ensures size.Some? ==> (size.value == SECTOR || size.value == SECTORS) && pa + size.value <= sa
    ensures size.Some? ==> pa % SECTOR == 0
  {
    if pa % SECTORS == 0 && sa - pa >= SECTORS then
      Aligned(pa);
      Some(SECTORS)
    else if pa % SECTOR == 0 && sa - pa >= SECTOR then Some(SECTOR)
    else None
  }

  lemma Aligned(a: nat)
    requires a % SECTORS == 0
    ensures a % SECTOR == 0
  { }

  /** What the loop adds from `pa` up to `sa`. */
  function Padding(pa: nat, sa: nat): Padded
    decreases sa - pa
  {
    if pa >= sa then Padded(map[], true)
    else
      var size := PadSize(pa, sa);
      if size.None? then Padded(map[], false)
      else
        var rest := Padding(pa + size.value, sa);
        Padded(rest.blocks[pa := PadBlock(size.value)], rest.complete)
  }

  lemma NextAligned(pa: nat, size: nat)
    requires pa % SECTOR == 0 && (size == SECTOR || size == SECTORS)
    ensures (pa + size) % SECTOR == 0
  { }

  /** An aligned gap smaller than a sector is empty. */
  lemma SmallGap(pa: nat, sa: nat)
    requires pa % SECTOR == 0 && sa % SECTOR == 0 && pa < sa
    ensures sa - pa >= SECTOR
  { }

  /** Padding succeeds exactly for an empty gap and for one with both ends on sector borders. */
  lemma {:induction false} PaddingSucceeds(pa: nat, sa: nat)
    ensures Padding(pa, sa).complete <==> pa >= sa || (pa % SECTOR == 0 && sa % SECTOR == 0)
    decreases sa - pa
  {
    if pa < sa {
      var size := PadSize(pa, sa);
      if pa % SECTOR == 0 && sa % SECTOR == 0 {
        SmallGap(pa, sa);
      }
      if size.Some? {
        NextAligned(pa, size.value);
        PaddingSucceeds(pa + size.value, sa);
      }
    }
  }

  lemma PaddingAt(pa: nat, sa: nat)
    requires pa < sa && PadSize(pa, sa).Some?
    ensures var size := PadSize(pa, sa).value;
            Padding(pa, sa).blocks == Padding(pa + size, sa).blocks[pa := PadBlock(size)] && pa % 0x1000 == 0
  {
    hide PadBlock;
  }

  /** A pad has 64 KiB where it begins on such a border and has the room, and else 4 KiB. */
  lemma {:induction false} PadShape(pa: nat, sa: nat)
    ensures var pads := Padding(pa, sa).blocks;
            forall k | k in pads ::
              && pa <= k && k % 0x1000 == 0
              && |pads[k]| == (if k % 0x1_0000 == 0 && k + 0x1_0000 <= sa then 0x4000 else 0x400)
              && forall i | 0 <= i < |pads[k]| :: pads[k][i] == 0xffff_ffff
    decreases sa - pa
  {
    if pa < sa && PadSize(pa, sa).Some? {
      var size := PadSize(pa, sa).value;
      PadShape(pa + size, sa);
      PaddingAt(pa, sa);
      assert size == if pa % 0x1_0000 == 0 && pa + 0x1_0000 <= sa then 0x1_0000 else 0x1000;
      hide Padding, PadSize, PadBlock;
      var pads, rest := Padding(pa, sa).blocks, Padding(pa + size, sa).blocks;
      forall k | k in pads
        ensures pa <= k && k % 0x1000 == 0
        ensures |pads[k]| == (if k % 0x1_0000 == 0 && k + 0x1_0000 <= sa then 0x4000 else 0x400)
        ensures forall i | 0 <= i < |pads[k]| :: pads[k][i] == 0xffff_ffff
      {
        if k == pa { assert pads[k] == PadBlock(size); } else { assert pads[k] == rest[k]; }
      }
    }
  }

  /** A word of a table at an address. */
  ghost predicate Reads(table: Table, a: nat, w: nat) {
    exists k :: k in table && ReadsIn(k, table[k], a, w)
  }

  predicate ReadsIn(k: nat, data: seq<nat>, a: nat, w: nat) {
    k <= a < End(k, data) && (a - k) % 4 == 0 && data[(a - k) / 4] == w
  }

  /** No two blocks share an address. */
  ghost predicate NoOverlap(table: Table) {
    forall j, k | j in table && k in table && j < k :: End(j, table[j]) <= k
  }

  ghost predicate NonEmpty(table: Table) {
    forall k | k in table :: table[k] != []
  }

  /** All blocks lie in a range. */
  ghost predicate Within(table: Table, from: nat, to: nat) {
    forall k | k in table :: from <= k && End(k, table[k]) <= to
  }

  lemma PadReads(pa: nat, size: nat, a: nat, w: nat)
    requires size == SECTOR || size == SECTORS
    ensures ReadsIn(pa, PadBlock(size), a, w) <==> pa <= a < pa + size && (a - pa) % 4 == 0 && w == PAD
    ensures End(pa, PadBlock(size)) == pa + size && PadBlock(size) != []
  {
  }

  /** The gap, word by word. */
  predicate InGap(pa: nat, sa: nat, a: nat, w: nat) {
    pa <= a < sa && (a - pa) % 4 == 0 && w == 0xffff_ffff
  }

  lemma ReadsWithBlock(table: Table, k: nat, data: seq<nat>, a: nat, w: nat)
    requires k !in table
    ensures Reads(table[k := data], a, w) <==> Reads(table, a, w) || ReadsIn(k, data, a, w)
  {
    hide ReadsIn;
    var t := table[k := data];
    if Reads(table, a, w) {
      var j :| j in table && ReadsIn(j, table[j], a, w);
      assert t[j] == table[j];
    }
    if ReadsIn(k, data, a, w) { assert t[k] == data; }
    if Reads(t, a, w) {
      var j :| j in t && ReadsIn(j, t[j], a, w);
      assert j != k ==> j in table && table[j] == t[j];
    }
  }

  lemma NothingReads(a: nat, w: nat)
    ensures !Reads(map[], a, w)
  {
  }

  /** The pads lie in the gap, share no address, and, if all fit, tile it exactly. */
  lemma {:induction false} PaddingTiles(pa: nat, sa: nat)
    ensures var pads := Padding(pa, sa).blocks; Within(pads, pa, sa) && NonEmpty(pads) && NoOverlap(pads)
    ensures Padding(pa, sa).complete ==>
      forall a: nat, w: nat :: Reads(Padding(pa, sa).blocks, a, w) <==> InGap(pa, sa, a, w)
    decreases sa - pa
  {
    if pa < sa && PadSize(pa, sa).Some? {
      var size := PadSize(pa, sa).value;
      PaddingTiles(pa + size, sa);
      PaddingAt(pa, sa);
      assert pa + size <= sa && (size == SECTOR || size == SECTORS);
      assert Padding(pa, sa).complete == Padding(pa + size, sa).complete;
      hide PadBlock, PadSize, Padding;
      PadInFront(Padding(pa + size, sa).blocks, pa, size, sa);
      if Padding(pa, sa).complete { PadsRead(Padding(pa + size, sa).blocks, pa, size, sa); }
    } else {
      hide Reads, ReadsIn;
      forall a: nat, w: nat ensures !Reads(map[], a, w) {
        NothingReads(a, w);
      }
    }
  }

  /** One more pad in front of others. */
  lemma PadInFront(rest: Table, pa: nat, size: nat, sa: nat)
    requires (size == SECTOR || size == SECTORS) && pa + size <= sa
    requires Within(rest, pa + size, sa) && NonEmpty(rest) && NoOverlap(rest)
    ensures var pads := rest[pa := PadBlock(size)]; Within(pads, pa, sa) && NonEmpty(pads) && NoOverlap(pads)
  {
    PadReads(pa, size, pa, PAD);
    hide PadBlock;
  }

  lemma PadsRead(rest: Table, pa: nat, size: nat, sa: nat)
    requires (size == SECTOR || size == SECTORS) && pa + size <= sa && Within(rest, pa + size, sa)
    requires forall a: nat, w: nat :: Reads(rest, a, w) <==> InGap(pa + size, sa, a, w)
    ensures forall a: nat, w: nat :: Reads(rest[pa := PadBlock(size)], a, w) <==> InGap(pa, sa, a, w)
  {
    hide PadBlock, Reads, ReadsIn;
    forall a: nat, w: nat ensures Reads(rest[pa := PadBlock(size)], a, w) <==> InGap(pa, sa, a, w) {
      PadReads(pa, size, a, w);
      ReadsWithBlock(rest, pa, PadBlock(size), a, w);
    }
  }

  // ---- Images side by side ----

  lemma KeysApart(low: Table, high: Table, at: nat)
    requires Within(low, 0, at) && NonEmpty(low) && forall k | k in high :: at <= k
    ensures low.Keys !! high.Keys
  {
  }

  lemma NoOverlapUnion(low: Table, high: Table, at: nat)
    requires Within(low, 0, at) && (forall k | k in high :: at <= k)
    requires NoOverlap(low) && NoOverlap(high) && low.Keys !! high.Keys
    ensures NoOverlap(high + low)
  {
  }

  lemma ReadsUnion(low: Table, high: Table, a: nat, w: nat)
    requires low.Keys !! high.Keys
    ensures Reads(high + low, a, w) <==> Reads(low, a, w) || Reads(high, a, w)
  {
    hide ReadsIn;
    var t := high + low;
    if Reads(low, a, w) {
      var k :| k in low && ReadsIn(k, low[k], a, w);
      assert k in t && t[k] == low[k];
    }
    if Reads(high, a, w) {
      var k :| k in high && ReadsIn(k, high[k], a, w);
      assert k in t && t[k] == high[k];
    }
    if Reads(t, a, w) {
      var k :| k in t && ReadsIn(k, t[k], a, w);
      assert if k in low then t[k] == low[k] else t[k] == high[k];
    }
  }

  /** The blocks of a merged image. */
  function MergedBlocks(platform: Table, app: Table, ea: nat, sa: nat, fill: bool): Table {
    app + (if fill then Padding(ea, sa).blocks else map[]) + platform
  }

  lemma MergeReads(platform: Table, app: Table, ea: nat, sa: nat)
    requires NonEmpty(platform) && NonEmpty(app) && NoOverlap(platform) && NoOverlap(app)
    requires IsEnd(platform, ea) && (forall k | k in app :: sa <= k) && ea <= sa && Padding(ea, sa).complete
    ensures var merged := MergedBlocks(platform, app, ea, sa, true);
            && NoOverlap(merged)
            && (forall k | k in platform :: k in merged && merged[k] == platform[k])
            && (forall k | k in app :: k in merged && merged[k] == app[k])
            && (forall a: nat, w: nat :: Reads(merged, a, w) <==> Reads(platform, a, w) || InGap(ea, sa, a, w) || Reads(app, a, w))
  {
    hide Reads, InGap;
    var pads := Padding(ea, sa).blocks;
    PaddingTiles(ea, sa);
    hide Padding;
    KeysApart(pads, app, sa);
    NoOverlapUnion(pads, app, sa);
    var upper := app + pads;
    assert forall k | k in upper :: ea <= k;
    KeysApart(platform, upper, ea);
    NoOverlapUnion(platform, upper, ea);
    hide NoOverlap, NonEmpty, Within, IsEnd;
    forall a: nat, w: nat
      ensures Reads(upper + platform, a, w) <==> Reads(platform, a, w) || InGap(ea, sa, a, w) || Reads(app, a, w)
    {
      ReadsUnion(platform, upper, a, w);
      ReadsUnion(pads, app, a, w);
    }
  }

  // ---- The checks ----

  const BOOT_SECTOR := "BOOT_SECTOR"
  const FLASH: nat := 0x0800_0000

  /** `int(s, 0)` for plain decimal and 0x-prefixed text; None is an exception. */
  function ReadInt(s: string): Option<nat> {
    if |s| > 2 && s[0] == '0' && (s[1] == 'x' || s[1] == 'X') && AllHex(s[2..]) then Some(ReadHex(0, s[2..]))
    else if s != "" && AllDigits(s) && (s[0] != '0' || forall i | 0 <= i < |s| :: s[i] == '0') then Some(Horner(0, s))
    else None
  }

  /** `n | 0x08000000`. */
  function InFlash(n: nat): nat {
    if n / FLASH % 2 == 1 then n else n + FLASH
  }

  ghost function Highest(table: Table): (ea: nat)
    ensures IsEnd(table, ea)
    decreases |table|
  {
    if table.Keys == {} then 0
    else
      var k := Least(table.Keys);
      assert table.Keys == (table - {k}).Keys + {k};
      var rest := Highest(table - {k});
      var here := End(k, table[k]);
      assert rest == 0 || exists j :: j in table && End(j, table[j]) == rest by {
        if rest != 0 {
          var j :| j in table - {k} && End(j, (table - {k})[j]) == rest;
          assert j in table && End(j, table[j]) == rest;
        }
      }
      if here > rest then here else rest
  }

  datatype Verdict = Pass(ea: nat, sa: nat) | Refuse | Raise

  /** Everything that is checked before the output is built. */
  ghost function Check(bl: Image, lod: Image): Verdict {
    if BOOT_SECTOR !in bl.names then Refuse
    else if BOOT_SECTOR !in bl.attrs then Raise
    else
      var bs := ReadInt(bl.attrs[BOOT_SECTOR]);
      if bs.None? then Raise
      else if InFlash(bs.value) !in bl.blocks then Refuse
      else if lod.blocks.Keys == {} then Raise
      else if InFlash(bs.value) != Least(bl.blocks.Keys) then Refuse
      else if Highest(bl.blocks) > Least(lod.blocks.Keys) then Refuse
      else Pass(Highest(bl.blocks), Least(lod.blocks.Keys))
  }

  /** The address that the platform's attribute gives, if it gives one. */
  ghost predicate BootsAt(bl: Image, a: nat) {
    && "BOOT_SECTOR" in bl.names && "BOOT_SECTOR" in bl.attrs
    && exists n: nat :: ReadInt(bl.attrs["BOOT_SECTOR"]) == Some(n) && a == InFlash(n)
  }

  /**
   The checks pass exactly if the boot sector is the lowest block of the platform, and all of
   the platform ends where some application begins, or before.
   */
  lemma CheckPasses(bl: Image, lod: Image)
    ensures Check(bl, lod).Pass? <==>
            && (exists a: nat :: BootsAt(bl, a) && a in bl.blocks && forall k | k in bl.blocks :: a <= k)
            && lod.blocks != map[]
            && forall k, j | k in bl.blocks && j in lod.blocks :: End(k, bl.blocks[k]) <= j
    ensures Check(bl, lod).Pass? ==>
              IsEnd(bl.blocks, Check(bl, lod).ea) && Check(bl, lod).sa in lod.blocks &&
              forall j | j in lod.blocks :: Check(bl, lod).sa <= j
  {
    hide ReadInt, InFlash, Highest, Least;
    if exists a: nat :: BootsAt(bl, a) {
      var a: nat :| BootsAt(bl, a);
      assert a == InFlash(ReadInt(bl.attrs[BOOT_SECTOR]).value);
      if a in bl.blocks.Keys { LeastOnly(bl.blocks.Keys, a); }
      if lod.blocks.Keys != {} { EndsBefore(bl.blocks, lod.blocks); }
    }
    assert lod.blocks != map[] <==> lod.blocks.Keys != {};
  }

  lemma LeastOnly(s: set<nat>, a: nat)
    requires a in s
    ensures a == Least(s) <==> forall k | k in s :: a <= k
  {
  }

  lemma EndsBefore(low: Table, high: Table)
    requires high.Keys != {}
    ensures Highest(low) <= Least(high.Keys) <==> forall k, j | k in low && j in high :: End(k, low[k]) <= j
  {
    var ea, sa := Highest(low), Least(high.Keys);
    assert IsEnd(low, ea) && sa in high;
    hide Highest, Least;
    if forall k, j | k in low && j in high :: End(k, low[k]) <= j {
      if ea != 0 {
        var k :| k in low && End(k, low[k]) == ea;
        assert End(k, low[k]) <= sa;
      }
    }
  }

  /** A merge raises exactly if a value that is asked for is not there or no number. */
  lemma CheckRaises(bl: Image, lod: Image)
    ensures Check(bl, lod).Raise? <==>
            && BOOT_SECTOR in bl.names
            && (|| (forall a: nat :: !BootsAt(bl, a))
                || (lod.blocks == map[] && forall a: nat | BootsAt(bl, a) :: a in bl.blocks))
  {
    hide ReadInt, InFlash, Highest, Least;
    if BOOT_SECTOR in bl.names && BOOT_SECTOR in bl.attrs && ReadInt(bl.attrs[BOOT_SECTOR]).Some? {
      assert BootsAt(bl, InFlash(ReadInt(bl.attrs[BOOT_SECTOR]).value));
    }
    assert lod.blocks != map[] <==> lod.blocks.Keys != {};
  }

  /** Setting one bit: the others stay. */
  lemma InFlashSets(n: nat)
    ensures var bit := 0x0800_0000;
            InFlash(n) / bit % 2 == 1 && InFlash(n) % bit == n % bit && InFlash(n) / bit / 2 == n / bit / 2
  {
    var q, r := n / FLASH, n % FLASH;
    assert n == q * FLASH + r && n + FLASH == (q + 1) * FLASH + r;
    DivideBack(n + FLASH, q + 1, r);
  }

  lemma DivideBack(n: nat, q: nat, r: nat)
    requires n == q * FLASH + r && r < FLASH
    ensures n / FLASH == q && n % FLASH == r
  {
  }

  /** Both notations that `int(text, 0)` is modelled for. */
  lemma ReadIntReads(n: nat)
    requires n < WORD
    ensures ReadInt("0x" + Hex8(n)) == Some(n) && ReadInt(Digits(n)) == Some(n)
  {
    Hex8Reads(n);
    ReadDigits(n);
    var h, d := "0x" + Hex8(n), Digits(n);
    assert h[2..] == Hex8(n) && h[0] == '0' && h[1] == 'x';
    assert |d| > 2 ==> d[1] != 'x' && d[1] != 'X';
    hide Hex8, ReadHex, Horner, Digits;
  }

  datatype MergeOutcome = Merged | Refused | Raised

  // ---- dual_merge ----

  lemma PadFirst(table: Table, rest: Table, pa: nat, data: seq<nat>)
    requires pa !in rest
    ensures table[pa := data] + rest == table + rest[pa := data]
  {
  }

  lemma PadNotAgain(pa: nat, size: nat, sa: nat)
    requires size > 0
    ensures pa !in Padding(pa + size, sa).blocks
  {
    PaddingTiles(pa + size, sa);
  }

  /** The padding loop; a gap that does not fit leaves the pads written so far behind. */
  method FillGap(blocks: Blocks, ea: nat, sa: nat) returns (complete: bool)
    modifies blocks
    ensures complete == Padding(ea, sa).complete
    ensures blocks.table == old(blocks.table) + Padding(ea, sa).blocks
  {
    hide PadSize, PadBlock;
    var pa := ea;
    while pa < sa
      invariant blocks.table + Padding(pa, sa).blocks == old(blocks.table) + Padding(ea, sa).blocks
      invariant Padding(pa, sa).complete == Padding(ea, sa).complete
      decreases sa - pa
    {
      var size := PadSize(pa, sa);
      if size.None? {
        assert blocks.table + map[] == blocks.table;
        return false;
      }
      PadNotAgain(pa, size.value, sa);
      PadFirst(blocks.table, Padding(pa + size.value, sa).blocks, pa, PadBlock(size.value));
      blocks.table := blocks.table[pa := PadBlock(size.value)];
      pa := pa + size.value;
    }
    assert blocks.table + map[] == blocks.table;
    complete := true;
  }

  /** The checks at the start of `dual_merge`. */
  method CheckImages(bl: LOD, lod: LOD) returns (verdict: Verdict)
    ensures verdict == Check(bl.Holds(), lod.Holds())
  {
    hide Highest, Least, ReadInt, InFlash, IsEnd;
    if BOOT_SECTOR !in bl.attrnames {
      return Refuse;
    }
    if BOOT_SECTOR !in bl.attrs {
      return Raise;
    }
    var bs := ReadInt(bl.attrs[BOOT_SECTOR]);
    if bs.None? {
      return Raise;
    }
    var bs1 := InFlash(bs.value);
    if bs1 !in bl.blocks.table {
      return Refuse;
    }
    var sa1 := LOD.FindLeast(bl.blocks.table.Keys);
    if lod.blocks.table.Keys == {} {
      return Raise;
    }
    var sa2 := LOD.FindLeast(lod.blocks.table.Keys);
    if bs1 != sa1 {
      return Refuse;
    }
    var ea1 := EndAddress(bl);
    EndUnique(bl.blocks.table, ea1, Highest(bl.blocks.table));
    if ea1 > sa2 {
      return Refuse;
    }
    return Pass(ea1, sa2);
  }

  /** The attributes of the output, or an exception at a name without a value. */
  method CopyAttrs(names: seq<string>, attrs: map<string, string>) returns (ok: bool, copy: map<string, string>)
    ensures ok == forall i | 0 <= i < |names| :: names[i] in attrs
    ensures ok ==> copy == Listed(names, attrs)
  {
    copy := map[];
    var i := 0;
    while i < |names|
      invariant 0 <= i <= |names|
      invariant forall k | 0 <= k < i :: names[k] in attrs
      invariant copy == Listed(names[..i], attrs)
    {
      if names[i] !in attrs {
        return false, copy;
      }
      assert forall n :: n in names[..i + 1] <==> n in names[..i] || n == names[i];
      copy := copy[names[i] := attrs[names[i]]];
      i := i + 1;
    }
    assert names[..|names|] == names;
    ok := true;
  }

  /** Images with one table between them pass the checks only if there is nothing to pad. */
  lemma SharedTable(platform: Image, app: Image)
    requires Check(platform, app).Pass?
    ensures platform.blocks == app.blocks ==>
              var v := Check(platform, app); Padding(v.ea, v.sa) == Padded(map[], true)
    ensures app.blocks + map[] == app.blocks && app.blocks + app.blocks == app.blocks
  {
    hide ReadInt, InFlash, Least;
  }

  /**
   `dual_merge`.  The output shares its table with the application image, so that image
   holds the pads, and the platform's blocks, afterwards; a refusal at the padding leaves
   the pads that did fit in it.
   */
  method DualMerge(bl: LOD, lod: LOD, fillBlank: bool) returns (outcome: MergeOutcome, output: LOD?)
    modifies lod.blocks
    ensures var platform, app := old(bl.Holds()), old(lod.Holds());
            var verdict := Check(platform, app);
            if !verdict.Pass? then
              outcome == (if verdict.Refuse? then Refused else Raised) && lod.blocks.table == app.blocks
            else
              var gap := if fillBlank then Padding(verdict.ea, verdict.sa) else Padded(map[], true);
              if !gap.complete then outcome == Refused && lod.blocks.table == app.blocks + gap.blocks
              else if exists i :: 0 <= i < |app.names| && app.names[i] !in app.attrs then
                outcome == Raised && lod.blocks.table == app.blocks + gap.blocks
              else
                && outcome == Merged && output != null && output.blocks == lod.blocks
                && output.Holds() == Image(app.names,
                     Listed(app.names, app.attrs)[BOOT_SECTOR := platform.attrs[BOOT_SECTOR]],
                     MergedBlocks(platform.blocks, app.blocks, verdict.ea, verdict.sa, fillBlank))
  {
    hide Highest, Least, ReadInt, InFlash, IsEnd, Padding;
    output := null;
    ghost var platform, app := bl.Holds(), lod.Holds();
    var verdict := CheckImages(bl, lod);
    if !verdict.Pass? {
      outcome := if verdict.Refuse? then Refused else Raised;
      return;
    }
    SharedTable(platform, app);
    var result := new LOD();
    result.blocks := lod.blocks;
    if fillBlank {
      var complete := FillGap(result.blocks, verdict.ea, verdict.sa);
      if !complete {
        return Refused, null;
      }
    } else {
      assert app.blocks + map[] == app.blocks;
    }
    result.attrnames := lod.attrnames;
    var copied, attrs := CopyAttrs(result.attrnames, lod.attrs);
    if !copied {
      return Raised, null;
    }
    result.attrs := attrs[BOOT_SECTOR := bl.attrs[BOOT_SECTOR]];
    result.blocks.table := result.blocks.table + bl.blocks.table;
    return Merged, result;
  }

  /**
   Once the checks pass and every listed attribute has a value, a filling merge of images
   succeeds exactly for an empty gap or one with both ends on sector borders.
   */
  lemma FillingSucceeds(platform: Image, app: Image)
    requires Check(platform, app).Pass?
    ensures var gap := Check(platform, app);
            Padding(gap.ea, gap.sa).complete <==> gap.ea == gap.sa || (gap.ea % SECTOR == 0 && gap.sa % SECTOR == 0)
  {
    hide Highest, Least, ReadInt, InFlash, Padding, IsEnd;
    PaddingSucceeds(Check(platform, app).ea, Check(platform, app).sa);
  }

  /**
   With the gap filled, every address of the merged image reads as the platform's word, as
   padding, or as the application's word; no block is overwritten, and no two overlap.
   */
  lemma FilledImageReads(platform: Image, app: Image)
    requires Check(platform, app).Pass? && Padding(Check(platform, app).ea, Check(platform, app).sa).complete
    requires NonEmpty(platform.blocks) && NonEmpty(app.blocks) && NoOverlap(platform.blocks) && NoOverlap(app.blocks)
    ensures var gap := Check(platform, app);
            var merged := MergedBlocks(platform.blocks, app.blocks, gap.ea, gap.sa, true);
            && NoOverlap(merged)
            && (forall k | k in platform.blocks :: k in merged && merged[k] == platform.blocks[k])
            && (forall k | k in app.blocks :: k in merged && merged[k] == app.blocks[k])
            && (forall a: nat, w: nat ::
                  Reads(merged, a, w) <==> Reads(platform.blocks, a, w) || InGap(gap.ea, gap.sa, a, w) || Reads(app.blocks, a, w))
  {
    var gap := Check(platform, app);
    assert IsEnd(platform.blocks, gap.ea) && forall k | k in app.blocks :: gap.sa <= k;
    hide Check, Highest, Least, Padding, Reads, InGap, NoOverlap, NonEmpty, IsEnd;
    MergeReads(platform.blocks, app.blocks, gap.ea, gap.sa);
  }

  /**
   The boot sector of the platform survives a store and a load of the merged image exactly
   when the application lists that attribute: the merge sets a value but adds no name.
   */
  lemma BootSectorStored(app: Image, value: string, merged: Image)
    requires merged.names == app.names && merged.attrs == Listed(app.names, app.attrs)[BOOT_SECTOR := value]
    requires forall i | 0 <= i < |app.names| :: app.names[i] in app.attrs && CleanName(app.names[i]) && CleanValue(app.attrs[app.names[i]])
    requires CleanValue(value) && Fits(merged.blocks)
    ensures forall i | 0 <= i < |merged.names| :: merged.names[i] in merged.attrs
    ensures var loaded := LoadLines(NOTHING, Lines(JoinLines(StoreLines(merged))));
            && loaded.1 == Success
            && loaded.0.image.blocks == merged.blocks
            && (BOOT_SECTOR in loaded.0.image.attrs <==> BOOT_SECTOR in app.names)
            && (BOOT_SECTOR in app.names ==> loaded.0.image == merged)
  {
    var kept := Image(merged.names, Listed(merged.names, merged.attrs), merged.blocks);
    assert CleanAttrs(kept) by {
      hide CleanName, CleanValue;
      BootSectorClean();
    }
    hide CleanName, CleanValue, CleanAttrs;
    SameAttrLines(merged.names, merged.attrs, kept.attrs);
    assert forall i | 0 <= i < |merged.names| :: merged.names[i] in merged.attrs;
    LoadInvertsStore(kept);
    hide LoadLines, Lines, JoinLines, TableLines, AttrLines;
  }

  lemma BootSectorClean()
    ensures CleanName(BOOT_SECTOR)
  {
  }

  lemma {:induction false} SameAttrLines(names: seq<string>, a: map<string, string>, b: map<string, string>)
    requires forall i | 0 <= i < |names| :: names[i] in a && names[i] in b && a[names[i]] == b[names[i]]
    ensures AttrLines(names, a) == AttrLines(names, b)
  {
    if names != [] {
      SameAttrLines(names[1..], a, b);
    }
  }
}
