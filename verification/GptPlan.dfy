/** What the embedding's arithmetic and operations come to where the tables are laid out sensibly, and where not. */
module GptPlan {
  import opened Bytes
  import opened UndoLog
  import opened BlockCache
  import opened DiskSession
  import opened Scripts
  import opened Mbr
  import opened BootSector
  import opened GptEmbed
  import Blocks

  function AreasOf(h1: seq<byte>, h2: seq<byte>, lb: nat): Areas
    requires IsHeader(h1) && IsHeader(h2)
  {
    Areas(lb, EntryLba(h1) * lb, EntryLba(h2) * lb, AlternateLba(h1) * lb)
  }

  /** Tables of entries of one size, in areas of 32 blocks that lie apart from each other and from the headers, and a
      first half that fits an area. */
  ghost predicate EmbedInput(h1: seq<byte>, h2: seq<byte>, lb: nat, imageSize: nat) {
    && Computable(h1, h2, lb, imageSize) && HalvesFit(imageSize) && SizeA(imageSize) <= ARRAY_BLOCKS * lb
    && EntryBytes(h1) == EntryBytes(h2)
    && var a := AreasOf(h1, h2, lb); Geometry(lb, a.base1, a.base2, a.header2)
  }

  /** The places in the areas. */
  ghost predicate PlacementFor(h1: seq<byte>, h2: seq<byte>, lb: nat, imageSize: nat, p: Placement)
    requires EmbedInput(h1, h2, lb, imageSize)
  {
    && SizeB(imageSize) <= ARRAY_BLOCKS * lb
    && p.locA == EntryLba(h1) * lb + KeptBytes(lb, SizeA(imageSize))
    && p.locB == EntryLba(h2) * lb + KeptBytes(lb, SizeB(imageSize))
    && p.count == NewCount(lb, EntryBytes(h1), SizeA(imageSize))
    && p.count * EntryBytes(h1) <= KeptBytes(lb, SizeA(imageSize)) <= ARRAY_BLOCKS * lb
  }

  // ---------- the places ----------

  /** Counting back from the end of an area gives the last block boundary that leaves room for the half. */
  lemma PlaceInArea(first: nat, lb: nat, size: nat)
    requires (lb == 512 || lb == 4096) && size <= ARRAY_BLOCKS * lb && first * lb + ARRAY_BLOCKS * lb < WORD
    ensures PlaceBack(first, lb, size) == first * lb + KeptBytes(lb, size)
    ensures PlaceBack(first, lb, size) / lb == first + KeptBlocks(lb, size)
  {
    PlaceFromEnd(first, lb, size);
    assert (first + ARRAY_BLOCKS) * lb == first * lb + ARRAY_BLOCKS * lb;
    WrapOver((first + ARRAY_BLOCKS) * lb - size);
  }

  lemma WrapOver(x: nat)
    requires x < WORD
    ensures (x + WORD) % WORD == x
  {
  }

  lemma SmallCount(lb: nat, entrySize: nat, size: nat)
    requires (lb == 512 || lb == 4096) && 0 < entrySize && size <= ARRAY_BLOCKS * lb
    ensures NewCount(lb, entrySize, size) <= ARRAY_BLOCKS * 4096
  {
    NewArrayFits(lb, entrySize, size);
  }

  lemma CountInArea(first: nat, lb: nat, entrySize: nat, size: nat)
    requires (lb == 512 || lb == 4096) && 0 < entrySize && size <= ARRAY_BLOCKS * lb
    requires first < WORD && first * lb + ARRAY_BLOCKS * lb < WORD
    ensures CountBefore(first, lb, entrySize, PlaceBack(first, lb, size)) == NewCount(lb, entrySize, size)
  {
    hide KeptBlocks, PlaceBack;
    PlaceInArea(first, lb, size);
    KeptWholeBlocks(lb, size);
    WrapOver(KeptBlocks(lb, size));
    SmallCount(lb, entrySize, size);
  }

  /** In sensible tables the machine's arithmetic gives the places in the areas. */
  lemma PlacementFits(h1: seq<byte>, h2: seq<byte>, lb: nat, imageSize: nat)
    requires EmbedInput(h1, h2, lb, imageSize)
    ensures PlacementFor(h1, h2, lb, imageSize, PlacementOf(h1, h2, lb, imageSize))
  {
    hide PlaceBack, CountBefore, NewCount, KeptBytes, EntryLba;
    HalvesOrdered(imageSize);
    LbaBound(h1);
    KeptWholeBlocks(lb, SizeA(imageSize));
    PlaceInArea(EntryLba(h1), lb, SizeA(imageSize));
    PlaceInArea(EntryLba(h2), lb, SizeB(imageSize));
    CountInArea(EntryLba(h1), lb, EntryBytes(h1), SizeA(imageSize));
    NewArrayFits(lb, EntryBytes(h1), SizeA(imageSize));
  }

  // ---------- a first half that does not fit the area ----------

  /** How many blocks the half would begin before its area. */
  function Excess(lb: nat, size: nat): (k: nat)
    requires 0 < lb && ARRAY_BLOCKS * lb <= size
  {
    (size - ARRAY_BLOCKS * lb + lb - 1) / lb
  }

  lemma PlaceBeforeArea(first: nat, lb: nat, size: nat)
    requires (lb == 512 || lb == 4096) && ARRAY_BLOCKS * lb < size < 65536
    requires size <= (first + ARRAY_BLOCKS) * lb < WORD
    ensures 0 < Excess(lb, size) <= first && PlaceBack(first, lb, size) / lb == first - Excess(lb, size)
  {
    var k := Excess(lb, size);
    var x := (first + ARRAY_BLOCKS) * lb - size;
    assert (first + ARRAY_BLOCKS) * lb == first * lb + ARRAY_BLOCKS * lb;
    var r := k * lb - (size - ARRAY_BLOCKS * lb);
    assert 0 <= r < lb;
    NotBelow(first, k, lb, size - ARRAY_BLOCKS * lb);
    WrapOver(x);
    assert (first - k) * lb == first * lb - k * lb;
    Blocks.DivModUnique(x, lb, first - k, r);
    Blocks.DivModUnique((first - k) * lb, lb, first - k, 0);
  }

  lemma NotBelow(first: nat, k: nat, lb: nat, excess: int)
    requires 0 < lb && k * lb - excess < lb && excess <= first * lb
    ensures k <= first
  {
    if first < k {
      Blocks.ProductGap(first, k, lb);
    }
  }

  lemma NegativeCount(k: nat, per: nat)
    requires 0 < k && k * per < OFFSET_LIMIT && k < WORD
    ensures Signed((WORD - k) * per % WORD) == -(k * per)
  {
    var n := k * per;
    if per == 0 {
      assert (WORD - k) * per == 0;
    } else {
      assert (WORD - k) * per == (per - 1) * WORD + (WORD - n);
      Blocks.DivModUnique((WORD - k) * per, WORD, per - 1, WORD - n);
    }
  }

  /** A first half larger than the area makes the new count negative: as a signed number it is minus as many
      entries as fit the excess. So the embedding is refused, unless no entry fits a block and none is in use. */
  lemma LargeHalfExactly(v: seq<byte>, h1: seq<byte>, h2: seq<byte>, lb: nat, imageSize: nat)
    requires Computable(h1, h2, lb, imageSize) && ARRAY_BLOCKS * lb < SizeA(imageSize)
    requires SizeA(imageSize) <= (EntryLba(h1) + ARRAY_BLOCKS) * lb < WORD
    ensures var p, per := PlacementOf(h1, h2, lb, imageSize), PerBlock(lb, EntryBytes(h1));
      && Signed(p.count) == -(Excess(lb, SizeA(imageSize)) * per)
      && (CutsOff(v, h1, lb, p.count) <==> 0 < per || 0 <= LastOf(v, h1, lb))
  {
    hide LastUsed, PlaceBack, CountBefore, Excess, EntryLba, SizeA, PerBlock, Signed;
    var size, per := SizeA(imageSize), PerBlock(lb, EntryBytes(h1));
    Sizes16(imageSize);
    LbaBound(h1);
    LargeHalfCount(EntryLba(h1), lb, EntryBytes(h1), size);
    SignOf(Excess(lb, size), per);
  }

  lemma LargeHalfCount(first: nat, lb: nat, entrySize: nat, size: nat)
    requires (lb == 512 || lb == 4096) && 0 < entrySize && ARRAY_BLOCKS * lb < size < 65536
    requires first < WORD && size <= (first + ARRAY_BLOCKS) * lb < WORD
    ensures 0 < Excess(lb, size)
    ensures Signed(CountBefore(first, lb, entrySize, PlaceBack(first, lb, size))) == -(Excess(lb, size) * PerBlock(lb, entrySize))
  {
    hide PlaceBack, Excess, PerBlock, Signed;
    var k := Excess(lb, size);
    PlaceBeforeArea(first, lb, size);
    PerBlockSmall(lb, entrySize);
    ExcessSmall(lb, size);
    SmallProduct(k, PerBlock(lb, entrySize), 128, 4096);
    NegativeCount(k, PerBlock(lb, entrySize));
  }

  lemma SignOf(k: nat, per: nat)
    requires 0 < k
    ensures k * per == 0 <==> per == 0
  {
  }

  lemma PerBlockSmall(lb: nat, entrySize: nat)
    requires 0 < entrySize
    ensures PerBlock(lb, entrySize) <= lb
  {
    Blocks.BlocksAreDivMod(lb, entrySize);
    Blocks.BlockAtLess(lb, entrySize);
  }

  lemma ExcessSmall(lb: nat, size: nat)
    requires (lb == 512 || lb == 4096) && ARRAY_BLOCKS * lb <= size < 65536
    ensures Excess(lb, size) <= 128
  {
  }

  lemma SmallProduct(a: nat, b: nat, m: nat, n: nat)
    requires a <= m && b <= n
    ensures a * b <= m * n
  {
    MulLess(a, m, b);
    assert m * b <= m * n;
  }

  // ---------- the operations ----------

  /** Both array areas and the secondary header lie on a disk of `size` bytes. */
  predicate AreasInside(size: nat, a: Areas) {
    a.base1 + ARRAY_BLOCKS * a.lb <= size && a.base2 + ARRAY_BLOCKS * a.lb <= size && a.header2 + a.lb <= size
  }

  /** Every entry that is scanned lies on the disk. */
  predicate EntriesInside(size: nat, base: nat, entrySize: nat, n: nat) {
    forall k :: 0 <= k < n ==> EntryInside(size, base, entrySize, k)
  }

  predicate EntryInside(size: nat, base: nat, entrySize: nat, k: nat) {
    Wrap(base + k * entrySize) + ENTRY_SIZE <= size
  }

  lemma ScanExactly(size: nat, base: nat, entrySize: nat, n: nat)
    ensures var ops := ScanOps(base, entrySize, n);
      && Addressable(ops) && Writes(ops) == 0 && (AllInside(size, ops) <==> EntriesInside(size, base, entrySize, n))
  {
    var ops := ScanOps(base, entrySize, n);
    forall k | 0 <= k < n
      ensures ops[k].Read? && ops[k].loc < WORD && (Inside(size, ops[k]) <==> EntryInside(size, base, entrySize, k))
    {
      ScanOpsAt(base, entrySize, n, k);
    }
    WritesOfWrites(ops);
    if AllInside(size, ops) {
      forall k | 0 <= k < n ensures EntryInside(size, base, entrySize, k) {
        assert Inside(size, ops[k]);
      }
    }
  }

  lemma ScanKeepsView(v: seq<byte>, base: nat, entrySize: nat, n: nat)
    ensures ViewAfter(v, ScanOps(base, entrySize, n)) == v
  {
    var ops := ScanOps(base, entrySize, n);
    forall k | 0 <= k < n ensures ops[k].Read? {
      ScanOpsAt(base, entrySize, n, k);
    }
    ReadsKeepView(v, ops);
  }

  lemma ArrayAfterZeroing(v: seq<byte>, base1: nat, base2: nat, from: nat, end: nat)
    requires from <= end && (base1 + end <= base2 || base2 + end <= base1) && base1 + end <= |v|
    ensures var z := Zeros(end - from); var f := Overwrite(Overwrite(v, base1 + from, z), base2 + from, z);
      Slice(f, base1, end) == NewArray(v, base1, from, end)
  {
  }

  lemma FourOverwrites(v: seq<byte>, a: Areas, from: nat, end: nat, u1: seq<byte>, u2: seq<byte>)
    requires from <= end
    ensures var z := Zeros(end - from);
      ApplyAll(v, EmbedWrites(a.lb, a.base1, a.base2, a.header2, from, end, u1, u2))
      == Overwrite(Overwrite(Overwrite(Overwrite(v, a.base1 + from, z), a.base2 + from, z), a.lb, u1), a.header2, u2)
  {
    ApplyFour(v, EmbedWrites(a.lb, a.base1, a.base2, a.header2, from, end, u1, u2));
  }

  lemma HeadersView(g: seq<byte>, read: Op, a: Op, b: Op)
    requires read.Read? && a.Write? && b.Write?
    ensures ViewAfter(g, [read] + [a, b]) == Overwrite(Overwrite(g, a.loc, a.data), b.loc, b.data)
  {
    ViewAfterAppend(g, [read], [a, b]);
    ViewAfterOne(g, read);
    ViewAfterAppend(g, [a], [b]);
    assert [a] + [b] == [a, b];
    ViewAfterOne(g, a);
    ViewAfterOne(NextView(g, a), b);
  }

  lemma ClearView(v: seq<byte>, base1: nat, base2: nat, size: nat, from: nat, count: nat, start: nat, end: nat)
    requires from <= count && start == from * size && end == count * size && base1 + end < WORD && base2 + end < WORD
    ensures start <= end
    ensures ViewAfter(v, ZeroOps(base1, size, from, count) + ZeroOps(base2, size, from, count))
         == Overwrite(Overwrite(v, base1 + start, Zeros(end - start)), base2 + start, Zeros(end - start))
  {
    ZeroOpsView(v, base1, size, from, count, start, end);
    var g := Overwrite(v, base1 + start, Zeros(end - start));
    ZeroOpsView(g, base2, size, from, count, start, end);
    ViewAfterAppend(v, ZeroOps(base1, size, from, count), ZeroOps(base2, size, from, count));
  }

  /** Nothing wraps, and the arrays are apart. */
  ghost predicate Plain(v: seq<byte>, h1: seq<byte>, h2: seq<byte>, a: Areas, from: nat, count: nat, start: nat, end: nat) {
    && IsHeader(h1) && IsHeader(h2) && from <= count && EntryBytes(h1) == EntryBytes(h2)
    && ArrayAt(h1, a.lb) == a.base1 && ArrayAt(h2, a.lb) == a.base2 && Wrap(AlternateLba(h1) * a.lb) == a.header2
    && start == from * EntryBytes(h1) && end == count * EntryBytes(h1) && ArrayBytes(h1, count) == end
    && a.base1 + end < WORD && a.base2 + end < WORD && a.base1 + end <= |v|
    && (a.base1 + end <= a.base2 || a.base2 + end <= a.base1)
  }

  lemma Cleared(v: seq<byte>, h1: seq<byte>, h2: seq<byte>, a: Areas, from: nat, count: nat, start: nat, end: nat)
    requires Plain(v, h1, h2, a, from, count, start, end)
    ensures start <= end && TableOf(v, h1, h2, a.lb, from, count) == NewArray(v, a.base1, start, end)
    ensures ViewAfter(v, ClearOps(h1, h2, a.lb, from, count))
         == Overwrite(Overwrite(v, a.base1 + start, Zeros(end - start)), a.base2 + start, Zeros(end - start))
  {
    hide Zeros, NewArray, ZeroOps, ViewAfter, EntryLba, EntryBytes, Slice;
    ClearView(v, a.base1, a.base2, EntryBytes(h1), from, count, start, end);
    ArrayAfterZeroing(v, a.base1, a.base2, start, end);
  }

  lemma HeadersRenewed(v: seq<byte>, h1: seq<byte>, h2: seq<byte>, lb: nat, from: nat, count: nat)
    requires IsHeader(h1) && IsHeader(h2) && from <= count
    ensures var table := TableOf(v, h1, h2, lb, from, count);
      ViewAfter(v, EmbedOps(v, h1, h2, lb, from, count))
      == Overwrite(Overwrite(ViewAfter(v, ClearOps(h1, h2, lb, from, count)), lb, NewHeader(h1, count, table)),
                   Wrap(AlternateLba(h1) * lb), NewHeader(h2, count, table))
  {
    hide UpdatedHeader, ViewAfter, Crc, EntryLba, EntryBytes, AlternateLba, ClearOps, TableOf;
    var clear, crc := ClearOps(h1, h2, lb, from, count), Crc(TableOf(v, h1, h2, lb, from, count));
    var read := Op.Read(ArrayAt(h1, lb), ArrayBytes(h1, count));
    ViewAfterAppend(v, clear, [read] + HeaderOps(h1, h2, lb, count, crc));
    HeadersView(ViewAfter(v, clear), read, Op.Write(lb, UpdatedHeader(h1, count, crc)),
                Op.Write(Wrap(AlternateLba(h1) * lb), UpdatedHeader(h2, count, crc)));
  }

  lemma EmbedEffectAt(v: seq<byte>, h1: seq<byte>, h2: seq<byte>, a: Areas, from: nat, count: nat, start: nat, end: nat)
    requires Plain(v, h1, h2, a, from, count, start, end)
    ensures EmbeddedView(v, ViewAfter(v, EmbedOps(v, h1, h2, a.lb, from, count)), h1, h2, a, start, end, count)
  {
    hide Zeros, NewArray, ViewAfter, EmbedWrites, EmbedOps, ClearOps, EntryLba, AlternateLba, TableOf, NewHeader;
    var table := NewArray(v, a.base1, start, end);
    Cleared(v, h1, h2, a, from, count, start, end);
    HeadersRenewed(v, h1, h2, a.lb, from, count);
    FourOverwrites(v, a, start, end, NewHeader(h1, count, table), NewHeader(h2, count, table));
  }

  /** In sensible tables the embedding shortens both arrays and renews both headers. */
  lemma EmbedEffect(v: seq<byte>, h1: seq<byte>, h2: seq<byte>, lb: nat, imageSize: nat, from: nat, count: nat,
                    start: nat, end: nat)
    requires EmbedInput(h1, h2, lb, imageSize) && AreasInside(|v|, AreasOf(h1, h2, lb)) && from <= count
    requires start == from * EntryBytes(h1) && end == count * EntryBytes(h1) && end <= ARRAY_BLOCKS * lb
    ensures EmbeddedView(v, ViewAfter(v, EmbedOps(v, h1, h2, lb, from, count)), h1, h2, AreasOf(h1, h2, lb),
                         start, end, count)
  {
    hide EmbeddedView, EmbedOps;
    EmbedEffectAt(v, h1, h2, AreasOf(h1, h2, lb), from, count, start, end);
  }

  /** It stays inside the disk, and writes twice for each entry it zeroes and twice for the headers. */
  lemma EmbedOpsInside(v: seq<byte>, h1: seq<byte>, h2: seq<byte>, lb: nat, imageSize: nat, from: nat, count: nat, size: nat)
    requires EmbedInput(h1, h2, lb, imageSize) && AreasInside(size, AreasOf(h1, h2, lb)) && from <= count
    requires count * EntryBytes(h1) <= ARRAY_BLOCKS * lb
    ensures var ops := EmbedOps(v, h1, h2, lb, from, count);
      AllInside(size, ops) && Addressable(ops) && Writes(ops) == 2 * (count - from) + 2
  {
    hide UpdatedHeader, Zeros, ZeroOps, ViewAfter;
    var a := AreasOf(h1, h2, lb);
    var n := EntryBytes(h1);
    assert ArrayAt(h1, lb) == a.base1 && ArrayAt(h2, lb) == a.base2;
    var z1, z2 := ZeroOps(a.base1, n, from, count), ZeroOps(a.base2, n, from, count);
    ZeroOpsInside(a.base1, n, from, count, size);
    ZeroOpsInside(a.base2, n, from, count, size);
    AllInsideAppend(size, z1, z2);
    WritesAppend(z1, z2);
    var crc := Crc(TableOf(v, h1, h2, lb, from, count));
    TailInside(size, Op.Read(a.base1, ArrayBytes(h1, count)), Op.Write(lb, UpdatedHeader(h1, count, crc)),
               Op.Write(a.header2, UpdatedHeader(h2, count, crc)));
    AllInsideAppend(size, z1 + z2, [Op.Read(a.base1, ArrayBytes(h1, count))] + HeaderOps(h1, h2, lb, count, crc));
    WritesAppend(z1 + z2, [Op.Read(a.base1, ArrayBytes(h1, count))] + HeaderOps(h1, h2, lb, count, crc));
    ClearAddressable(h1, h2, lb, from, count);
  }

  lemma TailInside(size: nat, read: Op, a: Op, b: Op)
    requires read.Read? && a.Write? && b.Write?
    ensures var ops := [read] + [a, b];
      && Writes(ops) == 2 && (AllInside(size, ops) <==> Inside(size, read) && Inside(size, a) && Inside(size, b))
      && |ops| == 3 && ops[0] == read && ops[1] == a && ops[2] == b
  {
    var ops := [read] + [a, b];
    assert ops[0] == read && ops[1] == a && ops[2] == b;
    WritesAppend([read], [a, b]);
    WritesOfWrites([read]);
    WritesOfWrites([a, b]);
  }
}
