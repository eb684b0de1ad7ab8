/** Embedding stage 2 in the tails of the two GPT partition arrays. */
module GptEmbed {
  import opened Bytes
  import opened UndoLog
  import opened BlockCache
  import opened DiskSession
  import opened Scripts
  import opened Installer
  import opened Mbr
  import opened BootSector
  import Blocks
  import Crc32

  const HEADER_SIZE: nat := 96
  const HEADER_CRC_SPAN: nat := 92
  const ARRAY_BLOCKS: nat := 32

  // ---------- headers ----------

  predicate IsHeader(h: seq<byte>) {
    |h| == HEADER_SIZE
  }

  function AlternateLba(h: seq<byte>): nat
    requires IsHeader(h)
  {
    FromLittleEndian(h[32..40])
  }

  function EntryLba(h: seq<byte>): nat
    requires IsHeader(h)
  {
    FromLittleEndian(h[72..80])
  }

  function EntryCount(h: seq<byte>): nat
    requires IsHeader(h)
  {
    FromLittleEndian(h[80..84])
  }

  function EntryBytes(h: seq<byte>): nat
    requires IsHeader(h)
  {
    FromLittleEndian(h[84..88])
  }

  function Crc(s: seq<byte>): (n: nat)
    ensures n < 0x1_0000_0000
  {
    Crc32.Crc(Crc32.Octets(s)) as int
  }

  /** The length a header claims for itself. */
  function HeaderSize(h: seq<byte>): nat
    requires |h| >= HEADER_SIZE
  {
    FromLittleEndian(h[12..16])
  }

  /** The CRC of the first `span` bytes of a header, with its own CRC field as zero. */
  function SpanCrc(h: seq<byte>, span: nat): nat
    requires |h| >= HEADER_SIZE && span <= |h|
  {
    Crc(Overwrite(h, 16, LittleEndian(0, 4))[..span])
  }

  /** Section 5.3.2 of the UEFI Specification, for a header at the beginning of a block: its CRC field holds the CRC
      of as many bytes as it claims to have, at least 92 and at most the block. */
  predicate HeaderValid(block: seq<byte>)
    requires |block| >= HEADER_SIZE
  {
    var size := HeaderSize(block);
    HEADER_CRC_SPAN <= size <= |block| && FromLittleEndian(block[16..20]) == SpanCrc(block, size)
  }

  /** The program always takes 92 bytes: right for a header that claims 92, and for any other exactly if the CRCs
      of both lengths are the same. */
  lemma HeaderValidExactly(block: seq<byte>)
    requires |block| >= HEADER_SIZE && FromLittleEndian(block[16..20]) == SpanCrc(block, HEADER_CRC_SPAN)
    ensures HeaderSize(block) == HEADER_CRC_SPAN ==> HeaderValid(block)
    ensures HeaderValid(block) <==>
      HEADER_CRC_SPAN <= HeaderSize(block) <= |block| && SpanCrc(block, HEADER_CRC_SPAN) == SpanCrc(block, HeaderSize(block))
  {
  }

  /** Of two headers of 93 bytes that differ in the last one only, the program leaves at most one valid. */
  lemma OneByteMore(block: seq<byte>, c: byte)
    requires |block| >= HEADER_SIZE && HeaderSize(block) == 93 && c != block[92]
    requires FromLittleEndian(block[16..20]) == SpanCrc(block, HEADER_CRC_SPAN)
    ensures var other := block[92 := c];
      && FromLittleEndian(other[16..20]) == SpanCrc(other, HEADER_CRC_SPAN)
      && !(HeaderValid(block) && HeaderValid(other))
  {
    var other, zero := block[92 := c], LittleEndian(0, 4);
    assert other[12..16] == block[12..16] && other[16..20] == block[16..20];
    assert Overwrite(other, 16, zero)[..92] == Overwrite(block, 16, zero)[..92];
    var s := Overwrite(block, 16, zero)[..93];
    assert Overwrite(other, 16, zero)[..93] == s[92 := c];
    ByteChangesCrc(s, 92, c);
  }

  lemma ByteChangesCrc(s: seq<byte>, i: nat, c: byte)
    requires i < |s| && c != s[i]
    ensures Crc(s[i := c]) != Crc(s)
  {
    hide Crc32.Crc, Crc32.Octets;
    Crc32.DetectsChange(s, i, c);
    SameWord(Crc32.Crc(Crc32.Octets(s[i := c])), Crc32.Crc(Crc32.Octets(s)));
  }

  lemma SameWord(x: bv32, y: bv32)
    ensures x as int == y as int <==> x == y
  {
    assert (x as int) as bv32 == x;
    assert (y as int) as bv32 == y;
  }

  /** The same bytes behind two tables neither make nor hide a difference of their CRCs. */
  lemma CrcTail(a: seq<byte>, b: seq<byte>, tail: seq<byte>)
    ensures Crc(a + tail) == Crc(b + tail) <==> Crc(a) == Crc(b)
  {
    hide Crc32.Crc, Crc32.Octets;
    Crc32.TailKeeps(a, b, tail);
    SameWord(Crc32.Crc(Crc32.Octets(a + tail)), Crc32.Crc(Crc32.Octets(b + tail)));
    SameWord(Crc32.Crc(Crc32.Octets(a)), Crc32.Crc(Crc32.Octets(b)));
  }

  /** Whatever count and array CRC the program fills in: a header of 93 bytes that it leaves with a checksum that is
      wrong by the standard. */
  lemma LongHeaderInvalid(count: nat, arrayCrc: nat) returns (h: seq<byte>)
    requires count < 0x1_0000_0000 && arrayCrc < 0x1_0000_0000
    ensures IsHeader(h) && HeaderSize(h) == 93 && !HeaderValid(UpdatedHeader(h, count, arrayCrc))
  {
    hide Bytes.LittleEndian, Bytes.FromLittleEndian, Bytes.Pow256, HeaderValid, SpanCrc, UpdatedHeader;
    h := Overwrite(seq(HEADER_SIZE, _ => 0), 12, LittleEndian(93, 4));
    Pow256Values();
    LittleEndianRoundTrip(93, 4);
    assert h[12..16] == LittleEndian(93, 4);
    var u, other := UpdatedHeader(h, count, arrayCrc), h[92 := 1];
    UpdatedHeaderSpec(h, count, arrayCrc);
    assert u[12..16] == u[..16][12..16] == h[..16][12..16] == h[12..16];
    assert u[92] == u[92..][0] == h[92..][0] == 0;
    UpdatedOther(h, 1, count, arrayCrc);
    OneByteMore(u, 1);
    assert other[12..16] == h[12..16];
    if HeaderValid(u) {
      h := other;
    }
  }

  lemma UpdatedOther(h: seq<byte>, c: byte, count: nat, arrayCrc: nat)
    requires IsHeader(h)
    ensures UpdatedHeader(h[92 := c], count, arrayCrc) == UpdatedHeader(h, count, arrayCrc)[92 := c]
  {
    var other := h[92 := c];
    var filled := Overwrite(Overwrite(h, 88, LittleEndian(arrayCrc, 4)), 80, LittleEndian(count, 4));
    var cleared := Overwrite(filled, 16, LittleEndian(0, 4));
    var filled2 := Overwrite(Overwrite(other, 88, LittleEndian(arrayCrc, 4)), 80, LittleEndian(count, 4));
    var cleared2 := Overwrite(filled2, 16, LittleEndian(0, 4));
    assert cleared2[..HEADER_CRC_SPAN] == cleared[..HEADER_CRC_SPAN];
  }

  /** The new array CRC and entry count are filled in, then the header CRC. */
  function UpdatedHeader(h: seq<byte>, count: nat, arrayCrc: nat): (u: seq<byte>)
    requires IsHeader(h)
    ensures IsHeader(u)
  {
    var filled := Overwrite(Overwrite(h, 88, LittleEndian(arrayCrc, 4)), 80, LittleEndian(count, 4));
    var cleared := Overwrite(filled, 16, LittleEndian(0, 4));
    Overwrite(cleared, 16, LittleEndian(Crc(cleared[..HEADER_CRC_SPAN]), 4))
  }

  /** The new header carries the CRC of its first 92 bytes, the new count and the new array CRC; everything else is
      as it was. */
  lemma UpdatedHeaderSpec(h: seq<byte>, count: nat, arrayCrc: nat)
    requires IsHeader(h) && count < 0x1_0000_0000 && arrayCrc < 0x1_0000_0000
    ensures var u := UpdatedHeader(h, count, arrayCrc);
      && FromLittleEndian(u[16..20]) == SpanCrc(u, HEADER_CRC_SPAN) && EntryCount(u) == count && FromLittleEndian(u[88..92]) == arrayCrc
      && u[..16] == h[..16] && u[20..80] == h[20..80] && u[84..88] == h[84..88] && u[92..] == h[92..]
  {
    var u := UpdatedHeader(h, count, arrayCrc);
    var filled := Overwrite(Overwrite(h, 88, LittleEndian(arrayCrc, 4)), 80, LittleEndian(count, 4));
    var cleared := Overwrite(filled, 16, LittleEndian(0, 4));
    var crc := Crc(cleared[..HEADER_CRC_SPAN]);
    assert Overwrite(u, 16, LittleEndian(0, 4)) == cleared;
    assert u[16..20] == LittleEndian(crc, 4);
    assert u[80..84] == LittleEndian(count, 4);
    assert u[88..92] == LittleEndian(arrayCrc, 4);
    Pow256Values();
    LittleEndianRoundTrip(crc, 4);
    LittleEndianRoundTrip(count, 4);
    LittleEndianRoundTrip(arrayCrc, 4);
  }

  /** Recomputing and storing the checksums of one header. */
  method UpdateHeader(h: seq<byte>, count: nat, arrayCrc: nat) returns (u: seq<byte>)
    requires IsHeader(h)
    ensures u == UpdatedHeader(h, count, arrayCrc)
  {
    u := Overwrite(h, 88, LittleEndian(arrayCrc, 4));
    u := Overwrite(u, 80, LittleEndian(count, 4));
    u := Overwrite(u, 16, LittleEndian(0, 4));
    var crc := Crc32.Compute(u[..HEADER_CRC_SPAN]);
    u := Overwrite(u, 16, LittleEndian(crc as int, 4));
  }

  // ---------- where everything goes ----------

  /** The whole logical blocks an array area keeps in front of `size` bytes of stage 2. */
  function KeptBlocks(lb: nat, size: nat): (n: nat)
    requires 0 < lb && size <= ARRAY_BLOCKS * lb
  {
    (ARRAY_BLOCKS * lb - size) / lb
  }

  function KeptBytes(lb: nat, size: nat): (n: nat)
    requires 0 < lb && size <= ARRAY_BLOCKS * lb
  {
    KeptBlocks(lb, size) * lb
  }

  function PerBlock(lb: nat, entrySize: nat): (n: nat)
    requires 0 < entrySize
  {
    lb / entrySize
  }

  /** How many entries still fit. */
  function NewCount(lb: nat, entrySize: nat, sizeA: nat): (n: nat)
    requires 0 < lb && 0 < entrySize && sizeA <= ARRAY_BLOCKS * lb
  {
    KeptBlocks(lb, sizeA) * PerBlock(lb, entrySize)
  }

  lemma MulLess(a: nat, b: nat, c: nat)
    requires a <= b
    ensures a * c <= b * c
  {
  }

  /** Stage 2 placed at the last block boundary that leaves it room ends within its area. */
  lemma KeptWholeBlocks(lb: nat, size: nat)
    requires (lb == 512 || lb == 4096) && size <= ARRAY_BLOCKS * lb
    ensures KeptBytes(lb, size) + size <= ARRAY_BLOCKS * lb < KeptBytes(lb, size) + size + lb
    ensures KeptBlocks(lb, size) <= ARRAY_BLOCKS
  {
  }

  /** The shortened array ends at or before the first half of stage 2, and that half ends with the area. */
  lemma NewArrayFits(lb: nat, entrySize: nat, sizeA: nat)
    requires (lb == 512 || lb == 4096) && 0 < entrySize && sizeA <= ARRAY_BLOCKS * lb
    ensures NewCount(lb, entrySize, sizeA) * entrySize <= KeptBytes(lb, sizeA)
    ensures NewCount(lb, entrySize, sizeA) <= ARRAY_BLOCKS * 4096
  {
  }

  /** Byte addresses: logical block size, the two array areas, the secondary header. */
  datatype Areas = Areas(lb: nat, base1: nat, base2: nat, header2: nat)

  /** Byte addresses of the two array areas and the secondary header, in whole logical blocks:
      behind the first two blocks, inside 64 bits, and apart from each other. */
  ghost predicate Geometry(lb: nat, base1: nat, base2: nat, header2: nat) {
    && (lb == 512 || lb == 4096)
    && 2 * lb <= base1 && base1 + ARRAY_BLOCKS * lb < WORD
    && 2 * lb <= base2 && base2 + ARRAY_BLOCKS * lb < WORD
    && 2 * lb <= header2 && header2 + lb < WORD
    && (base1 + ARRAY_BLOCKS * lb <= base2 || base2 + ARRAY_BLOCKS * lb <= base1)
    && (header2 + lb <= base1 || base1 + ARRAY_BLOCKS * lb <= header2)
    && (header2 + lb <= base2 || base2 + ARRAY_BLOCKS * lb <= header2)
  }

  // ---------- the writes ----------

  /** The last used entry of the primary array, or -1. */
  function LastUsed(v: seq<byte>, base: nat, size: nat, n: nat): (m: int)
    ensures -1 <= m < n
  {
    if n == 0 then -1 else if UsedAt(v, base, size, n - 1) then n - 1 else LastUsed(v, base, size, n - 1)
  }

  /** The last used entry is used, and no later one is. */
  lemma {:induction false} LastUsedSpec(v: seq<byte>, base: nat, size: nat, n: nat)
    ensures var m := LastUsed(v, base, size, n);
      && (m >= 0 ==> UsedAt(v, base, size, m))
      && forall k :: m < k < n ==> !UsedAt(v, base, size, k)
  {
    hide Mbr.UsedAt;
    if n > 0 && !UsedAt(v, base, size, n - 1) {
      LastUsedSpec(v, base, size, n - 1);
    }
  }

  /** The reads of the scan. */
  function ScanOps(base: nat, size: nat, n: nat): (ops: seq<Op>)
    ensures |ops| == n
  {
    if n == 0 then [] else ScanOps(base, size, n - 1) + [Op.Read(Wrap(base + (n - 1) * size), ENTRY_SIZE)]
  }

  lemma {:induction false} ScanOpsAt(base: nat, size: nat, n: nat, k: nat)
    requires k < n
    ensures ScanOps(base, size, n)[k] == Op.Read(Wrap(base + k * size), ENTRY_SIZE)
    ensures ScanOps(base, size, k + 1) <= ScanOps(base, size, n)
    decreases n
  {
    if k < n - 1 {
      ScanOpsAt(base, size, n - 1, k);
    }
  }

  method EntryUsed(dev: Device, base: nat, size: nat, i: nat) returns (ok: bool, used: bool)
    requires dev.Ready()
    modifies dev, dev.disk, dev.cache, dev.undo
    ensures dev.Ran(old(Run(dev.State(), [Op.Read(Wrap(base + i * size), ENTRY_SIZE)])), ok) && dev.cache == old(dev.cache)
    ensures ok ==> View(dev.Model()) == old(View(dev.Model())) && used == UsedAt(old(View(dev.Model())), base, size, i)
  {
    var loc := (base + i * size) % WORD;
    assert loc == Wrap(base + i * size);
    var entry;
    ok, entry := ReadEntry(dev, loc);
    used := InUse(entry);
  }

  /** The scan for the last used entry. */
  method FindLastUsed(dev: Device, base: nat, size: nat, count: nat) returns (ok: bool, last: int)
    requires dev.Ready()
    modifies dev, dev.disk, dev.cache, dev.undo
    ensures dev.Ran(old(Run(dev.State(), ScanOps(base, size, count))), ok) && dev.cache == old(dev.cache)
    ensures ok ==> View(dev.Model()) == old(View(dev.Model())) && last == LastUsed(old(View(dev.Model())), base, size, count)
  {
    hide Mbr.UsedAt, BlockCache.View, DiskSession.Run;
    ghost var s, v := dev.State(), View(dev.Model());
    ok, last := true, -1;
    RunNothing(s);
    var i := 0;
    while i < count
      invariant 0 <= i <= count && dev.Ready() && dev.cache == old(dev.cache)
      invariant View(dev.Model()) == v && last == LastUsed(v, base, size, i)
      invariant Run(s, ScanOps(base, size, i)) == Outcome(dev.State(), true)
    {
      ScanOpsAt(base, size, count, i);
      RunAppend(s, ScanOps(base, size, i), [Op.Read(Wrap(base + i * size), ENTRY_SIZE)]);
      var used;
      ok, used := EntryUsed(dev, base, size, i);
      if !ok {
        RunStops(s, ScanOps(base, size, i + 1), ScanOps(base, size, count));
        return;
      }
      if used {
        last := i;
      }
      i := i + 1;
    }
  }

  /** The writes that zero the entries `[from, stop)` of an array. */
  function ZeroOps(base: nat, size: nat, from: nat, stop: nat): (ops: seq<Op>)
    requires from <= stop
    ensures |ops| == stop - from
  {
    if from == stop then []
    else ZeroOps(base, size, from, stop - 1) + [Op.Write(Wrap(base + (stop - 1) * size), Zeros(size))]
  }

  lemma {:induction false} ZeroOpsAt(base: nat, size: nat, from: nat, stop: nat, k: nat)
    requires from <= k < stop
    ensures ZeroOps(base, size, from, stop)[k - from] == Op.Write(Wrap(base + k * size), Zeros(size))
    ensures ZeroOps(base, size, from, k + 1) <= ZeroOps(base, size, from, stop)
    decreases stop
  {
    if k < stop - 1 {
      ZeroOpsAt(base, size, from, stop - 1, k);
    }
  }

  /** Zeroing the unused entries `[from, stop)` of one array. */
  method ZeroEntries(dev: Device, base: nat, size: nat, from: nat, stop: nat) returns (ok: bool)
    requires dev.Ready() && from <= stop
    modifies dev, dev.disk, dev.cache, dev.undo
    ensures dev.Ran(old(Run(dev.State(), ZeroOps(base, size, from, stop))), ok) && dev.cache == old(dev.cache)
  {
    hide DiskSession.Run;
    ghost var s := dev.State();
    ok := true;
    RunNothing(s);
    for i := from to stop
      invariant dev.Ready() && dev.cache == old(dev.cache)
      invariant Run(s, ZeroOps(base, size, from, i)) == Outcome(dev.State(), true)
    {
      ZeroOpsAt(base, size, from, stop, i);
      RunAppend(s, ZeroOps(base, size, from, i), [Op.Write(Wrap(base + i * size), Zeros(size))]);
      var loc := (base + i * size) % WORD;
      assert loc == Wrap(base + i * size);
      ok := dev.Patch(Zeros(size), loc);
      if !ok {
        RunStops(s, ZeroOps(base, size, from, i + 1), ZeroOps(base, size, from, stop));
        return;
      }
    }
  }

  lemma MulNext(a: nat, b: nat)
    ensures (a + 1) * b == a * b + b
  {
  }

  lemma OverwriteMore(v: seq<byte>, loc: nat, n: nat, size: nat)
    ensures Overwrite(Overwrite(v, loc, Zeros(n)), loc + n, Zeros(size)) == Overwrite(v, loc, Zeros(n + size))
  {
  }

  lemma ProductBelow(from: nat, stop: nat, size: nat, start: nat, end: nat)
    requires from < stop && start == from * size && end == stop * size
    ensures size <= end && (stop - 1) * size == end - size && start <= end - size
  {
    MulNext(stop - 1, size);
    MulLess(from, stop - 1, size);
  }

  /** Where nothing wraps they zero one stretch. */
  lemma {:induction false} ZeroOpsView(v: seq<byte>, base: nat, size: nat, from: nat, stop: nat, start: nat, end: nat)
    requires from <= stop && start == from * size && end == stop * size && base + end < WORD
    ensures start <= end && ViewAfter(v, ZeroOps(base, size, from, stop)) == Overwrite(v, base + start, Zeros(end - start))
    decreases stop
  {
    hide Zeros, ViewAfter;
    if from < stop {
      ProductBelow(from, stop, size, start, end);
      ZeroOpsView(v, base, size, from, stop - 1, start, end - size);
      ViewAfterAppend(v, ZeroOps(base, size, from, stop - 1), [Op.Write(Wrap(base + (stop - 1) * size), Zeros(size))]);
      ZeroOpsLast(v, ViewAfter(v, ZeroOps(base, size, from, stop - 1)), base, size, start, end - size);
    } else {
      NothingZeroed(v, base + start);
    }
  }

  lemma NothingZeroed(v: seq<byte>, loc: nat)
    ensures Overwrite(v, loc, Zeros(0)) == v == ViewAfter(v, [])
  {
  }

  lemma ZeroOpsLast(v: seq<byte>, g: seq<byte>, base: nat, size: nat, start: nat, here: nat)
    requires start <= here && base + here < WORD && g == Overwrite(v, base + start, Zeros(here - start))
    ensures ViewAfter(g, [Op.Write(Wrap(base + here), Zeros(size))]) == Overwrite(v, base + start, Zeros(here + size - start))
  {
    ViewAfterOne(g, Op.Write(Wrap(base + here), Zeros(size)));
    OverwriteMore(v, base + start, here - start, size);
  }

  /** Inside an array of `end` bytes that lies on the disk, zeroing stays inside. */
  lemma ZeroOpsInside(base: nat, size: nat, from: nat, stop: nat, disk: nat)
    requires from <= stop && base + stop * size < WORD && base + stop * size <= disk
    ensures var ops := ZeroOps(base, size, from, stop);
      AllInside(disk, ops) && Addressable(ops) && Writes(ops) == stop - from
  {
    var ops := ZeroOps(base, size, from, stop);
    forall k | 0 <= k < |ops| ensures Inside(disk, ops[k]) && ops[k].loc < WORD && ops[k].Write? {
      var j := from + k;
      ZeroOpsAt(base, size, from, stop, j);
      MulLess(j + 1, stop, size);
      assert (j + 1) * size == j * size + size;
    }
    WritesOfWrites(ops);
  }

  /** `stage2_loc` counted back from the end of an area, rounded down to a logical block. */
  lemma PlaceFromEnd(first: nat, lb: nat, size: nat)
    requires (lb == 512 || lb == 4096) && size <= ARRAY_BLOCKS * lb
    ensures var end := (first + ARRAY_BLOCKS) * lb - size;
      && end - end % lb == first * lb + KeptBytes(lb, size)
      && (first * lb + KeptBytes(lb, size)) / lb == first + KeptBlocks(lb, size)
  {
    var kept := KeptBlocks(lb, size);
    var r := ARRAY_BLOCKS * lb - size - kept * lb;
    KeptWholeBlocks(lb, size);
    assert (first + ARRAY_BLOCKS) * lb == first * lb + ARRAY_BLOCKS * lb;
    assert (first + kept) * lb == first * lb + kept * lb;
    Blocks.DivModUnique((first + ARRAY_BLOCKS) * lb - size, lb, first + kept, r);
    Blocks.DivModUnique(first * lb + KeptBytes(lb, size), lb, first + kept, 0);
  }

  /** The array after its entries from byte `from` on are zeroed. */
  function NewArray(v: seq<byte>, base: nat, from: nat, end: nat): (a: seq<byte>)
    requires from <= end && base + end <= |v|
    ensures |a| == end
  {
    v[base..base + from] + Zeros(end - from)
  }

  /** Everything the embedding writes: zeros over unused entries in both arrays, then both headers. */
  function EmbedWrites(lb: nat, base1: nat, base2: nat, header2: nat, from: nat, end: nat,
                       h1: seq<byte>, h2: seq<byte>): (w: seq<Extent>)
    requires from <= end
  {
    [ Extent(base1 + from, Zeros(end - from)), Extent(base2 + from, Zeros(end - from)),
      Extent(lb, h1), Extent(header2, h2) ]
  }

  /** After the embedding both arrays and both headers are where the standard wants them. */
  lemma EmbedStored(v: seq<byte>, lb: nat, base1: nat, base2: nat, header2: nat, from: nat, end: nat,
                    h1: seq<byte>, h2: seq<byte>)
    requires Geometry(lb, base1, base2, header2) && from <= end <= ARRAY_BLOCKS * lb
    requires base1 + end <= |v| && base2 + end <= |v| && header2 + HEADER_SIZE <= |v| && IsHeader(h1) && IsHeader(h2)
    ensures var f := ApplyAll(v, EmbedWrites(lb, base1, base2, header2, from, end, h1, h2));
      && Shows(f, base1, NewArray(v, base1, from, end)) && Shows(f, base2, NewArray(v, base2, from, end))
      && Shows(f, lb, h1) && Shows(f, header2, h2)
  {
    var w := EmbedWrites(lb, base1, base2, header2, from, end, h1, h2);
    EmbedApart(lb, base1, base2, header2, from, end, h1, h2);
    KeptWhole(v, w, 2);
    KeptWhole(v, w, 3);
    ArrayStored(v, w, 0, base1, from, end);
    ArrayStored(v, w, 1, base2, from, end);
  }

  ghost predicate OnlyTouchedBy(w: seq<Extent>, k: nat, lo: nat, hi: nat) {
    forall j :: 0 <= j < |w| && j != k ==> w[j].loc + |w[j].data| <= lo || hi <= w[j].loc
  }

  lemma EmbedApart(lb: nat, base1: nat, base2: nat, header2: nat, from: nat, end: nat, h1: seq<byte>, h2: seq<byte>)
    requires Geometry(lb, base1, base2, header2) && from <= end <= ARRAY_BLOCKS * lb && IsHeader(h1) && IsHeader(h2)
    ensures var w := EmbedWrites(lb, base1, base2, header2, from, end, h1, h2);
      && OnlyTouchedBy(w, 0, base1, base1 + end) && OnlyTouchedBy(w, 1, base2, base2 + end)
      && LaterApart(w, 2) && LaterApart(w, 3)
  {
  }

  lemma ArrayStored(v: seq<byte>, w: seq<Extent>, k: nat, base: nat, from: nat, end: nat)
    requires k < |w| && from <= end && base + end <= |v| && w[k] == Extent(base + from, Zeros(end - from))
    requires OnlyTouchedBy(w, k, base, base + end)
    ensures Shows(ApplyAll(v, w), base, NewArray(v, base, from, end))
  {
    FrontKept(v, w, k, base, from, end);
    TailStored(v, w, k, base, from, end);
    JoinArray(v, ApplyAll(v, w), base, from, end);
  }

  lemma FrontKept(v: seq<byte>, w: seq<Extent>, k: nat, base: nat, from: nat, end: nat)
    requires k < |w| && from <= end && base + end <= |v| && w[k].loc == base + from
    requires OnlyTouchedBy(w, k, base, base + end)
    ensures ApplyAll(v, w)[base..base + from] == v[base..base + from]
  {
    ApplyAllOutside(v, w, base, base + from);
  }

  lemma TailStored(v: seq<byte>, w: seq<Extent>, k: nat, base: nat, from: nat, end: nat)
    requires k < |w| && from <= end && base + end <= |v| && w[k] == Extent(base + from, Zeros(end - from))
    requires OnlyTouchedBy(w, k, base, base + end)
    ensures ApplyAll(v, w)[base + from..base + end] == Zeros(end - from)[0..end - from]
  {
    ApplyAllKeeps(v, w, k, base + from, base + end);
  }

  lemma JoinArray(v: seq<byte>, f: seq<byte>, base: nat, from: nat, end: nat)
    requires from <= end && base + end <= |v| == |f|
    requires f[base..base + from] == v[base..base + from]
    requires f[base + from..base + end] == Zeros(end - from)[0..end - from]
    ensures Shows(f, base, NewArray(v, base, from, end))
  {
    assert f[base..base + end] == f[base..base + from] + f[base + from..base + end];
  }

  /** The two checksummed headers that go with the table bytes `table`. */
  function NewHeader(h: seq<byte>, count: nat, table: seq<byte>): (u: seq<byte>)
    requires IsHeader(h)
    ensures IsHeader(u)
  {
    UpdatedHeader(h, count, Crc(table))
  }

  /** The disk that shows `v`, after the entries from byte `from` to `end` are zeroed in both arrays and
      both headers carry the new count and the checksum of the new primary array. */
  ghost predicate EmbeddedView(v: seq<byte>, f: seq<byte>, h1: seq<byte>, h2: seq<byte>, a: Areas,
                               from: nat, end: nat, count: nat)
    requires IsHeader(h1) && IsHeader(h2)
  {
    && from <= end && a.base1 + end <= |v|
    && var table := NewArray(v, a.base1, from, end);
       f == ApplyAll(v, EmbedWrites(a.lb, a.base1, a.base2, a.header2, from, end,
                                    NewHeader(h1, count, table), NewHeader(h2, count, table)))
  }

  lemma HalvesOrdered(imageSize: nat)
    requires HalvesFit(imageSize)
    ensures SizeB(imageSize) <= SizeA(imageSize)
  {
  }

  // ---------- the program's arithmetic ----------

  /** Counted back from the end of an area of 32 blocks, rounded down to a block, in 64 bits. */
  function PlaceBack(first: nat, lb: nat, size: nat): (loc: nat)
    requires 0 < lb && size <= WORD
    ensures loc < WORD
  {
    ToBlock(((first + ARRAY_BLOCKS) * lb + WORD - size) % WORD, lb)
  }

  /** `& ~(lb_size - 1)` */
  function ToBlock(x: nat, lb: nat): (r: nat)
    requires 0 < lb
    ensures r <= x
  {
    x - x % lb
  }

  /** The entries that fit in front of it, as a `size_t`. */
  function CountBefore(first: nat, lb: nat, entrySize: nat, loc: nat): (n: nat)
    requires 0 < lb && 0 < entrySize && first < WORD
    ensures n < WORD
  {
    (loc / lb + WORD - first) % WORD * PerBlock(lb, entrySize) % WORD
  }

  /** A `size_t` cast to `int64_t`. */
  function Signed(n: nat): int
    requires n < WORD
  {
    if n < OFFSET_LIMIT then n else n - WORD
  }

  /** Where the halves go and how many entries stay. */
  datatype Placement = Placement(locA: nat, locB: nat, count: nat)

  /** What the embedding needs of its headers to be computed at all: entries that have a size, and zeros enough for
      those of the secondary array. */
  predicate Computable(h1: seq<byte>, h2: seq<byte>, lb: nat, imageSize: nat) {
    && IsHeader(h1) && IsHeader(h2) && Splits(imageSize) && (lb == 512 || lb == 4096)
    && 0 < EntryBytes(h1) && EntryBytes(h2) <= EntryBytes(h1)
  }

  lemma Half16(imageSize: nat)
    requires SECTOR <= imageSize
    ensures SizeA(imageSize) < WORD && SizeB(imageSize) < WORD
  {
    Sizes16(imageSize);
  }

  function PlacementOf(h1: seq<byte>, h2: seq<byte>, lb: nat, imageSize: nat): (p: Placement)
    requires Computable(h1, h2, lb, imageSize)
    ensures p.locA < WORD && p.locB < WORD && p.count < WORD
  {
    Half16(imageSize);
    LbaBound(h1);
    var locA := PlaceBack(EntryLba(h1), lb, SizeA(imageSize));
    Placement(locA, PlaceBack(EntryLba(h2), lb, SizeB(imageSize)), CountBefore(EntryLba(h1), lb, EntryBytes(h1), locA))
  }

  lemma LbaBound(h: seq<byte>)
    requires IsHeader(h)
    ensures EntryLba(h) < WORD && AlternateLba(h) < WORD
  {
    FromLittleEndianBound(h[72..80]);
    FromLittleEndianBound(h[32..40]);
    Pow256Values();
  }

  /** Counting back and masking. */
  method PlaceHalf(first: nat, lb: nat, size: nat) returns (loc: nat)
    requires 0 < lb && size <= WORD
    ensures loc == PlaceBack(first, lb, size)
  {
    var end := ((first + ARRAY_BLOCKS) * lb + WORD - size) % WORD;
    loc := MaskDown(end, lb);
  }

  method MaskDown(x: nat, lb: nat) returns (r: nat)
    requires 0 < lb
    ensures r == ToBlock(x, lb)
  {
    r := x - x % lb;
  }

  method MakePlacement(h1: seq<byte>, h2: seq<byte>, lb: nat, imageSize: nat) returns (p: Placement)
    requires Computable(h1, h2, lb, imageSize)
    ensures p == PlacementOf(h1, h2, lb, imageSize)
  {
    hide PlaceBack;
    Half16(imageSize);
    LbaBound(h1);
    var locA := PlaceHalf(EntryLba(h1), lb, SizeA(imageSize));
    var locB := PlaceHalf(EntryLba(h2), lb, SizeB(imageSize));
    var perBlock := lb / EntryBytes(h1);
    var blocks := (locA / lb + WORD - EntryLba(h1)) % WORD;
    p := Placement(locA, locB, blocks * perBlock % WORD);
  }

  // ---------- everything the embedding does ----------

  /** The size of `count` entries, as a `size_t`. */
  function ArrayBytes(h: seq<byte>, count: nat): (n: nat)
    requires IsHeader(h)
    ensures n < WORD
  {
    Wrap(count * EntryBytes(h))
  }

  function ArrayAt(h: seq<byte>, lb: nat): (loc: nat)
    requires IsHeader(h)
    ensures loc < WORD
  {
    Wrap(EntryLba(h) * lb)
  }

  /** Zeros over the entries `[from, count)` of both arrays. */
  function ClearOps(h1: seq<byte>, h2: seq<byte>, lb: nat, from: nat, count: nat): (ops: seq<Op>)
    requires IsHeader(h1) && IsHeader(h2) && from <= count
  {
    ZeroOps(ArrayAt(h1, lb), EntryBytes(h1), from, count) + ZeroOps(ArrayAt(h2, lb), EntryBytes(h2), from, count)
  }

  /** The array whose checksum is taken, on a device that shows `v` before the zeroing. */
  function TableOf(v: seq<byte>, h1: seq<byte>, h2: seq<byte>, lb: nat, from: nat, count: nat): (table: seq<byte>)
    requires IsHeader(h1) && IsHeader(h2) && from <= count
  {
    Slice(ViewAfter(v, ClearOps(h1, h2, lb, from, count)), ArrayAt(h1, lb), ArrayBytes(h1, count))
  }

  /** The two headers with the checksum of `table`. */
  function HeaderOps(h1: seq<byte>, h2: seq<byte>, lb: nat, count: nat, crc: nat): (ops: seq<Op>)
    requires IsHeader(h1) && IsHeader(h2)
  {
    [Op.Write(lb, UpdatedHeader(h1, count, crc)), Op.Write(Wrap(AlternateLba(h1) * lb), UpdatedHeader(h2, count, crc))]
  }

  function EmbedOps(v: seq<byte>, h1: seq<byte>, h2: seq<byte>, lb: nat, from: nat, count: nat): (ops: seq<Op>)
    requires IsHeader(h1) && IsHeader(h2) && from <= count
  {
    ClearOps(h1, h2, lb, from, count)
    + ([Op.Read(ArrayAt(h1, lb), ArrayBytes(h1, count))]
       + HeaderOps(h1, h2, lb, count, Crc(TableOf(v, h1, h2, lb, from, count))))
  }

  /** The last used entry of the primary array. */
  function LastOf(v: seq<byte>, h1: seq<byte>, lb: nat): (last: int)
    requires IsHeader(h1)
    ensures -1 <= last < EntryCount(h1)
  {
    LastUsed(v, ArrayAt(h1, lb), EntryBytes(h1), EntryCount(h1))
  }

  /** An entry in use would be cut off, in the program's signed comparison. */
  predicate CutsOff(v: seq<byte>, h1: seq<byte>, lb: nat, count: nat)
    requires IsHeader(h1) && count < WORD
  {
    Signed(count) <= LastOf(v, h1, lb)
  }

  /** The embedding: the scan, and unless an entry in use would be cut off, the writes. */
  function EmbedScript(v: seq<byte>, h1: seq<byte>, h2: seq<byte>, lb: nat, count: nat): (t: Script)
    requires IsHeader(h1) && IsHeader(h2) && count < WORD
  {
    var scan := ScanOps(ArrayAt(h1, lb), EntryBytes(h1), EntryCount(h1));
    if CutsOff(v, h1, lb, count) then Script(scan, false)
    else Script(scan + EmbedOps(v, h1, h2, lb, LastOf(v, h1, lb) + 1, count), true)
  }

  // ---------- on the device ----------

  /** The two zeroing loops. */
  method ZeroTails(dev: Device, h1: seq<byte>, h2: seq<byte>, lb: nat, from: nat, count: nat) returns (ok: bool)
    requires dev.Ready() && IsHeader(h1) && IsHeader(h2) && from <= count
    modifies dev, dev.disk, dev.cache, dev.undo
    ensures dev.Ran(old(Run(dev.State(), ClearOps(h1, h2, lb, from, count))), ok) && dev.cache == old(dev.cache)
  {
    hide ZeroOps, DiskSession.Run;
    ghost var a, b := ZeroOps(ArrayAt(h1, lb), EntryBytes(h1), from, count), ZeroOps(ArrayAt(h2, lb), EntryBytes(h2), from, count);
    RunAppend(dev.State(), a, b);
    var base1, base2 := EntryLba(h1) * lb % WORD, EntryLba(h2) * lb % WORD;
    assert base1 == ArrayAt(h1, lb) && base2 == ArrayAt(h2, lb);
    ok := ZeroEntries(dev, base1, EntryBytes(h1), from, count);
    if !ok { return; }
    ok := ZeroEntries(dev, base2, EntryBytes(h2), from, count);
  }

  /** Reading the new array back for its checksum. */
  method ArrayChecksum(dev: Device, base: nat, size: nat) returns (ok: bool, crc: nat)
    requires dev.Ready() && base < WORD
    modifies dev, dev.disk, dev.cache, dev.undo
    ensures dev.Ran(old(Run(dev.State(), [Op.Read(base, size)])), ok) && dev.cache == old(dev.cache)
    ensures ok ==> crc == Crc(Slice(old(View(dev.Model())), base, size))
  {
    var bytes;
    ok, bytes := dev.Peek(base, size);
    var sum := Crc32.Compute(bytes);
    crc := sum as int;
  }

  /** Both headers with the new checksum. */
  method WriteHeaders(dev: Device, h1: seq<byte>, h2: seq<byte>, lb: nat, count: nat, crc: nat) returns (ok: bool)
    requires dev.Ready() && IsHeader(h1) && IsHeader(h2) && lb < WORD
    modifies dev, dev.disk, dev.cache, dev.undo
    ensures dev.Ran(old(Run(dev.State(), HeaderOps(h1, h2, lb, count, crc))), ok) && dev.cache == old(dev.cache)
  {
    hide UpdatedHeader;
    var header2 := AlternateLba(h1) * lb % WORD;
    assert header2 == Wrap(AlternateLba(h1) * lb);
    RunTwo(dev.State(), Op.Write(lb, UpdatedHeader(h1, count, crc)), Op.Write(header2, UpdatedHeader(h2, count, crc)));
    var new1 := UpdateHeader(h1, count, crc);
    ok := dev.Patch(new1, lb);
    if !ok { return; }
    var new2 := UpdateHeader(h2, count, crc);
    ok := dev.Patch(new2, header2);
  }

  lemma RunEmbedding(s: Session, clear: seq<Op>, read: Op, headers: seq<Op>)
    requires 0 < |s.dev.cache|
    ensures var r := Run(s, clear); var q := Run(r.session, [read]);
      Run(s, clear + ([read] + headers)) == if !r.ok then r else if !q.ok then q else Run(q.session, headers)
  {
    RunAppend(s, clear, [read] + headers);
    RunAppend(Run(s, clear).session, [read], headers);
  }

  /** All writes of the embedding. */
  method WriteEmbedding(dev: Device, h1: seq<byte>, h2: seq<byte>, lb: nat, from: nat, count: nat) returns (ok: bool)
    requires dev.Ready() && IsHeader(h1) && IsHeader(h2) && lb < WORD && from <= count
    modifies dev, dev.disk, dev.cache, dev.undo
    ensures dev.Ran(old(Run(dev.State(), EmbedOps(View(dev.Model()), h1, h2, lb, from, count))), ok)
    ensures dev.cache == old(dev.cache)
  {
    hide ClearOps, HeaderOps, DiskSession.Run;
    ghost var s, v := dev.State(), View(dev.Model());
    var base1, size := EntryLba(h1) * lb % WORD, count * EntryBytes(h1) % WORD;
    assert base1 == ArrayAt(h1, lb) && size == ArrayBytes(h1, count);
    RunEmbedding(s, ClearOps(h1, h2, lb, from, count), Op.Read(base1, size),
                 HeaderOps(h1, h2, lb, count, Crc(TableOf(v, h1, h2, lb, from, count))));
    ClearAddressable(h1, h2, lb, from, count);
    RunEffect(s, ClearOps(h1, h2, lb, from, count));
    ok := ZeroTails(dev, h1, h2, lb, from, count);
    if !ok { return; }
    var crc;
    ok, crc := ArrayChecksum(dev, base1, size);
    if !ok { return; }
    ok := WriteHeaders(dev, h1, h2, lb, count, crc);
  }

  lemma ClearAddressable(h1: seq<byte>, h2: seq<byte>, lb: nat, from: nat, count: nat)
    requires IsHeader(h1) && IsHeader(h2) && from <= count
    ensures Addressable(ClearOps(h1, h2, lb, from, count))
  {
    ZeroOpsAddressable(ArrayAt(h1, lb), EntryBytes(h1), from, count);
    ZeroOpsAddressable(ArrayAt(h2, lb), EntryBytes(h2), from, count);
  }

  lemma {:induction false} ZeroOpsAddressable(base: nat, size: nat, from: nat, stop: nat)
    requires from <= stop
    ensures Addressable(ZeroOps(base, size, from, stop)) && Writes(ZeroOps(base, size, from, stop)) == stop - from
    decreases stop
  {
    if from < stop {
      ZeroOpsAddressable(base, size, from, stop - 1);
      var last := [Op.Write(Wrap(base + (stop - 1) * size), Zeros(size))];
      WritesAppend(ZeroOps(base, size, from, stop - 1), last);
      WritesOfWrites(last);
    }
  }

  datatype Embedding = Failed | Refused | Embedded

  /** The embedding part of `bios_install`: find the last used entry; refuse if it would be cut off, otherwise
      write. */
  method Embed(dev: Device, h1: seq<byte>, h2: seq<byte>, lb: nat, imageSize: nat) returns (r: Embedding, p: Placement)
    requires dev.Ready() && Computable(h1, h2, lb, imageSize)
    modifies dev, dev.disk, dev.cache, dev.undo
    ensures p == PlacementOf(h1, h2, lb, imageSize)
    ensures dev.Ran(old(Run(dev.State(), EmbedScript(View(dev.Model()), h1, h2, lb, p.count).ops)), !r.Failed?)
    ensures dev.cache == old(dev.cache)
    ensures !r.Failed? ==> (r.Embedded? <==> old(EmbedScript(View(dev.Model()), h1, h2, lb, p.count)).go)
    ensures r.Refused? ==> View(dev.Model()) == old(View(dev.Model()))
  {
    hide EmbedOps, LastUsed, ScanOps, DiskSession.Run, PlacementOf;
    ghost var s, v := dev.State(), View(dev.Model());
    p := MakePlacement(h1, h2, lb, imageSize);
    var base1 := EntryLba(h1) * lb % WORD;
    assert base1 == ArrayAt(h1, lb);
    ghost var scan, last0 := ScanOps(base1, EntryBytes(h1), EntryCount(h1)), LastOf(v, h1, lb);
    var ok, last := FindLastUsed(dev, base1, EntryBytes(h1), EntryCount(h1));
    if ok && Signed(p.count) > last {
      RunAppend(s, scan, EmbedOps(v, h1, h2, lb, last + 1, p.count));
      ok := WriteEmbedding(dev, h1, h2, lb, last + 1, p.count);
      r := if ok then Embedded else Embedding.Failed;
    } else {
      RunAppend(s, scan, if CutsOff(v, h1, lb, p.count) then [] else EmbedOps(v, h1, h2, lb, last0 + 1, p.count));
      r := if ok then Refused else Embedding.Failed;
      assert scan + [] == scan;
    }
  }
}
