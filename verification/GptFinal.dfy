/** The partition tables and stage 2 on the disk that a GPT install leaves behind. */
module GptFinal {
  import opened Bytes
  import opened UndoLog
  import opened BlockCache
  import opened Mbr
  import opened BootSector
  import opened GptEmbed
  import opened GptPlan

  /** A header with the checksum of the array `table`, the new count and the CRC of its own first 92 bytes, and in
      every other field as it was. */
  predicate HeaderRenewed(h: seq<byte>, u: seq<byte>, table: seq<byte>, count: nat)
    requires IsHeader(h) && IsHeader(u)
  {
    && FromLittleEndian(u[16..20]) == SpanCrc(u, HEADER_CRC_SPAN) && EntryCount(u) == count && FromLittleEndian(u[88..92]) == Crc(table)
    && u[..16] == h[..16] && u[20..80] == h[20..80] && u[84..88] == h[84..88] && u[92..] == h[92..]
  }

  lemma NewHeaderRenewed(h: seq<byte>, table: seq<byte>, count: nat)
    requires IsHeader(h) && count < 0x1_0000_0000
    ensures HeaderRenewed(h, NewHeader(h, count, table), table, count)
  {
    UpdatedHeaderSpec(h, count, Crc(table));
  }

  /** An array of the final disk: the entries before byte `from` untouched, and the others zero. */
  ghost predicate EntriesKept(v: seq<byte>, g: seq<byte>, base: nat, from: nat, end: nat) {
    && |g| == |v| && from <= end && base + end <= |g|
    && g[base..base + from] == v[base..base + from]
    && g[base + from..base + end] == Zeros(end - from)
  }

  lemma EntriesShown(v: seq<byte>, g: seq<byte>, base: nat, from: nat, end: nat)
    requires |g| == |v| && from <= end && base + end <= |v| && Shows(g, base, NewArray(v, base, from, end))
    ensures EntriesKept(v, g, base, from, end)
  {
    var table := NewArray(v, base, from, end);
    assert table[..from] == v[base..base + from] && table[from..] == Zeros(end - from);
    assert g[base..base + from] == table[..from];
    assert g[base + from..base + end] == table[from..];
  }

  ghost predicate RenewedAt(g: seq<byte>, header: nat, h: seq<byte>, table: seq<byte>, count: nat) {
    header + HEADER_SIZE <= |g| && IsHeader(h) && HeaderRenewed(h, g[header..header + HEADER_SIZE], table, count)
  }

  lemma BlockStarts(g: seq<byte>, header: nat, lb: nat)
    requires HEADER_SIZE <= lb && header + lb <= |g|
    ensures var block, u := g[header..header + lb], g[header..header + HEADER_SIZE];
      && block[12..16] == u[12..16] && block[16..20] == u[16..20]
      && forall i :: 0 <= i < HEADER_SIZE ==> block[i] == u[i]
  {
    SliceOfSlice(g, header, header + lb, 12, 16);
    SliceOfSlice(g, header, header + HEADER_SIZE, 12, 16);
    SliceOfSlice(g, header, header + lb, 16, 20);
    SliceOfSlice(g, header, header + HEADER_SIZE, 16, 20);
  }

  /** By the standard the header in the block at `header` is valid if it claims 92 bytes, and otherwise exactly if the
      CRCs of 92 bytes and of as many as it claims are the same. */
  lemma RenewedValidExactly(g: seq<byte>, header: nat, lb: nat, h: seq<byte>, table: seq<byte>, count: nat)
    requires RenewedAt(g, header, h, table, count) && HEADER_SIZE <= lb && header + lb <= |g|
    ensures var block := g[header..header + lb];
      && HeaderSize(block) == HeaderSize(h)
      && (HeaderSize(h) == HEADER_CRC_SPAN ==> HeaderValid(block))
      && (HeaderValid(block) <==> HEADER_CRC_SPAN <= HeaderSize(h) <= lb
                                  && SpanCrc(block, HEADER_CRC_SPAN) == SpanCrc(block, HeaderSize(h)))
  {
    var block, u := g[header..header + lb], g[header..header + HEADER_SIZE];
    BlockStarts(g, header, lb);
    assert u[12..16] == u[..16][12..16];
    assert Overwrite(block, 16, LittleEndian(0, 4))[..92] == Overwrite(u, 16, LittleEndian(0, 4))[..92];
    HeaderValidExactly(block);
  }

  /** Both halves lie behind the shortened arrays and inside the two areas. */
  predicate HalvesPlaced(a: Areas, end: nat, imageSize: nat, locA: nat, locB: nat)
    requires HalvesFit(imageSize)
  {
    && a.base1 + end <= locA && locA + SizeA(imageSize) <= a.base1 + ARRAY_BLOCKS * a.lb
    && a.base2 + end <= locB && locB + (imageSize - SECTOR - SizeA(imageSize)) <= a.base2 + ARRAY_BLOCKS * a.lb
  }

  lemma HalvesInAreas(h1: seq<byte>, h2: seq<byte>, lb: nat, imageSize: nat, p: Placement)
    requires EmbedInput(h1, h2, lb, imageSize) && PlacementFor(h1, h2, lb, imageSize, p)
    ensures HalvesPlaced(AreasOf(h1, h2, lb), p.count * EntryBytes(h1), imageSize, p.locA, p.locB)
  {
    HalvesOrdered(imageSize);
    KeptWholeBlocks(lb, SizeA(imageSize));
    KeptWholeBlocks(lb, SizeB(imageSize));
    KeptOrdered(lb, SizeA(imageSize), SizeB(imageSize));
  }

  lemma KeptOrdered(lb: nat, sizeA: nat, sizeB: nat)
    requires (lb == 512 || lb == 4096) && sizeB <= sizeA <= ARRAY_BLOCKS * lb
    ensures KeptBytes(lb, sizeA) <= KeptBytes(lb, sizeB)
  {
  }

  /** What `bios_install` knows when it has embedded and is about to write the boot sector. */
  ghost predicate BeforeBoot(v: seq<byte>, f: seq<byte>, h1: seq<byte>, h2: seq<byte>, a: Areas,
                             from: nat, end: nat, count: nat)
  {
    && IsHeader(h1) && IsHeader(h2) && count < 0x1_0000_0000
    && Geometry(a.lb, a.base1, a.base2, a.header2) && end <= ARRAY_BLOCKS * a.lb
    && AreasInside(|v|, a) && |v| < OFFSET_LIMIT
    && EmbeddedView(v, f, h1, h2, a, from, end, count)
  }

  /** Both arrays and both headers are on the disk. */
  ghost predicate TablesShown(f: seq<byte>, a: Areas, table1: seq<byte>, table2: seq<byte>, u1: seq<byte>, u2: seq<byte>) {
    Shows(f, a.base1, table1) && Shows(f, a.base2, table2) && Shows(f, a.lb, u1) && Shows(f, a.header2, u2)
  }

  /** What the embedding leaves: both arrays shortened, both headers with the checksum of the primary array. */
  ghost predicate TablesNew(v: seq<byte>, f: seq<byte>, h1: seq<byte>, h2: seq<byte>, a: Areas, from: nat, end: nat, count: nat) {
    && IsHeader(h1) && IsHeader(h2) && |f| == |v|
    && from <= end && a.base1 + end <= |v| && a.base2 + end <= |v|
    && var table := NewArray(v, a.base1, from, end);
       TablesShown(f, a, table, NewArray(v, a.base2, from, end), NewHeader(h1, count, table), NewHeader(h2, count, table))
  }

  lemma TablesBeforeBoot(v: seq<byte>, f: seq<byte>, h1: seq<byte>, h2: seq<byte>, a: Areas, from: nat, end: nat, count: nat)
    requires BeforeBoot(v, f, h1, h2, a, from, end, count)
    ensures TablesNew(v, f, h1, h2, a, from, end, count)
  {
    hide GptEmbed.NewHeader, GptEmbed.EmbedWrites, GptEmbed.NewArray;
    var table := NewArray(v, a.base1, from, end);
    EmbedStored(v, a.lb, a.base1, a.base2, a.header2, from, end, NewHeader(h1, count, table), NewHeader(h2, count, table));
  }

  /** A stretch that shows certain bytes still shows them after the boot phase if it lies apart from it. */
  lemma ShowsAfterBoot(f: seq<byte>, img: seq<byte>, locA: nat, locB: nat, g: seq<byte>, loc: nat, data: seq<byte>)
    requires SECTOR <= |f| && HalvesFit(|img|) && Shows(f, loc, data) && SECTOR <= loc
    requires ApartFromHalves(|img|, locA, locB, loc, loc + |data|)
    requires g == ApplyAll(f, BootWrites(f, img, locA, locB))
    ensures Shows(g, loc, data)
  {
    PatchesApart(f, img, locA, locB, loc, loc + |data|);
    ShownApart(f, BootWrites(f, img, locA, locB), loc, data);
  }

  lemma ShownApart(f: seq<byte>, w: seq<Extent>, loc: nat, data: seq<byte>)
    requires Shows(f, loc, data) && AllApart(w, loc, loc + |data|)
    ensures Shows(ApplyAll(f, w), loc, data)
  {
    KeptApart(f, w, loc, loc + |data|);
  }

  /** A stretch in front of the half in its area is apart from both halves. */
  lemma TablesApart(a: Areas, end: nat, imageSize: nat, locA: nat, locB: nat)
    requires Geometry(a.lb, a.base1, a.base2, a.header2) && end <= ARRAY_BLOCKS * a.lb
    requires HalvesFit(imageSize) && HalvesPlaced(a, end, imageSize, locA, locB)
    ensures ApartFromHalves(imageSize, locA, locB, a.base1, a.base1 + end)
    ensures ApartFromHalves(imageSize, locA, locB, a.base2, a.base2 + end)
    ensures ApartFromHalves(imageSize, locA, locB, a.lb, a.lb + HEADER_SIZE)
    ensures ApartFromHalves(imageSize, locA, locB, a.header2, a.header2 + HEADER_SIZE)
  {
  }

  lemma TablesAfterBoot(f: seq<byte>, g: seq<byte>, a: Areas, img: seq<byte>, locA: nat, locB: nat,
                        table1: seq<byte>, table2: seq<byte>, u1: seq<byte>, u2: seq<byte>)
    requires Geometry(a.lb, a.base1, a.base2, a.header2) && |table1| == |table2| <= ARRAY_BLOCKS * a.lb
    requires SECTOR <= |f| && HalvesFit(|img|) && HalvesPlaced(a, |table1|, |img|, locA, locB)
    requires IsHeader(u1) && IsHeader(u2) && TablesShown(f, a, table1, table2, u1, u2)
    requires g == ApplyAll(f, BootWrites(f, img, locA, locB))
    ensures TablesShown(g, a, table1, table2, u1, u2)
  {
    TablesApart(a, |table1|, |img|, locA, locB);
    ShowsAfterBoot(f, img, locA, locB, g, a.base1, table1);
    ShowsAfterBoot(f, img, locA, locB, g, a.base2, table2);
    ShowsAfterBoot(f, img, locA, locB, g, a.lb, u1);
    ShowsAfterBoot(f, img, locA, locB, g, a.header2, u2);
  }

  // ---------- the final disk ----------

  /** Both tables: the entries before byte `from` kept and the others zero, and both headers renewed for the
      primary array. */
  ghost predicate TablesInstalled(v: seq<byte>, g: seq<byte>, h1: seq<byte>, h2: seq<byte>, a: Areas,
                                  from: nat, end: nat, count: nat)
  {
    && EntriesKept(v, g, a.base1, from, end) && EntriesKept(v, g, a.base2, from, end)
    && RenewedAt(g, a.lb, h1, g[a.base1..a.base1 + end], count)
    && RenewedAt(g, a.header2, h2, g[a.base1..a.base1 + end], count)
  }

  /** Address `q` is one that a GPT install writes: the boot sector, a header, an unused entry that stays in an
      array, or one of the halves. */
  predicate Touched(a: Areas, imageSize: nat, locA: nat, locB: nat, from: nat, end: nat, q: nat)
    requires Splits(imageSize)
  {
    || q < SECTOR || a.lb <= q < a.lb + HEADER_SIZE || a.header2 <= q < a.header2 + HEADER_SIZE
    || a.base1 + from <= q < a.base1 + end || a.base2 + from <= q < a.base2 + end
    || locA <= q < locA + SizeA(imageSize) || locB <= q < locB + (imageSize - SECTOR - SizeA(imageSize))
  }

  ghost predicate RestKept(v: seq<byte>, g: seq<byte>, a: Areas, imageSize: nat, locA: nat, locB: nat, from: nat, end: nat)
    requires HalvesFit(imageSize)
  {
    |g| == |v| && forall q :: 0 <= q < |v| && !Touched(a, imageSize, locA, locB, from, end, q) ==> g[q] == v[q]
  }

  /** The final disk of a GPT install. */
  ghost predicate GptInstalled(v: seq<byte>, g: seq<byte>, h1: seq<byte>, h2: seq<byte>, a: Areas, img: seq<byte>,
                               locA: nat, locB: nat, from: nat, end: nat, count: nat)
  {
    && HalvesFit(|img|) && HalvesPlaced(a, end, |img|, locA, locB)
    && TablesInstalled(v, g, h1, h2, a, from, end, count)
    && SectorInstalled(v, g, img, locA, locB)
    && RestKept(v, g, a, |img|, locA, locB, from, end)
  }

  lemma TablesFinal(v: seq<byte>, g: seq<byte>, h1: seq<byte>, h2: seq<byte>, a: Areas, from: nat, end: nat, count: nat)
    requires TablesNew(v, g, h1, h2, a, from, end, count) && count < 0x1_0000_0000
    ensures TablesInstalled(v, g, h1, h2, a, from, end, count)
  {
    hide HeaderRenewed, GptEmbed.NewHeader, GptEmbed.NewArray;
    var table := NewArray(v, a.base1, from, end);
    NewHeaderRenewed(h1, table, count);
    NewHeaderRenewed(h2, table, count);
    EntriesShown(v, g, a.base1, from, end);
    EntriesShown(v, g, a.base2, from, end);
    assert g[a.base1..a.base1 + end] == table;
  }

  lemma FinalTables(v: seq<byte>, f: seq<byte>, h1: seq<byte>, h2: seq<byte>, a: Areas, img: seq<byte>,
                    locA: nat, locB: nat, from: nat, end: nat, count: nat)
    requires BeforeBoot(v, f, h1, h2, a, from, end, count) && SECTOR <= |f|
    requires HalvesFit(|img|) && HalvesPlaced(a, end, |img|, locA, locB)
    ensures TablesInstalled(v, ApplyAll(f, BootWrites(f, img, locA, locB)), h1, h2, a, from, end, count)
  {
    hide GptEmbed.NewHeader, GptEmbed.NewArray, GptEmbed.EmbeddedView, BootSector.BootWrites;
    var g := ApplyAll(f, BootWrites(f, img, locA, locB));
    TablesBeforeBoot(v, f, h1, h2, a, from, end, count);
    var table := NewArray(v, a.base1, from, end);
    TablesAfterBoot(f, g, a, img, locA, locB, table, NewArray(v, a.base2, from, end),
                    NewHeader(h1, count, table), NewHeader(h2, count, table));
    TablesFinal(v, g, h1, h2, a, from, end, count);
  }

  /** The embedding writes nothing in the first block, and nothing but headers and unused entries. */
  lemma EmbeddingKeeps(v: seq<byte>, f: seq<byte>, h1: seq<byte>, h2: seq<byte>, a: Areas, from: nat, end: nat, count: nat,
                       lo: nat, hi: nat)
    requires IsHeader(h1) && IsHeader(h2) && EmbeddedView(v, f, h1, h2, a, from, end, count) && lo <= hi <= |v|
    requires hi <= a.lb || a.lb + HEADER_SIZE <= lo
    requires hi <= a.header2 || a.header2 + HEADER_SIZE <= lo
    requires hi <= a.base1 + from || a.base1 + end <= lo
    requires hi <= a.base2 + from || a.base2 + end <= lo
    ensures f[lo..hi] == v[lo..hi]
  {
    hide GptEmbed.NewHeader;
    var table := NewArray(v, a.base1, from, end);
    ApplyAllOutside(v, EmbedWrites(a.lb, a.base1, a.base2, a.header2, from, end,
                                   NewHeader(h1, count, table), NewHeader(h2, count, table)), lo, hi);
  }

  lemma FinalSector(v: seq<byte>, f: seq<byte>, h1: seq<byte>, h2: seq<byte>, a: Areas, img: seq<byte>,
                    locA: nat, locB: nat, from: nat, end: nat, count: nat)
    requires BeforeBoot(v, f, h1, h2, a, from, end, count) && SECTOR <= |f|
    requires HalvesFit(|img|) && HalvesPlaced(a, end, |img|, locA, locB)
    ensures SectorInstalled(v, ApplyAll(f, BootWrites(f, img, locA, locB)), img, locA, locB)
  {
    hide BootSector.BootWrites, GptEmbed.EmbeddedView, BootSector.Reassembles;
    EmbeddingKeeps(v, f, h1, h2, a, from, end, count, 440, 510);
    EmbeddingKeeps(v, f, h1, h2, a, from, end, count, 218, 224);
    EmbeddedLength(v, f, h1, h2, a, from, end, count);
    BootSectorSpec(f, img, locA, locB);
    StagesReassemble(f, img, locA, locB);
  }

  lemma EmbeddedLength(v: seq<byte>, f: seq<byte>, h1: seq<byte>, h2: seq<byte>, a: Areas, from: nat, end: nat, count: nat)
    requires IsHeader(h1) && IsHeader(h2) && EmbeddedView(v, f, h1, h2, a, from, end, count)
    ensures |f| == |v|
  {
  }

  lemma FinalRest(v: seq<byte>, f: seq<byte>, h1: seq<byte>, h2: seq<byte>, a: Areas, img: seq<byte>,
                  locA: nat, locB: nat, from: nat, end: nat, count: nat)
    requires BeforeBoot(v, f, h1, h2, a, from, end, count) && SECTOR <= |f| && HalvesFit(|img|)
    ensures RestKept(v, ApplyAll(f, BootWrites(f, img, locA, locB)), a, |img|, locA, locB, from, end)
  {
    hide BootSector.BootWrites, GptEmbed.EmbeddedView;
    var g := ApplyAll(f, BootWrites(f, img, locA, locB));
    EmbeddedLength(v, f, h1, h2, a, from, end, count);
    forall q | 0 <= q < |v| && !Touched(a, |img|, locA, locB, from, end, q) ensures g[q] == v[q] {
      var next := q + 1;
      EmbeddingKeeps(v, f, h1, h2, a, from, end, count, q, next);
      BootOutside(f, img, locA, locB, q, next);
      assert g[q..next][0] == f[q..next][0] == v[q..next][0];
    }
  }

  lemma GptInstallSpec(v: seq<byte>, f: seq<byte>, h1: seq<byte>, h2: seq<byte>, a: Areas, img: seq<byte>,
                       locA: nat, locB: nat, from: nat, end: nat, count: nat)
    requires BeforeBoot(v, f, h1, h2, a, from, end, count) && SECTOR <= |f|
    requires HalvesFit(|img|) && HalvesPlaced(a, end, |img|, locA, locB)
    ensures GptInstalled(v, ApplyAll(f, BootWrites(f, img, locA, locB)), h1, h2, a, img, locA, locB, from, end, count)
  {
    hide BeforeBoot, TablesInstalled, SectorInstalled, RestKept, BootSector.BootWrites;
    FinalTables(v, f, h1, h2, a, img, locA, locB, from, end, count);
    FinalSector(v, f, h1, h2, a, img, locA, locB, from, end, count);
    FinalRest(v, f, h1, h2, a, img, locA, locB, from, end, count);
  }

  /** The final arrays are the same exactly when the entries in use were. */
  lemma ArraysAgreeExactly(v: seq<byte>, g: seq<byte>, base1: nat, base2: nat, from: nat, end: nat)
    requires EntriesKept(v, g, base1, from, end) && EntriesKept(v, g, base2, from, end)
    ensures g[base1..base1 + end] == g[base2..base2 + end] <==> v[base1..base1 + from] == v[base2..base2 + from]
  {
    FinalArray(v, g, base1, from, end);
    FinalArray(v, g, base2, from, end);
    if g[base1..base1 + end] == g[base2..base2 + end] {
      assert g[base1..base1 + end][..from] == v[base1..base1 + from];
      assert g[base2..base2 + end][..from] == v[base2..base2 + from];
    }
  }

  lemma FinalArray(v: seq<byte>, g: seq<byte>, base: nat, from: nat, end: nat)
    requires EntriesKept(v, g, base, from, end)
    ensures g[base..base + end] == v[base..base + from] + Zeros(end - from)
  {
    assert g[base..base + end] == g[base..base + from] + g[base + from..base + end];
  }

  /** Their CRCs are the same exactly when those of the entries in use were. */
  lemma ArrayCrcsExactly(v: seq<byte>, g: seq<byte>, base1: nat, base2: nat, from: nat, end: nat)
    requires EntriesKept(v, g, base1, from, end) && EntriesKept(v, g, base2, from, end)
    ensures Crc(g[base1..base1 + end]) == Crc(g[base2..base2 + end])
            <==> Crc(v[base1..base1 + from]) == Crc(v[base2..base2 + from])
  {
    FinalArray(v, g, base1, from, end);
    FinalArray(v, g, base2, from, end);
    CrcTail(v[base1..base1 + from], v[base2..base2 + from], Zeros(end - from));
  }

  lemma SameInside(v: seq<byte>, f: seq<byte>, base: nat, from: nat, lo: nat, hi: nat)
    requires |f| == |v| && base + from <= |v| && lo <= hi <= from && f[base..base + from] == v[base..base + from]
    ensures f[base + lo..base + hi] == v[base + lo..base + hi]
  {
    forall j | base + lo <= j < base + hi ensures f[j] == v[j] {
      assert f[base..base + from][j - base] == v[base..base + from][j - base];
    }
  }
}
