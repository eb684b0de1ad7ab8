/** Installing stage 2 behind the partition arrays of a GPT. */
module GptInstall {
  import opened Bytes
  import opened UndoLog
  import opened BlockCache
  import opened DiskSession
  import opened Scripts
  import opened Installer
  import opened BootSector
  import opened Mbr
  import opened GptEmbed
  import opened GptPlan
  import opened GptFinal

  /** The embedding, and the boot phase with the places it chose. */
  function GptScript(v: seq<byte>, h1: seq<byte>, h2: seq<byte>, lb: nat, img: seq<byte>): (t: Script)
    requires Computable(h1, h2, lb, |img|)
  {
    var p := PlacementOf(h1, h2, lb, |img|);
    var e := EmbedScript(v, h1, h2, lb, p.count);
    Then(e, Script(BootOps(ViewAfter(v, e.ops), img, p.locA, p.locB), true))
  }

  /** The GPT path of `bios_install` up to the last flush; `go` unless an entry in use would be cut off. */
  method PlaceOnGpt(dev: Device, img: seq<byte>, h1: seq<byte>, h2: seq<byte>, lb: nat) returns (ok: bool, go: bool)
    requires dev.Ready() && Computable(h1, h2, lb, |img|)
    modifies dev, dev.disk, dev.cache, dev.undo
    ensures dev.Ran(old(Run(dev.State(), GptScript(View(dev.Model()), h1, h2, lb, img).ops)), ok) && dev.cache == old(dev.cache)
    ensures ok ==> go == old(GptScript(View(dev.Model()), h1, h2, lb, img)).go
  {
    hide EmbedScript, BootOps, DiskSession.Run, PlacementOf;
    ghost var s, v := dev.State(), View(dev.Model());
    var r, p := Embed(dev, h1, h2, lb, |img|);
    ghost var e := EmbedScript(v, h1, h2, lb, p.count);
    RunAppend(s, e.ops, BootOps(ViewAfter(v, e.ops), img, p.locA, p.locB));
    EmbedAddressable(v, h1, h2, lb, p.count);
    RunEffect(s, e.ops);
    match r {
      case Failed => ok, go := false, false;
      case Refused => ok, go := true, false;
      case Embedded =>
        ok := WriteStages(dev, img, p.locA, p.locB);
        go := true;
    }
  }

  lemma EmbedAddressable(v: seq<byte>, h1: seq<byte>, h2: seq<byte>, lb: nat, count: nat)
    requires IsHeader(h1) && IsHeader(h2) && count < WORD && lb < WORD
    ensures Addressable(EmbedScript(v, h1, h2, lb, count).ops)
  {
    hide ScanOps, ClearOps, LastOf, ArrayAt, ArrayBytes, UpdatedHeader, Crc, TableOf, EntryBytes, EntryCount, AlternateLba, Wrap;
    ScanExactly(0, ArrayAt(h1, lb), EntryBytes(h1), EntryCount(h1));
    if !CutsOff(v, h1, lb, count) {
      var from := LastOf(v, h1, lb) + 1;
      var crc := Crc(TableOf(v, h1, h2, lb, from, count));
      ClearAddressable(h1, h2, lb, from, count);
      Addresses(ScanOps(ArrayAt(h1, lb), EntryBytes(h1), EntryCount(h1)), ClearOps(h1, h2, lb, from, count),
                [Op.Read(ArrayAt(h1, lb), ArrayBytes(h1, count))] + HeaderOps(h1, h2, lb, count, crc));
    }
  }

  lemma Addresses(a: seq<Op>, b: seq<Op>, c: seq<Op>)
    requires Addressable(a) && Addressable(b) && Addressable(c)
    ensures Addressable(a + (b + c))
  {
  }

  /** The bytes of the first `count` entries. */
  function TableBytes(h: seq<byte>, count: nat): (n: nat)
    requires IsHeader(h)
  {
    count * EntryBytes(h)
  }

  /** Where the entries after the last used one begin. */
  function UsedBytes(v: seq<byte>, h1: seq<byte>, lb: nat): (n: nat)
    requires IsHeader(h1)
  {
    var used: nat := LastOf(v, h1, lb) + 1;
    TableBytes(h1, used)
  }

  /** The result of the GPT path, on a disk that showed `v`. */
  ghost predicate GptOutcome(v: seq<byte>, g: seq<byte>, h1: seq<byte>, h2: seq<byte>, lb: nat, img: seq<byte>)
    requires EmbedInput(h1, h2, lb, |img|)
  {
    var p := PlacementOf(h1, h2, lb, |img|);
    GptInstalled(v, g, h1, h2, AreasOf(h1, h2, lb), img, p.locA, p.locB,
                 UsedBytes(v, h1, lb), TableBytes(h1, p.count), p.count)
  }

  /** In sensible tables, and without an entry that would be cut off, the path leads to the final disk described by
      `GptInstalled`. */
  lemma GptScriptSpec(v: seq<byte>, h1: seq<byte>, h2: seq<byte>, lb: nat, img: seq<byte>)
    requires EmbedInput(h1, h2, lb, |img|) && AreasInside(|v|, AreasOf(h1, h2, lb)) && |v| < OFFSET_LIMIT
    requires GptScript(v, h1, h2, lb, img).go
    ensures GptOutcome(v, ViewAfter(v, GptScript(v, h1, h2, lb, img).ops), h1, h2, lb, img)
  {
    hide GptInstalled, BeforeBoot, BootOps, BootWrites, EmbedScript, PlacementOf, UsedBytes, TableBytes, HalvesPlaced, ViewAfter;
    var p, a := PlacementOf(h1, h2, lb, |img|), AreasOf(h1, h2, lb);
    var start, end := UsedBytes(v, h1, lb), TableBytes(h1, p.count);
    GoesOn(v, h1, lb, p.count, h2);
    var f := GptBeforeBoot(v, h1, h2, lb, |img|);
    var e := EmbedScript(v, h1, h2, lb, p.count);
    BootView(v, e.ops, f, img, p.locA, p.locB);
    GptInstallSpec(v, f, h1, h2, a, img, p.locA, p.locB, start, end, p.count);
  }

  lemma GoesOn(v: seq<byte>, h1: seq<byte>, lb: nat, count: nat, h2: seq<byte>)
    requires IsHeader(h1) && IsHeader(h2) && count < WORD
    ensures EmbedScript(v, h1, h2, lb, count).go <==> !CutsOff(v, h1, lb, count)
  {
  }

  lemma BootView(v: seq<byte>, ops: seq<Op>, f: seq<byte>, img: seq<byte>, locA: nat, locB: nat)
    requires f == ViewAfter(v, ops) && Splits(|img|) && locA < WORD && locB < WORD
    ensures ViewAfter(v, ops + BootOps(f, img, locA, locB)) == ApplyAll(f, BootWrites(f, img, locA, locB))
  {
    hide BootOps, BootWrites;
    ViewAfterAppend(v, ops, BootOps(f, img, locA, locB));
    BootOpsExactly(f, img, locA, locB, 0);
  }

  /** Before the boot phase everything is in place for it. */
  lemma GptBeforeBoot(v: seq<byte>, h1: seq<byte>, h2: seq<byte>, lb: nat, imageSize: nat) returns (f: seq<byte>)
    requires EmbedInput(h1, h2, lb, imageSize) && AreasInside(|v|, AreasOf(h1, h2, lb)) && |v| < OFFSET_LIMIT
    requires !CutsOff(v, h1, lb, PlacementOf(h1, h2, lb, imageSize).count)
    ensures var p, a := PlacementOf(h1, h2, lb, imageSize), AreasOf(h1, h2, lb);
      && f == ViewAfter(v, EmbedScript(v, h1, h2, lb, p.count).ops) && SECTOR <= |f|
      && BeforeBoot(v, f, h1, h2, a, UsedBytes(v, h1, lb), TableBytes(h1, p.count), p.count)
      && HalvesPlaced(a, TableBytes(h1, p.count), imageSize, p.locA, p.locB)
  {
    hide PlacementOf, EmbedScript, BeforeBoot, HalvesPlaced, UsedBytes, NewCount;
    var p := PlacementOf(h1, h2, lb, imageSize);
    PlacementFits(h1, h2, lb, imageSize);
    SmallCount(lb, EntryBytes(h1), SizeA(imageSize));
    HalvesInAreas(h1, h2, lb, imageSize, p);
    f := GptEmbedded(v, h1, h2, lb, imageSize, p.count, UsedBytes(v, h1, lb), TableBytes(h1, p.count));
  }

  /** The contents after the embedding. */
  lemma GptEmbedded(v: seq<byte>, h1: seq<byte>, h2: seq<byte>, lb: nat, imageSize: nat, count: nat, start: nat, end: nat)
    returns (f: seq<byte>)
    requires EmbedInput(h1, h2, lb, imageSize) && AreasInside(|v|, AreasOf(h1, h2, lb)) && |v| < OFFSET_LIMIT
    requires count < WORD && !CutsOff(v, h1, lb, count) && start == UsedBytes(v, h1, lb) && end == TableBytes(h1, count)
    requires end <= ARRAY_BLOCKS * lb && count <= ARRAY_BLOCKS * 4096
    ensures f == ViewAfter(v, EmbedScript(v, h1, h2, lb, count).ops) && SECTOR <= |f|
    ensures BeforeBoot(v, f, h1, h2, AreasOf(h1, h2, lb), start, end, count)
  {
    hide EmbeddedView, EmbedOps, LastOf;
    f := ViewAfter(v, EmbedScript(v, h1, h2, lb, count).ops);
    var from := LastOf(v, h1, lb) + 1;
    var base := ArrayAt(h1, lb);
    ScanKeepsView(v, base, EntryBytes(h1), EntryCount(h1));
    ViewAfterAppend(v, ScanOps(base, EntryBytes(h1), EntryCount(h1)), EmbedOps(v, h1, h2, lb, from, count));
    EmbedEffect(v, h1, h2, lb, imageSize, from, count, start, end);
  }

  // ---------- when it is feasible ----------

  /** In sensible tables the path writes twice for each unused entry that stays and eleven times besides, and
      everything but the scan is sure to lie inside the disk. */
  lemma GptFeasibleExactly(v: seq<byte>, h1: seq<byte>, h2: seq<byte>, lb: nat, img: seq<byte>, used: nat)
    requires EmbedInput(h1, h2, lb, |img|) && AreasInside(|v|, AreasOf(h1, h2, lb)) && |v| < OFFSET_LIMIT
    ensures var t, last, count := GptScript(v, h1, h2, lb, img), LastOf(v, h1, lb), NewCount(lb, EntryBytes(h1), SizeA(|img|));
      && Addressable(t.ops)
      && (t.go && Feasible(|v|, used, t.ops)
          <==> last < count && used + 2 * (count - last - 1) + 11 <= LOG_MAX
               && EntriesInside(|v|, EntryLba(h1) * lb, EntryBytes(h1), EntryCount(h1)))
  {
    hide BootOps, EmbedOps, ScanOps, PlacementOf, LastOf, InsideDisk, NewCount, EntriesInside, AllInside, EntryLba;
    var p, n := PlacementOf(h1, h2, lb, |img|), EntryBytes(h1);
    PlacementFits(h1, h2, lb, |img|);
    SmallCount(lb, n, SizeA(|img|));
    EmbedAddressable(v, h1, h2, lb, p.count);
    var scan := ScanOps(ArrayAt(h1, lb), n, EntryCount(h1));
    ScanExactly(|v|, ArrayAt(h1, lb), n, EntryCount(h1));
    if !CutsOff(v, h1, lb, p.count) {
      var from := LastOf(v, h1, lb) + 1;
      var embed := EmbedOps(v, h1, h2, lb, from, p.count);
      var boot := BootOps(ViewAfter(v, scan + embed), img, p.locA, p.locB);
      EmbedOpsInside(v, h1, h2, lb, |img|, from, p.count, |v|);
      PlacedBoot(v, ViewAfter(v, scan + embed), h1, h2, lb, img);
      ThreeParts(|v|, scan, embed, boot);
    }
  }

  lemma PlacedBoot(v: seq<byte>, f: seq<byte>, h1: seq<byte>, h2: seq<byte>, lb: nat, img: seq<byte>)
    requires EmbedInput(h1, h2, lb, |img|) && AreasInside(|v|, AreasOf(h1, h2, lb))
    ensures var p := PlacementOf(h1, h2, lb, |img|); var boot := BootOps(f, img, p.locA, p.locB);
      AllInside(|v|, boot) && Addressable(boot) && Writes(boot) == 9
  {
    hide BootOps, PlacementOf, HalvesPlaced, InsideDisk, EmbedInput, AreasInside, TableBytes, AreasOf;
    AreasHoldSector(|v|, h1, h2, lb, |img|);
    var p, a := PlacementOf(h1, h2, lb, |img|), AreasOf(h1, h2, lb);
    HalvesPlacedFor(h1, h2, lb, |img|);
    BootOpsExactly(f, img, p.locA, p.locB, |v|);
    PlacedInside(|v|, a, TableBytes(h1, p.count), |img|, p.locA, p.locB);
  }

  lemma AreasHoldSector(size: nat, h1: seq<byte>, h2: seq<byte>, lb: nat, imageSize: nat)
    requires EmbedInput(h1, h2, lb, imageSize) && AreasInside(size, AreasOf(h1, h2, lb))
    ensures SECTOR <= size && HalvesFit(imageSize) && Computable(h1, h2, lb, imageSize)
  {
  }

  lemma HalvesPlacedFor(h1: seq<byte>, h2: seq<byte>, lb: nat, imageSize: nat)
    requires EmbedInput(h1, h2, lb, imageSize)
    ensures var p := PlacementOf(h1, h2, lb, imageSize);
      HalvesPlaced(AreasOf(h1, h2, lb), TableBytes(h1, p.count), imageSize, p.locA, p.locB)
  {
    hide PlacementOf, HalvesPlaced;
    PlacementFits(h1, h2, lb, imageSize);
    HalvesInAreas(h1, h2, lb, imageSize, PlacementOf(h1, h2, lb, imageSize));
  }

  lemma PlacedInside(size: nat, a: Areas, end: nat, imageSize: nat, locA: nat, locB: nat)
    requires HalvesFit(imageSize) && HalvesPlaced(a, end, imageSize, locA, locB) && AreasInside(size, a) && SECTOR <= size
    ensures InsideDisk(size, imageSize, locA, locB)
  {
  }

  lemma ThreeParts(size: nat, a: seq<Op>, b: seq<Op>, c: seq<Op>)
    ensures AllInside(size, a + b + c) <==> AllInside(size, a) && AllInside(size, b) && AllInside(size, c)
    ensures Writes(a + b + c) == Writes(a) + Writes(b) + Writes(c)
    ensures Addressable(a + b) && Addressable(c) ==> Addressable(a + b + c)
  {
    AllInsideAppend(size, a + b, c);
    AllInsideAppend(size, a, b);
    WritesAppend(a + b, c);
    WritesAppend(a, b);
  }

  /** The image the program carries, entries of 128 bytes: with blocks of 512 bytes the log is always large enough;
      with blocks of 4096 bytes only if the last used entry has number 805 or a higher one. */
  lemma CarriedImage(last: int)
    requires -1 <= last
    ensures NewCount(512, 128, SizeA(IMAGE_SIZE)) == 52 && NewCount(4096, 128, SizeA(IMAGE_SIZE)) == 928
    ensures 2 * (52 - last - 1) + 11 <= LOG_MAX
    ensures 2 * (928 - last - 1) + 11 <= LOG_MAX <==> 805 <= last
  {
    SplitsExactly(IMAGE_SIZE);
  }

  /** The usual layout of blocks of 4096 bytes: the secondary array takes four blocks and its header the last one. The
      second half would lie behind the end of the disk, so such an install is never feasible. */
  lemma Usual4096Infeasible(v: seq<byte>, h1: seq<byte>, h2: seq<byte>, img: seq<byte>, used: nat)
    requires Computable(h1, h2, 4096, |img|) && |img| == IMAGE_SIZE && |v| < OFFSET_LIMIT
    requires EntryLba(h2) + 4 == AlternateLba(h1) && (AlternateLba(h1) + 1) * 4096 == |v|
    ensures var t := GptScript(v, h1, h2, 4096, img); !(t.go && Feasible(|v|, used, t.ops))
  {
    hide BootOps, EmbedScript, EntryLba, AlternateLba, SizeA, SizeB;
    var p := PlacementOf(h1, h2, 4096, |img|);
    var e := EmbedScript(v, h1, h2, 4096, p.count);
    SplitsExactly(|img|);
    SecondHalfAt(EntryLba(h2), SizeB(|img|), |img|);
    var boot := BootOps(ViewAfter(v, e.ops), img, p.locA, p.locB);
    BootOpsExactly(ViewAfter(v, e.ops), img, p.locA, p.locB, |v|);
    AllInsideAppend(|v|, e.ops, boot);
  }

  lemma SecondHalfAt(first: nat, size: nat, imageSize: nat)
    requires imageSize == IMAGE_SIZE && size == SizeB(imageSize) && first * 4096 + ARRAY_BLOCKS * 4096 < WORD
    ensures size == 9216 && PlaceBack(first, 4096, size) == (first + 29) * 4096
  {
    PlaceInArea(first, 4096, size);
  }

  // ---------- the tables on the final disk ----------

  ghost predicate BytesKept(v: seq<byte>, g: seq<byte>, at: nat, size: nat) {
    |g| == |v| && at + size <= |v| && g[at..at + size] == v[at..at + size]
  }

  /** Entry `k` of the array at `base` has all its bytes as before. */
  ghost predicate EntryKept(v: seq<byte>, g: seq<byte>, base: nat, size: nat, k: nat) {
    BytesKept(v, g, base + k * size, size)
  }

  /** A used entry ends before the last used one does. */
  lemma UsedInside(v: seq<byte>, base: nat, size: nat, n: nat, k: nat)
    requires k < n && UsedAt(v, base, size, k)
    ensures k * size + size <= (LastUsed(v, base, size, n) + 1) * size
  {
    hide UsedAt;
    LastUsedSpec(v, base, size, n);
    MulLess(k + 1, LastUsed(v, base, size, n) + 1, size);
    MulNext(k, size);
  }

  lemma KeptEntry(v: seq<byte>, g: seq<byte>, base: nat, from: nat, end: nat, size: nat, k: nat)
    requires EntriesKept(v, g, base, from, end) && k * size + size <= from
    ensures EntryKept(v, g, base, size, k)
  {
    var lo := k * size;
    SameInside(v, g, base, from, lo, lo + size);
  }

  /** No used entry changes in either array: each keeps all its bytes. */
  lemma UsedEntriesKept(v: seq<byte>, g: seq<byte>, h1: seq<byte>, h2: seq<byte>, lb: nat, img: seq<byte>, k: nat)
    requires EmbedInput(h1, h2, lb, |img|) && GptOutcome(v, g, h1, h2, lb, img)
    requires k < EntryCount(h1) && UsedAt(v, EntryLba(h1) * lb, EntryBytes(h1), k)
    ensures var size, a := EntryBytes(h1), AreasOf(h1, h2, lb);
      EntryKept(v, g, a.base1, size, k) && EntryKept(v, g, a.base2, size, k)
  {
    hide UsedAt, SectorInstalled, RestKept, EntryKept, RenewedAt, EntriesKept, LastUsed, PlacementOf;
    var size, a, from := EntryBytes(h1), AreasOf(h1, h2, lb), UsedBytes(v, h1, lb);
    var end := TableBytes(h1, PlacementOf(h1, h2, lb, |img|).count);
    UsedInside(v, a.base1, size, EntryCount(h1), k);
    KeptEntry(v, g, a.base1, from, end, size, k);
    KeptEntry(v, g, a.base2, from, end, size, k);
  }

  /** The table of header `h` and the array at `base` agree on their checksum. */
  ghost predicate TableSound(g: seq<byte>, header: nat, h: seq<byte>, base: nat, end: nat, count: nat) {
    base + end <= |g| && RenewedAt(g, header, h, g[base..base + end], count)
  }

  /** After an install the primary table is sound; the secondary one, whose header has the same checksum, exactly if
      the entries in use had the same CRC in both arrays before. */
  lemma BothTablesSound(v: seq<byte>, g: seq<byte>, h1: seq<byte>, h2: seq<byte>, lb: nat, img: seq<byte>)
    requires EmbedInput(h1, h2, lb, |img|) && GptOutcome(v, g, h1, h2, lb, img)
    ensures var a, p, n := AreasOf(h1, h2, lb), PlacementOf(h1, h2, lb, |img|), UsedBytes(v, h1, lb);
      var end := TableBytes(h1, p.count);
      && TableSound(g, a.lb, h1, a.base1, end, p.count)
      && a.base1 + n <= |v| && a.base2 + n <= |v|
      && (TableSound(g, a.header2, h2, a.base2, end, p.count) <==> Crc(v[a.base1..a.base1 + n]) == Crc(v[a.base2..a.base2 + n]))
  {
    hide SectorInstalled, RestKept, PlacementOf, UsedBytes, TableBytes, TableSound, RenewedAt, EntriesKept, Crc;
    var a, n, p := AreasOf(h1, h2, lb), UsedBytes(v, h1, lb), PlacementOf(h1, h2, lb, |img|);
    PrimarySound(v, g, h1, a, n, TableBytes(h1, p.count), p.count);
    SecondarySound(v, g, h2, a, n, TableBytes(h1, p.count), p.count);
  }

  lemma PrimarySound(v: seq<byte>, g: seq<byte>, h1: seq<byte>, a: Areas, from: nat, end: nat, count: nat)
    requires EntriesKept(v, g, a.base1, from, end) && RenewedAt(g, a.lb, h1, g[a.base1..a.base1 + end], count)
    ensures TableSound(g, a.lb, h1, a.base1, end, count)
  {
  }

  lemma SecondarySound(v: seq<byte>, g: seq<byte>, h2: seq<byte>, a: Areas, from: nat, end: nat, count: nat)
    requires EntriesKept(v, g, a.base1, from, end) && EntriesKept(v, g, a.base2, from, end)
    requires RenewedAt(g, a.header2, h2, g[a.base1..a.base1 + end], count)
    ensures a.base1 + from <= |v| && a.base2 + from <= |v|
    ensures TableSound(g, a.header2, h2, a.base2, end, count)
            <==> Crc(v[a.base1..a.base1 + from]) == Crc(v[a.base2..a.base2 + from])
  {
    hide Crc;
    ArrayCrcsExactly(v, g, a.base1, a.base2, from, end);
  }

  /** One byte of difference in the entries in use leaves the secondary table with a checksum that is wrong. */
  lemma OneByteUnsound(v: seq<byte>, g: seq<byte>, h1: seq<byte>, h2: seq<byte>, lb: nat, img: seq<byte>, i: nat, c: byte)
    requires EmbedInput(h1, h2, lb, |img|) && GptOutcome(v, g, h1, h2, lb, img)
    requires var a, n := AreasOf(h1, h2, lb), UsedBytes(v, h1, lb);
      && a.base1 + n <= |v| && a.base2 + n <= |v| && i < n && c != v[a.base1..a.base1 + n][i]
      && v[a.base2..a.base2 + n] == v[a.base1..a.base1 + n][i := c]
    ensures var a, p := AreasOf(h1, h2, lb), PlacementOf(h1, h2, lb, |img|);
      !TableSound(g, a.header2, h2, a.base2, TableBytes(h1, p.count), p.count)
  {
    hide GptOutcome, UsedBytes, TableSound, Crc, PlacementOf;
    var a, n := AreasOf(h1, h2, lb), UsedBytes(v, h1, lb);
    BothTablesSound(v, g, h1, h2, lb, img);
    ByteChangesCrc(v[a.base1..a.base1 + n], i, c);
  }

  // ---------- the blocks of partitions ----------

  /** The stretches `[lo, hi)` and `[x, y)` have no address in common. */
  predicate Apart(lo: nat, hi: nat, x: nat, y: nat) {
    hi <= lo || y <= x || hi <= x || y <= lo
  }

  predicate In(x: nat, y: nat, q: nat) {
    x <= q < y
  }

  lemma ApartExactly(lo: nat, hi: nat, x: nat, y: nat)
    ensures Apart(lo, hi, x, y) <==> forall q: nat :: In(lo, hi, q) ==> !In(x, y, q)
  {
    if !Apart(lo, hi, x, y) {
      var q := if lo < x then x else lo;
      assert In(lo, hi, q) && In(x, y, q);
    }
  }

  /** The seven places that an install writes: the boot sector, both headers, the unused entries that stay in both
      arrays, and the halves. */
  function Places(a: Areas, imageSize: nat, locA: nat, locB: nat, from: nat, end: nat): (s: seq<(nat, nat)>)
    requires Splits(imageSize)
    ensures |s| == 7
  {
    [ (0, SECTOR), (a.lb, a.lb + HEADER_SIZE), (a.header2, a.header2 + HEADER_SIZE),
      (a.base1 + from, a.base1 + end), (a.base2 + from, a.base2 + end),
      (locA, locA + SizeA(imageSize)), (locB, locB + (imageSize - SECTOR - SizeA(imageSize))) ]
  }

  predicate InSome(s: seq<(nat, nat)>, q: nat) {
    exists k :: 0 <= k < |s| && In(s[k].0, s[k].1, q)
  }

  lemma TouchedPlaces(a: Areas, imageSize: nat, locA: nat, locB: nat, from: nat, end: nat, q: nat)
    requires Splits(imageSize)
    ensures Touched(a, imageSize, locA, locB, from, end, q) <==> InSome(Places(a, imageSize, locA, locB, from, end), q)
  {
    hide SizeA;
    var s := Places(a, imageSize, locA, locB, from, end);
    if Touched(a, imageSize, locA, locB, from, end, q) {
      assert In(s[0].0, s[0].1, q) || In(s[1].0, s[1].1, q) || In(s[2].0, s[2].1, q) || In(s[3].0, s[3].1, q)
          || In(s[4].0, s[4].1, q) || In(s[5].0, s[5].1, q) || In(s[6].0, s[6].1, q);
    }
  }

  /** The stretch is apart from every one of them. */
  predicate ClearOf(s: seq<(nat, nat)>, lo: nat, hi: nat) {
    forall k :: 0 <= k < |s| ==> Apart(lo, hi, s[k].0, s[k].1)
  }

  lemma ClearExactly(s: seq<(nat, nat)>, lo: nat, hi: nat)
    ensures ClearOf(s, lo, hi) <==> forall q: nat :: In(lo, hi, q) ==> !InSome(s, q)
  {
    hide Apart, In;
    if ClearOf(s, lo, hi) {
      forall q: nat | In(lo, hi, q) ensures !InSome(s, q) {
        forall k | 0 <= k < |s| ensures !In(s[k].0, s[k].1, q) {
          ApartExactly(lo, hi, s[k].0, s[k].1);
        }
      }
    }
    if forall q: nat :: In(lo, hi, q) ==> !InSome(s, q) {
      forall k | 0 <= k < |s| ensures Apart(lo, hi, s[k].0, s[k].1) {
        ApartExactly(lo, hi, s[k].0, s[k].1);
      }
    }
  }

  /** Neither `first_usable_lba` nor the entries are looked at: no byte of the blocks `[first, last]` of a partition
      is written exactly if they are apart from all seven places. */
  lemma BlocksUntouchedExactly(a: Areas, imageSize: nat, locA: nat, locB: nat, from: nat, end: nat, lo: nat, hi: nat)
    requires Splits(imageSize)
    ensures ClearOf(Places(a, imageSize, locA, locB, from, end), lo, hi)
            <==> forall q: nat :: In(lo, hi, q) ==> !Touched(a, imageSize, locA, locB, from, end, q)
  {
    hide Touched, In;
    var s := Places(a, imageSize, locA, locB, from, end);
    ClearExactly(s, lo, hi);
    forall q: nat ensures Touched(a, imageSize, locA, locB, from, end, q) <==> InSome(s, q) {
      TouchedPlaces(a, imageSize, locA, locB, from, end, q);
    }
  }

  /** A partition behind the primary area and in front of the secondary one is left alone. */
  lemma UsualPartitionUntouched(a: Areas, imageSize: nat, locA: nat, locB: nat, from: nat, end: nat, lo: nat, hi: nat)
    requires HalvesFit(imageSize) && HalvesPlaced(a, end, imageSize, locA, locB) && from <= end <= ARRAY_BLOCKS * a.lb
    requires Geometry(a.lb, a.base1, a.base2, a.header2) && a.base1 + ARRAY_BLOCKS * a.lb <= lo
    requires hi <= a.base2 && hi <= a.header2
    ensures ClearOf(Places(a, imageSize, locA, locB, from, end), lo, hi)
  {
  }

  /** Blocks of 512 bytes, an array of 16 entries in blocks 2 to 5 and a partition from block 6 on, the image that the
      program carries: the first half goes to blocks 15 to 33, into the partition. */
  lemma SmallTableOverwritten(a: Areas, from: nat, end: nat, hi: nat)
    requires a.lb == 512 && a.base1 == 1024 && from <= end && 17408 <= hi
    requires a.base1 + KeptBytes(512, SizeA(IMAGE_SIZE)) <= a.base2
    ensures var locA, locB := a.base1 + KeptBytes(512, SizeA(IMAGE_SIZE)), a.base2 + KeptBytes(512, SizeB(IMAGE_SIZE));
      && locA == 15 * 512 && locA + SizeA(IMAGE_SIZE) == 34 * 512
      && HalvesFit(IMAGE_SIZE) && !ClearOf(Places(a, IMAGE_SIZE, locA, locB, from, end), 6 * 512, hi)
  {
    SplitsExactly(IMAGE_SIZE);
    var locA, locB := a.base1 + KeptBytes(512, SizeA(IMAGE_SIZE)), a.base2 + KeptBytes(512, SizeB(IMAGE_SIZE));
    var s := Places(a, IMAGE_SIZE, locA, locB, from, end);
    assert !Apart(6 * 512, hi, s[5].0, s[5].1);
  }
}
