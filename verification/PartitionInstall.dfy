/** Installing stage 2 into a GPT partition that the caller names. */
module PartitionInstall {
  import opened Bytes
  import opened UndoLog
  import opened BlockCache
  import opened DiskSession
  import opened Scripts
  import opened Installer
  import opened BootSector
  import opened Mbr
  import opened GptEmbed
  import Blocks

  /** `& ~(lb_size - 1)` */
  function RoundDown(x: nat, lb: nat): (r: nat)
    requires 0 < lb
  {
    x / lb * lb
  }

  /** The places inside a GPT partition that starts at block `start`: the second half is moved up to a block. */
  function PartitionPlaces(start: nat, lb: nat, sizeA: nat): (locs: (nat, nat))
    requires 0 < lb
    ensures locs.0 < WORD && locs.1 < WORD
  {
    Blocks.QuotientBounds(Wrap(Wrap(Wrap(start * lb) + sizeA) + lb), lb);
    var locA := Wrap(start * lb);
    var next := Wrap(locA + sizeA);
    (locA, if next % lb != 0 then RoundDown(Wrap(next + lb), lb) else next)
  }

  function CeilDiv(x: nat, lb: nat): (n: nat)
    requires 0 < lb
  {
    x / lb + if x % lb != 0 then 1 else 0
  }

  /** The second half begins at the first block that the first half leaves free. */
  lemma PartitionPlacesSpec(start: nat, lb: nat, sizeA: nat)
    requires 0 < lb && start * lb + sizeA + lb < WORD
    ensures var locs := PartitionPlaces(start, lb, sizeA);
      && locs.0 == start * lb && locs.1 == (start + CeilDiv(sizeA, lb)) * lb
      && locs.0 + sizeA <= locs.1 < locs.0 + sizeA + lb
  {
    var q, r := sizeA / lb, sizeA % lb;
    assert sizeA == q * lb + r;
    BlockSum(start, q, lb);
    BlockSum(start + q, 1, lb);
    Blocks.DivModUnique(start * lb + sizeA, lb, start + q, r);
    if r != 0 {
      Blocks.DivModUnique(start * lb + sizeA + lb, lb, start + q + 1, r);
    }
  }

  lemma BlockSum(a: nat, b: nat, lb: nat)
    ensures (a + b) * lb == a * lb + b * lb
  {
  }

  /** `x` bytes from a block boundary on end within `n` blocks exactly when they need no more. */
  lemma FitsBlocks(first: nat, x: nat, n: nat, lb: nat)
    requires 0 < lb
    ensures first * lb + x <= n * lb <==> first + CeilDiv(x, lb) <= n
  {
    var q, r := x / lb, x % lb;
    assert x == q * lb + r;
    BlockSum(first, q, lb);
    if n < first + q {
      Blocks.ProductGap(n, first + q, lb);
    } else if first + q < n {
      Blocks.ProductGap(first + q, n, lb);
    }
  }

  /** Both halves end inside the partition, whose last block is `end`. */
  predicate InPartition(start: nat, end: nat, lb: nat, imageSize: nat)
    requires Splits(imageSize) && 0 < lb
  {
    var a := SizeA(imageSize);
    var (locA, locB) := PartitionPlaces(start, lb, a);
    locA + a <= (end + 1) * lb && locB + (imageSize - SECTOR - a) <= (end + 1) * lb
  }

  /** The ending address of the entry is never looked at: the halves stay inside the partition exactly when it
      has as many blocks as the two of them need. */
  lemma InPartitionExactly(start: nat, end: nat, lb: nat, imageSize: nat)
    requires Splits(imageSize) && 0 < lb && start * lb + SizeA(imageSize) + lb < WORD
    ensures var a := SizeA(imageSize);
      InPartition(start, end, lb, imageSize)
      <==> start + CeilDiv(a, lb) + CeilDiv(imageSize - SECTOR - a, lb) <= end + 1
  {
    var a := SizeA(imageSize);
    PartitionPlacesSpec(start, lb, a);
    FitsBlocks(start + CeilDiv(a, lb), imageSize - SECTOR - a, end + 1, lb);
  }

  /** The image that the program carries needs 37 blocks of 512 bytes: it runs over the end of a partition of 36. */
  lemma SmallPartitionOverrun()
    ensures HalvesFit(IMAGE_SIZE)
    ensures !InPartition(2048, 2083, 512, IMAGE_SIZE) && InPartition(2048, 2084, 512, IMAGE_SIZE)
  {
    SplitsExactly(IMAGE_SIZE);
    InPartitionExactly(2048, 2083, 512, IMAGE_SIZE);
    InPartitionExactly(2048, 2084, 512, IMAGE_SIZE);
  }

  // ---------- the partition asked for ----------

  /** The entry of partition number `n`, counted from 0; the product has 32 bits, the address 64. */
  function NthEntry(v: seq<byte>, h1: seq<byte>, n: nat, lb: nat): (entry: seq<byte>)
    requires IsHeader(h1)
    ensures |entry| == ENTRY_SIZE
  {
    EntryAt(v, EntryPlace(h1, n, lb))
  }

  /** The numbers let through: those up to and including the count whose entry is in use. */
  predicate Accepts(v: seq<byte>, h1: seq<byte>, n: nat, lb: nat)
    requires IsHeader(h1)
  {
    n <= EntryCount(h1) && InUse(NthEntry(v, h1, n, lb))
  }

  /** The two places in the partition of an entry. */
  function PlacesIn(entry: seq<byte>, lb: nat, sizeA: nat): (locs: (nat, nat))
    requires |entry| == ENTRY_SIZE && 0 < lb
    ensures locs.0 < WORD && locs.1 < WORD
  {
    PartitionPlaces(FromLittleEndian(entry[32..40]), lb, sizeA)
  }

  function EntryPlace(h1: seq<byte>, n: nat, lb: nat): (loc: nat)
    requires IsHeader(h1)
    ensures loc < WORD
  {
    Wrap(EntryLba(h1) * lb + n * EntryBytes(h1) % 0x1_0000_0000)
  }

  /** A number that is too large ends it at once; then the entry is read, and if it is in use the boot phase follows. */
  function PartitionScript(v: seq<byte>, img: seq<byte>, h1: seq<byte>, n: nat, lb: nat): (t: Script)
    requires IsHeader(h1) && Splits(|img|) && 0 < lb
  {
    if n > EntryCount(h1) then Script([], false)
    else
      var probe := [Op.Read(EntryPlace(h1, n, lb), ENTRY_SIZE)];
      var locs := PlacesIn(NthEntry(v, h1, n, lb), lb, SizeA(|img|));
      if InUse(NthEntry(v, h1, n, lb)) then Script(probe + BootOps(v, img, locs.0, locs.1), true) else Script(probe, false)
  }

  /** The partition path of `bios_install` up to the last flush. */
  method PlaceInPartition(dev: Device, img: seq<byte>, h1: seq<byte>, n: nat, lb: nat) returns (ok: bool, go: bool)
    requires dev.Ready() && Splits(|img|) && IsHeader(h1) && 0 < lb
    modifies dev, dev.disk, dev.cache, dev.undo
    ensures dev.Ran(old(Run(dev.State(), PartitionScript(View(dev.Model()), img, h1, n, lb).ops)), ok)
    ensures dev.cache == old(dev.cache)
    ensures ok ==> go == old(PartitionScript(View(dev.Model()), img, h1, n, lb)).go
  {
    hide BootOps, DiskSession.Run, PlacesIn, BlockCache.View;
    ghost var s, v := dev.State(), View(dev.Model());
    RunNothing(s);
    if n > EntryCount(h1) {
      return true, false;
    }
    var loc := (EntryLba(h1) * lb + n * EntryBytes(h1) % 0x1_0000_0000) % WORD;
    assert loc == EntryPlace(h1, n, lb);
    ghost var locs := PlacesIn(NthEntry(v, h1, n, lb), lb, SizeA(|img|));
    RunAppend(s, [Op.Read(loc, ENTRY_SIZE)], BootOps(v, img, locs.0, locs.1));
    var entry;
    ok, entry := ReadEntry(dev, loc);
    go := InUse(entry);
    if ok && go {
      var (locA, locB) := PlacesIn(entry, lb, SizeA(|img|));
      ok := WriteStages(dev, img, locA, locB);
    }
  }

  /** The path goes on exactly for the numbers accepted. */
  lemma PartitionGoes(v: seq<byte>, img: seq<byte>, h1: seq<byte>, n: nat, lb: nat)
    requires IsHeader(h1) && Splits(|img|) && 0 < lb
    ensures PartitionScript(v, img, h1, n, lb).go <==> Accepts(v, h1, n, lb)
  {
  }

  /** It writes nine times, and is feasible exactly if the entry and the halves lie on the disk. */
  lemma PartitionFeasibleExactly(v: seq<byte>, img: seq<byte>, h1: seq<byte>, n: nat, lb: nat, used: nat)
    requires IsHeader(h1) && Splits(|img|) && 0 < lb
    ensures var t, locs := PartitionScript(v, img, h1, n, lb), PlacesIn(NthEntry(v, h1, n, lb), lb, SizeA(|img|));
      && Addressable(t.ops)
      && (t.go && Feasible(|v|, used, t.ops)
          <==> Accepts(v, h1, n, lb) && used + 9 <= LOG_MAX && EntryPlace(h1, n, lb) + ENTRY_SIZE <= |v|
               && InsideDisk(|v|, |img|, locs.0, locs.1))
  {
    hide BootOps, InsideDisk, PlacesIn, InUse, NthEntry;
    if n <= EntryCount(h1) {
      var probe := [Op.Read(EntryPlace(h1, n, lb), ENTRY_SIZE)];
      var locs := PlacesIn(NthEntry(v, h1, n, lb), lb, SizeA(|img|));
      BootOpsExactly(v, img, locs.0, locs.1, |v|);
      AllInsideAppend(|v|, probe, BootOps(v, img, locs.0, locs.1));
      WritesAppend(probe, BootOps(v, img, locs.0, locs.1));
      WritesOfWrites(probe);
      assert probe[0] == Op.Read(EntryPlace(h1, n, lb), ENTRY_SIZE);
    }
  }

  /** The contents at the end: the nine writes. */
  lemma PartitionView(v: seq<byte>, img: seq<byte>, h1: seq<byte>, n: nat, lb: nat)
    requires IsHeader(h1) && Splits(|img|) && 0 < lb && Accepts(v, h1, n, lb)
    ensures var locs := PlacesIn(NthEntry(v, h1, n, lb), lb, SizeA(|img|));
      ViewAfter(v, PartitionScript(v, img, h1, n, lb).ops) == ApplyAll(v, BootWrites(v, img, locs.0, locs.1))
  {
    hide BootOps, BootWrites, PlacesIn, InUse, NthEntry, ViewAfter;
    var locs := PlacesIn(NthEntry(v, h1, n, lb), lb, SizeA(|img|));
    var probe := [Op.Read(EntryPlace(h1, n, lb), ENTRY_SIZE)];
    ReadsKeepView(v, probe);
    ViewAfterAppend(v, probe, BootOps(v, img, locs.0, locs.1));
    BootOpsExactly(v, img, locs.0, locs.1, 0);
  }

  /** In a partition that does not start at block 0 nothing is lost: the sector leads to all of stage 2, and outside
      it and the halves everything is as before. */
  lemma PartitionInstalled(v: seq<byte>, img: seq<byte>, h1: seq<byte>, n: nat, lb: nat)
    requires IsHeader(h1) && HalvesFit(|img|) && 2 * SECTOR < |img| && SECTOR <= lb && |v| < OFFSET_LIMIT
    requires Accepts(v, h1, n, lb)
    requires var entry := NthEntry(v, h1, n, lb); var start := FromLittleEndian(entry[32..40]);
      0 < start && start * lb + SizeA(|img|) + lb < WORD
    requires var locs := PlacesIn(NthEntry(v, h1, n, lb), lb, SizeA(|img|)); InsideDisk(|v|, |img|, locs.0, locs.1)
    ensures var locs, g := PlacesIn(NthEntry(v, h1, n, lb), lb, SizeA(|img|)), ViewAfter(v, PartitionScript(v, img, h1, n, lb).ops);
      SectorInstalled(v, g, img, locs.0, locs.1) && BootRestKept(v, g, |img|, locs.0, locs.1)
  {
    hide BootWrites, SectorInstalled, BootRestKept, InUse, NthEntry, ViewAfter, PartitionScript;
    var start := FromLittleEndian(NthEntry(v, h1, n, lb)[32..40]);
    PartitionView(v, img, h1, n, lb);
    EmptyHalfExactly(|img|);
    PartitionPlacesSpec(start, lb, SizeA(|img|));
    MulLess(1, start, lb);
    var locs := PlacesIn(NthEntry(v, h1, n, lb), lb, SizeA(|img|));
    BootInstalled(v, img, locs.0, locs.1);
  }

  /** An entry that starts at block 0 puts the first half over the boot sector, whose code is then the beginning of
      stage 2. */
  lemma BlockZeroOverSector(v: seq<byte>, img: seq<byte>, h1: seq<byte>, n: nat, lb: nat)
    requires IsHeader(h1) && Splits(|img|) && SECTOR <= SizeA(|img|) <= |v| && SECTOR <= lb < OFFSET_LIMIT
    requires Accepts(v, h1, n, lb) && FromLittleEndian(NthEntry(v, h1, n, lb)[32..40]) == 0
    ensures CodeIsStage2(ViewAfter(v, PartitionScript(v, img, h1, n, lb).ops), img)
  {
    hide BootWrites, InUse, NthEntry, ViewAfter, PartitionScript, CodeIsStage2, SizeA;
    Sizes16(|img|);
    PartitionView(v, img, h1, n, lb);
    PartitionPlacesSpec(0, lb, SizeA(|img|));
    HalfOverSector(v, img, PlacesIn(NthEntry(v, h1, n, lb), lb, SizeA(|img|)).1);
  }
}
