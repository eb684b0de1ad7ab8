/** Writing the boot sector and the two halves of stage 2, and patching their places into the sector. */
module BootSector {
  import opened Bytes
  import opened UndoLog
  import opened BlockCache
  import opened DiskSession
  import opened Scripts
  import opened Installer

  const SECTOR: nat := 512

  function Stage2Sectors(imageSize: nat): nat
    requires SECTOR <= imageSize
  {
    (imageSize - SECTOR + 511) / SECTOR
  }

  /** `uint16_t stage2_size_a`: the larger half, cut off at 16 bits. */
  function SizeA(imageSize: nat): nat
    requires SECTOR <= imageSize
  {
    var sects := Stage2Sectors(imageSize);
    (sects / 2 * SECTOR + if sects % 2 != 0 then SECTOR else 0) % 65536
  }

  function SizeB(imageSize: nat): nat
    requires SECTOR <= imageSize
  {
    Stage2Sectors(imageSize) / 2 * SECTOR % 65536
  }

  /** The first half lies inside the image: otherwise the program reads behind it. */
  predicate Splits(imageSize: nat) {
    SECTOR <= imageSize && SizeA(imageSize) <= imageSize - SECTOR
  }

  /** And the rest is no larger than the second half claims. */
  predicate HalvesFit(imageSize: nat) {
    Splits(imageSize) && imageSize - SECTOR - SizeA(imageSize) <= SizeB(imageSize)
  }

  /** The size of the image that the program carries. */
  const IMAGE_SIZE: nat := 19150

  lemma SplitsExactly(imageSize: nat)
    requires SECTOR <= imageSize
    ensures Splits(imageSize) <==> imageSize == SECTOR || 2 * SECTOR <= imageSize
    ensures HalvesFit(IMAGE_SIZE) && SizeA(IMAGE_SIZE) == 9728 && IMAGE_SIZE - SECTOR - 9728 == 8910
  {
  }

  /** Which images the split is right for: no stage 2, exactly one sector, or two to 254 sectors. */
  lemma HalvesFitExactly(imageSize: nat)
    requires SECTOR <= imageSize
    ensures HalvesFit(imageSize) <==>
              var stage2 := imageSize - SECTOR;
              stage2 == 0 || stage2 == 512 || 512 < stage2 <= 254 * 512
  {
  }

  /** An empty half is written, and so an empty log entry made, exactly for images of at most one stage-2 sector. */
  lemma EmptyHalfExactly(imageSize: nat)
    requires HalvesFit(imageSize)
    ensures SizeA(imageSize) == 0 || imageSize - SECTOR - SizeA(imageSize) == 0 <==> imageSize <= 2 * SECTOR
  {
  }

  /** What the boot code reads out of its own sector. */
  datatype Stages = Stages(sizeA: nat, sizeB: nat, locA: nat, locB: nat)

  function ImageWrites(img: seq<byte>, locA: nat, locB: nat): (w: seq<Extent>)
    requires Splits(|img|)
  {
    var a := SizeA(|img|);
    [Extent(0, img[..SECTOR]), Extent(locA, img[SECTOR..SECTOR + a]), Extent(locB, img[SECTOR + a..])]
  }

  function PlaceWrites(s: Stages): (w: seq<Extent>) {
    [ Extent(0x1a4, LittleEndian(s.sizeA, 2)), Extent(0x1a4 + 2, LittleEndian(s.sizeB, 2)),
      Extent(0x1a4 + 4, LittleEndian(s.locA, 8)), Extent(0x1a4 + 12, LittleEndian(s.locB, 8)) ]
  }

  function SavedWrites(stamp: seq<byte>, table: seq<byte>): (w: seq<Extent>) {
    [Extent(218, stamp), Extent(440, table)]
  }

  /** The writes of the final phase, in order, on a disk that shows `v`. */
  function BootWrites(v: seq<byte>, img: seq<byte>, locA: nat, locB: nat): (w: seq<Extent>)
    requires Splits(|img|)
    ensures |w| == 9
  {
    ImageWrites(img, locA, locB) + PlaceWrites(Stages(SizeA(|img|), SizeB(|img|), locA, locB))
    + SavedWrites(Slice(v, 218, 6), Slice(v, 440, 70))
  }

  lemma BootInParts(v: seq<byte>, img: seq<byte>, locA: nat, locB: nat)
    requires Splits(|img|)
    ensures var s := Stages(SizeA(|img|), SizeB(|img|), locA, locB);
      ApplyAll(v, BootWrites(v, img, locA, locB))
      == ApplyAll(ApplyAll(ApplyAll(v, ImageWrites(img, locA, locB)), PlaceWrites(s)),
                  SavedWrites(Slice(v, 218, 6), Slice(v, 440, 70)))
  {
    var i, p := ImageWrites(img, locA, locB), PlaceWrites(Stages(SizeA(|img|), SizeB(|img|), locA, locB));
    ApplyAllAppend(v, i + p, SavedWrites(Slice(v, 218, 6), Slice(v, 440, 70)));
    ApplyAllAppend(v, i, p);
  }

  /** Whatever is not empty was written inside the disk. */
  predicate InsideDisk(size: nat, imageSize: nat, locA: nat, locB: nat)
    requires Splits(imageSize)
  {
    var a := SizeA(imageSize);
    var rest := imageSize - SECTOR - a;
    SECTOR <= size && (0 < a ==> locA + a <= size) && (0 < rest ==> locB + rest <= size)
  }

  /** Where the halves may go: inside the disk, behind the boot sector, apart from each other. */
  ghost predicate PlacesApart(size: nat, imageSize: nat, locA: nat, locB: nat)
    requires Splits(imageSize)
  {
    var a := SizeA(imageSize);
    var rest := imageSize - SECTOR - a;
    && SECTOR <= locA && locA + a <= size && SECTOR <= locB && locB + rest <= size && size < OFFSET_LIMIT
    && (locA + a <= locB || locB + rest <= locA)
  }

  predicate ApartFromHalves(imageSize: nat, locA: nat, locB: nat, lo: nat, hi: nat)
    requires Splits(imageSize)
  {
    && (locA + SizeA(imageSize) <= lo || hi <= locA)
    && (locB + (imageSize - SECTOR - SizeA(imageSize)) <= lo || hi <= locB)
  }

  /** Nothing outside the boot sector and the two halves changes. */
  lemma BootOutside(v: seq<byte>, img: seq<byte>, locA: nat, locB: nat, lo: nat, hi: nat)
    requires SECTOR <= |v| && Splits(|img|) && SECTOR <= lo <= hi <= |v|
    requires ApartFromHalves(|img|, locA, locB, lo, hi)
    ensures ApplyAll(v, BootWrites(v, img, locA, locB))[lo..hi] == v[lo..hi]
  {
    PatchesApart(v, img, locA, locB, lo, hi);
    KeptApart(v, BootWrites(v, img, locA, locB), lo, hi);
  }

  lemma PatchesApart(v: seq<byte>, img: seq<byte>, locA: nat, locB: nat, lo: nat, hi: nat)
    requires SECTOR <= |v| && Splits(|img|) && SECTOR <= lo <= hi
    requires ApartFromHalves(|img|, locA, locB, lo, hi)
    ensures AllApart(BootWrites(v, img, locA, locB), lo, hi)
  {
  }

  /** The writes after the `k`-th stay clear of it. */
  lemma LaterPatches(v: seq<byte>, img: seq<byte>, locA: nat, locB: nat, k: nat)
    requires SECTOR <= |v| && Splits(|img|) && PlacesApart(|v|, |img|, locA, locB) && 1 <= k < 9
    ensures var w := BootWrites(v, img, locA, locB); w[k].loc + |w[k].data| <= |v| && LaterApart(w, k)
  {
  }

  /** One write of the list survives to the end. */
  lemma Survives(v: seq<byte>, img: seq<byte>, locA: nat, locB: nat, k: nat)
    requires SECTOR <= |v| && Splits(|img|) && PlacesApart(|v|, |img|, locA, locB) && 1 <= k < 9
    ensures var e := BootWrites(v, img, locA, locB)[k];
      Shows(ApplyAll(v, BootWrites(v, img, locA, locB)), e.loc, e.data)
  {
    LaterPatches(v, img, locA, locB, k);
    KeptWhole(v, BootWrites(v, img, locA, locB), k);
  }

  /** A stretch of the boot image that no patch covers. */
  lemma ImageKept(v: seq<byte>, img: seq<byte>, locA: nat, locB: nat, lo: nat, hi: nat)
    requires SECTOR <= |v| && Splits(|img|) && PlacesApart(|v|, |img|, locA, locB)
    requires lo <= hi <= 218 || 224 <= lo <= hi <= 420 || 510 <= lo <= hi <= 512
    ensures ApplyAll(v, BootWrites(v, img, locA, locB))[lo..hi] == img[lo..hi]
  {
    LaterClear(v, img, locA, locB, lo, hi);
    FirstKept(v, BootWrites(v, img, locA, locB), img, lo, hi);
  }

  ghost predicate OnlyFirst(w: seq<Extent>, img: seq<byte>, lo: nat, hi: nat)
    requires SECTOR <= |img|
  {
    && w != [] && w[0] == Extent(0, img[..SECTOR])
    && forall k :: 1 <= k < |w| ==> w[k].loc + |w[k].data| <= lo || hi <= w[k].loc
  }

  lemma FirstKept(v: seq<byte>, w: seq<Extent>, img: seq<byte>, lo: nat, hi: nat)
    requires lo <= hi <= SECTOR <= |img| && SECTOR <= |v| && OnlyFirst(w, img, lo, hi)
    ensures ApplyAll(v, w)[lo..hi] == img[lo..hi]
  {
    ApplyAllKeeps(v, w, 0, lo, hi);
  }

  lemma LaterClear(v: seq<byte>, img: seq<byte>, locA: nat, locB: nat, lo: nat, hi: nat)
    requires SECTOR <= |v| && Splits(|img|) && PlacesApart(|v|, |img|, locA, locB)
    requires lo <= hi <= 218 || 224 <= lo <= hi <= 420 || 510 <= lo <= hi <= 512
    ensures OnlyFirst(BootWrites(v, img, locA, locB), img, lo, hi)
  {
  }

  function ReadStages(disk: seq<byte>): Stages
    requires SECTOR <= |disk|
  {
    Stages(FromLittleEndian(disk[420..422]), FromLittleEndian(disk[422..424]),
           FromLittleEndian(disk[424..432]), FromLittleEndian(disk[432..440]))
  }

  lemma Sizes16(imageSize: nat)
    requires SECTOR <= imageSize
    ensures SizeA(imageSize) < 65536 && SizeB(imageSize) < 65536
  {
  }

  /** After the final writes the boot sector is the image with the old time stamp and partition table,
      and the sizes and places of the two halves of stage 2. */
  lemma BootSectorSpec(v: seq<byte>, img: seq<byte>, locA: nat, locB: nat)
    requires SECTOR <= |v| && Splits(|img|) && PlacesApart(|v|, |img|, locA, locB)
    ensures var f := ApplyAll(v, BootWrites(v, img, locA, locB));
      && f[440..510] == v[440..510] && f[218..224] == v[218..224]
      && f[..218] == img[..218] && f[224..420] == img[224..420] && f[510..512] == img[510..512]
      && ReadStages(f) == Stages(SizeA(|img|), SizeB(|img|), locA, locB)
  {
    FieldsKept(v, img, locA, locB);
    RestOfImage(v, img, locA, locB);
    StagesStored(v, img, locA, locB);
  }

  lemma FieldsKept(v: seq<byte>, img: seq<byte>, locA: nat, locB: nat)
    requires SECTOR <= |v| && Splits(|img|) && PlacesApart(|v|, |img|, locA, locB)
    ensures var f := ApplyAll(v, BootWrites(v, img, locA, locB));
      f[440..510] == v[440..510] && f[218..224] == v[218..224]
  {
    Survives(v, img, locA, locB, 8);
    Survives(v, img, locA, locB, 7);
  }

  lemma RestOfImage(v: seq<byte>, img: seq<byte>, locA: nat, locB: nat)
    requires SECTOR <= |v| && Splits(|img|) && PlacesApart(|v|, |img|, locA, locB)
    ensures var f := ApplyAll(v, BootWrites(v, img, locA, locB));
      f[..218] == img[..218] && f[224..420] == img[224..420] && f[510..512] == img[510..512]
  {
    ImageKept(v, img, locA, locB, 0, 218);
    ImageKept(v, img, locA, locB, 224, 420);
    ImageKept(v, img, locA, locB, 510, 512);
    var f := ApplyAll(v, BootWrites(v, img, locA, locB));
    assert f[0..218] == f[..218] && img[0..218] == img[..218];
  }

  lemma StagesStored(v: seq<byte>, img: seq<byte>, locA: nat, locB: nat)
    requires SECTOR <= |v| && Splits(|img|) && PlacesApart(|v|, |img|, locA, locB)
    ensures ReadStages(ApplyAll(v, BootWrites(v, img, locA, locB))) == Stages(SizeA(|img|), SizeB(|img|), locA, locB)
  {
    Survives(v, img, locA, locB, 3);
    Survives(v, img, locA, locB, 4);
    Survives(v, img, locA, locB, 5);
    Survives(v, img, locA, locB, 6);
    Pow256Values();
    Sizes16(|img|);
    LittleEndianRoundTrip(SizeA(|img|), 2);
    LittleEndianRoundTrip(SizeB(|img|), 2);
    LittleEndianRoundTrip(locA, 8);
    LittleEndianRoundTrip(locB, 8);
  }

  /** Loading the halves from the places found in the boot sector gives stage 2 of the image. */
  lemma StagesReassemble(v: seq<byte>, img: seq<byte>, locA: nat, locB: nat)
    requires SECTOR <= |v| && HalvesFit(|img|) && PlacesApart(|v|, |img|, locA, locB)
    ensures var f := ApplyAll(v, BootWrites(v, img, locA, locB)); Reassembles(f, ReadStages(f), img)
  {
    StagesStored(v, img, locA, locB);
    HalvesStored(v, img, locA, locB);
    JoinHalves(ApplyAll(v, BootWrites(v, img, locA, locB)), img, locA, locB);
  }

  /** What the boot code loads: all of the first half, and of the second as much as the image has. */
  ghost predicate Reassembles(f: seq<byte>, s: Stages, img: seq<byte>) {
    var rest := |img| - SECTOR - s.sizeA;
    && 0 <= rest <= s.sizeB && s.locA + s.sizeA <= |f| && s.locB + rest <= |f|
    && f[s.locA..s.locA + s.sizeA] + f[s.locB..s.locB + rest] == img[SECTOR..]
  }

  lemma JoinHalves(f: seq<byte>, img: seq<byte>, locA: nat, locB: nat)
    requires HalvesFit(|img|)
    requires Shows(f, locA, img[SECTOR..SECTOR + SizeA(|img|)]) && Shows(f, locB, img[SECTOR + SizeA(|img|)..])
    ensures Reassembles(f, Stages(SizeA(|img|), SizeB(|img|), locA, locB), img)
  {
  }

  lemma HalvesStored(v: seq<byte>, img: seq<byte>, locA: nat, locB: nat)
    requires SECTOR <= |v| && Splits(|img|) && PlacesApart(|v|, |img|, locA, locB)
    ensures Shows(ApplyAll(v, BootWrites(v, img, locA, locB)), locA, img[SECTOR..SECTOR + SizeA(|img|)])
    ensures Shows(ApplyAll(v, BootWrites(v, img, locA, locB)), locB, img[SECTOR + SizeA(|img|)..])
  {
    hide BootWrites, UndoLog.Shows, PlacesApart;
    HalfWrites(v, img, locA, locB);
    Survives(v, img, locA, locB, 1);
    Survives(v, img, locA, locB, 2);
  }

  lemma HalfWrites(v: seq<byte>, img: seq<byte>, locA: nat, locB: nat)
    requires Splits(|img|)
    ensures var w := BootWrites(v, img, locA, locB);
      w[1] == Extent(locA, img[SECTOR..SECTOR + SizeA(|img|)]) && w[2] == Extent(locB, img[SECTOR + SizeA(|img|)..])
  {
  }

  // ---------- what the boot phase leaves ----------

  /** The boot sector: the image with the time stamp and partition table that `v` had, and all of stage 2 where
      the sector says. */
  ghost predicate SectorInstalled(v: seq<byte>, g: seq<byte>, img: seq<byte>, locA: nat, locB: nat) {
    && SECTOR <= |g| == |v| && HalvesFit(|img|)
    && g[440..510] == v[440..510] && g[218..224] == v[218..224]
    && g[..218] == img[..218] && g[224..420] == img[224..420] && g[510..512] == img[510..512]
    && ReadStages(g) == Stages(SizeA(|img|), SizeB(|img|), locA, locB)
    && Reassembles(g, ReadStages(g), img)
  }

  /** Address `q` lies in the boot sector or one of the halves. */
  predicate BootTouched(imageSize: nat, locA: nat, locB: nat, q: nat)
    requires Splits(imageSize)
  {
    || q < SECTOR || locA <= q < locA + SizeA(imageSize)
    || locB <= q < locB + (imageSize - SECTOR - SizeA(imageSize))
  }

  /** Everything else is as before. */
  ghost predicate BootRestKept(v: seq<byte>, g: seq<byte>, imageSize: nat, locA: nat, locB: nat)
    requires Splits(imageSize)
  {
    |g| == |v| && forall q :: 0 <= q < |v| && !BootTouched(imageSize, locA, locB, q) ==> g[q] == v[q]
  }

  lemma BootRest(v: seq<byte>, img: seq<byte>, locA: nat, locB: nat)
    requires SECTOR <= |v| && Splits(|img|)
    ensures BootRestKept(v, ApplyAll(v, BootWrites(v, img, locA, locB)), |img|, locA, locB)
  {
    hide BootWrites;
    var g := ApplyAll(v, BootWrites(v, img, locA, locB));
    forall q | 0 <= q < |v| && !BootTouched(|img|, locA, locB, q) ensures g[q] == v[q] {
      var next := q + 1;
      BootOutside(v, img, locA, locB, q, next);
      assert g[q..next][0] == v[q..next][0];
    }
  }

  /** With the halves at places apart from each other and behind the sector, nothing is lost or out of place. */
  lemma BootInstalled(v: seq<byte>, img: seq<byte>, locA: nat, locB: nat)
    requires SECTOR <= |v| && HalvesFit(|img|) && PlacesApart(|v|, |img|, locA, locB)
    ensures var g := ApplyAll(v, BootWrites(v, img, locA, locB));
      SectorInstalled(v, g, img, locA, locB) && BootRestKept(v, g, |img|, locA, locB)
  {
    hide BootWrites, Reassembles;
    BootSectorSpec(v, img, locA, locB);
    StagesReassemble(v, img, locA, locB);
    BootRest(v, img, locA, locB);
  }

  /** Where the sector should hold boot code it holds the beginning of stage 2. */
  ghost predicate CodeIsStage2(g: seq<byte>, img: seq<byte>) {
    && SECTOR <= |g| && 2 * SECTOR <= |img|
    && g[..218] == img[SECTOR..SECTOR + 218] && g[224..420] == img[SECTOR + 224..SECTOR + 420]
    && g[510..512] == img[SECTOR + 510..SECTOR + 512]
  }

  /** With the first half at address 0 the sector holds the beginning of stage 2 and not the boot image. */
  lemma HalfOverSector(v: seq<byte>, img: seq<byte>, locB: nat)
    requires Splits(|img|) && SECTOR <= SizeA(|img|) <= |v| && SECTOR <= locB
    ensures CodeIsStage2(ApplyAll(v, BootWrites(v, img, 0, locB)), img)
  {
    hide BootWrites, SizeA, SecondOnly, UndoLog.ApplyAll;
    var w, half := BootWrites(v, img, 0, locB), img[SECTOR..SECTOR + SizeA(|img|)];
    HalfWrites(v, img, 0, locB);
    LaterThanHalf(v, img, locB, 0, 218);
    LaterThanHalf(v, img, locB, 224, 420);
    LaterThanHalf(v, img, locB, 510, 512);
    HalfShown(v, w, half);
    HalfOfImage(img, SizeA(|img|), ApplyAll(v, w), half);
  }

  lemma HalfOfImage(img: seq<byte>, a: nat, g: seq<byte>, half: seq<byte>)
    requires SECTOR <= a && SECTOR + a <= |img| && SECTOR <= |g| && half == img[SECTOR..SECTOR + a]
    requires g[0..218] == half[0..218] && g[224..420] == half[224..420] && g[510..512] == half[510..512]
    ensures CodeIsStage2(g, img)
  {
    SliceOfSlice(img, SECTOR, SECTOR + a, 0, 218);
    SliceOfSlice(img, SECTOR, SECTOR + a, 224, 420);
    SliceOfSlice(img, SECTOR, SECTOR + a, 510, 512);
    assert g[0..218] == g[..218];
  }

  lemma HalfShown(v: seq<byte>, w: seq<Extent>, half: seq<byte>)
    requires |w| > 1 && w[1] == Extent(0, half) && SECTOR <= |half| <= |v|
    requires SecondOnly(w, 0, 218) && SecondOnly(w, 224, 420) && SecondOnly(w, 510, 512)
    ensures var g := ApplyAll(v, w);
      g[0..218] == half[0..218] && g[224..420] == half[224..420] && g[510..512] == half[510..512]
  {
    hide SecondOnly, UndoLog.ApplyAll;
    SecondKept(v, w, half, 0, 218);
    SecondKept(v, w, half, 224, 420);
    SecondKept(v, w, half, 510, 512);
  }

  ghost predicate SecondOnly(w: seq<Extent>, lo: nat, hi: nat) {
    forall j :: 1 < j < |w| ==> w[j].loc + |w[j].data| <= lo || hi <= w[j].loc
  }

  lemma SecondKept(v: seq<byte>, w: seq<Extent>, half: seq<byte>, lo: nat, hi: nat)
    requires |w| > 1 && w[1] == Extent(0, half) && lo <= hi <= |half| <= |v| && SecondOnly(w, lo, hi)
    ensures ApplyAll(v, w)[lo..hi] == half[lo..hi]
  {
    ApplyAllKeeps(v, w, 1, lo, hi);
    assert w[1].data[lo - w[1].loc..hi - w[1].loc] == half[lo..hi];
  }

  lemma SliceOfSlice(s: seq<byte>, a: nat, b: nat, lo: nat, hi: nat)
    requires a <= b <= |s| && lo <= hi <= b - a
    ensures s[a..b][lo..hi] == s[a + lo..a + hi]
  {
    var t := s[a..b];
    assert forall i :: 0 <= i < b - a ==> t[i] == s[a + i];
    assert forall i :: 0 <= i < hi - lo ==> t[lo..hi][i] == s[a + lo..a + hi][i];
  }

  lemma LaterThanHalf(v: seq<byte>, img: seq<byte>, locB: nat, lo: nat, hi: nat)
    requires Splits(|img|) && SECTOR <= SizeA(|img|) <= |v| && SECTOR <= locB
    requires lo <= hi <= 218 || 224 <= lo <= hi <= 420 || 510 <= lo <= hi <= 512
    ensures SecondOnly(BootWrites(v, img, 0, locB), lo, hi)
  {
  }

  // ---------- on the device ----------

  /** Everything the boot phase does to a device that shows `v`. */
  function BootOps(v: seq<byte>, img: seq<byte>, locA: nat, locB: nat): (ops: seq<Op>)
    requires Splits(|img|)
  {
    [Op.Read(218, 6), Op.Read(440, 70)] + WriteOps(BootWrites(v, img, locA, locB))
  }

  /** It writes nine times, has the effect of the nine writes, and stays inside a disk exactly if that has a
      sector and room for what is not empty of the halves. */
  lemma BootOpsExactly(v: seq<byte>, img: seq<byte>, locA: nat, locB: nat, size: nat)
    requires Splits(|img|) && locA < WORD && locB < WORD
    ensures var ops := BootOps(v, img, locA, locB);
      && Writes(ops) == 9 && Addressable(ops) && (AllInside(size, ops) <==> InsideDisk(size, |img|, locA, locB))
      && ViewAfter(v, ops) == ApplyAll(v, BootWrites(v, img, locA, locB))
  {
    hide BootWrites, InsideDisk, Scripts.WriteOps;
    var r, w := [Op.Read(218, 6), Op.Read(440, 70)], BootWrites(v, img, locA, locB);
    WritesAppend(r, WriteOps(w));
    WritesOfWrites(r);
    WritesOfWrites(WriteOps(w));
    ViewAfterAppend(v, r, WriteOps(w));
    ReadsKeepView(v, r);
    ViewAfterWrites(v, w);
    BootAddresses(v, img, locA, locB);
    BootOpsInside(v, img, locA, locB, size);
  }

  lemma BootAddresses(v: seq<byte>, img: seq<byte>, locA: nat, locB: nat)
    requires Splits(|img|) && locA < WORD && locB < WORD
    ensures Addressable(BootOps(v, img, locA, locB))
  {
    var ops, w := BootOps(v, img, locA, locB), BootWrites(v, img, locA, locB);
    forall k | 0 <= k < |ops| ensures ops[k].loc < WORD {
      if k >= 2 {
        assert ops[k].loc == w[k - 2].loc;
      }
    }
  }

  lemma BootOpsInside(v: seq<byte>, img: seq<byte>, locA: nat, locB: nat, size: nat)
    requires Splits(|img|)
    ensures AllInside(size, BootOps(v, img, locA, locB)) <==> InsideDisk(size, |img|, locA, locB)
  {
    var ops, w := BootOps(v, img, locA, locB), BootWrites(v, img, locA, locB);
    assert ops[2] == Op.Write(0, img[..SECTOR]);
    assert ops[3] == Op.Write(locA, w[1].data) && ops[4] == Op.Write(locB, w[2].data);
    HalfWrites(v, img, locA, locB);
    if InsideDisk(size, |img|, locA, locB) {
      forall k | 0 <= k < |ops| ensures Inside(size, ops[k]) {
        if k >= 5 {
          assert ops[k] == Op.Write(w[k - 2].loc, w[k - 2].data);
        }
      }
    }
  }

  /** Write the boot sector and the two halves. */
  method WriteImage(dev: Device, img: seq<byte>, locA: nat, locB: nat) returns (ok: bool)
    requires dev.Ready() && Splits(|img|) && locA < WORD && locB < WORD
    modifies dev, dev.disk, dev.cache, dev.undo
    ensures dev.Ran(old(Run(dev.State(), WriteOps(ImageWrites(img, locA, locB)))), ok) && dev.cache == old(dev.cache)
  {
    var a := SizeA(|img|);
    ghost var ops := WriteOps(ImageWrites(img, locA, locB));
    assert ops == [ops[0], ops[1], ops[2]];
    RunThree(dev.State(), ops[0], ops[1], ops[2]);
    ok := dev.Patch(img[..SECTOR], 0);
    if !ok { return; }
    ok := dev.Patch(img[SECTOR..SECTOR + a], locA);
    if !ok { return; }
    ok := dev.Patch(img[SECTOR + a..], locB);
  }

  /** Store sizes and places of the halves in the boot sector. */
  method PatchPlaces(dev: Device, s: Stages) returns (ok: bool)
    requires dev.Ready()
    modifies dev, dev.disk, dev.cache, dev.undo
    ensures dev.Ran(old(Run(dev.State(), WriteOps(PlaceWrites(s)))), ok) && dev.cache == old(dev.cache)
  {
    ghost var ops := WriteOps(PlaceWrites(s));
    assert ops == [ops[0], ops[1], ops[2], ops[3]];
    RunFour(dev.State(), ops[0], ops[1], ops[2], ops[3]);
    ok := dev.Patch(LittleEndian(s.sizeA, 2), 0x1a4);
    if !ok { return; }
    ok := dev.Patch(LittleEndian(s.sizeB, 2), 0x1a4 + 2);
    if !ok { return; }
    ok := dev.Patch(LittleEndian(s.locA, 8), 0x1a4 + 4);
    if !ok { return; }
    ok := dev.Patch(LittleEndian(s.locB, 8), 0x1a4 + 12);
  }

  /** Save the time stamp and the partition table. */
  method SaveFields(dev: Device) returns (ok: bool, stamp: seq<byte>, table: seq<byte>)
    requires dev.Ready()
    modifies dev, dev.disk, dev.cache, dev.undo
    ensures dev.Ran(old(Run(dev.State(), [Op.Read(218, 6), Op.Read(440, 70)])), ok) && dev.cache == old(dev.cache)
    ensures ok ==> View(dev.Model()) == old(View(dev.Model()))
    ensures ok ==> var v := old(View(dev.Model())); stamp == Slice(v, 218, 6) && table == Slice(v, 440, 70)
  {
    RunTwo(dev.State(), Op.Read(218, 6), Op.Read(440, 70));
    table := [];
    ok, stamp := dev.Peek(218, 6);
    if !ok { return; }
    ok, table := dev.Peek(440, 70);
  }

  method RestoreSaved(dev: Device, stamp: seq<byte>, table: seq<byte>) returns (ok: bool)
    requires dev.Ready()
    modifies dev, dev.disk, dev.cache, dev.undo
    ensures dev.Ran(old(Run(dev.State(), WriteOps(SavedWrites(stamp, table)))), ok) && dev.cache == old(dev.cache)
  {
    ghost var ops := WriteOps(SavedWrites(stamp, table));
    assert ops == [ops[0], ops[1]];
    RunTwo(dev.State(), ops[0], ops[1]);
    ok := dev.Patch(stamp, 218);
    if !ok { return; }
    ok := dev.Patch(table, 440);
  }

  /** The writing parts of the boot phase, one after the other. */
  lemma RunWriteParts(s: Session, image: seq<Extent>, places: seq<Extent>, saved: seq<Extent>)
    requires 0 < |s.dev.cache|
    ensures var r := Run(s, WriteOps(image)); var q := Run(r.session, WriteOps(places));
      Run(s, WriteOps(image + places + saved))
      == if !r.ok then r else if !q.ok then q else Run(q.session, WriteOps(saved))
  {
    WriteOpsAppend(image + places, saved);
    WriteOpsAppend(image, places);
    RunAppend(s, WriteOps(image + places), WriteOps(saved));
    RunAppend(s, WriteOps(image), WriteOps(places));
  }

  /** The end of `bios_install`: save the time stamp and table, write, patch, restore. */
  method WriteStages(dev: Device, img: seq<byte>, locA: nat, locB: nat) returns (ok: bool)
    requires dev.Ready() && Splits(|img|) && locA < WORD && locB < WORD
    modifies dev, dev.disk, dev.cache, dev.undo
    ensures dev.Ran(old(Run(dev.State(), BootOps(View(dev.Model()), img, locA, locB))), ok) && dev.cache == old(dev.cache)
  {
    hide ImageWrites, PlaceWrites, SavedWrites, Scripts.WriteOps;
    ghost var v, stages := View(dev.Model()), Stages(SizeA(|img|), SizeB(|img|), locA, locB);
    ghost var i, p, r := ImageWrites(img, locA, locB), PlaceWrites(stages), SavedWrites(Slice(v, 218, 6), Slice(v, 440, 70));
    RunAppend(dev.State(), [Op.Read(218, 6), Op.Read(440, 70)], WriteOps(i + p + r));
    var stamp, table;
    ok, stamp, table := SaveFields(dev);
    if !ok { return; }
    RunWriteParts(dev.State(), i, p, r);
    ok := WriteImage(dev, img, locA, locB);
    if !ok { return; }
    ok := PatchPlaces(dev, Stages(SizeA(|img|), SizeB(|img|), locA, locB));
    if !ok { return; }
    ok := RestoreSaved(dev, stamp, table);
  }
}
