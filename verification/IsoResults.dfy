/** An install on an ISO image: the GPT is converted, and stage 2 goes behind the new master boot record. */
module IsoResults {
  import opened Bytes
  import opened UndoLog
  import opened BlockCache
  import opened DiskSession
  import opened Scripts
  import opened BootSector
  import opened Mbr
  import opened MbrConversion
  import opened MbrCheck
  import opened MbrVerdict
  import opened GptProbe
  import opened GptEmbed
  import opened BiosInstall
  import opened PathResults
  import opened OnDisk

  /** A signed GPT on an image that is converted. */
  predicate GetsConverted(v: seq<byte>, o: Options, lb: nat) {
    && FindGpt(v, LB_GUESSES) == Some(lb) && !o.force && (lb == 512 || lb == 4096)
    && HasSignature(HeaderOn(v, SecondaryAt(HeaderOn(v, lb), lb)))
    && o.convert && WillConvert(v, HeaderOn(v, lb), lb) && |o.id| == 4
  }

  /** The partitions gathered. */
  function PartsOn(v: seq<byte>, lb: nat): (parts: seq<Part>) {
    var h1 := HeaderOn(v, lb);
    var r := GatherAll(v, ArrayAt(h1, lb), EntryBytes(h1), EntryCount(h1));
    if r.Some? then r.value else []
  }

  /** The disk after the conversion. */
  function AfterConversion(v: seq<byte>, lb: nat, id: seq<byte>): (f: seq<byte>) {
    ConvertedDisk(v, lb, AlternateLba(HeaderOn(v, lb)), id, PartsOn(v, lb))
  }

  /** The reads and the conversion. */
  function IsoOps(v: seq<byte>, o: Options, lb: nat): (ops: seq<Op>) {
    var h1 := HeaderOn(v, lb);
    FindOps(v, LB_GUESSES) + ([Op.Read(SecondaryAt(h1, lb), HEADER_SIZE)] + ConvertOps(v, h1, lb, o.id))
  }

  lemma IsoView(v: seq<byte>, o: Options, lb: nat)
    requires GetsConverted(v, o, lb)
    ensures ViewAfter(v, IsoOps(v, o, lb)) == ViewAfter(v, ConvertOps(v, HeaderOn(v, lb), lb, o.id))
         == AfterConversion(v, lb, o.id)
    ensures Writes(IsoOps(v, o, lb)) <= 91
  {
    hide ConversionOps, GatherAll, HeaderOn, HasSignature, FindGpt, FindOps, ConvertedDisk, ViewAfter;
    var h1 := HeaderOn(v, lb);
    var probe, c := [Op.Read(SecondaryAt(h1, lb), HEADER_SIZE)], ConvertOps(v, h1, lb, o.id);
    FindOpsRead(v, LB_GUESSES);
    ConvertedView(v, h1, lb, o.id);
    ConversionView(v, ArrayAt(h1, lb), EntryBytes(h1), EntryCount(h1), lb, AlternateLba(h1), o.id);
    WritesOfWrites(probe);
    ReadsKeepView(v, probe);
    WritesAppend(probe, c);
    WritesAppend(FindOps(v, LB_GUESSES), probe + c);
    ViewAfterAppend(v, probe, c);
    ViewAfterAppend(v, FindOps(v, LB_GUESSES), probe + c);
  }

  lemma IsoHead(v: seq<byte>, o: Options, img: seq<byte>, lb: nat)
    requires GetsConverted(v, o, lb) && Splits(|img|)
    ensures var rest := MbrPath(AfterConversion(v, lb, o.id), false, img);
      InstallScript(v, o, img) == Script(IsoOps(v, o, lb) + rest.ops, rest.go)
  {
    hide MbrPath, ConvertOps, WillConvert, HeaderOn, HasSignature, FindOps, FindGpt, AfterConversion, ViewAfter, TargetPath;
    var h1 := HeaderOn(v, lb);
    IsoView(v, o, lb);
    JoinReads(v, FindOps(v, LB_GUESSES), [Op.Read(SecondaryAt(h1, lb), HEADER_SIZE)], ConvertOps(v, h1, lb, o.id),
              MbrPath(AfterConversion(v, lb, o.id), false, img));
  }

  // ---------- the converted disk ----------

  lemma {:induction false} InRunBlock(n: nat, lb: nat, k: nat, q: nat)
    requires k < n && BlockAddress(k, lb) <= q < BlockAddress(k, lb) + lb
    ensures InRun(0, n, lb, q)
  {
    if k < n - 1 {
      InRunBlock(n - 1, lb, k, q);
    }
  }

  /** The byte where ext2 has its magic number lies in the blocks that are cleared. */
  lemma MagicCleared(v: seq<byte>, lb: nat, alternate: nat, id: seq<byte>, parts: seq<Part>)
    requires (lb == 512 || lb == 4096) && |id| == 4 && |parts| <= 4 && CHECKED <= |v|
    ensures ConvertedDisk(v, lb, alternate, id, parts)[1080] == 0
  {
    hide ConvertedDisk;
    assert BlockAddress(2, 512) == 1024 && BlockAddress(0, 4096) == 0;
    InRunBlock(34, lb, if lb == 512 then 2 else 0, 1080);
    ConversionElsewhere(v, lb, alternate, id, parts, 1080);
  }

  /** What the conversion leaves is an MBR of inactive partitions. */
  lemma AfterConversionSpec(v: seq<byte>, o: Options, lb: nat)
    requires GetsConverted(v, o, lb)
    ensures var f, parts := AfterConversion(v, lb, o.id), PartsOn(v, lb);
      && |o.id| == 4 && |f| == |v| && CHECKED <= |v| && 4096 + HEADER_SIZE <= |v| && |parts| <= 4 && FirstSector(f, o.id, parts)
      && (forall i :: 0 <= i < |parts| ==> Convertible(parts[i]))
      && f[1080] == 0 && TableConverted(v, f, ArrayAt(HeaderOn(v, lb), lb), EntryBytes(HeaderOn(v, lb)), EntryCount(HeaderOn(v, lb)))
  {
    hide HeaderOn, HasSignature, FindGpt, ConvertedDisk, TableConverted, EntryOf, Fit, FirstSector, GatherAll;
    var h1, parts := HeaderOn(v, lb), PartsOn(v, lb);
    var base, size, count := ArrayAt(h1, lb), EntryBytes(h1), EntryCount(h1);
    GatheredParts(v, base, size, count);
    ConversionLists(v, base, size, count, lb, AlternateLba(h1), o.id, parts);
    ConversionSpec(v, lb, AlternateLba(h1), o.id, parts);
    MagicCleared(v, lb, AlternateLba(h1), o.id, parts);
    var used := UsedIndices(v, base, size, count);
    forall i | 0 <= i < |parts| ensures Convertible(parts[i]) {
      PartConvertible(EntryOf(v, base, size, used[i]));
    }
    SameLength(v, lb, AlternateLba(h1), o.id, parts);
  }

  lemma SameLength(v: seq<byte>, lb: nat, alternate: nat, id: seq<byte>, parts: seq<Part>)
    ensures |ConvertedDisk(v, lb, alternate, id, parts)| == |v|
  {
  }

  predicate AllUsable(parts: seq<Part>) {
    forall i :: 0 <= i < |parts| ==> parts[i].start >= FIRST_USABLE
  }

  /** It goes on exactly if no partition starts below block 63; then the first slot is made active. */
  lemma IsoGoes(v: seq<byte>, o: Options, img: seq<byte>, lb: nat)
    requires GetsConverted(v, o, lb) && HalvesFit(|img|)
    ensures var f := AfterConversion(v, lb, o.id);
      && (MbrPath(f, false, img).go <==> AllUsable(PartsOn(v, lb)))
      && (MbrPath(f, false, img).go ==> Activated(f) == Overwrite(f, TABLE, [0x80]))
  {
    hide FirstSector, TableConverted, AfterConversion, PartsOn, CheckScript, GetsConverted;
    var f := AfterConversion(v, lb, o.id);
    AfterConversionSpec(v, o, lb);
    ConvertedPassesExactly(f, o.id, PartsOn(v, lb));
    CheckedPlainly(f);
  }

  /** The install succeeds exactly if headers, entries and cleared blocks lie on the disk, no partition starts below
      block 63, and the image fits. */
  lemma IsoInstallExactly(v: seq<byte>, o: Options, img: seq<byte>, lb: nat)
    requires GetsConverted(v, o, lb) && HalvesFit(|img|)
    ensures Succeeds(v, InstallScript(v, o, img))
            <==> AllInside(|v|, IsoOps(v, o, lb)) && AllUsable(PartsOn(v, lb)) && |img| <= |v|
  {
    hide GetsConverted, MbrPath, IsoOps, InstallScript, AllInside, AfterConversion, AllUsable, PartsOn, FirstSector, TableConverted;
    var f := AfterConversion(v, lb, o.id);
    var rest := MbrPath(f, false, img);
    IsoHead(v, o, img, lb);
    IsoView(v, o, lb);
    AfterConversionSpec(v, o, lb);
    IsoGoes(v, o, img, lb);
    MbrPathExactly(f, img);
    WritesAppend(IsoOps(v, o, lb), rest.ops);
    AllInsideAppend(|v|, IsoOps(v, o, lb), rest.ops);
  }

  /** Slot `i` of the disk as it is decoded. */
  function SlotOn(g: seq<byte>, i: nat): Slot
    requires TABLE + i * 16 + 16 <= |g|
  {
    DecodeSlot(g[TABLE + i * 16..TABLE + i * 16 + 16])
  }

  /** The final table lists the used entries of the GPT in order, the first of them active. */
  ghost predicate TableListed(v: seq<byte>, g: seq<byte>, lb: nat) {
    var h1 := HeaderOn(v, lb);
    var base, size := ArrayAt(h1, lb), EntryBytes(h1);
    var used := UsedIndices(v, base, size, EntryCount(h1));
    && SECTOR <= |g| && AllFit(v, base, size, used)
    && forall i :: 0 <= i < |used| ==>
         SlotOn(g, i) == SlotFor(PartOf(EntryOf(v, base, size, used[i]))).(flag := if i == 0 then 0x80 else 0)
  }

  /** The final disk: the sector leads to all of stage 2, its table is the old one converted, and everything behind
      the image is as the conversion left it. */
  lemma IsoInstalled(v: seq<byte>, o: Options, img: seq<byte>, lb: nat)
    requires GetsConverted(v, o, lb) && HalvesFit(|img|) && |v| < OFFSET_LIMIT
    requires Succeeds(v, InstallScript(v, o, img))
    ensures var f, g, locB := Overwrite(AfterConversion(v, lb, o.id), TABLE, [0x80]), ViewAfter(v, InstallScript(v, o, img).ops), SECTOR + SizeA(|img|);
      SectorInstalled(f, g, img, SECTOR, locB) && BootRestKept(f, g, |img|, SECTOR, locB) && TableListed(v, g, lb)
  {
    hide GetsConverted, MbrPath, IsoOps, InstallScript, Feasible, AllInside, AfterConversion, AllUsable, PartsOn, FirstSector,
         SectorInstalled, BootRestKept, TableConverted, TableListed, ViewAfter, Activated, BootWrites;
    var c := AfterConversion(v, lb, o.id);
    var f, rest := Overwrite(c, TABLE, [0x80]), MbrPath(c, false, img);
    IsoHead(v, o, img, lb);
    IsoView(v, o, lb);
    AfterConversionSpec(v, o, lb);
    IsoInstallExactly(v, o, img, lb);
    IsoGoes(v, o, img, lb);
    MbrPathExactly(c, img);
    ViewAfterAppend(v, IsoOps(v, o, lb), rest.ops);
    var g := ApplyAll(f, BootWrites(f, img, SECTOR, SECTOR + SizeA(|img|)));
    BootInstalled(f, img, SECTOR, SECTOR + SizeA(|img|));
    TableStays(v, c, f, g, img, lb, SECTOR + SizeA(|img|));
  }

  /** The bytes of that table: for each used entry of the GPT, in order, its type, start and count. */
  ghost predicate BytesListed(v: seq<byte>, g: seq<byte>, lb: nat) {
    var h1 := HeaderOn(v, lb);
    var base, size := ArrayAt(h1, lb), EntryBytes(h1);
    var used := UsedIndices(v, base, size, EntryCount(h1));
    forall i :: 0 <= i < |used| ==> SlotLists(g, i, if i == 0 then 0x80 else 0, EntryOf(v, base, size, used[i]))
  }

  lemma IsoSlots(v: seq<byte>, o: Options, img: seq<byte>, lb: nat)
    requires GetsConverted(v, o, lb) && HalvesFit(|img|) && |v| < OFFSET_LIMIT
    requires Succeeds(v, InstallScript(v, o, img))
    ensures BytesListed(v, ViewAfter(v, InstallScript(v, o, img).ops), lb)
  {
    hide GetsConverted, InstallScript, Succeeds, BytesListed, TableListed, ViewAfter, SectorInstalled, BootRestKept, AfterConversion;
    IsoInstalled(v, o, img, lb);
    ListedSlots(v, ViewAfter(v, InstallScript(v, o, img).ops), lb);
  }

  lemma ListedSlots(v: seq<byte>, g: seq<byte>, lb: nat)
    requires TableListed(v, g, lb)
    ensures BytesListed(v, g, lb)
  {
    hide Fit, EntryOf, UsedIndices, HeaderOn, SlotLists, SlotFor, DecodeSlot, PartOf;
    var h1 := HeaderOn(v, lb);
    var base, size := ArrayAt(h1, lb), EntryBytes(h1);
    var used := UsedIndices(v, base, size, EntryCount(h1));
    forall i | 0 <= i < |used|
      ensures SlotLists(g, i, if i == 0 then 0x80 else 0, EntryOf(v, base, size, used[i]))
    {
      ListedSlot(g, i, if i == 0 then 0x80 else 0, EntryOf(v, base, size, used[i]));
    }
  }

  lemma ListedSlot(g: seq<byte>, i: nat, flag: byte, entry: seq<byte>)
    requires |entry| == ENTRY_SIZE && Fit(entry) && i < 4 && SECTOR <= |g|
    requires SlotOn(g, i) == SlotFor(PartOf(entry)).(flag := flag)
    ensures SlotLists(g, i, flag, entry)
  {
    DecodedSlot(g, i, flag, entry);
  }

  lemma TableStays(v: seq<byte>, c: seq<byte>, f: seq<byte>, g: seq<byte>, img: seq<byte>, lb: nat, locB: nat)
    requires SectorInstalled(f, g, img, SECTOR, locB) && f == Overwrite(c, TABLE, [0x80]) && |c| == |v|
    requires var h1 := HeaderOn(v, lb); TableConverted(v, c, ArrayAt(h1, lb), EntryBytes(h1), EntryCount(h1))
    ensures TableListed(v, g, lb)
  {
    hide Reassembles, Fit, EntryOf, UsedIndices, HeaderOn, DecodeSlot, ClampChs, SectorCount;
    var h1 := HeaderOn(v, lb);
    var base, size := ArrayAt(h1, lb), EntryBytes(h1);
    var used := UsedIndices(v, base, size, EntryCount(h1));
    forall i | 0 <= i < |used|
      ensures SlotOn(g, i) == SlotFor(PartOf(EntryOf(v, base, size, used[i]))).(flag := if i == 0 then 0x80 else 0)
    {
      SlotKept(c, f, g, i);
    }
  }

  lemma SlotKept(c: seq<byte>, f: seq<byte>, g: seq<byte>, i: nat)
    requires SECTOR <= |c| == |f| == |g| && f == Overwrite(c, TABLE, [0x80]) && g[440..510] == f[440..510] && i < 4
    ensures SlotOn(g, i) == if i == 0 then SlotOn(c, i).(flag := 0x80) else SlotOn(c, i)
  {
    var slot := TABLE + i * 16;
    forall q | slot <= q < slot + 16 ensures g[q] == f[q] {
      assert g[440..510][q - 440] == f[440..510][q - 440];
    }
    var s, t := g[slot..slot + 16], c[slot..slot + 16];
    assert s[1..] == t[1..];
    SameBehindFlag(s, t);
  }

  lemma SameBehindFlag(s: seq<byte>, t: seq<byte>)
    requires |s| == |t| == 16 && s[1..] == t[1..]
    ensures DecodeSlot(s) == DecodeSlot(t).(flag := s[0])
  {
    assert forall k :: 1 <= k < 16 ==> s[k] == s[1..][k - 1] == t[1..][k - 1] == t[k];
    assert s[1..4] == t[1..4] && s[5..8] == t[5..8] && s[8..12] == t[8..12] && s[12..16] == t[12..16];
  }
}
