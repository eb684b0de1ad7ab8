/** A disk on which the program installs into a partition that its table does not have. */
module PastLast {
  import opened Bytes
  import opened DiskSession
  import opened Scripts
  import opened BootSector
  import opened Mbr
  import opened GptProbe
  import opened GptEmbed
  import opened PartitionInstall
  import opened BiosInstall
  import opened PathResults

  /** A signed header: the other one in block 127, an array of four entries of 128 bytes in block 2. */
  function FourEntries(): (h: seq<byte>)
    ensures IsHeader(h)
  {
    Overwrite(Overwrite(Overwrite(Overwrite(Overwrite(Zeros(HEADER_SIZE), 0, EFI_PART), 32, LittleEndian(127, 8)),
                                  72, LittleEndian(2, 8)), 80, LittleEndian(4, 4)), 84, LittleEndian(128, 4))
  }

  /** Something in use that starts at block 8. */
  function FifthEntry(): (e: seq<byte>)
    ensures |e| == ENTRY_SIZE
  {
    Overwrite(Overwrite(Zeros(ENTRY_SIZE), 16, [1]), 32, LittleEndian(8, 8))
  }

  /** 128 blocks of 512 bytes: both headers, an empty array, and the entry right behind it. */
  function Disk(): (v: seq<byte>)
    ensures |v| == 65536
  {
    Overwrite(Overwrite(Overwrite(Zeros(65536), 512, FourEntries()), 65024, FourEntries()), 1536, FifthEntry())
  }

  lemma FourEntriesFields()
    ensures var h := FourEntries();
      && HasSignature(h) && AlternateLba(h) == 127 && EntryLba(h) == 2 && EntryCount(h) == 4 && EntryBytes(h) == 128
  {
    hide Bytes.LittleEndian, Bytes.FromLittleEndian, Bytes.Pow256;
    var h := FourEntries();
    Pow256Values();
    LittleEndianRoundTrip(127, 8);
    LittleEndianRoundTrip(2, 8);
    LittleEndianRoundTrip(4, 4);
    LittleEndianRoundTrip(128, 4);
    assert h[..8] == EFI_PART;
    assert h[32..40] == LittleEndian(127, 8);
    assert h[72..80] == LittleEndian(2, 8);
    assert h[80..84] == LittleEndian(4, 4);
    assert h[84..88] == LittleEndian(128, 4);
  }

  lemma FifthEntryFields()
    ensures InUse(FifthEntry()) && FromLittleEndian(FifthEntry()[32..40]) == 8
  {
    hide Bytes.LittleEndian, Bytes.FromLittleEndian, Bytes.Pow256;
    var e := FifthEntry();
    Pow256Values();
    LittleEndianRoundTrip(8, 8);
    assert e[32..40] == LittleEndian(8, 8);
    Nonzero(e[16..24]);
  }

  lemma Nonzero(s: seq<byte>)
    requires s != [] && s[0] != 0
    ensures FromLittleEndian(s) != 0
  {
  }

  lemma DiskParts()
    ensures HeaderOn(Disk(), 512) == FourEntries() == HeaderOn(Disk(), 65024)
    ensures EntryAt(Disk(), 1536) == FifthEntry()
    ensures forall q :: 1024 <= q < 1536 ==> Disk()[q] == 0
  {
    hide FourEntries, FifthEntry;
    var v := Disk();
    assert v[512..608] == FourEntries();
    assert v[65024..65120] == FourEntries();
    assert v[1536..1664] == FifthEntry();
  }

  lemma {:induction false} ZeroValue(n: nat)
    ensures FromLittleEndian(Zeros(n)) == 0
  {
    if n > 0 {
      assert Zeros(n)[1..] == Zeros(n - 1);
      ZeroValue(n - 1);
    }
  }

  lemma EmptyEntry(v: seq<byte>, loc: nat)
    requires loc + ENTRY_SIZE <= |v| && forall q :: loc <= q < loc + ENTRY_SIZE ==> v[q] == 0
    ensures !InUse(EntryAt(v, loc))
  {
    var e := EntryAt(v, loc);
    assert forall i :: 0 <= i < ENTRY_SIZE ==> e[i] == v[loc + i] == 0;
    assert e[16..24] == Zeros(8);
    assert e[24..32] == Zeros(8);
    ZeroValue(8);
  }

  /** The entry of each number up to the count, and no other is accepted. */
  lemma DiskEntries(n: nat)
    ensures n <= 4 ==> EntryPlace(FourEntries(), n, 512) == 1024 + n * 128
    ensures Accepts(Disk(), FourEntries(), n, 512) <==> n == 4
    ensures n == 4 ==> NthEntry(Disk(), FourEntries(), n, 512) == FifthEntry()
  {
    hide InUse, EntryAt, FourEntries, FifthEntry, EntryLba, EntryCount, EntryBytes, Disk;
    FourEntriesFields();
    FifthEntryFields();
    DiskParts();
    if n < 4 {
      EmptyEntry(Disk(), 1024 + n * 128);
    }
  }

  lemma DiskProbed()
    ensures FindGpt(Disk(), LB_GUESSES) == Some(512) && FindOps(Disk(), LB_GUESSES) == [Op.Read(512, HEADER_SIZE)]
    ensures SecondaryAt(FourEntries(), 512) == 65024
  {
    hide HasSignature, HeaderOn, FourEntries, AlternateLba, Disk;
    FourEntriesFields();
    DiskParts();
    assert [Op.Read(512, HEADER_SIZE)] + [] == [Op.Read(512, HEADER_SIZE)];
  }

  lemma EighthBlock()
    ensures SizeA(IMAGE_SIZE) == 9728 && PartitionPlaces(8, 512, 9728) == (4096, 13824)
    ensures Splits(IMAGE_SIZE) && InsideDisk(65536, IMAGE_SIZE, 4096, 13824)
  {
    SplitsExactly(IMAGE_SIZE);
    PartitionPlacesSpec(8, 512, 9728);
  }

  /** The test of the number is off by one: on this disk the install for the number behind the last entry succeeds, and
      those for all other numbers are refused. */
  lemma PastLastInstalled(o: Options, img: seq<byte>)
    requires !o.force && !o.convert && o.part.Some? && |img| == IMAGE_SIZE
    ensures StaysGpt(Disk(), o, 512) && EntryCount(HeaderOn(Disk(), 512)) == 4 && Splits(|img|)
    ensures Succeeds(Disk(), InstallScript(Disk(), o, img)) <==> o.part.value == 4
  {
    hide InstallScript, FindGpt, FindOps, HasSignature, HeaderOn, FourEntries, FifthEntry, Disk, EntryPlace, Accepts, NthEntry,
         PartitionPlaces, InsideDisk, SizeA, EntryCount, SecondaryAt, AllInside;
    var v, h1, n := Disk(), FourEntries(), o.part.value;
    FourEntriesFields();
    FifthEntryFields();
    DiskParts();
    DiskProbed();
    DiskEntries(n);
    EighthBlock();
    assert StaysGpt(v, o, 512);
    PartitionInstallExactly(v, o, img, 512);
    HeadInside(v, o);
  }

  lemma HeadInside(v: seq<byte>, o: Options)
    requires !o.convert && |v| == 65536 && FindOps(v, LB_GUESSES) == [Op.Read(512, HEADER_SIZE)]
    requires SecondaryAt(HeaderOn(v, 512), 512) == 65024
    ensures AllInside(65536, HeadOps(v, o, 512))
  {
    hide FindOps, HeaderOn;
    var ops := HeadOps(v, o, 512);
    assert ops == [Op.Read(512, HEADER_SIZE), Op.Read(65024, HEADER_SIZE)];
    assert ops[0] == Op.Read(512, HEADER_SIZE) && ops[1] == Op.Read(65024, HEADER_SIZE);
  }
}
