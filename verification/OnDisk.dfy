/** The formats on the disk byte by byte: what the functions that read and write them come to, at fixed places. */
module OnDisk {
  import opened Bytes
  import opened UndoLog
  import opened Mbr
  import opened MbrConversion

  // ---------- GPT entries ----------

  /** C12A7328-F81F-11D2-BA4B-00A0C93EC93B, the EFI system partition. */
  const EFI_SYSTEM: seq<byte> :=
    [0x28, 0x73, 0x2a, 0xc1, 0x1f, 0xf8, 0xd2, 0x11, 0xba, 0x4b, 0x00, 0xa0, 0xc9, 0x3e, 0xc9, 0x3b]

  /** EBD0A0A2-B9E5-4433-87C0-68B6B72699C7, basic data. */
  const BASIC_DATA: seq<byte> :=
    [0xa2, 0xa0, 0xd0, 0xeb, 0xe5, 0xb9, 0x33, 0x44, 0x87, 0xc0, 0x68, 0xb6, 0xb7, 0x26, 0x99, 0xc7]

  /** 48465300-0000-11AA-AA11-00306543ECAC, HFS+. */
  const HFS_PLUS: seq<byte> :=
    [0x00, 0x53, 0x46, 0x48, 0x00, 0x00, 0xaa, 0x11, 0xaa, 0x11, 0x00, 0x30, 0x65, 0x43, 0xec, 0xac]

  lemma EightBytes(s: seq<byte>, low: nat, high: nat)
    requires |s| == 8 && low == Number4(s[0], s[1], s[2], s[3]) && high == Number4(s[4], s[5], s[6], s[7])
    ensures FromLittleEndian(s) == low + 0x1_0000_0000 * high
  {
    NumberOfBytes(s);
  }

  lemma GuidHalves()
    ensures FromLittleEndian(EFI_SYSTEM[..8]) == 0x11d2f81fc12a7328 && FromLittleEndian(EFI_SYSTEM[8..]) == 0x3bc93ec9a0004bba
    ensures FromLittleEndian(BASIC_DATA[..8]) == 0x4433b9e5ebd0a0a2 && FromLittleEndian(BASIC_DATA[8..]) == 0xc79926b7b668c087
    ensures FromLittleEndian(HFS_PLUS[..8]) == 0x11aa000048465300 && FromLittleEndian(HFS_PLUS[8..]) == 0xacec4365300011aa
  {
    EightBytes(EFI_SYSTEM[..8], 0xc12a7328, 0x11d2f81f);
    EightBytes(EFI_SYSTEM[8..], 0xa0004bba, 0x3bc93ec9);
    EightBytes(BASIC_DATA[..8], 0xebd0a0a2, 0x4433b9e5);
    EightBytes(BASIC_DATA[8..], 0xb668c087, 0xc79926b7);
    EightBytes(HFS_PLUS[..8], 0x48465300, 0x11aa0000);
    EightBytes(HFS_PLUS[8..], 0x300011aa, 0xacec4365);
  }

  lemma SameHalves(s: seq<byte>, t: seq<byte>)
    requires |s| == |t| == 16
    ensures s == t <==> FromLittleEndian(s[..8]) == FromLittleEndian(t[..8]) && FromLittleEndian(s[8..]) == FromLittleEndian(t[8..])
  {
    SameBytes(s[..8], t[..8]);
    SameBytes(s[8..], t[8..]);
    assert s == s[..8] + s[8..] && t == t[..8] + t[8..];
  }

  /** The MBR type for the sixteen bytes of a type GUID. */
  lemma TypeExactly(guid: seq<byte>)
    requires |guid| == 16
    ensures var t := MbrType(FromLittleEndian(guid[..8]), FromLittleEndian(guid[8..]));
      && (t == Some(0xef) <==> guid == EFI_SYSTEM)
      && (t == Some(0x07) <==> guid == BASIC_DATA)
      && (t == Some(0xaf) <==> guid == HFS_PLUS)
      && (t == None <==> guid != EFI_SYSTEM && guid != BASIC_DATA && guid != HFS_PLUS)
  {
    hide Bytes.FromLittleEndian;
    GuidHalves();
    SameHalves(guid, EFI_SYSTEM);
    SameHalves(guid, BASIC_DATA);
    SameHalves(guid, HFS_PLUS);
  }

  /** Both addresses of an entry have 32 bits. */
  predicate Addresses32(entry: seq<byte>)
    requires |entry| == 128
  {
    && entry[36] == entry[37] == entry[38] == entry[39] == 0
    && entry[44] == entry[45] == entry[46] == entry[47] == 0
  }

  /** An entry can be converted exactly if the high halves of both addresses are zero and its first sixteen bytes are
      one of the three types; each of them becomes its own MBR type. */
  lemma EntryConverted(entry: seq<byte>)
    requires |entry| == 128
    ensures Fit(entry) <==> Addresses32(entry) && entry[..16] in {EFI_SYSTEM, BASIC_DATA, HFS_PLUS}
    ensures Fit(entry) ==> var p := PartOf(entry);
      && (p.kind == 0xef <==> entry[..16] == EFI_SYSTEM)
      && (p.kind == 0x07 <==> entry[..16] == BASIC_DATA)
      && (p.kind == 0xaf <==> entry[..16] == HFS_PLUS)
      && p.start == FromLittleEndian(entry[32..36]) && p.end == FromLittleEndian(entry[40..44])
  {
    hide Bytes.FromLittleEndian, MbrType;
    assert entry[..16][..8] == entry[..8] && entry[..16][8..] == entry[8..16];
    TypeExactly(entry[..16]);
    NumberInWord(entry[32..40]);
    NumberInWord(entry[40..48]);
    assert entry[32..40][..4] == entry[32..36] && entry[40..48][..4] == entry[40..44];
  }

  /** An entry is in use exactly if some byte of its own GUID, the second sixteen, is not zero. */
  lemma EntryInUse(entry: seq<byte>)
    requires |entry| == 128
    ensures InUse(entry) <==> exists q :: 16 <= q < 32 && entry[q] != 0
  {
    hide Bytes.FromLittleEndian;
    AllZero(entry[16..24]);
    AllZero(entry[24..32]);
    assert forall q :: 16 <= q < 24 ==> entry[16..24][q - 16] == entry[q];
    assert forall q :: 24 <= q < 32 ==> entry[24..32][q - 24] == entry[q];
    assert forall k :: 0 <= k < 8 ==> entry[16..24][k] == entry[16 + k] && entry[24..32][k] == entry[24 + k];
  }

  lemma {:induction false} AllZero(s: seq<byte>)
    ensures FromLittleEndian(s) == 0 <==> forall k :: 0 <= k < |s| ==> s[k] == 0
  {
    if s != [] {
      AllZero(s[1..]);
      assert forall k :: 1 <= k < |s| ==> s[k] == s[1..][k - 1];
      assert forall k :: 0 <= k < |s| - 1 ==> s[1..][k] == s[k + 1];
    }
  }

  /** The bytes of an entry that can be converted. */
  predicate CanConvert(entry: seq<byte>)
    requires |entry| == 128
  {
    Addresses32(entry) && entry[..16] in {EFI_SYSTEM, BASIC_DATA, HFS_PLUS}
  }

  /** Partitions are gathered exactly if no more than four entries are in use and the bytes of each can be converted. */
  lemma GatheredExactly(v: seq<byte>, base: nat, size: nat, n: nat)
    ensures var used := UsedIndices(v, base, size, n);
      GatherAll(v, base, size, n).Some?
      <==> |used| <= 4 && forall k :: 0 <= k < |used| ==> CanConvert(EntryOf(v, base, size, used[k]))
  {
    hide EntryOf, Fit, CanConvert, GatherAll, UsedIndices;
    var used := UsedIndices(v, base, size, n);
    GatheredParts(v, base, size, n);
    forall k | 0 <= k < |used|
      ensures Fit(EntryOf(v, base, size, used[k])) <==> CanConvert(EntryOf(v, base, size, used[k]))
    {
      FitConvertible(EntryOf(v, base, size, used[k]));
    }
  }

  lemma FitConvertible(entry: seq<byte>)
    requires |entry| == 128
    ensures Fit(entry) <==> CanConvert(entry)
  {
    hide Fit;
    EntryConverted(entry);
  }

  // ---------- slots of a master boot record ----------

  /** Head, the sector with two high bits of the cylinder, and the cylinder: at most 255 heads counted from 0, 63
      sectors counted from 1. Addresses behind cylinder 1023 all have the same bytes. */
  ghost predicate NamesAddress(chs: seq<byte>, lba: nat)
    requires |chs| == 3
  {
    var head: int, middle: int, low: int := chs[0], chs[1], chs[2];
    if lba < 63 * 255 * 1024 then
      head <= 254 && 1 <= middle % 64 && lba == ((middle / 64 * 256 + low) * 255 + head) * 63 + middle % 64 - 1
    else chs == [0xfe, 0xff, 0xff]
  }

  lemma ChsNamed(lba: nat)
    ensures NamesAddress(Lba2Chs(lba), lba)
  {
    var cylinder, head, sector := lba / (255 * 63), lba / 63 % 255, lba % 63 + 1;
    assert lba == lba / 63 * 63 + lba % 63;
    assert lba / 63 / 255 == cylinder;
    assert lba / 63 == cylinder * 255 + head;
    if lba <= CHS_END && cylinder < 1024 {
      var chs := Lba2Chs(lba);
      assert chs[1] / 64 == cylinder / 256 && chs[1] % 64 == sector;
      assert cylinder == cylinder / 256 * 256 + cylinder % 256;
    }
  }

  /** No two triples of bytes name the same address. */
  lemma ChsUnique(a: seq<byte>, b: seq<byte>, lba: nat)
    requires |a| == |b| == 3 && NamesAddress(a, lba) && NamesAddress(b, lba)
    ensures a == b
  {
    if lba < 63 * 255 * 1024 {
      var head: int, middle: int, low: int := a[0], a[1], a[2];
      var head2: int, middle2: int, low2: int := b[0], b[1], b[2];
      var c, d := middle / 64 * 256 + low, middle2 / 64 * 256 + low2;
      assert c * 255 + head == d * 255 + head2;
      assert c == d;
    }
  }

  /** Slot `i` of a master boot record: flag, type, start and count for a GPT entry. */
  ghost predicate SlotLists(f: seq<byte>, i: nat, flag: byte, entry: seq<byte>)
    requires |entry| == 128
  {
    var s := 446 + 16 * i;
    && s + 16 <= |f| && f[s] == flag
    && f[s + 4] == (if entry[..16] == EFI_SYSTEM then 0xef else if entry[..16] == BASIC_DATA then 0x07 else 0xaf)
    && f[s + 8..s + 12] == entry[32..36]
    && FromLittleEndian(f[s + 12..s + 16])
       == (FromLittleEndian(entry[40..44]) - FromLittleEndian(entry[32..36]) + 1) % 0x1_0000_0000
  }

  lemma DecodedSlot(f: seq<byte>, i: nat, flag: byte, entry: seq<byte>)
    requires |entry| == 128 && Fit(entry) && 446 + 16 * i + 16 <= |f|
    requires DecodeSlot(f[446 + 16 * i..446 + 16 * i + 16]) == SlotFor(PartOf(entry)).(flag := flag)
    ensures SlotLists(f, i, flag, entry)
  {
    hide Fit, PartOf, Bytes.FromLittleEndian;
    EntryConverted(entry);
    var at := 446 + 16 * i;
    var s := f[at..at + 16];
    assert s[8..12] == f[at + 8..at + 12] && s[12..16] == f[at + 12..at + 16];
    SameBytes(f[at + 8..at + 12], entry[32..36]);
  }

  /** Every slot of the converted disk lists its entry, and names its first and last address. */
  lemma ConvertedBytes(v: seq<byte>, base: nat, size: nat, count: nat, lb: nat, alternate: nat, id: seq<byte>,
                       parts: seq<Part>)
    requires 512 <= lb <= |v| && |id| == 4 && GatherAll(v, base, size, count) == Some(parts)
    ensures var used, f := UsedIndices(v, base, size, count), ConvertedDisk(v, lb, alternate, id, parts);
      && |f| == |v| && |used| == |parts| <= 4 && f[440..444] == id
      && (forall i :: 0 <= i < |used| ==> SlotLists(f, i, 0, EntryOf(v, base, size, used[i])))
      && (forall i :: 0 <= i < |used| ==> SlotNames(f, i, EntryOf(v, base, size, used[i])))
  {
    hide DecodeSlot, ConvertedDisk, EntryOf, Fit, SlotFor, SlotLists, SlotNames;
    var used, f := UsedIndices(v, base, size, count), ConvertedDisk(v, lb, alternate, id, parts);
    ConvertedLength(v, lb, alternate, id, parts);
    ConversionLists(v, base, size, count, lb, alternate, id, parts);
    GatheredParts(v, base, size, count);
    ConversionSpec(v, lb, alternate, id, parts);
    forall i | 0 <= i < |used|
      ensures SlotLists(f, i, 0, EntryOf(v, base, size, used[i])) && SlotNames(f, i, EntryOf(v, base, size, used[i]))
    {
      var entry := EntryOf(v, base, size, used[i]);
      SlotOf(f, i, entry);
      NamedSlot(f, i, entry);
    }
  }

  lemma ConvertedLength(v: seq<byte>, lb: nat, alternate: nat, id: seq<byte>, parts: seq<Part>)
    ensures |ConvertedDisk(v, lb, alternate, id, parts)| == |v|
  {
  }

  lemma SlotOf(f: seq<byte>, i: nat, entry: seq<byte>)
    requires |entry| == 128 && Fit(entry) && TABLE + i * 16 + 16 <= |f|
    requires DecodeSlot(f[TABLE + i * 16..TABLE + i * 16 + 16]) == SlotFor(PartOf(entry))
    ensures SlotLists(f, i, 0, entry)
  {
    DecodedSlot(f, i, 0, entry);
  }

  /** The first and last address of an entry by cylinder, head and sector. */
  ghost predicate SlotNames(f: seq<byte>, i: nat, entry: seq<byte>)
    requires |entry| == 128
  {
    var s := 446 + 16 * i;
    && s + 16 <= |f|
    && NamesAddress(f[s + 1..s + 4], FromLittleEndian(entry[32..36]))
    && NamesAddress(f[s + 5..s + 8], FromLittleEndian(entry[40..44]))
  }

  lemma NamedSlot(f: seq<byte>, i: nat, entry: seq<byte>)
    requires |entry| == 128 && Fit(entry) && TABLE + i * 16 + 16 <= |f|
    requires f[TABLE + i * 16..TABLE + i * 16 + 16] == SlotBytes(0, PartOf(entry))
    ensures SlotNames(f, i, entry)
  {
    hide Fit, PartOf, NamesAddress, Bytes.FromLittleEndian, Lba2Chs;
    EntryConverted(entry);
    var p, at := PartOf(entry), 446 + 16 * i;
    SlotPieces(0, p);
    ChsNamed(p.start);
    ChsNamed(p.end);
    var s := f[at..at + 16];
    assert s[1..4] == f[at + 1..at + 4] && s[5..8] == f[at + 5..at + 8];
  }

  // ---------- what a conversion clears ----------

  lemma NextProduct(a: nat, lb: nat)
    ensures (a + 1) * lb == a * lb + lb
  {
  }

  lemma RemainderSame(x: nat)
    requires x < WORD
    ensures x % WORD == x
  {
  }

  /** A run of blocks whose addresses have 64 bits is one stretch of the disk. */
  lemma {:induction false} RunIsStretch(start: nat, n: nat, lb: nat, q: nat)
    requires (start + n) * lb < WORD
    ensures InRun(start, n, lb, q) <==> start * lb <= q < (start + n) * lb
  {
    if n > 0 {
      var last := start + n - 1;
      NextProduct(last, lb);
      RemainderSame(last * lb);
      assert BlockAddress(last, lb) == last * lb;
      RunIsStretch(start, n - 1, lb, q);
      StretchGrows(start, n, lb);
    }
  }

  lemma StretchGrows(start: nat, n: nat, lb: nat)
    requires 0 < n
    ensures start * lb <= (start + (n - 1)) * lb <= (start + n) * lb
  {
  }
}
