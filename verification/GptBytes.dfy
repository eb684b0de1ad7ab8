/** Signatures and GPT headers in terms of single bytes at fixed places. */
module GptBytes {
  import opened Bytes
  import opened Scripts
  import opened Mbr
  import opened MbrConversion
  import opened GptEmbed
  import opened GptProbe
  import opened PartitionInstall

  /** The fields of a header, at their places in section 5.3.2 of the UEFI Specification. */
  lemma HeaderFields(h: seq<byte>)
    requires |h| == 96
    ensures HeaderSize(h) == Number4(h[12], h[13], h[14], h[15])
    ensures AlternateLba(h) == Number4(h[32], h[33], h[34], h[35]) + 0x1_0000_0000 * Number4(h[36], h[37], h[38], h[39])
    ensures EntryLba(h) == Number4(h[72], h[73], h[74], h[75]) + 0x1_0000_0000 * Number4(h[76], h[77], h[78], h[79])
    ensures EntryCount(h) == Number4(h[80], h[81], h[82], h[83])
    ensures EntryBytes(h) == Number4(h[84], h[85], h[86], h[87])
  {
    hide Bytes.FromLittleEndian;
    NumberOfBytes(h[12..16]);
    NumberOfBytes(h[32..40]);
    NumberOfBytes(h[72..80]);
    NumberOfBytes(h[80..84]);
    NumberOfBytes(h[84..88]);
  }

  /** Where a header says the other one and its array are: blocks of the size found, in 64 bits. */
  lemma PlacesExactly(h: seq<byte>, lb: nat)
    requires |h| == 96
    ensures SecondaryAt(h, lb) == AlternateLba(h) * lb % WORD && ArrayAt(h, lb) == EntryLba(h) * lb % WORD
  {
    hide AlternateLba, EntryLba;
    WrapIsRemainder(AlternateLba(h) * lb);
    WrapIsRemainder(EntryLba(h) * lb);
  }

  /** What a header's checksum is taken of: the bytes in front of its own field, four zeros, and the bytes behind it. */
  lemma SpanCrcExactly(h: seq<byte>, span: nat)
    requires 96 <= |h| && 20 <= span <= |h|
    ensures SpanCrc(h, span) == Crc(h[..16] + [0, 0, 0, 0] + h[20..span])
  {
    StoredFour(0);
    assert Overwrite(h, 16, LittleEndian(0, 4))[..span] == h[..16] + [0, 0, 0, 0] + h[20..span];
  }

  /** "EFI PART", with room for the rest of a header behind it. */
  predicate SignedAt(v: seq<byte>, loc: nat) {
    loc + 96 <= |v| && v[loc..loc + 8] == [0x45, 0x46, 0x49, 0x20, 0x50, 0x41, 0x52, 0x54]
  }

  lemma SignedExactly(v: seq<byte>, loc: nat)
    ensures HasSignature(HeaderOn(v, loc)) <==> SignedAt(v, loc)
  {
    var h := HeaderOn(v, loc);
    if loc + 96 <= |v| {
      assert h[..8] == v[loc..loc + 8];
    } else {
      assert h[..8][0] == 0;
    }
  }

  /** The size of a logical block: 512 if a header is signed there, else 4096 if one is signed there, else no GPT. */
  lemma FoundExactly(v: seq<byte>)
    ensures FindGpt(v, LB_GUESSES) == if SignedAt(v, 512) then Some(512) else if SignedAt(v, 4096) then Some(4096) else None
  {
    hide HasSignature, HeaderOn, SignedAt;
    SignedExactly(v, 512);
    SignedExactly(v, 4096);
    assert LB_GUESSES == [512, 4096] && [512, 4096][1..] == [4096] && [4096][1..] == [];
    assert FindGpt(v, [4096]) == if HasSignature(HeaderOn(v, 4096)) then Some(4096) else FindGpt(v, []);
  }

  /** An ISO 9660 volume as the program knows it: "CD001" in byte 1 of sector 16. */
  lemma IsoExactly(v: seq<byte>)
    ensures IsIso(v) <==> 16 * 2048 + 6 <= |v| && v[16 * 2048 + 1..16 * 2048 + 6] == [0x43, 0x44, 0x30, 0x30, 0x31]
  {
  }

  /** Where the entry of partition `n` is read from: at its place in the array while the offset has 32 bits. */
  lemma EntryPlaceExactly(h: seq<byte>, n: nat, lb: nat)
    requires IsHeader(h)
    ensures n * EntryBytes(h) < 0x1_0000_0000 ==> EntryPlace(h, n, lb) == (EntryLba(h) * lb + n * EntryBytes(h)) % WORD
  {
    hide EntryLba, EntryBytes;
    var base, offset := EntryLba(h) * lb, n * EntryBytes(h);
    WrapIsRemainder(base + offset);
  }

  /** From there on the places start over: with entries of 128 bytes number 2^25 is entry 0. */
  lemma EntryPlaceStartsOver(h: seq<byte>, lb: nat)
    requires IsHeader(h) && EntryBytes(h) == 128
    ensures EntryPlace(h, 0x200_0000, lb) == EntryPlace(h, 0, lb)
  {
    hide EntryLba, EntryBytes;
  }

  /** Entry `k` of an array lies behind `k` others, in 64 bits. */
  lemma EntryOfExactly(v: seq<byte>, base: nat, size: nat, k: nat)
    requires base + k * size + 128 <= |v| && |v| < WORD
    ensures EntryOf(v, base, size, k) == v[base + k * size..base + k * size + 128]
  {
  }
}
