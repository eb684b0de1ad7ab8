/** The writes of the GPT-to-MBR conversion, on the device and as one disk transformation. */
module MbrConversion {
  import opened Bytes
  import opened UndoLog
  import opened BlockCache
  import opened DiskSession
  import opened Scripts
  import opened Installer
  import opened Mbr

  /** The address of logical block `block`, in `uint64_t` arithmetic; the block number may have wrapped too. */
  function BlockAddress(block: int, lb: nat): (loc: nat)
    ensures loc < WORD
  {
    block * lb % WORD
  }

  /** `n` logical blocks from `start` on, each overwritten with zeros. */
  function ZeroRun(start: int, n: nat, lb: nat): (w: seq<Extent>) {
    if n == 0 then [] else ZeroRun(start, n - 1, lb) + [Extent(BlockAddress(start + n - 1, lb), Zeros(lb))]
  }

  /** The primary table with the protective MBR, then the secondary table. */
  function Nuke(lb: nat, alternate: nat): (w: seq<Extent>) {
    ZeroRun(0, 34, lb) + ZeroRun(alternate - 32, 33, lb)
  }

  const DISK_ID: nat := 0x1b8

  function IdWrites(id: seq<byte>): (w: seq<Extent>)
    ensures |w| == |id|
    ensures forall k :: 0 <= k < |id| ==> w[k] == Extent(DISK_ID + k, [id[k]])
  {
    seq(|id|, k requires 0 <= k < |id| => Extent(DISK_ID + k, [id[k]]))
  }

  /** The disk after a conversion. */
  function ConvertedDisk(v: seq<byte>, lb: nat, alternate: nat, id: seq<byte>, parts: seq<Part>): seq<byte> {
    ApplyAll(ApplyAll(ApplyAll(v, Nuke(lb, alternate)), IdWrites(id)), TableWrites(parts))
  }

  /** Every write of a conversion, in order. */
  function ConvertWrites(lb: nat, alternate: nat, id: seq<byte>, parts: seq<Part>): (w: seq<Extent>) {
    Nuke(lb, alternate) + (IdWrites(id) + TableWrites(parts))
  }

  lemma ConvertWritesDisk(v: seq<byte>, lb: nat, alternate: nat, id: seq<byte>, parts: seq<Part>)
    ensures ApplyAll(v, ConvertWrites(lb, alternate, id, parts)) == ConvertedDisk(v, lb, alternate, id, parts)
  {
    ApplyAllAppend(v, Nuke(lb, alternate), IdWrites(id) + TableWrites(parts));
    ApplyAllAppend(ApplyAll(v, Nuke(lb, alternate)), IdWrites(id), TableWrites(parts));
  }

  // ---------- on the device ----------

  lemma {:induction false} ZeroRunGrows(start: int, n: nat, m: nat, lb: nat)
    requires n <= m
    ensures WriteOps(ZeroRun(start, n, lb)) <= WriteOps(ZeroRun(start, m, lb))
    ensures |ZeroRun(start, m, lb)| == m
  {
    if n < m {
      ZeroRunGrows(start, n, m - 1, lb);
      WriteOpsMore(ZeroRun(start, m - 1, lb), Extent(BlockAddress(start + m - 1, lb), Zeros(lb)));
    } else if m > 0 {
      ZeroRunGrows(start, m - 1, m - 1, lb);
    }
  }

  method ZeroBlocks(dev: Device, start: int, n: nat, lb: nat) returns (ok: bool)
    requires dev.Ready()
    modifies dev, dev.disk, dev.cache, dev.undo
    ensures dev.Ran(old(Run(dev.State(), WriteOps(ZeroRun(start, n, lb)))), ok) && dev.cache == old(dev.cache)
  {
    hide DiskSession.Run, BlockAddress;
    ghost var s := dev.State();
    ok := true;
    RunNothing(s);
    for i := 0 to n
      invariant dev.Ready() && dev.cache == old(dev.cache)
      invariant Run(s, WriteOps(ZeroRun(start, i, lb))) == Outcome(dev.State(), true)
    {
      ghost var e := Extent(BlockAddress(start + i, lb), Zeros(lb));
      WriteOpsMore(ZeroRun(start, i, lb), e);
      RunAppend(s, WriteOps(ZeroRun(start, i, lb)), [Op.Write(e.loc, e.data)]);
      ZeroRunGrows(start, i + 1, n, lb);
      ok := dev.Patch(Zeros(lb), BlockAddress(start + i, lb));
      if !ok {
        RunStops(s, WriteOps(ZeroRun(start, i + 1, lb)), WriteOps(ZeroRun(start, n, lb)));
        return;
      }
    }
  }

  /** The disk ID, one random byte at a time. */
  method WriteId(dev: Device, id: seq<byte>) returns (ok: bool)
    requires dev.Ready() && |id| == 4
    modifies dev, dev.disk, dev.cache, dev.undo
    ensures dev.Ran(old(Run(dev.State(), WriteOps(IdWrites(id)))), ok) && dev.cache == old(dev.cache)
  {
    hide DiskSession.Run, BlockCache.View;
    ghost var s, ops := dev.State(), WriteOps(IdWrites(id));
    ok := true;
    RunNothing(s);
    for i := 0 to 4
      invariant dev.Ready() && dev.cache == old(dev.cache) && Run(s, ops[..i]) == Outcome(dev.State(), true)
    {
      RunAppend(s, ops[..i], [ops[i]]);
      assert ops[..i + 1] == ops[..i] + [ops[i]];
      ok := dev.Patch([id[i]], DISK_ID + i);
      if !ok {
        RunStops(s, ops[..i + 1], ops);
        return;
      }
    }
    assert ops[..4] == ops;
  }

  /** One partition entry: type, start, sector count, and the two addresses by cylinder, head and sector. */
  method WritePart(dev: Device, p: Part, i: nat) returns (ok: bool)
    requires dev.Ready() && i < 4
    modifies dev, dev.disk, dev.cache, dev.undo
    ensures dev.Ran(old(Run(dev.State(), WriteOps(PartWrites(p, i)))), ok) && dev.cache == old(dev.cache)
  {
    hide DiskSession.Run, NumberWrites, ChsWrites, Scripts.WriteOps, BlockCache.View;
    var slot := TABLE + i * 16;
    WriteOpsAppend(NumberWrites(p, slot), ChsWrites(p, slot));
    RunAppend(dev.State(), WriteOps(NumberWrites(p, slot)), WriteOps(ChsWrites(p, slot)));
    ok := WriteNumbers(dev, p, slot);
    if !ok { return; }
    ok := WriteChs(dev, p, slot);
  }

  method WriteNumbers(dev: Device, p: Part, slot: nat) returns (ok: bool)
    requires dev.Ready() && slot < 512
    modifies dev, dev.disk, dev.cache, dev.undo
    ensures dev.Ran(old(Run(dev.State(), WriteOps(NumberWrites(p, slot)))), ok) && dev.cache == old(dev.cache)
  {
    hide Mbr.SectorCount, Bytes.LittleEndian;
    ghost var ops := WriteOps(NumberWrites(p, slot));
    assert ops == [ops[0], ops[1], ops[2]];
    RunThree(dev.State(), ops[0], ops[1], ops[2]);
    ok := dev.Patch([p.kind], slot + 4);
    if !ok { return; }
    ok := dev.Patch(LittleEndian(p.start, 4), slot + 8);
    if !ok { return; }
    ok := dev.Patch(LittleEndian(SectorCount(p), 4), slot + 12);
  }

  method WriteChs(dev: Device, p: Part, slot: nat) returns (ok: bool)
    requires dev.Ready() && slot < 512
    modifies dev, dev.disk, dev.cache, dev.undo
    ensures dev.Ran(old(Run(dev.State(), WriteOps(ChsWrites(p, slot)))), ok) && dev.cache == old(dev.cache)
  {
    hide Mbr.Lba2Chs;
    ghost var ops := WriteOps(ChsWrites(p, slot));
    assert ops == [ops[0], ops[1]];
    RunTwo(dev.State(), ops[0], ops[1]);
    var chs := new byte[3];
    FillChs(chs, p.start);
    ok := dev.Patch(chs[..], slot + 1);
    if !ok { return; }
    FillChs(chs, p.end);
    ok := dev.Patch(chs[..], slot + 5);
  }

  lemma {:induction false} TableWritesGrow(parts: seq<Part>, n: nat)
    requires n <= |parts|
    ensures WriteOps(TableWrites(parts[..n])) <= WriteOps(TableWrites(parts))
    decreases |parts|
  {
    if n < |parts| {
      var m := |parts| - 1;
      TableWritesGrow(parts[..m], n);
      assert parts[..m][..n] == parts[..n];
      WriteOpsAppend(TableWrites(parts[..m]), PartWrites(parts[m], m));
    } else {
      assert parts[..n] == parts;
    }
  }

  lemma TableWritesMore(parts: seq<Part>, i: nat)
    requires i < |parts|
    ensures WriteOps(TableWrites(parts[..i + 1])) == WriteOps(TableWrites(parts[..i])) + WriteOps(PartWrites(parts[i], i))
  {
    assert parts[..i + 1][..i] == parts[..i];
    WriteOpsAppend(TableWrites(parts[..i]), PartWrites(parts[i], i));
  }

  method WriteTable(dev: Device, parts: seq<Part>) returns (ok: bool)
    requires dev.Ready() && |parts| <= 4
    modifies dev, dev.disk, dev.cache, dev.undo
    ensures dev.Ran(old(Run(dev.State(), WriteOps(TableWrites(parts)))), ok) && dev.cache == old(dev.cache)
  {
    hide DiskSession.Run, PartWrites;
    ghost var s := dev.State();
    ok := true;
    RunNothing(s);
    for i := 0 to |parts|
      invariant dev.Ready() && dev.cache == old(dev.cache)
      invariant Run(s, WriteOps(TableWrites(parts[..i]))) == Outcome(dev.State(), true)
    {
      TableWritesMore(parts, i);
      RunAppend(s, WriteOps(TableWrites(parts[..i])), WriteOps(PartWrites(parts[i], i)));
      TableWritesGrow(parts, i + 1);
      ok := WritePart(dev, parts[i], i);
      if !ok {
        RunStops(s, WriteOps(TableWrites(parts[..i + 1])), WriteOps(TableWrites(parts)));
        return;
      }
    }
    assert parts[..|parts|] == parts;
  }

  lemma RunConversion(s: Session, zero1: seq<Extent>, zero2: seq<Extent>, id: seq<Extent>, table: seq<Extent>)
    requires 0 < |s.dev.cache|
    ensures var r := Run(s, WriteOps(zero1)); var q := Run(r.session, WriteOps(zero2)); var p := Run(q.session, WriteOps(id));
      Run(s, WriteOps(zero1 + zero2 + (id + table)))
      == if !r.ok then r else if !q.ok then q else if !p.ok then p else Run(p.session, WriteOps(table))
  {
    WriteOpsAppend(zero1 + zero2, id + table);
    WriteOpsAppend(zero1, zero2);
    WriteOpsAppend(id, table);
    RunAppend(s, WriteOps(zero1 + zero2), WriteOps(id + table));
    RunAppend(s, WriteOps(zero1), WriteOps(zero2));
    RunAppend(Run(Run(s, WriteOps(zero1)).session, WriteOps(zero2)).session, WriteOps(id), WriteOps(table));
  }

  /** The writing half of the conversion. */
  method Convert(dev: Device, parts: seq<Part>, lb: nat, alternate: nat, id: seq<byte>) returns (ok: bool)
    requires dev.Ready() && |parts| <= 4 && |id| == 4
    modifies dev, dev.disk, dev.cache, dev.undo
    ensures dev.Ran(old(Run(dev.State(), WriteOps(ConvertWrites(lb, alternate, id, parts)))), ok) && dev.cache == old(dev.cache)
  {
    hide DiskSession.Run, ZeroRun, IdWrites, TableWrites, Scripts.WriteOps;
    RunConversion(dev.State(), ZeroRun(0, 34, lb), ZeroRun(alternate - 32, 33, lb), IdWrites(id), TableWrites(parts));
    ok := ZeroBlocks(dev, 0, 34, lb);
    if !ok { return; }
    ok := ZeroBlocks(dev, alternate - 32, 33, lb);
    if !ok { return; }
    ok := WriteId(dev, id);
    if !ok { return; }
    ok := WriteTable(dev, parts);
  }

  // ---------- what the converted disk holds ----------

  ghost predicate ZeroFront(v: seq<byte>, n: nat) {
    n <= |v| && forall q :: 0 <= q < n ==> v[q] == 0
  }

  lemma {:induction false} ZeroRunKeepsZero(v: seq<byte>, start: int, n: nat, lb: nat, front: nat)
    requires ZeroFront(v, front)
    ensures ZeroFront(ApplyAll(v, ZeroRun(start, n, lb)), front)
  {
    if n > 0 {
      ZeroRunKeepsZero(v, start, n - 1, lb, front);
      ApplyOne(v, ZeroRun(start, n - 1, lb), Extent(BlockAddress(start + n - 1, lb), Zeros(lb)));
    }
  }

  lemma {:induction false} ZeroRunClears(v: seq<byte>, n: nat, lb: nat)
    requires 0 < n && lb <= |v|
    ensures ZeroFront(ApplyAll(v, ZeroRun(0, n, lb)), lb)
  {
    ApplyOne(v, ZeroRun(0, n - 1, lb), Extent(BlockAddress(n - 1, lb), Zeros(lb)));
    if n > 1 {
      ZeroRunClears(v, n - 1, lb);
    } else {
      assert BlockAddress(0, lb) == 0;
    }
  }

  /** The converted disk has the new ID, the gathered partitions in the first slots with no active
      flag, empty slots after them, and zeros everywhere else in the first sector. */
  ghost predicate FirstSector(f: seq<byte>, id: seq<byte>, parts: seq<Part>)
    requires |id| == 4 && |parts| <= 4
  {
    && 512 <= |f| && f[DISK_ID..DISK_ID + 4] == id
    && (forall i :: 0 <= i < |parts| ==> f[TABLE + i * 16..TABLE + i * 16 + 16] == SlotBytes(0, parts[i]))
    && (forall q :: 0 <= q < DISK_ID || DISK_ID + 4 <= q < TABLE || TABLE + |parts| * 16 <= q < 512 ==> f[q] == 0)
  }

  lemma ConversionSpec(v: seq<byte>, lb: nat, alternate: nat, id: seq<byte>, parts: seq<Part>)
    requires 512 <= lb <= |v| && |id| == 4 && |parts| <= 4
    ensures FirstSector(ConvertedDisk(v, lb, alternate, id, parts), id, parts)
  {
    var cleared := ApplyAll(v, Nuke(lb, alternate));
    ApplyAllAppend(v, ZeroRun(0, 34, lb), ZeroRun(alternate - 32, 33, lb));
    ZeroRunClears(v, 34, lb);
    ZeroRunKeepsZero(ApplyAll(v, ZeroRun(0, 34, lb)), alternate - 32, 33, lb, lb);
    IdStored(cleared, id);
    TableFilled(ApplyAll(cleared, IdWrites(id)), parts);
    TableOverId(cleared, ApplyAll(cleared, IdWrites(id)), ConvertedDisk(v, lb, alternate, id, parts), lb, id, parts);
  }

  /** Address `q` lies in one of the `n` blocks from `start` on. */
  predicate InRun(start: int, n: nat, lb: nat, q: nat) {
    n > 0 && (InRun(start, n - 1, lb, q)
              || BlockAddress(start + n - 1, lb) <= q < BlockAddress(start + n - 1, lb) + lb)
  }

  lemma {:induction false} ZeroRunByte(v: seq<byte>, start: int, n: nat, lb: nat, q: nat)
    requires q < |v|
    ensures ApplyAll(v, ZeroRun(start, n, lb))[q] == if InRun(start, n, lb, q) then 0 else v[q]
  {
    if n > 0 {
      ZeroRunByte(v, start, n - 1, lb, q);
      ApplyOne(v, ZeroRun(start, n - 1, lb), Extent(BlockAddress(start + n - 1, lb), Zeros(lb)));
    }
  }

  lemma NukedByte(v: seq<byte>, lb: nat, alternate: nat, q: nat)
    requires q < |v|
    ensures ApplyAll(v, Nuke(lb, alternate))[q]
         == if InRun(0, 34, lb, q) || InRun(alternate - 32, 33, lb, q) then 0 else v[q]
  {
    ApplyAllAppend(v, ZeroRun(0, 34, lb), ZeroRun(alternate - 32, 33, lb));
    ZeroRunByte(v, 0, 34, lb, q);
    ZeroRunByte(ApplyAll(v, ZeroRun(0, 34, lb)), alternate - 32, 33, lb, q);
  }

  lemma TableElsewhere(cleared: seq<byte>, id: seq<byte>, parts: seq<Part>, q: nat)
    requires 512 <= q < |cleared| && |id| == 4 && |parts| <= 4
    ensures ApplyAll(ApplyAll(cleared, IdWrites(id)), TableWrites(parts))[q] == cleared[q]
  {
    IdStored(cleared, id);
    TableFilled(ApplyAll(cleared, IdWrites(id)), parts);
  }

  /** Behind the first sector the blocks of both tables are zero, and everything else is as it was. */
  lemma ConversionElsewhere(v: seq<byte>, lb: nat, alternate: nat, id: seq<byte>, parts: seq<Part>, q: nat)
    requires 512 <= q < |v| && |id| == 4 && |parts| <= 4
    ensures ConvertedDisk(v, lb, alternate, id, parts)[q]
         == if InRun(0, 34, lb, q) || InRun(alternate - 32, 33, lb, q) then 0 else v[q]
  {
    NukedByte(v, lb, alternate, q);
    TableElsewhere(ApplyAll(v, Nuke(lb, alternate)), id, parts, q);
  }

  lemma IdStored(v: seq<byte>, id: seq<byte>)
    requires |id| == 4 && 512 <= |v|
    ensures ApplyAll(v, IdWrites(id)) == Overwrite(v, DISK_ID, id)
  {
    IdPrefixStored(v, id, 4);
    assert IdWrites(id)[..4] == IdWrites(id) && id[..4] == id;
  }

  lemma {:induction false} IdPrefixStored(v: seq<byte>, id: seq<byte>, k: nat)
    requires k <= |id|
    ensures ApplyAll(v, IdWrites(id)[..k]) == Overwrite(v, DISK_ID, id[..k])
  {
    if k > 0 {
      IdPrefixStored(v, id, k - 1);
      ApplyOne(v, IdWrites(id)[..k - 1], IdWrites(id)[k - 1]);
      assert IdWrites(id)[..k - 1] + [IdWrites(id)[k - 1]] == IdWrites(id)[..k];
    }
  }

  lemma TableOverId(cleared: seq<byte>, named: seq<byte>, f: seq<byte>, lb: nat, id: seq<byte>, parts: seq<Part>)
    requires 512 <= lb <= |cleared| == |f| && ZeroFront(cleared, lb) && |id| == 4 && |parts| <= 4
    requires named == Overwrite(cleared, DISK_ID, id)
    requires forall i :: 0 <= i < |parts| ==> Shows(f, TABLE + i * 16, SlotBytes(named[TABLE + i * 16], parts[i]))
    requires SameOutside(named, f, TABLE, TABLE + |parts| * 16)
    ensures FirstSector(f, id, parts)
  {
  }

  /** What a slot of the new table says of a partition. */
  function SlotFor(p: Part): Slot {
    Slot(0, ClampChs(p.start), p.kind, ClampChs(p.end), p.start, SectorCount(p))
  }

  /** Every converted partition decodes to its own start, type, count and addresses. */
  lemma ConvertedDecodes(v: seq<byte>, lb: nat, alternate: nat, id: seq<byte>, parts: seq<Part>, i: nat)
    requires 512 <= lb <= |v| && |id| == 4 && |parts| <= 4 && i < |parts| && Convertible(parts[i])
    ensures var f := ConvertedDisk(v, lb, alternate, id, parts);
      TABLE + i * 16 + 16 <= |f| && DecodeSlot(f[TABLE + i * 16..TABLE + i * 16 + 16]) == SlotFor(parts[i])
  {
    ConversionSpec(v, lb, alternate, id, parts);
    SlotDecodes(0, parts[i]);
  }

  // ---------- the whole conversion ----------

  /** The new table lists the used entries of the old one: slot `i` decodes to start, end and type of the
      `i`-th of them, and the slots behind them are empty. */
  ghost predicate TableConverted(v: seq<byte>, f: seq<byte>, base: nat, size: nat, count: nat) {
    var used := UsedIndices(v, base, size, count);
    && 512 <= |f| && AllFit(v, base, size, used)
    && (forall i :: 0 <= i < |used| ==>
          DecodeSlot(f[TABLE + i * 16..TABLE + i * 16 + 16]) == SlotFor(PartOf(EntryOf(v, base, size, used[i]))))
    && (forall q :: TABLE + |used| * 16 <= q < TABLE + 64 ==> f[q] == 0)
  }

  lemma ConversionLists(v: seq<byte>, base: nat, size: nat, count: nat, lb: nat, alternate: nat, id: seq<byte>,
                        parts: seq<Part>)
    requires 512 <= lb <= |v| && |id| == 4 && GatherAll(v, base, size, count) == Some(parts)
    ensures |parts| <= 4 && TableConverted(v, ConvertedDisk(v, lb, alternate, id, parts), base, size, count)
  {
    hide DecodeSlot, ConvertedDisk, EntryOf, Fit, SlotFor;
    var used, f := UsedIndices(v, base, size, count), ConvertedDisk(v, lb, alternate, id, parts);
    GatheredParts(v, base, size, count);
    ConversionSpec(v, lb, alternate, id, parts);
    forall i | 0 <= i < |used|
      ensures DecodeSlot(f[TABLE + i * 16..TABLE + i * 16 + 16]) == SlotFor(PartOf(EntryOf(v, base, size, used[i])))
    {
      PartConvertible(EntryOf(v, base, size, used[i]));
      ConvertedDecodes(v, lb, alternate, id, parts, i);
    }
  }

  lemma PartConvertible(entry: seq<byte>)
    requires |entry| == ENTRY_SIZE && Fit(entry)
    ensures Convertible(PartOf(entry))
  {
  }

  const SIGNATURE_AT: nat := 32769

  /** "CD001" */
  const ISO_SIGNATURE: seq<byte> := [0x43, 0x44, 0x30, 0x30, 0x31]

  /** The disk shows the signature of an ISO 9660 volume. */
  predicate IsIso(v: seq<byte>) {
    SIGNATURE_AT + 5 <= |v| && v[SIGNATURE_AT..SIGNATURE_AT + 5] == ISO_SIGNATURE
  }

  /** The disk is converted: an ISO volume whose used entries all fit. */
  ghost predicate Converts(v: seq<byte>, base: nat, size: nat, count: nat) {
    IsIso(v) && AllFit(v, base, size, UsedIndices(v, base, size, count))
  }

  /** What the conversion does to a device that shows `v`: read the signature and the entries, and write. */
  function ConversionOps(v: seq<byte>, base: nat, size: nat, count: nat, lb: nat, alternate: nat, id: seq<byte>): (ops: seq<Op>) {
    [Op.Read(SIGNATURE_AT, 5)]
    + if !IsIso(v) then []
      else
        var r := GatherAll(v, base, size, count);
        GatherOps(v, base, size, count) + if r.Some? then WriteOps(ConvertWrites(lb, alternate, id, r.value)) else []
  }

  datatype Conversion = ConversionFailed | LeftAlone | Converted

  /** The conversion of `bios_install`, from the test of the signature to the last entry; `behind` if the
      addresses of a fifth partition were stored behind the array. */
  method ConvertGpt(dev: Device, base: nat, size: nat, count: nat, lb: nat, alternate: nat, id: seq<byte>)
    returns (r: Conversion, behind: bool)
    requires dev.Ready() && |id| == 4
    modifies dev, dev.disk, dev.cache, dev.undo
    ensures dev.Ran(old(Run(dev.State(), ConversionOps(View(dev.Model()), base, size, count, lb, alternate, id))), !r.ConversionFailed?)
    ensures dev.cache == old(dev.cache)
    ensures !r.ConversionFailed? ==> (r.Converted? <==> old(Converts(View(dev.Model()), base, size, count)))
    ensures !r.ConversionFailed? ==> behind == old(IsIso(View(dev.Model())) && AnyBehind(View(dev.Model()), base, size, count))
  {
    hide ConvertWrites, Mbr.Fit, Mbr.EntryOf, UsedIndices, DiskSession.Run, GatherOps, AnyBehind;
    ghost var s, v := dev.State(), View(dev.Model());
    behind := false;
    GatheredParts(v, base, size, count);
    ghost var rest := ConversionOps(v, base, size, count, lb, alternate, id)[1..];
    RunAppend(s, [Op.Read(SIGNATURE_AT, 5)], rest);
    assert [Op.Read(SIGNATURE_AT, 5)] + rest == ConversionOps(v, base, size, count, lb, alternate, id);
    var ok, signature := dev.Peek(SIGNATURE_AT, 5);
    if !ok { return ConversionFailed, behind; }
    RunNothing(dev.State());
    SignatureRead(v);
    if signature != ISO_SIGNATURE { return LeftAlone, behind; }
    r, behind := ConvertIso(dev, base, size, count, lb, alternate, id);
  }

  lemma SignatureRead(v: seq<byte>)
    ensures IsIso(v) <==> Slice(v, SIGNATURE_AT, 5) == ISO_SIGNATURE
  {
    assert ISO_SIGNATURE[0] != 0;
  }

  method ConvertIso(dev: Device, base: nat, size: nat, count: nat, lb: nat, alternate: nat, id: seq<byte>)
    returns (r: Conversion, behind: bool)
    requires dev.Ready() && |id| == 4
    modifies dev, dev.disk, dev.cache, dev.undo
    ensures var v := old(View(dev.Model()));
      var all := GatherAll(v, base, size, count);
      && dev.Ran(old(Run(dev.State(), GatherOps(v, base, size, count)
                   + if all.Some? then WriteOps(ConvertWrites(lb, alternate, id, all.value)) else [])), !r.ConversionFailed?)
      && (!r.ConversionFailed? ==> (r.Converted? <==> all.Some?) && behind == AnyBehind(v, base, size, count))
    ensures dev.cache == old(dev.cache)
  {
    hide ConvertWrites, DiskSession.Run, GatherOps, AnyBehind, GatherAll, Scripts.WriteOps;
    ghost var s, v := dev.State(), View(dev.Model());
    ghost var all := GatherAll(v, base, size, count);
    ghost var rest := if all.Some? then WriteOps(ConvertWrites(lb, alternate, id, all.value)) else [];
    RunAppend(s, GatherOps(v, base, size, count), rest);
    AtMostFour(v, base, size, count);
    var plan;
    plan, behind := GatherParts(dev, base, size, count);
    match plan {
      case Failed => r := ConversionFailed;
      case Unconverted =>
        RunNothing(dev.State());
        r := LeftAlone;
      case Convert(parts) =>
        var ok := Convert(dev, parts, lb, alternate, id);
        r := if ok then Conversion.Converted else ConversionFailed;
    }
  }

  // ---------- when it succeeds ----------

  lemma ConversionAddresses(lb: nat, alternate: nat, id: seq<byte>, parts: seq<Part>)
    requires |id| == 4 && |parts| <= 4
    ensures Addressable(WriteOps(ConvertWrites(lb, alternate, id, parts)))
    ensures |ConvertWrites(lb, alternate, id, parts)| == 71 + 5 * |parts|
  {
    ZeroRunAddresses(0, 34, lb);
    ZeroRunAddresses(alternate - 32, 33, lb);
    TableAddresses(parts);
    var a, b := Nuke(lb, alternate), IdWrites(id) + TableWrites(parts);
    var c: seq<Extent> := a + b;
    assert forall k :: 0 <= k < |c| ==> c[k].loc < WORD;
  }

  lemma {:induction false} ZeroRunAddresses(start: int, n: nat, lb: nat)
    ensures |ZeroRun(start, n, lb)| == n && forall k :: 0 <= k < n ==> ZeroRun(start, n, lb)[k].loc < WORD
  {
    if n > 0 {
      ZeroRunAddresses(start, n - 1, lb);
    }
  }

  lemma {:induction false} TableAddresses(parts: seq<Part>)
    requires |parts| <= 4
    ensures |TableWrites(parts)| == 5 * |parts|
    ensures forall k :: 0 <= k < |TableWrites(parts)| ==> TableWrites(parts)[k].loc < 512
  {
    if parts != [] {
      TableAddresses(parts[..|parts| - 1]);
    }
  }

  lemma ConversionOpsAddresses(v: seq<byte>, base: nat, size: nat, count: nat, lb: nat, alternate: nat, id: seq<byte>)
    requires |id| == 4
    ensures var ops := ConversionOps(v, base, size, count, lb, alternate, id);
      Addressable(ops) && Writes(ops) <= 91
  {
    hide ConvertWrites;
    var r := GatherAll(v, base, size, count);
    var probe, gather := [Op.Read(SIGNATURE_AT, 5)], GatherOps(v, base, size, count);
    WritesOfWrites(probe);
    if IsIso(v) {
      GatherOpsRead(v, base, size, count);
      WritesOfWrites(gather);
      AtMostFour(v, base, size, count);
      var writes := if r.Some? then WriteOps(ConvertWrites(lb, alternate, id, r.value)) else [];
      if r.Some? {
        ConversionAddresses(lb, alternate, id, r.value);
        WritesOfWrites(writes);
      }
      WritesAppend(gather, writes);
      WritesAppend(probe, gather + writes);
    } else {
      WritesAppend(probe, []);
    }
  }

  /** The contents after the conversion. */
  lemma ConversionView(v: seq<byte>, base: nat, size: nat, count: nat, lb: nat, alternate: nat, id: seq<byte>)
    ensures var f := ViewAfter(v, ConversionOps(v, base, size, count, lb, alternate, id));
      f == if IsIso(v) && GatherAll(v, base, size, count).Some?
           then ConvertedDisk(v, lb, alternate, id, GatherAll(v, base, size, count).value) else v
  {
    hide ConvertWrites, ConvertedDisk;
    var r := GatherAll(v, base, size, count);
    var probe, gather := [Op.Read(SIGNATURE_AT, 5)], GatherOps(v, base, size, count);
    ReadsKeepView(v, probe);
    if IsIso(v) {
      GatherOpsRead(v, base, size, count);
      ReadsKeepView(v, gather);
      var writes := if r.Some? then WriteOps(ConvertWrites(lb, alternate, id, r.value)) else [];
      ViewAfterAppend(v, probe, gather + writes);
      ViewAfterAppend(v, gather, writes);
      if r.Some? {
        ViewAfterWrites(v, ConvertWrites(lb, alternate, id, r.value));
        ConvertWritesDisk(v, lb, alternate, id, r.value);
      }
    }
  }
}
