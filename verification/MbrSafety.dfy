/** Which installs behind a master boot record can be undone whatever fails. */
module MbrSafety {
  import opened Bytes
  import opened UndoLog
  import opened BlockCache
  import opened DiskSession
  import opened Uninstall
  import opened DiskRecovery
  import opened Scripts
  import opened TornRun
  import opened BootSector
  import opened Mbr
  import opened MbrCheck
  import opened MbrVerdict
  import opened GptProbe
  import opened GptEmbed
  import opened BiosInstall
  import opened InstallEnd
  import opened InstallResults
  import opened PathResults
  import Blocks

  // ---------- steps ----------

  /** Everything the log has saved ends before address `m`. */
  ghost predicate LogBelow(log: seq<Extent>, m: nat) {
    forall k :: 0 <= k < |log| ==> log[k].loc + |log[k].data| <= m
  }

  lemma {:induction false} NoneSaved(log: seq<Extent>, m: nat, p: nat)
    requires LogBelow(log, m) && m <= p
    ensures FirstSaved(log, p).None?
    decreases |log|
  {
    if log != [] {
      NoneSaved(log[1..], m, p);
    }
  }

  lemma {:induction false} AfterReads(v: seq<byte>, log: seq<Extent>, size: nat, looks: seq<Op>, rest: seq<Op>)
    requires 0 < size && OnlyReads(looks) && AllInside(|v|, looks)
    ensures HarmlessRun(v, log, size, looks + rest) <==> HarmlessRun(v, log, size, rest)
    decreases |looks|
  {
    if looks == [] {
      assert looks + rest == rest;
    } else {
      assert (looks + rest)[1..] == looks[1..] + rest;
      AfterReads(v, log, size, looks[1..], rest);
    }
  }

  lemma AfterWrite(v: seq<byte>, log: seq<Extent>, size: nat, op: Op, rest: seq<Op>)
    requires 0 < size && op.Write? && Inside(|v|, op) && |log| < LOG_MAX
    ensures HarmlessRun(v, log, size, [op] + rest)
            <==> HarmlessOp(v, log, size, op) && HarmlessRun(NextView(v, op), NextLog(v, log, op), size, rest)
  {
    assert ([op] + rest)[1..] == rest;
  }

  /** A write inside the first sector is one inside the first block. */
  lemma InFirstBlock(v: seq<byte>, log: seq<Extent>, size: nat, op: Op)
    requires SECTOR <= size && op.Write? && op.loc + |op.data| <= SECTOR
    ensures HarmlessOp(v, log, size, op)
  {
    if op.data != [] {
      Blocks.BlockOfStart(0, size, op.loc + |op.data| - 1);
    }
  }

  predicate InSector(ops: seq<Op>) {
    forall k :: 0 <= k < |ops| ==> ops[k].Write? && ops[k].loc + |ops[k].data| <= SECTOR
  }

  lemma {:induction false} SectorWritesHarmless(v: seq<byte>, log: seq<Extent>, size: nat, ops: seq<Op>)
    requires SECTOR <= size && InSector(ops)
    ensures HarmlessRun(v, log, size, ops)
    decreases |ops|
  {
    if ops != [] && Doable(v, log, ops[0]) {
      InFirstBlock(v, log, size, ops[0]);
      SectorWritesHarmless(NextView(v, ops[0]), NextLog(v, log, ops[0]), size, ops[1..]);
    }
  }

  // ---------- the boot phase ----------

  /** What a write would flush before its last block is on the disk already. */
  predicate AlreadyThere(v: seq<byte>, loc: nat, data: seq<byte>, size: nat)
    requires 0 < size
  {
    forall p :: loc <= p < loc + LastBlock(loc, |data|, size) && p < |v| ==> v[p] == data[p - loc]
  }

  /** A write of bytes that the log does not know. */
  lemma UnloggedWrite(v: seq<byte>, g: seq<byte>, log: seq<Extent>, size: nat, loc: nat, data: seq<byte>)
    requires 0 < size && LogBelow(log, loc) && |g| == |v| && forall p :: loc <= p < |v| ==> g[p] == v[p]
    ensures HarmlessOp(g, log, size, Op.Write(loc, data)) <==> AlreadyThere(v, loc, data, size)
  {
    forall p | loc <= p ensures FirstSaved(log, p).None? {
      NoneSaved(log, loc, p);
    }
  }

  /** The halves of an image behind its sector. */
  function HalfA(img: seq<byte>): (a: seq<byte>)
    requires Splits(|img|)
  {
    img[SECTOR..SECTOR + SizeA(|img|)]
  }

  function HalfB(img: seq<byte>): (b: seq<byte>)
    requires Splits(|img|)
  {
    img[SECTOR + SizeA(|img|)..]
  }

  ghost predicate HalvesThere(v: seq<byte>, img: seq<byte>, size: nat)
    requires Splits(|img|) && 0 < size
  {
    AlreadyThere(v, SECTOR, HalfA(img), size) && AlreadyThere(v, SECTOR + SizeA(|img|), HalfB(img), size)
  }

  /** The last six writes of the boot phase. */
  function Patches(v: seq<byte>, img: seq<byte>): (ops: seq<Op>)
    requires Splits(|img|)
  {
    WriteOps(PlaceWrites(Stages(SizeA(|img|), SizeB(|img|), SECTOR, SECTOR + SizeA(|img|)))
             + SavedWrites(Slice(v, 218, 6), Slice(v, 440, 70)))
  }

  lemma BootShape(v: seq<byte>, img: seq<byte>)
    requires Splits(|img|)
    ensures var locB := SECTOR + SizeA(|img|);
      BootOps(v, img, SECTOR, locB)
      == [Op.Read(218, 6), Op.Read(440, 70)]
         + ([Op.Write(0, img[..SECTOR])] + ([Op.Write(SECTOR, HalfA(img))] + ([Op.Write(locB, HalfB(img))] + Patches(v, img))))
    ensures InSector(Patches(v, img))
  {
    hide SizeA, SizeB, Bytes.LittleEndian;
    var locB := SECTOR + SizeA(|img|);
    var i, p, s := ImageWrites(img, SECTOR, locB), PlaceWrites(Stages(SizeA(|img|), SizeB(|img|), SECTOR, locB)),
                   SavedWrites(Slice(v, 218, 6), Slice(v, 440, 70));
    assert i + p + s == i + (p + s);
    WriteOpsAppend(i, p + s);
    assert WriteOps(i) == [Op.Write(0, img[..SECTOR]), Op.Write(SECTOR, HalfA(img)), Op.Write(locB, HalfB(img))];
  }

  /** The boot phase on a log of the sector alone: exactly the two halves can do harm. */
  lemma BootHarmlessExactly(v: seq<byte>, f: seq<byte>, log: seq<Extent>, img: seq<byte>, size: nat)
    requires HalvesFit(|img|) && SECTOR <= size && |img| <= |v| == |f| && LogBelow(log, SECTOR) && |log| <= 1
    requires forall p :: SECTOR <= p < |v| ==> f[p] == v[p]
    ensures HarmlessRun(f, log, size, BootOps(f, img, SECTOR, SECTOR + SizeA(|img|))) <==> HalvesThere(v, img, size)
  {
    hide BootOps, Patches, HarmlessRun, HarmlessOp, AlreadyThere, AllInside, SizeA, FirstSaved;
    BootShape(f, img);
    var locB, tail := SECTOR + SizeA(|img|), Patches(f, img);
    var w0, wa, wb := Op.Write(0, img[..SECTOR]), Op.Write(SECTOR, HalfA(img)), Op.Write(locB, HalfB(img));
    var looks := [Op.Read(218, 6), Op.Read(440, 70)];
    assert AllInside(|f|, looks) by { SectorReads(|f|); }
    AfterReads(f, log, size, looks, [w0] + ([wa] + ([wb] + tail)));
    AfterWrite(f, log, size, w0, [wa] + ([wb] + tail));
    InFirstBlock(f, log, size, w0);
    var f1, log1 := NextView(f, w0), NextLog(f, log, w0);
    AfterWrite(f1, log1, size, wa, [wb] + tail);
    UnloggedWrite(v, f1, log1, size, SECTOR, HalfA(img));
    var f2, log2 := NextView(f1, wa), NextLog(f1, log1, wa);
    AfterWrite(f2, log2, size, wb, tail);
    UnloggedWrite(v, f2, log2, size, locB, HalfB(img));
    SectorWritesHarmless(NextView(f2, wb), NextLog(f2, log2, wb), size, tail);
  }

  lemma SectorReads(size: nat)
    requires SECTOR <= size
    ensures AllInside(size, [Op.Read(218, 6), Op.Read(440, 70)])
  {
  }

  // ---------- the whole install ----------

  /** The checks of a fit table are reads, and at most one flag written. */
  lemma CheckShape(v: seq<byte>) returns (looks: seq<Op>)
    requires MbrFit(v)
    ensures OnlyReads(looks)
    ensures CheckScript(v, false).ops == looks + if AnyActive(v, 4) then [] else [Op.Write(TABLE, [0x80])]
  {
    hide CheckedSlots, CheckedMarks;
    PlainSlots(v, 4);
    PlainMarks(v, |MARKS|);
    var a := CheckedSlots(v, 4, false);
    ReadsKeepView(v, a.ops);
    var b := CheckedMarks(v, |MARKS|, false);
    looks := a.ops + b.ops;
    assert a.ops + (b.ops + []) == looks + [];
    assert a.ops + (b.ops + [Op.Write(TABLE, [0x80])]) == looks + [Op.Write(TABLE, [0x80])];
  }

  /** The same for the script of the whole install. */
  lemma MbrHarmlessExactly(v: seq<byte>, o: Options, img: seq<byte>, size: nat)
    requires HalvesFit(|img|) && !o.force && FindGpt(v, LB_GUESSES).None? && MbrFit(v) && SECTOR <= size
    requires 4096 + HEADER_SIZE <= |v| && |img| <= |v|
    ensures HarmlessRun(v, [], size, InstallScript(v, o, img).ops) <==> HalvesThere(v, img, size)
  {
    hide FindOps, FindGpt, CheckScript, BootOps, HarmlessRun, MbrFit, HalvesThere, AllInside, AnyActive, ViewAfter;
    var m, f := CheckScript(v, false), Activated(v);
    var boot := BootOps(f, img, SECTOR, SECTOR + SizeA(|img|));
    CheckedPlainly(v);
    ProbeInside(v);
    var looks := CheckShape(v);
    var flag := if AnyActive(v, 4) then [] else [Op.Write(TABLE, [0x80])];
    InstallShape(v, o, img, looks, flag);
    CheckNear(v, false);
    NearInside(|v|, m.ops);
    AllInsideAppend(|v|, looks, flag);
    AfterReads(v, [], size, FindOps(v, LB_GUESSES), looks + (flag + boot));
    AfterReads(v, [], size, looks, flag + boot);
    if AnyActive(v, 4) {
      assert flag + boot == boot;
      BootHarmlessExactly(v, v, [], img, size);
    } else {
      AfterWrite(v, [], size, Op.Write(TABLE, [0x80]), boot);
      InFirstBlock(v, [], size, Op.Write(TABLE, [0x80]));
      BootHarmlessExactly(v, f, NextLog(v, [], Op.Write(TABLE, [0x80])), img, size);
    }
  }

  /** An install behind a fit table, on a disk without a GPT, can be undone under every fault script exactly if both
      halves of stage 2, as far as the block in which each ends, are on the disk already. */
  lemma MbrSafeExactly(s: Session, o: Options, img: seq<byte>)
    requires Fresh(s) && WholeBlocks(s.dev) && SECTOR <= |s.dev.cache| && HalvesFit(|img|) && |o.id| == 4
    requires !o.force && FindGpt(s.dev.disk, LB_GUESSES).None? && MbrFit(s.dev.disk)
    requires 4096 + HEADER_SIZE <= |s.dev.disk| && |img| <= |s.dev.disk|
    ensures (forall faults: seq<Fault> ::
               UndoableAt(EndOf(Scripted(s, faults), InstallScript(s.dev.disk, o, img)).session, s.dev.disk))
            <==> HalvesThere(s.dev.disk, img, |s.dev.cache|)
  {
    hide InstallScript, HarmlessRun, HalvesThere, FindGpt, MbrFit, EndOf;
    var v := s.dev.disk;
    MbrHarmlessExactly(v, o, img, |s.dev.cache|);
    InstallAddresses(v, o, img);
    SafeExactly(s, v, InstallScript(v, o, img));
  }

  lemma InstallShape(v: seq<byte>, o: Options, img: seq<byte>, looks: seq<Op>, flag: seq<Op>)
    requires Splits(|img|) && !o.force && FindGpt(v, LB_GUESSES).None? && MbrFit(v)
    requires CheckScript(v, false).ops == looks + flag
    ensures InstallScript(v, o, img).ops
         == FindOps(v, LB_GUESSES) + (looks + (flag + BootOps(Activated(v), img, SECTOR, SECTOR + SizeA(|img|))))
  {
    hide FindOps, FindGpt, CheckScript, BootOps, MbrFit, ViewAfter, Activated;
    CheckedPlainly(v);
    var boot := BootOps(Activated(v), img, SECTOR, SECTOR + SizeA(|img|));
    assert looks + flag + boot == looks + (flag + boot);
  }
}
