/** Installs with `--force-mbr`, and the two that are refused on a GPT. */
module ForcedInstall {
  import opened Bytes
  import opened UndoLog
  import opened BlockCache
  import opened DiskSession
  import opened Scripts
  import opened BootSector
  import opened Mbr
  import opened MbrConversion
  import opened MbrCheck
  import opened MbrVerdict
  import opened MbrBytes
  import opened GptProbe
  import opened GptEmbed
  import opened BiosInstall
  import opened PathResults

  /** The path behind a forced master boot record. */
  lemma ForcedPath(v: seq<byte>, img: seq<byte>)
    requires HalvesFit(|img|) && 1082 <= |v|
    ensures var t, f, locB := MbrPath(v, true, img), ViewAfter(v, CheckScript(v, true).ops), SECTOR + SizeA(|img|);
      && (t.go <==> !TableLow(v)) && Writes(t.ops) <= 20
      && (t.go ==> (AllInside(|v|, t.ops) <==> |img| <= |v|) && ViewAfter(v, t.ops) == ApplyAll(f, BootWrites(f, img, SECTOR, locB)))
  {
    hide CheckScript, BootOps, BootWrites, AllInside, ViewAfter, Near, SizeA, Splits, HalvesFit, ApplyAll, TableLow, ForcedByte;
    FitSplits(|img|);
    var m := CheckScript(v, true);
    var f := ViewAfter(v, m.ops);
    ForcedBytes(v);
    CheckNear(v, true);
    BehindSector(f, img, |v|);
    JoinChecked(v, m, BootOps(f, img, SECTOR, SECTOR + SizeA(|img|)));
  }

  lemma ForcedIs(v: seq<byte>, o: Options, img: seq<byte>)
    requires Splits(|img|) && o.force && FindGpt(v, LB_GUESSES).None?
    ensures var p := MbrPath(v, true, img); InstallScript(v, o, img) == Script(FindOps(v, LB_GUESSES) + p.ops, p.go)
  {
    hide MbrPath, FindOps, FindGpt;
  }

  lemma JoinProbe(v: seq<byte>, probe: seq<Op>, ops: seq<Op>)
    requires Writes(probe) == 0 && ViewAfter(v, probe) == v
    ensures Writes(probe + ops) == Writes(ops) && ViewAfter(v, probe + ops) == ViewAfter(v, ops)
    ensures AllInside(|v|, probe + ops) <==> AllInside(|v|, probe) && AllInside(|v|, ops)
  {
    hide AllInside, ViewAfter;
    WritesAppend(probe, ops);
    AllInsideAppend(|v|, probe, ops);
    ViewAfterAppend(v, probe, ops);
  }

  lemma ProbeReads(v: seq<byte>)
    ensures Writes(FindOps(v, LB_GUESSES)) == 0 && ViewAfter(v, FindOps(v, LB_GUESSES)) == v
  {
    hide FindOps, ViewAfter;
    FindOpsRead(v, LB_GUESSES);
  }

  lemma ForcedScript(v: seq<byte>, o: Options, img: seq<byte>)
    requires Splits(|img|) && o.force && FindGpt(v, LB_GUESSES).None?
    ensures var t, p := InstallScript(v, o, img), MbrPath(v, true, img);
      && t.go == p.go && Writes(t.ops) == Writes(p.ops) && ViewAfter(v, t.ops) == ViewAfter(v, p.ops)
      && (AllInside(|v|, t.ops) <==> 4096 + HEADER_SIZE <= |v| && AllInside(|v|, p.ops))
  {
    hide *;
    ForcedIs(v, o, img);
    ProbeInside(v);
    ProbeReads(v);
    JoinProbe(v, FindOps(v, LB_GUESSES), MbrPath(v, true, img).ops);
  }

  /** On a disk without a GPT a forced install succeeds exactly if no partition starts below block 63, and the disk has
      room for the image and for what is probed: flags and marks of file systems do not matter. */
  lemma ForcedInstallExactly(v: seq<byte>, o: Options, img: seq<byte>)
    requires HalvesFit(|img|) && o.force && FindGpt(v, LB_GUESSES).None? && 1082 <= |v|
    ensures Succeeds(v, InstallScript(v, o, img)) <==> !TableLow(v) && 4096 + HEADER_SIZE <= |v| && |img| <= |v|
  {
    hide MbrPath, FindGpt, AllInside, ViewAfter, BootWrites, ApplyAll, SizeA, HalvesFit, InstallScript, TableLow;
    FitSplits(|img|);
    ForcedPath(v, img);
    ForcedScript(v, o, img);
  }

  /** Its disk: the table with its flags cleaned and an active partition, no file system in front of or behind it, and
      the sector leads to all of stage 2. */
  lemma ForcedInstalled(v: seq<byte>, o: Options, img: seq<byte>) returns (f: seq<byte>)
    requires HalvesFit(|img|) && o.force && FindGpt(v, LB_GUESSES).None?
    requires 1082 <= |v| && |img| <= |v| < OFFSET_LIMIT && !TableLow(v)
    ensures |f| == |v| && forall q :: 0 <= q < |v| ==> f[q] == ForcedByte(v, q)
    ensures var g, locB := ViewAfter(v, InstallScript(v, o, img).ops), SECTOR + SizeA(|img|);
      SectorInstalled(f, g, img, SECTOR, locB) && BootRestKept(f, g, |img|, SECTOR, locB)
  {
    hide MbrPath, FindGpt, BootWrites, SectorInstalled, BootRestKept, ViewAfter, InstallScript, TableLow, CheckScript, ApplyAll, ForcedByte;
    f := ViewAfter(v, CheckScript(v, true).ops);
    ForcedPath(v, img);
    ForcedScript(v, o, img);
    ForcedBytes(v);
    PassesToo(v, img);
    BootInstalled(f, img, SECTOR, SECTOR + SizeA(|img|));
  }

  lemma PassesToo(v: seq<byte>, img: seq<byte>)
    requires HalvesFit(|img|)
    ensures MbrPath(v, true, img).go == CheckScript(v, true).go
  {
    hide CheckScript, BootOps;
  }

  /** A GPT is never overwritten by force, and not touched if its secondary header is unsigned. */
  lemma GptRefused(v: seq<byte>, o: Options, img: seq<byte>, lb: nat)
    requires Splits(|img|) && FindGpt(v, LB_GUESSES) == Some(lb)
    requires o.force || !HasSignature(HeaderOn(v, SecondaryAt(HeaderOn(v, lb), lb)))
    ensures !InstallScript(v, o, img).go && Writes(InstallScript(v, o, img).ops) == 0
  {
    hide FindGpt, FindOps, HasSignature, HeaderOn, GptPath;
    FindOpsRead(v, LB_GUESSES);
    var probe := [Op.Read(SecondaryAt(HeaderOn(v, lb), lb), HEADER_SIZE)];
    WritesOfWrites(probe);
    WritesAppend(FindOps(v, LB_GUESSES), probe);
    GuessesPositive(v, lb);
  }

  lemma GuessesPositive(v: seq<byte>, lb: nat)
    requires FindGpt(v, LB_GUESSES) == Some(lb)
    ensures 0 < lb
  {
  }

  // ---------- where the program's behaviour is defined ----------

  /** What an embedding asks of its headers: an entry size that is not zero and not larger in the secondary header, and
      an image of one sector or at least two. */
  lemma ComputableExactly(h1: seq<byte>, h2: seq<byte>, lb: nat, imageSize: nat)
    requires IsHeader(h1) && IsHeader(h2) && (lb == 512 || lb == 4096) && 512 <= imageSize
    ensures Computable(h1, h2, lb, imageSize)
            <==> 0 < EntryBytes(h1) && EntryBytes(h2) <= EntryBytes(h1) && (imageSize == 512 || 1024 <= imageSize)
  {
    SplitsExactly(imageSize);
  }

  /** Without a GPT, with an MBR forced, with an unsigned secondary header, and where a partition is named and nothing is
      converted, the behaviour is defined; behind the arrays of a GPT that is not converted exactly where the
      embedding can be computed, and on an ISO image only where no fifth partition is stored behind its array. */
  lemma DefinedExactly(v: seq<byte>, o: Options, imageSize: nat)
    ensures FindGpt(v, LB_GUESSES).None? || o.force ==> Defined(v, o, imageSize)
    ensures FindGpt(v, LB_GUESSES).Some? && !o.force && !o.convert ==>
      var lb := FindGpt(v, LB_GUESSES).value;
      var h1 := HeaderOn(v, lb);
      var h2 := HeaderOn(v, SecondaryAt(h1, lb));
      Defined(v, o, imageSize) <==> !HasSignature(h2) || o.part.Some? || Computable(h1, h2, lb, imageSize)
    ensures FindGpt(v, LB_GUESSES).Some? && !o.force && o.convert ==>
      var lb := FindGpt(v, LB_GUESSES).value;
      var h1 := HeaderOn(v, lb);
      var h2 := HeaderOn(v, SecondaryAt(h1, lb));
      Defined(v, o, imageSize)
      <==> !HasSignature(h2) || ((IsIso(v) ==> !AnyBehind(v, ArrayAt(h1, lb), EntryBytes(h1), EntryCount(h1)))
                                 && (WillConvert(v, h1, lb) || o.part.Some? || Computable(h1, h2, lb, imageSize)))
  {
    hide FindGpt, HasSignature, HeaderOn, Computable, IsIso, AnyBehind, WillConvert;
  }
}
