/** The whole of `bios_install`, from opening the device to the end of the cleanup. */
module BiosInstall {
  import opened Bytes
  import opened BlockCache
  import opened DiskSession
  import opened DiskRecovery
  import opened Scripts
  import opened Installer
  import opened BootSector
  import opened Mbr
  import opened MbrConversion
  import opened MbrCheck
  import opened MbrVerdict
  import opened GptProbe
  import opened GptEmbed
  import opened PartitionInstall
  import opened GptInstall
  import opened InstallEnd

  /** `--force-mbr`, the absence of `--no-gpt-to-mbr-isohybrid-conversion`, the partition asked for, counted from 0, and
      the four random bytes of a new disk ID. */
  datatype Options = Options(force: bool, convert: bool, part: Option<nat>, id: seq<byte>)

  // ---------- the script of an install ----------

  /** Behind a master boot record: the checks, then the boot phase with the halves right behind the boot sector. */
  function MbrPath(v: seq<byte>, force: bool, img: seq<byte>): (t: Script)
    requires Splits(|img|)
  {
    var m := CheckScript(v, force);
    Then(m, Script(BootOps(ViewAfter(v, m.ops), img, SECTOR, SECTOR + SizeA(|img|)), true))
  }

  /** On a GPT: into the partition asked for, or behind the arrays. */
  function TargetPath(v: seq<byte>, part: Option<nat>, img: seq<byte>, h1: seq<byte>, h2: seq<byte>, lb: nat): (t: Script)
    requires Splits(|img|) && IsHeader(h1) && IsHeader(h2) && 0 < lb
  {
    match part
    case Some(n) => PartitionScript(v, img, h1, n, lb)
    case None => if Computable(h1, h2, lb, |img|) then GptScript(v, h1, h2, lb, img) else Script([], false)
  }

  /** The conversion is carried out. */
  predicate WillConvert(v: seq<byte>, h1: seq<byte>, lb: nat)
    requires IsHeader(h1)
  {
    IsIso(v) && GatherAll(v, ArrayAt(h1, lb), EntryBytes(h1), EntryCount(h1)).Some?
  }

  function ConvertOps(v: seq<byte>, h1: seq<byte>, lb: nat, id: seq<byte>): (ops: seq<Op>)
    requires IsHeader(h1)
  {
    ConversionOps(v, ArrayAt(h1, lb), EntryBytes(h1), EntryCount(h1), lb, AlternateLba(h1), id)
  }

  /** A disk with a GPT: converted first, if that is allowed and it is an image that can be. */
  function GptPath(v: seq<byte>, o: Options, img: seq<byte>, h1: seq<byte>, h2: seq<byte>, lb: nat): (t: Script)
    requires Splits(|img|) && IsHeader(h1) && IsHeader(h2) && 0 < lb
  {
    if !o.convert then TargetPath(v, o.part, img, h1, h2, lb)
    else
      var c := ConvertOps(v, h1, lb, o.id);
      Then(Script(c, true), if WillConvert(v, h1, lb) then MbrPath(ViewAfter(v, c), o.force, img)
                            else TargetPath(v, o.part, img, h1, h2, lb))
  }

  function SecondPath(v: seq<byte>, o: Options, img: seq<byte>, lb: nat): (t: Script)
    requires Splits(|img|) && 0 < lb
  {
    var h1 := HeaderOn(v, lb);
    Then(SecondaryScript(v, h1, lb), GptPath(v, o, img, h1, HeaderOn(v, SecondaryAt(h1, lb)), lb))
  }

  /** Everything an install does to a device that shows `v`, as far as the last flush. */
  function InstallScript(v: seq<byte>, o: Options, img: seq<byte>): (t: Script)
    requires Splits(|img|)
  {
    Then(ProbeScript(v, o.force),
         match FindGpt(v, LB_GUESSES)
         case None => MbrPath(v, o.force, img)
         case Some(lb) => SecondPath(v, o, img, lb))
  }

  /** Where the program's behaviour is defined: no fifth partition is stored behind its array, and an embedding
      has entries to divide by and zeros enough. */
  predicate TargetDefined(part: Option<nat>, imageSize: nat, h1: seq<byte>, h2: seq<byte>, lb: nat)
    requires IsHeader(h1) && IsHeader(h2)
  {
    part.None? ==> Computable(h1, h2, lb, imageSize)
  }

  predicate GptDefined(v: seq<byte>, o: Options, imageSize: nat, h1: seq<byte>, h2: seq<byte>, lb: nat)
    requires IsHeader(h1) && IsHeader(h2)
  {
    && (o.convert && IsIso(v) ==> !AnyBehind(v, ArrayAt(h1, lb), EntryBytes(h1), EntryCount(h1)))
    && (!(o.convert && WillConvert(v, h1, lb)) ==> TargetDefined(o.part, imageSize, h1, h2, lb))
  }

  predicate Defined(v: seq<byte>, o: Options, imageSize: nat) {
    var lb := FindGpt(v, LB_GUESSES);
    lb.Some? && !o.force ==>
      var h1 := HeaderOn(v, lb.value);
      var h2 := HeaderOn(v, SecondaryAt(h1, lb.value));
      HasSignature(h2) ==> GptDefined(v, o, imageSize, h1, h2, lb.value)
  }

  // ---------- on the device ----------

  /** The checks, and the boot phase. */
  method PlaceBehindMbr(dev: Device, force: bool, img: seq<byte>) returns (ok: bool, go: bool)
    requires dev.Ready() && Splits(|img|)
    modifies dev, dev.disk, dev.cache, dev.undo
    ensures dev.Ran(old(Run(dev.State(), MbrPath(View(dev.Model()), force, img).ops)), ok) && dev.cache == old(dev.cache)
    ensures ok ==> go == old(MbrPath(View(dev.Model()), force, img).go)
  {
    hide DiskSession.Run, BlockCache.View, ViewAfter, CheckScript, BootOps;
    ghost var s, v := dev.State(), View(dev.Model());
    ghost var m := CheckScript(v, force);
    RunAppend(s, m.ops, BootOps(ViewAfter(v, m.ops), img, SECTOR, SECTOR + SizeA(|img|)));
    CheckNear(v, force);
    RunEffect(s, m.ops);
    Sizes16(|img|);
    ok, go := CheckMbr(dev, force);
    if ok && go {
      ok := WriteStages(dev, img, SECTOR, SECTOR + SizeA(|img|));
    }
  }

  method PlaceOnTarget(dev: Device, part: Option<nat>, img: seq<byte>, h1: seq<byte>, h2: seq<byte>, lb: nat)
    returns (ok: bool, go: bool, undefined: bool)
    requires dev.Ready() && Splits(|img|) && IsHeader(h1) && IsHeader(h2) && (lb == 512 || lb == 4096)
    modifies dev, dev.disk, dev.cache, dev.undo
    ensures dev.Ran(old(Run(dev.State(), TargetPath(View(dev.Model()), part, img, h1, h2, lb).ops)), ok)
    ensures dev.cache == old(dev.cache)
    ensures ok ==> go == old(TargetPath(View(dev.Model()), part, img, h1, h2, lb).go)
    ensures undefined ==> !TargetDefined(part, |img|, h1, h2, lb)
  {
    hide DiskSession.Run, BlockCache.View, PartitionScript, GptScript;
    undefined := false;
    match part {
      case Some(n) => ok, go := PlaceInPartition(dev, img, h1, n, lb);
      case None =>
        if EntryBytes(h1) == 0 || EntryBytes(h2) > EntryBytes(h1) {
          RunNothing(dev.State());
          return true, false, true;
        }
        ok, go := PlaceOnGpt(dev, img, h1, h2, lb);
    }
  }

  method PlaceWithGpt(dev: Device, o: Options, img: seq<byte>, h1: seq<byte>, h2: seq<byte>, lb: nat)
    returns (ok: bool, go: bool, undefined: bool)
    requires dev.Ready() && Splits(|img|) && |o.id| == 4 && IsHeader(h1) && IsHeader(h2) && (lb == 512 || lb == 4096)
    modifies dev, dev.disk, dev.cache, dev.undo
    ensures !undefined ==> dev.Ran(old(Run(dev.State(), GptPath(View(dev.Model()), o, img, h1, h2, lb).ops)), ok)
    ensures dev.cache == old(dev.cache) && dev.Valid() && !dev.uninstalling
    ensures !undefined && ok ==> go == old(GptPath(View(dev.Model()), o, img, h1, h2, lb).go)
    ensures undefined ==> !old(GptDefined(View(dev.Model()), o, |img|, h1, h2, lb))
  {
    hide DiskSession.Run, BlockCache.View, MbrPath, TargetPath, ConversionOps, TargetDefined, AnyBehind, ViewAfter;
    ghost var s, v := dev.State(), View(dev.Model());
    if !o.convert {
      ok, go, undefined := PlaceOnTarget(dev, o.part, img, h1, h2, lb);
      return;
    }
    ghost var c := ConvertOps(v, h1, lb, o.id);
    ghost var rest := if WillConvert(v, h1, lb) then MbrPath(ViewAfter(v, c), o.force, img)
                      else TargetPath(v, o.part, img, h1, h2, lb);
    RunAppend(s, c, rest.ops);
    ConvertedView(v, h1, lb, o.id);
    RunEffect(s, c);
    var base := EntryLba(h1) * lb % WORD;
    assert base == ArrayAt(h1, lb);
    var r, behind := ConvertGpt(dev, base, EntryBytes(h1), EntryCount(h1), lb, AlternateLba(h1), o.id);
    undefined := false;
    match r {
      case ConversionFailed => ok, go := false, false;
      case LeftAlone =>
        if behind { return true, false, true; }
        ok, go, undefined := PlaceOnTarget(dev, o.part, img, h1, h2, lb);
      case Converted =>
        if behind { return true, false, true; }
        ok, go := PlaceBehindMbr(dev, o.force, img);
    }
  }

  /** A conversion that is not carried out changes nothing. */
  lemma ConvertedView(v: seq<byte>, h1: seq<byte>, lb: nat, id: seq<byte>)
    requires IsHeader(h1) && |id| == 4
    ensures var c := ConvertOps(v, h1, lb, id);
      Addressable(c) && Writes(c) <= 91 && (!WillConvert(v, h1, lb) ==> ViewAfter(v, c) == v)
    ensures WillConvert(v, h1, lb) <==> Converts(v, ArrayAt(h1, lb), EntryBytes(h1), EntryCount(h1))
  {
    hide ConversionOps, UsedIndices, ViewAfter;
    GatheredParts(v, ArrayAt(h1, lb), EntryBytes(h1), EntryCount(h1));
    ConversionOpsAddresses(v, ArrayAt(h1, lb), EntryBytes(h1), EntryCount(h1), lb, AlternateLba(h1), id);
    ConversionView(v, ArrayAt(h1, lb), EntryBytes(h1), EntryCount(h1), lb, AlternateLba(h1), id);
  }

  /** From the secondary header on. */
  method PlaceWithHeader(dev: Device, o: Options, img: seq<byte>, h1: seq<byte>, lb: nat)
    returns (ok: bool, go: bool, undefined: bool)
    requires dev.Ready() && Splits(|img|) && |o.id| == 4 && (lb == 512 || lb == 4096)
    requires h1 == HeaderOn(View(dev.Model()), lb)
    modifies dev, dev.disk, dev.cache, dev.undo
    ensures !undefined ==> dev.Ran(old(Run(dev.State(), SecondPath(View(dev.Model()), o, img, lb).ops)), ok)
    ensures dev.cache == old(dev.cache) && dev.Valid() && !dev.uninstalling
    ensures !undefined && ok ==> go == old(SecondPath(View(dev.Model()), o, img, lb).go)
    ensures undefined ==> var v := old(View(dev.Model())); var h2 := HeaderOn(v, SecondaryAt(h1, lb));
      HasSignature(h2) && !GptDefined(v, o, |img|, h1, h2, lb)
  {
    hide DiskSession.Run, BlockCache.View, GptPath, GptDefined, HeaderOn, HasSignature;
    ghost var s, v := dev.State(), View(dev.Model());
    ghost var t := SecondaryScript(v, h1, lb);
    RunAppend(s, t.ops, GptPath(v, o, img, h1, HeaderOn(v, SecondaryAt(h1, lb)), lb).ops);
    undefined := false;
    var h2;
    ok, go, h2 := ReadSecondary(dev, h1, lb);
    if ok && go {
      ok, go, undefined := PlaceWithGpt(dev, o, img, h1, h2, lb);
    }
  }

  /** Everything before the last flush. */
  method Place(dev: Device, o: Options, img: seq<byte>) returns (ok: bool, go: bool, undefined: bool)
    requires dev.Ready() && Splits(|img|) && |o.id| == 4
    modifies dev, dev.disk, dev.cache, dev.undo
    ensures !undefined ==> dev.Ran(old(Run(dev.State(), InstallScript(View(dev.Model()), o, img).ops)), ok)
    ensures dev.cache == old(dev.cache) && dev.Valid() && !dev.uninstalling
    ensures !undefined && ok ==> go == old(InstallScript(View(dev.Model()), o, img).go)
    ensures undefined ==> !old(Defined(View(dev.Model()), o, |img|))
  {
    hide DiskSession.Run, BlockCache.View, MbrPath, SecondPath, GptDefined, HeaderOn, HasSignature, FindGpt, FindOps;
    ghost var s, v := dev.State(), View(dev.Model());
    ghost var rest := match FindGpt(v, LB_GUESSES) case None => MbrPath(v, o.force, img) case Some(lb) => SecondPath(v, o, img, lb);
    RunAppend(s, FindOps(v, LB_GUESSES), rest.ops);
    undefined, go := false, false;
    var lb, h1;
    ok, lb, h1 := Probe(dev);
    if !ok { return; }
    match lb {
      case None => ok, go := PlaceBehindMbr(dev, o.force, img);
      case Some(n) =>
        if o.force { return; }
        ok, go, undefined := PlaceWithHeader(dev, o, img, h1, n);
    }
  }

  /** `Undefined`: memory was overwritten or a number divided by zero. */
  datatype Ending = NoDevice | Undefined | Installed | Undone | UndoFailed

  /** An install with its cleanup on a device that has been opened. */
  method Install(dev: Device, o: Options, img: seq<byte>) returns (e: Ending)
    requires dev.Ready() && Splits(|img|) && |o.id| == 4
    modifies dev, dev.disk, dev.cache, dev.undo
    ensures dev.cache == old(dev.cache) && !e.NoDevice? && (e.Undefined? ==> !old(Defined(View(dev.Model()), o, |img|)))
    ensures !e.Undefined? ==>
      var r := old(EndOf(dev.State(), InstallScript(View(dev.Model()), o, img)));
      if e.Installed? then KeptAs(dev, r) else dev.Valid() && !r.ok && Step(dev.Model(), e.Undone?) == DiskRecovery.Undone(r.session)
  {
    hide DiskSession.Run, BlockCache.View, InstallScript, Defined, BlockCache.Flush;
    var ok, go, undefined := Place(dev, o, img);
    if undefined {
      return Undefined;
    }
    if ok && go {
      RunNothing(dev.State());
      ok := Complete(dev);
      if ok {
        return Installed;
      }
    }
    var undone := InstallEnd.Undo(dev);
    e := if undone then Ending.Undone else UndoFailed;
  }
}
