/** When an install succeeds, what it leaves, and what undoing one brings back. */
module InstallResults {
  import opened Bytes
  import opened UndoLog
  import opened BlockCache
  import opened DiskSession
  import opened Uninstall
  import opened DiskRecovery
  import opened Scripts
  import opened TornRun
  import opened Installer
  import opened BootSector
  import opened MbrCheck
  import opened MbrVerdict
  import opened GptProbe
  import opened GptEmbed
  import opened PartitionInstall
  import opened GptInstall
  import opened InstallEnd
  import opened Success
  import opened BiosInstall
  import Blocks

  // ---------- every path ----------

  lemma ThenAddresses(a: Script, b: Script)
    requires Addressable(a.ops) && Addressable(b.ops)
    ensures Addressable(Then(a, b).ops)
  {
  }

  lemma MbrPathAddresses(v: seq<byte>, force: bool, img: seq<byte>)
    requires Splits(|img|)
    ensures Addressable(MbrPath(v, force, img).ops)
  {
    hide CheckScript, BootOps, AllInside;
    var m := CheckScript(v, force);
    var g := ViewAfter(v, m.ops);
    CheckNear(v, force);
    Sizes16(|img|);
    BootAddresses(g, img, SECTOR, SECTOR + SizeA(|img|));
    ThenAddresses(m, Script(BootOps(g, img, SECTOR, SECTOR + SizeA(|img|)), true));
  }

  lemma TargetAddresses(v: seq<byte>, part: Option<nat>, img: seq<byte>, h1: seq<byte>, h2: seq<byte>, lb: nat)
    requires Splits(|img|) && IsHeader(h1) && IsHeader(h2) && (lb == 512 || lb == 4096)
    ensures Addressable(TargetPath(v, part, img, h1, h2, lb).ops)
  {
    hide PartitionScript, EmbedScript, BootOps, PlacementOf, Feasible;
    match part {
      case Some(n) => PartitionFeasibleExactly(v, img, h1, n, lb, 0);
      case None =>
        if Computable(h1, h2, lb, |img|) {
          var p := PlacementOf(h1, h2, lb, |img|);
          var e := EmbedScript(v, h1, h2, lb, p.count);
          EmbedAddressable(v, h1, h2, lb, p.count);
          BootAddresses(ViewAfter(v, e.ops), img, p.locA, p.locB);
          ThenAddresses(e, Script(BootOps(ViewAfter(v, e.ops), img, p.locA, p.locB), true));
        }
    }
  }

  lemma GptPathAddresses(v: seq<byte>, o: Options, img: seq<byte>, h1: seq<byte>, h2: seq<byte>, lb: nat)
    requires Splits(|img|) && |o.id| == 4 && IsHeader(h1) && IsHeader(h2) && (lb == 512 || lb == 4096)
    ensures Addressable(GptPath(v, o, img, h1, h2, lb).ops)
  {
    hide TargetPath, MbrPath, ConvertOps;
    TargetAddresses(v, o.part, img, h1, h2, lb);
    if o.convert {
      var c := ConvertOps(v, h1, lb, o.id);
      ConvertedView(v, h1, lb, o.id);
      MbrPathAddresses(ViewAfter(v, c), o.force, img);
    }
  }

  /** No operation of an install has an address of more than 64 bits. */
  lemma InstallAddresses(v: seq<byte>, o: Options, img: seq<byte>)
    requires Splits(|img|) && |o.id| == 4
    ensures Addressable(InstallScript(v, o, img).ops)
  {
    hide GptPath, MbrPath, HeaderOn, HasSignature, FindGpt, FindOps;
    FindOpsRead(v, LB_GUESSES);
    match FindGpt(v, LB_GUESSES) {
      case None => MbrPathAddresses(v, o.force, img);
      case Some(lb) =>
        var h1 := HeaderOn(v, lb);
        GptPathAddresses(v, o, img, h1, HeaderOn(v, SecondaryAt(h1, lb)), lb);
    }
  }

  // ---------- from opening the device to the end ----------

  /** A device that has just been opened. */
  ghost predicate Opened(dev: Device)
    reads dev, dev.disk, dev.cache, dev.undo
  {
    dev.Ready() && dev.undoCount == 0 && !dev.dirty
  }

  lemma OpenedFresh(dev: Device)
    requires Opened(dev)
    ensures Fresh(dev.State()) && Recoverable(dev.State(), dev.disk[..]) && View(dev.Model()) == dev.disk[..]
  {
    assert dev.Log() == [];
  }

  lemma WholeSectors(d: Dev, blocks: nat)
    requires |d.cache| == 512 && |d.disk| == blocks * 512
    ensures WholeBlocks(d)
  {
    Blocks.StartIsProduct(blocks, 512);
  }

  /** The contract of an install that started from the disk `v`. */
  ghost predicate Promised(v: seq<byte>, t: Script, faultless: bool, size: nat, e: Ending, g: seq<byte>, log: seq<Extent>)
    requires 0 < size
  {
    && (e.Installed? ==> t.go && g == ViewAfter(v, t.ops) && ApplyAll(g, log) == v)
    && (e.Undone? ==> g == v || !HarmlessRun(v, [], size, t.ops))
    && (faultless ==> if t.go && Feasible(|v|, 0, t.ops) then e.Installed? else e.Undone? && g == v)
  }

  /** What the end of an install comes to. */
  lemma EndPromised(s: Session, t: Script, faultless: bool, e: Ending, g: seq<byte>, log: seq<Extent>)
    requires Fresh(s) && Addressable(t.ops) && Recoverable(s, s.dev.disk) && View(s.dev) == s.dev.disk
    requires faultless ==> Faultless(s.dev) && WholeBlocks(s.dev)
    requires e.Installed? || e.Undone? || e.UndoFailed?
    requires var r := EndOf(s, t);
      if e.Installed? then r.ok && g == r.session.dev.disk && log == Reversed(r.session.log)
      else !r.ok && DiskRecovery.Undone(r.session).ok == e.Undone? && DiskRecovery.Undone(r.session).dev.disk == g
    ensures Promised(s.dev.disk, t, faultless, |s.dev.cache|, e, g, log)
  {
    EndSpec(s, t);
    if faultless {
      InstallFaultless(s, t);
    }
    if e.Undone? && HarmlessRun(s.dev.disk, [], |s.dev.cache|, t.ops) {
      EndUndoable(s, s.dev.disk, t);
      UndoneExactly(EndOf(s, t).session, s.dev.disk);
    }
  }

  /** An install from opening the device on. It is kept only with the disk that its script describes and a log that
      brings the old one back. It is reported as undone only with the old disk back, unless some write of the script is
      harmful to tear. On whole sectors without faults it is kept exactly if the script goes to its end and is feasible,
      and undone otherwise. */
  method OpenAndInstall(disk: array<byte>, faults: seq<Fault>, o: Options, img: seq<byte>)
    returns (dev: Device, e: Ending)
    requires disk.Length < OFFSET_LIMIT && Splits(|img|) && |o.id| == 4
    modifies disk
    ensures e.NoDevice? ==> disk[..] == old(disk[..])
    ensures e.NoDevice? <==> GuessBlockSize(GUESSES, disk.Length, faults).None?
    ensures e.Undefined? ==> !old(Defined(disk[..], o, |img|))
    ensures !e.NoDevice? && !e.Undefined? ==>
      && 0 < dev.cache.Length && dev.undoCount <= dev.undo.Length
      && Promised(old(disk[..]), old(InstallScript(disk[..], o, img)), NoFaults(faults) && disk.Length % 512 == 0,
                  dev.cache.Length, e, disk[..], dev.Log())
  {
    hide InstallScript, Defined, Promised, NoFaults, GuessBlockSize, EndOf, DiskRecovery.Undone, UndoLog.Reversed;
    dev := new Device(disk, faults);
    var ok := dev.Init();
    if !ok {
      return dev, NoDevice;
    }
    OpenedFresh(dev);
    ghost var s, t := dev.State(), InstallScript(disk[..], o, img);
    ghost var faultless := NoFaults(faults) && disk.Length % 512 == 0;
    if faultless {
      FaultlessSectors(dev, faults);
    }
    InstallAddresses(disk[..], o, img);
    e := Install(dev, o, img);
    if !e.Undefined? {
      EndPromised(s, t, faultless, e, disk[..], if dev.undoCount <= dev.undo.Length then dev.Log() else []);
    }
  }

  lemma FaultlessSectors(dev: Device, faults: seq<Fault>)
    requires NoFaults(faults) && dev.disk.Length % 512 == 0 && NoFaults(dev.faults)
    requires GuessBlockSize(GUESSES, dev.disk.Length, faults) == Some(dev.cache.Length)
    ensures Faultless(dev.Model()) && WholeBlocks(dev.Model())
  {
    assert GuessBlockSize(GUESSES, dev.disk.Length, faults) == Some(512);
    WholeSectors(dev.Model(), dev.disk.Length / 512);
  }
}
