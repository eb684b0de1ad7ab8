/** How an install ends: flush and keep the reversed log, or undo everything. */
module InstallEnd {
  import opened Bytes
  import opened UndoLog
  import opened BlockCache
  import opened DiskSession
  import opened Uninstall
  import opened DiskRecovery
  import opened Scripts
  import opened TornWrite
  import opened TornRun
  import opened Installer

  /** Where an install gets to: the last flush, if everything before it goes well. */
  function EndOf(s: Session, t: Script): (r: Outcome)
    requires 0 < |s.dev.cache|
    ensures |r.session.dev.cache| == |s.dev.cache|
  {
    if t.go then InstallRun(s, t.ops) else Outcome(Run(s, t.ops).session, false)
  }

  /** The device after an install that got to `r` and was kept: the log is reversed. */
  ghost predicate KeptAs(dev: Device, r: Outcome)
    reads dev, dev.disk, dev.cache, dev.undo
  {
    dev.Valid() && r.ok && dev.disk[..] == r.session.dev.disk && dev.Log() == Reversed(r.session.log)
  }

  /** Success path of `bios_install`: the last flush, and the log is reversed once. */
  method Complete(dev: Device) returns (ok: bool)
    requires dev.Ready()
    modifies dev, dev.disk, dev.cache, dev.undo
    ensures dev.cache == old(dev.cache) && ok == old(InstallRun(dev.State(), [])).ok
    ensures ok ==> KeptAs(dev, old(InstallRun(dev.State(), [])))
    ensures !ok ==> dev.Ran(old(InstallRun(dev.State(), [])), false)
  {
    FlushSpec(dev.Model());
    ok := dev.FlushCache();
    if ok {
      dev.ReverseUndo();
    }
  }

  lemma LogAddressable(dev: Device)
    requires dev.Valid()
    ensures AddressableLog(dev.Log()) && AddressableLog(Reversed(dev.Log()))
  {
    ReversedAddressable(dev.Log());
  }

  /** Failure path: reverse the log and uninstall. */
  method Undo(dev: Device) returns (ok: bool)
    requires dev.Valid()
    modifies dev, dev.disk, dev.cache, dev.undo
    ensures dev.Valid() && dev.cache == old(dev.cache) && Step(dev.Model(), ok) == old(Undone(dev.State()))
  {
    dev.ReverseUndo();
    ok := dev.UninstallAll();
  }

  /** When undoing reports success, the disk is the original again exactly if the log could undo it. */
  lemma UndoneExactly(s: Session, original: seq<byte>)
    requires WellFormed(s.dev) && AddressableLog(s.log) && Undone(s).ok && |original| == |s.dev.disk|
    ensures Undone(s).dev.disk == original <==> Undoable(s.dev.disk, s.log, original)
  {
    ReversedAddressable(s.log);
    UninstallSound(s.dev, Reversed(s.log));
    UndoableIffRestored(s.dev.disk, s.log, original);
  }

  /** The last write of the run, if it failed, could not tear anything the log does not know. */
  ghost predicate EndsHarmlessly(s: Session, t: Script)
    requires 0 < |s.dev.cache|
  {
    Run(s, t.ops).ok || AbortsHarmlessly(s, t.ops)
  }

  /** An install that gets to its end has logical contents and disk as its operations say, and a log that brings
      the original back; one that stops before can be undone unless its last write tore unlogged bytes. */
  lemma EndSpec(s: Session, t: Script)
    requires Fresh(s) && Addressable(t.ops)
    ensures var r := EndOf(s, t);
      && WellFormed(r.session.dev) && AddressableLog(r.session.log)
      && (r.ok ==> t.go && r.session.dev.disk == ViewAfter(s.dev.disk, t.ops)
                   && ApplyAll(r.session.dev.disk, Reversed(r.session.log)) == s.dev.disk)
      && (EndsHarmlessly(s, t) ==> Undoable(r.session.dev.disk, r.session.log, s.dev.disk))
  {
    var r := Run(s, t.ops);
    RunKeeps(s, s.dev.disk, t.ops);
    RunEffect(s, t.ops);
    if r.ok {
      FlushSpec(r.session.dev);
      LastFlushKeeps(r.session, s.dev.disk);
      UndoableIffRestored(EndOf(s, t).session.dev.disk, r.session.log, s.dev.disk);
    }
  }

  /** An install can be undone under every fault script exactly if each of its writes is harmless to tear at its place
      in the run in which nothing fails. */
  lemma SafeExactly(s: Session, original: seq<byte>, t: Script)
    requires Recoverable(s, original) && WholeBlocks(s.dev) && Addressable(t.ops)
    ensures HarmlessRun(View(s.dev), s.log, |s.dev.cache|, t.ops)
            <==> forall faults: seq<Fault> :: UndoableAt(EndOf(Scripted(s, faults), t).session, original)
  {
    if HarmlessRun(View(s.dev), s.log, |s.dev.cache|, t.ops) {
      forall faults: seq<Fault> ensures UndoableAt(EndOf(Scripted(s, faults), t).session, original) {
        EndUndoable(Scripted(s, faults), original, t);
      }
    } else {
      var plain := Scripted(s, []);
      SameSizeWholeBlocks(s.dev, plain.dev);
      var faults := HarmfulScript(plain, original, t.ops);
      assert Scripted(plain, faults) == Scripted(s, faults);
      assert !UndoableAt(EndOf(Scripted(s, faults), t).session, original);
    }
  }

  ghost predicate UndoableAt(s: Session, original: seq<byte>) {
    Undoable(s.dev.disk, s.log, original)
  }

  lemma EndUndoable(s: Session, original: seq<byte>, t: Script)
    requires Recoverable(s, original) && Addressable(t.ops) && HarmlessRun(View(s.dev), s.log, |s.dev.cache|, t.ops)
    ensures UndoableAt(EndOf(s, t).session, original)
  {
    HarmlessRunKeeps(s, original, t.ops);
    if Run(s, t.ops).ok {
      RunKeepsRecoverable(s, original, t.ops);
    }
  }

  lemma {:induction false} RunKeepsRecoverable(s: Session, original: seq<byte>, ops: seq<Op>)
    requires Recoverable(s, original) && Addressable(ops) && Run(s, ops).ok
    ensures Recoverable(Run(s, ops).session, original)
    decreases |ops|
  {
    if ops != [] {
      PerformKeeps(s, original, ops[0]);
      assert forall k :: 0 <= k < |ops[1..]| ==> ops[1..][k] == ops[k + 1];
      RunKeepsRecoverable(Perform(s, ops[0]).session, original, ops[1..]);
    }
  }
}
