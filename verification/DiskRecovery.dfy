/** Recovery over whole runs: an aborted or a completed install can be undone byte for byte. */
module DiskRecovery {
  import opened Bytes
  import opened UndoLog
  import opened BlockCache
  import opened DiskSession
  import opened Uninstall
  import opened UndoFile

  /** If the run stops inside a write, that write could not tear anything the log does not know about. */
  ghost predicate AbortsHarmlessly(s: Session, ops: seq<Op>)
    requires 0 < |s.dev.cache|
    decreases |ops|
  {
    ops == [] ||
    var r := Perform(s, ops[0]);
    if r.ok then AbortsHarmlessly(r.session, ops[1..])
    else ops[0].Write? ==>
           TearHarmless(View(s.dev), s.log, ops[0].loc, ops[0].data,
                        LastBlock(ops[0].loc, |ops[0].data|, |s.dev.cache|))
  }

  /** What a caller can check up front: no write crosses a block boundary. */
  predicate SingleBlockWrites(ops: seq<Op>, size: nat)
    requires 0 < size
  {
    forall k :: 0 <= k < |ops| ==> ops[k].Write? ==> LastBlock(ops[k].loc, |ops[k].data|, size) == 0
  }

  lemma {:induction false} SingleBlockWritesAbortHarmlessly(s: Session, ops: seq<Op>)
    requires 0 < |s.dev.cache| && SingleBlockWrites(ops, |s.dev.cache|)
    ensures AbortsHarmlessly(s, ops)
    decreases |ops|
  {
    if ops != [] && Perform(s, ops[0]).ok {
      assert forall k :: 0 <= k < |ops[1..]| ==> ops[1..][k] == ops[k + 1];
      SingleBlockWritesAbortHarmlessly(Perform(s, ops[0]).session, ops[1..]);
    }
  }

  /** Every state of every run stays recoverable, for every fault pattern and eviction history. */
  lemma {:induction false} RunKeeps(s: Session, original: seq<byte>, ops: seq<Op>)
    requires Recoverable(s, original) && Addressable(ops) && AddressableLog(s.log)
    ensures var r := Run(s, ops);
      && WellFormed(r.session.dev) && AddressableLog(r.session.log)
      && (r.ok ==> Recoverable(r.session, original))
      && (r.ok || AbortsHarmlessly(s, ops) ==> Undoable(r.session.dev.disk, r.session.log, original))
    decreases |ops|
  {
    if ops != [] {
      match ops[0] {
        case Read(loc, count) => ReadKeeps(s, original, loc, count);
        case Write(loc, data) => WriteKeeps(s, original, loc, data);
      }
      if Perform(s, ops[0]).ok {
        assert forall k :: 0 <= k < |ops[1..]| ==> ops[1..][k] == ops[k + 1];
        RunKeeps(Perform(s, ops[0]).session, original, ops[1..]);
      }
    }
  }

  ghost predicate Fresh(s: Session) {
    Coherent(s.dev) && !s.dev.dirty && s.log == []
  }

  /** The cleanup path: drop the dirty block, replay the reversed log. */
  function Undone(s: Session): Step
    requires 0 < |s.dev.cache|
  {
    UninstallAll(s.dev, Reversed(s.log))
  }

  lemma ReversedAddressable(log: seq<Extent>)
    requires AddressableLog(log)
    ensures AddressableLog(Reversed(log))
  {
  }

  /** The operations of an install and its last flush. */
  function InstallRun(s: Session, ops: seq<Op>): (r: Outcome)
    requires 0 < |s.dev.cache|
    ensures |r.session.dev.cache| == |s.dev.cache|
  {
    var r := Run(s, ops);
    if !r.ok then r
    else
      var f := Flush(r.session.dev);
      Outcome(r.session.(dev := f.dev), f.ok)
  }

  /** Whatever the last flush does, the physical disk can still be undone. */
  lemma LastFlushKeeps(s: Session, original: seq<byte>)
    requires Recoverable(s, original)
    ensures var f := Flush(s.dev).dev; WellFormed(f) && Undoable(f.disk, s.log, original)
  {
    FlushSpec(s.dev);
    BetweenUndoable(s.dev.disk, Flush(s.dev).dev.disk, View(s.dev), s.log, original);
  }

  lemma InstallRunKeeps(s: Session, original: seq<byte>, ops: seq<Op>)
    requires Recoverable(s, original) && Addressable(ops) && AddressableLog(s.log)
    requires Run(s, ops).ok || AbortsHarmlessly(s, ops)
    ensures var r := InstallRun(s, ops).session;
      WellFormed(r.dev) && AddressableLog(r.log) && Undoable(r.dev.disk, r.log, original)
  {
    RunKeeps(s, original, ops);
    if Run(s, ops).ok {
      LastFlushKeeps(Run(s, ops).session, original);
    }
  }

  /** An install that stopped anywhere, for any reason, is undone exactly whenever undoing reports success. */
  lemma AbortedInstallRestored(s: Session, ops: seq<Op>)
    requires Fresh(s) && Addressable(ops)
    requires Run(s, ops).ok || AbortsHarmlessly(s, ops)
    ensures var u := Undone(InstallRun(s, ops).session); u.ok ==> u.dev.disk == s.dev.disk
  {
    InstallRunKeeps(s, s.dev.disk, ops);
    var r := InstallRun(s, ops).session;
    ReversedAddressable(r.log);
    if Undone(r).ok {
      UninstallSound(r.dev, Reversed(r.log));
      UndoableIffRestored(r.dev.disk, r.log, s.dev.disk);
    }
  }

  predicate NoEmptyWrites(ops: seq<Op>) {
    forall k :: 0 <= k < |ops| ==> ops[k].Write? ==> ops[k].data != []
  }

  predicate ShortLog(log: seq<Extent>) {
    AddressableLog(log) && Storable(log) && |log| <= LOG_MAX
  }

  predicate EmptyWrite(op: Op) {
    op.Write? && op.data == []
  }

  lemma PerformLog(s: Session, original: seq<byte>, op: Op)
    requires Recoverable(s, original) && op.loc < WORD && Perform(s, op).ok && ShortLog(s.log)
    ensures var r := Perform(s, op).session;
      Recoverable(r, original) && ShortLog(r.log) && (NoneEmpty(r.log) <==> NoneEmpty(s.log) && !EmptyWrite(op))
  {
    match op {
      case Read(loc, count) => ReadKeeps(s, original, loc, count);
      case Write(loc, data) =>
        WriteKeeps(s, original, loc, data);
        ReadKeeps(s, original, loc, |data|);
        var e := Extent(loc, Get(s.dev, loc, |data|).data);
        assert (s.log + [e])[|s.log|] == e;
        assert forall k :: 0 <= k < |s.log| ==> s.log[k] == (s.log + [e])[k];
    }
  }

  lemma {:induction false} RunLog(s: Session, original: seq<byte>, ops: seq<Op>)
    requires Recoverable(s, original) && Addressable(ops) && Run(s, ops).ok && ShortLog(s.log)
    ensures var log := Run(s, ops).session.log;
      ShortLog(log) && (NoneEmpty(log) <==> NoneEmpty(s.log) && NoEmptyWrites(ops))
    decreases |ops|
  {
    if ops != [] {
      PerformLog(s, original, ops[0]);
      assert NoEmptyWrites(ops) <==> !EmptyWrite(ops[0]) && NoEmptyWrites(ops[1..]) by {
        assert forall k :: 1 <= k < |ops| ==> ops[k] == ops[1..][k - 1];
      }
      assert forall k :: 0 <= k < |ops[1..]| ==> ops[1..][k] == ops[k + 1];
      RunLog(Perform(s, ops[0]).session, original, ops[1..]);
    }
  }

  lemma ReversedStorable(log: seq<Extent>)
    requires Storable(log)
    ensures Storable(Reversed(log)) && (NoneEmpty(Reversed(log)) <==> NoneEmpty(log))
  {
    forall k | 0 <= k < |log|
      ensures Reversed(log)[k] == log[|log| - 1 - k] && Reversed(log)[|log| - 1 - k] == log[k]
    {
      ReversedAt(log, k);
      ReversedAt(log, |log| - 1 - k);
    }
    if NoneEmpty(Reversed(log)) {
      assert forall k :: 0 <= k < |log| ==> log[k] == Reversed(log)[|log| - 1 - k];
    }
  }

  /** End to end: install, flush, reverse the log once, store it, load it on a later run and uninstall.
      The later device has the installed disk, any cache contents and any faults. Storing works
      exactly when no write was empty. */
  lemma InstallThenUninstall(s: Session, ops: seq<Op>, later: Dev)
    requires Fresh(s) && Addressable(ops)
    requires InstallRun(s, ops).ok
    requires WellFormed(later) && later.disk == InstallRun(s, ops).session.dev.disk
    ensures var file := StoreFile(Reversed(InstallRun(s, ops).session.log));
      && (file.Some? <==> NoEmptyWrites(ops))
      && (file.Some? ==>
            && LoadFile(file.value).Some?
            && var u := UninstallAll(later, LoadFile(file.value).value);
               u.ok ==> u.dev.disk == s.dev.disk)
  {
    RunKeeps(s, s.dev.disk, ops);
    RunLog(s, s.dev.disk, ops);
    var r := Run(s, ops).session;
    FlushSpec(r.dev);
    ReversedStorable(r.log);
    FileRoundTrip(Reversed(r.log), []);
    if StoreFile(Reversed(r.log)).Some? {
      var file := StoreFile(Reversed(r.log)).value;
      assert file + [] == file;
    }
    ReversedAddressable(r.log);
    UndoableIffRestored(later.disk, r.log, s.dev.disk);
    if UninstallAll(later, Reversed(r.log)).ok {
      UninstallSound(later, Reversed(r.log));
    }
  }
}
