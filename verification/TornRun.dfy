/** Which installs can be undone whatever fails: exactly those whose every write is harmless to tear. */
module TornRun {
  import opened Bytes
  import opened UndoLog
  import opened BlockCache
  import opened BlockCacheLoops
  import opened DiskSession
  import opened Scripts
  import opened Uninstall
  import opened DiskRecovery
  import opened TornWrite

  /** A tear before the last block of the write loses nothing. */
  ghost predicate HarmlessOp(view: seq<byte>, log: seq<Extent>, size: nat, op: Op)
    requires 0 < size
  {
    op.Write? ==> TearHarmless(view, log, op.loc, op.data, LastBlock(op.loc, |op.data|, size))
  }

  /** Only a write across a block boundary can lose anything. */
  lemma HarmfulCrosses(view: seq<byte>, log: seq<Extent>, size: nat, op: Op)
    requires 0 < size && !HarmlessOp(view, log, size, op)
    ensures op.Write? && 0 < LastBlock(op.loc, |op.data|, size) < |op.data|
  {
    AlignedBeforeLastBlock(op.loc, |op.data|, size, 0);
    LastBlockAligned(op.loc, |op.data|, size);
  }

  /** Every write is harmless to tear at its place in the run in which nothing fails. */
  ghost predicate HarmlessRun(view: seq<byte>, log: seq<Extent>, size: nat, ops: seq<Op>)
    requires 0 < size
    decreases |ops|
  {
    ops != [] && Doable(view, log, ops[0]) ==>
      && HarmlessOp(view, log, size, ops[0])
      && HarmlessRun(NextView(view, ops[0]), NextLog(view, log, ops[0]), size, ops[1..])
  }

  /** An operation that succeeds keeps everything recoverable. */
  lemma PerformKeeps(s: Session, original: seq<byte>, op: Op)
    requires Recoverable(s, original) && op.loc < WORD && Perform(s, op).ok
    ensures Recoverable(Perform(s, op).session, original)
  {
    match op {
      case Read(loc, count) => ReadKeeps(s, original, loc, count);
      case Write(loc, data) => WriteKeeps(s, original, loc, data);
    }
  }

  /** An operation that fails, and was not doable or was harmless to tear, leaves a disk that can be undone. */
  lemma PerformFailure(s: Session, original: seq<byte>, op: Op)
    requires Recoverable(s, original) && op.loc < WORD && !Perform(s, op).ok
    requires !Doable(View(s.dev), s.log, op) || HarmlessOp(View(s.dev), s.log, |s.dev.cache|, op)
    ensures var r := Perform(s, op).session; Undoable(r.dev.disk, r.log, original)
  {
    match op {
      case Read(loc, count) => ReadKeeps(s, original, loc, count);
      case Write(loc, data) =>
        ReadKeeps(s, original, loc, |data|);
        WriteKeeps(s, original, loc, data);
    }
  }

  lemma {:induction false} HarmlessRunKeeps(s: Session, original: seq<byte>, ops: seq<Op>)
    requires Recoverable(s, original) && Addressable(ops) && HarmlessRun(View(s.dev), s.log, |s.dev.cache|, ops)
    ensures var r := InstallRun(s, ops).session; Undoable(r.dev.disk, r.log, original)
    decreases |ops|
  {
    if ops == [] {
      LastFlushKeeps(s, original);
    } else {
      if Perform(s, ops[0]).ok {
        PerformEffect(s, ops[0]);
        PerformKeeps(s, original, ops[0]);
        assert forall k :: 0 <= k < |ops[1..]| ==> ops[1..][k] == ops[k + 1];
        HarmlessRunKeeps(Perform(s, ops[0]).session, original, ops[1..]);
      } else {
        PerformFailure(s, original, ops[0]);
      }
    }
  }

  // ---------- a script for every harmful write ----------

  function Scripted(s: Session, faults: seq<Fault>): Session {
    s.(dev := WithFaults(s.dev, faults))
  }

  /** A script under which the writing loop works and `more` is left to come. */
  lemma {:induction false} PutWorks(d: Dev, loc: nat, data: seq<byte>, progress: nat, more: seq<Fault>)
    returns (faults: seq<Fault>)
    requires Coherent(d) && d.faults == [] && WholeBlocks(d) && loc + |data| <= |d.disk| && progress <= |data|
    ensures var r := PutFrom(d, loc, data, progress);
      && r.ok && r.dev.faults == []
      && PutFrom(WithFaults(d, faults), loc, data, progress) == Step(WithFaults(r.dev, more), true)
    decreases |data| - progress
  {
    hide BlockCache.PutChunk;
    if progress == |data| {
      faults := more;
    } else {
      var at, m := loc + progress, PutStop(|d.cache|, loc, |data|, progress);
      assert Wrap(at) == at;
      StopAligned(|d.cache|, loc, |data|, progress);
      PlainChunk(d, at, data[progress..m]);
      PutChunkSpec(d, at, data[progress..m]);
      var c := PutChunk(d, at, data[progress..m]).dev;
      SameSizeWholeBlocks(d, c);
      var later := PutWorks(c, loc, data, m, more);
      faults := OneChunkWorks(d, loc, data, progress, later);
    }
  }

  /** A script under which a doable operation works and `more` is left to come. */
  lemma PerformWorks(s: Session, op: Op, more: seq<Fault>) returns (faults: seq<Fault>)
    requires Coherent(s.dev) && s.dev.faults == [] && WholeBlocks(s.dev) && Doable(View(s.dev), s.log, op)
    ensures var r := Perform(s, op);
      && r.ok && r.session.dev.faults == [] && |r.session.dev.disk| == |s.dev.disk|
      && Perform(Scripted(s, faults), op) == Outcome(Scripted(r.session, more), true)
  {
    match op {
      case Read(loc, count) =>
        faults := more;
        if 0 < count {
          faults := GetWorks(s.dev, loc, count, [], more);
        }
      case Write(loc, data) =>
        faults := more;
        if data != [] {
          var g := PlainGet(s.dev, loc, |data|);
          var later := PutWorks(g.dev, loc, data, 0, more);
          faults := GetWorks(s.dev, loc, |data|, [], later);
        }
    }
  }

  /** If some write is harmful to tear, some script tears it and the original is lost. */
  lemma {:induction false} HarmfulScript(s: Session, original: seq<byte>, ops: seq<Op>) returns (faults: seq<Fault>)
    requires Recoverable(s, original) && s.dev.faults == [] && WholeBlocks(s.dev) && Addressable(ops)
    requires !HarmlessRun(View(s.dev), s.log, |s.dev.cache|, ops)
    ensures var r := Run(Scripted(s, faults), ops);
      !r.ok && !Undoable(r.session.dev.disk, r.session.log, original)
    decreases |ops|
  {
    var op := ops[0];
    if !HarmlessOp(View(s.dev), s.log, |s.dev.cache|, op) {
      faults := TearingScript(s, original, op.loc, op.data);
    } else {
      var nothing := PerformWorks(s, op, []);
      PerformEffect(s, op);
      PerformKeeps(s, original, op);
      var next := Perform(s, op).session;
      SameSizeWholeBlocks(s.dev, next.dev);
      assert forall k :: 0 <= k < |ops[1..]| ==> ops[1..][k] == ops[k + 1];
      var later := HarmfulScript(next, original, ops[1..]);
      faults := PerformWorks(s, op, later);
    }
  }

  /** An install keeps the original recoverable under every fault script exactly when each of its writes is
      harmless to tear at its place in the run in which nothing fails. */
  lemma TornRunExactly(s: Session, original: seq<byte>, ops: seq<Op>)
    requires Recoverable(s, original) && WholeBlocks(s.dev) && Addressable(ops)
    ensures HarmlessRun(View(s.dev), s.log, |s.dev.cache|, ops)
            <==> forall faults: seq<Fault> ::
                   var r := InstallRun(Scripted(s, faults), ops).session; Undoable(r.dev.disk, r.log, original)
  {
    if HarmlessRun(View(s.dev), s.log, |s.dev.cache|, ops) {
      forall faults: seq<Fault>
        ensures var r := InstallRun(Scripted(s, faults), ops).session; Undoable(r.dev.disk, r.log, original)
      {
        HarmlessRunKeeps(Scripted(s, faults), original, ops);
      }
    } else {
      var plain := Scripted(s, []);
      SameSizeWholeBlocks(s.dev, plain.dev);
      var faults := HarmfulScript(plain, original, ops);
      assert Scripted(plain, faults) == Scripted(s, faults);
    }
  }
}
