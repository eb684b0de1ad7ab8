/** When an install succeeds: on a device without faults, exactly if everything it does is inside the disk and the
    log. And how it ends otherwise: undone, with the disk as it was. */
module Success {
  import opened Bytes
  import opened UndoLog
  import opened BlockCache
  import opened DiskSession
  import opened Uninstall
  import opened DiskRecovery
  import opened Scripts
  import opened TornWrite
  import opened TornRun
  import opened InstallEnd
  import opened Blocks

  /** Without faults the reading loop completes every read inside the device. */
  lemma {:induction false} GetFaultless(d: Dev, loc: nat, count: nat, acc: seq<byte>)
    requires Faultless(d) && WholeBlocks(d) && 0 < |d.cache| && |d.disk| < WORD && |acc| <= count
    ensures Faultless(GetFrom(d, loc, count, acc).dev)
    ensures |acc| == count || loc + count <= |d.disk| ==> GetFrom(d, loc, count, acc).ok
    decreases count - |acc|
  {
    if |acc| < count {
      var at := Wrap(loc + |acc|);
      var blocks: nat :| |d.disk| == BlockStart(blocks, |d.cache|);
      if loc + count <= |d.disk| {
        BlockInside(at, |d.cache|, blocks);
      }
      CacheBlockFaultless(d, BlockAt(at, |d.cache|));
      var g := GetChunk(d, at, count - |acc|);
      if g.ok {
        assert |g.dev.disk| == BlockStart(blocks, |g.dev.cache|);
        GetFaultless(g.dev, loc, count, acc + g.data);
      }
    }
  }

  /** Without faults an operation succeeds exactly if it is doable. */
  lemma PerformFaultless(s: Session, op: Op)
    requires Coherent(s.dev) && Faultless(s.dev) && WholeBlocks(s.dev) && op.loc < WORD
    ensures var r := Perform(s, op);
      Faultless(r.session.dev) && WholeBlocks(r.session.dev) && (r.ok <==> Doable(View(s.dev), s.log, op))
  {
    PerformEffect(s, op);
    var n := match op case Read(_, count) => count case Write(_, data) => |data|;
    GetFaultless(s.dev, op.loc, n, []);
    SameSizeWholeBlocks(s.dev, Perform(s, op).session.dev);
    if op.Write? {
      var g := Get(s.dev, op.loc, n);
      SameSizeWholeBlocks(s.dev, g.dev);
      PutFaultless(g.dev, op.loc, op.data, 0);
    }
  }

  lemma FeasibleFirst(size: nat, used: nat, ops: seq<Op>)
    requires ops != [] && used <= LOG_MAX
    ensures Feasible(size, used, ops)
            <==> Inside(size, ops[0]) && (ops[0].Write? ==> used < LOG_MAX)
                 && Feasible(size, used + if ops[0].Write? then 1 else 0, ops[1..])
  {
    assert ops == [ops[0]] + ops[1..];
    AllInsideAppend(size, [ops[0]], ops[1..]);
    assert AllInside(size, [ops[0]]) <==> Inside(size, ops[0]) by {
      assert [ops[0]][0] == ops[0];
    }
  }

  /** Without faults a run completes exactly if it is feasible, and whatever it comes to can be undone. */
  lemma {:induction false} RunFaultless(s: Session, original: seq<byte>, ops: seq<Op>)
    requires Recoverable(s, original) && Faultless(s.dev) && WholeBlocks(s.dev) && Addressable(ops) && |s.log| <= LOG_MAX
    ensures var r := Run(s, ops);
      && Faultless(r.session.dev) && WholeBlocks(r.session.dev)
      && (r.ok <==> Feasible(|s.dev.disk|, |s.log|, ops))
      && Undoable(r.session.dev.disk, r.session.log, original)
    decreases |ops|
  {
    hide DiskSession.Perform, Doable, Feasible;
    if ops != [] {
      var r := Perform(s, ops[0]);
      PerformEffect(s, ops[0]);
      PerformFaultless(s, ops[0]);
      FeasibleFirst(|s.dev.disk|, |s.log|, ops);
      FirstDoable(s, ops[0]);
      if r.ok {
        PerformKeeps(s, original, ops[0]);
        assert forall k :: 0 <= k < |ops[1..]| ==> ops[1..][k] == ops[k + 1];
        RunFaultless(r.session, original, ops[1..]);
      } else {
        PerformFailure(s, original, ops[0]);
      }
    } else {
      assert Feasible(|s.dev.disk|, |s.log|, []) by { NothingFeasible(|s.dev.disk|, |s.log|); }
    }
  }

  lemma NothingFeasible(size: nat, used: nat)
    requires used <= LOG_MAX
    ensures Feasible(size, used, [])
  {
  }

  lemma FirstDoable(s: Session, op: Op)
    requires Coherent(s.dev) && op.loc < WORD
    ensures Doable(View(s.dev), s.log, op) <==> Inside(|s.dev.disk|, op) && (op.Write? ==> |s.log| < LOG_MAX)
    ensures var r := Perform(s, op);
      r.ok ==> |r.session.dev.disk| == |s.dev.disk| && |r.session.log| == |s.log| + if op.Write? then 1 else 0
  {
    PerformEffect(s, op);
  }

  ghost predicate AllFit(log: seq<Extent>, size: nat) {
    forall k :: 0 <= k < |log| ==> Fits(log[k], size)
  }

  /** Every entry a run makes in the log lies inside the disk. */
  lemma {:induction false} RunFits(s: Session, ops: seq<Op>)
    requires Coherent(s.dev) && Addressable(ops) && AllFit(s.log, |s.dev.disk|) && AddressableLog(s.log)
    ensures var r := Run(s, ops).session;
      |r.dev.disk| == |s.dev.disk| && AllFit(r.log, |s.dev.disk|)
    decreases |ops|
  {
    if ops != [] {
      PerformEffect(s, ops[0]);
      PerformSizes(s, ops[0]);
      if Perform(s, ops[0]).ok {
        assert forall k :: 0 <= k < |ops[1..]| ==> ops[1..][k] == ops[k + 1];
        RunFits(Perform(s, ops[0]).session, ops[1..]);
      }
    }
  }

  lemma PerformSizes(s: Session, op: Op)
    requires Coherent(s.dev) && op.loc < WORD && AllFit(s.log, |s.dev.disk|) && AddressableLog(s.log)
    ensures var r := Perform(s, op).session;
      |r.dev.disk| == |s.dev.disk| && AllFit(r.log, |s.dev.disk|) && AddressableLog(r.log)
  {
    PerformEffect(s, op);
  }

  lemma ReversedFits(log: seq<Extent>, size: nat)
    requires AllFit(log, size)
    ensures AllFit(Reversed(log), size)
  {
    forall k | 0 <= k < |log| ensures Fits(Reversed(log)[k], size) {
      ReversedAt(log, k);
    }
  }

  /** On a device of whole blocks without faults: an install gets to its end exactly if its script lets it and it
      is feasible; otherwise undoing works, and the disk is the original again. */
  lemma InstallFaultless(s: Session, t: Script)
    requires Fresh(s) && Faultless(s.dev) && WholeBlocks(s.dev) && Addressable(t.ops)
    ensures var r := EndOf(s, t);
      && (r.ok <==> t.go && Feasible(|s.dev.disk|, 0, t.ops))
      && (!r.ok ==> Undone(r.session).ok && Undone(r.session).dev.disk == s.dev.disk)
  {
    var r, e := Run(s, t.ops), EndOf(s, t);
    RunFaultless(s, s.dev.disk, t.ops);
    RunEffect(s, t.ops);
    EndSpec(s, t);
    if !e.ok {
      RunFits(s, t.ops);
      assert e.session == r.session;
      UndoneWorks(e.session);
      UndoneExactly(e.session, s.dev.disk);
    }
  }

  lemma UndoneWorks(s: Session)
    requires WellFormed(s.dev) && Faultless(s.dev) && WholeBlocks(s.dev) && AddressableLog(s.log)
    requires AllFit(s.log, |s.dev.disk|)
    ensures Undone(s).ok
  {
    ReversedAddressable(s.log);
    ReversedFits(s.log, |s.dev.disk|);
    UninstallComplete(s.dev, Reversed(s.log));
  }
}
