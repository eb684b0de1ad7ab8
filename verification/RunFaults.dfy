/** Runs on a device that fails: nothing is retried while installing. */
module RunFaults {
  import opened Blocks
  import opened Bytes
  import opened UndoLog
  import opened BlockCache
  import opened BlockCacheLoops
  import opened DiskSession
  import opened Scripts
  import opened Uninstall
  import opened UninstallFaults
  import opened Success
  import opened TornWrite

  /** A read inside the device fails only by a transfer that goes wrong. */
  lemma {:induction false} GetSpends(d: Dev, loc: nat, count: nat, acc: seq<byte>)
    requires WholeBlocks(d) && 0 < |d.cache| && |d.disk| < WORD && |acc| <= count
    requires |acc| < count ==> loc + count <= |d.disk|
    ensures var r := GetFrom(d, loc, count, acc); Spends(d, Step(r.dev, r.ok))
    decreases count - |acc|
  {
    hide BlockCache.CacheBlock;
    if |acc| < count {
      var at := loc + |acc|;
      var blocks: nat :| |d.disk| == BlockStart(blocks, |d.cache|);
      BlockInside(at, |d.cache|, blocks);
      CacheBlockSpends(d, BlockAt(at, |d.cache|));
      var g := GetChunk(d, at, count - |acc|);
      if g.ok {
        assert |g.dev.disk| == BlockStart(blocks, |g.dev.cache|);
        GetSpends(g.dev, loc, count, acc + g.data);
      }
    }
  }

  lemma PerformSpends(s: Session, op: Op)
    requires Coherent(s.dev) && WholeBlocks(s.dev) && op.loc < WORD && Doable(View(s.dev), s.log, op)
    ensures var r := Perform(s, op); Spends(s.dev, Step(r.session.dev, r.ok)) && WholeBlocks(r.session.dev)
  {
    hide BlockCache.PutFrom, BlockCache.GetFrom;
    var n := match op case Read(_, count) => count case Write(_, data) => |data|;
    var r := Perform(s, op);
    PerformEffect(s, op);
    GetSpends(s.dev, op.loc, n, []);
    var g := Get(s.dev, op.loc, n);
    SameSizeWholeBlocks(s.dev, g.dev);
    SameSizeWholeBlocks(s.dev, r.session.dev);
    if op.Write? && g.ok {
      PutSpends(g.dev, op.loc, op.data, 0);
    }
  }

  /** A run that could be done completes exactly if none of its transfers goes wrong, and stops at the first that does. */
  lemma {:induction false} RunSpends(s: Session, ops: seq<Op>)
    requires Coherent(s.dev) && WholeBlocks(s.dev) && Addressable(ops) && |s.log| <= LOG_MAX
    requires Feasible(|s.dev.disk|, |s.log|, ops)
    ensures var r := Run(s, ops); Spends(s.dev, Step(r.session.dev, r.ok))
    decreases |ops|
  {
    hide DiskSession.Perform, Doable, Feasible;
    if ops != [] {
      var r := Perform(s, ops[0]);
      FeasibleFirst(|s.dev.disk|, |s.log|, ops);
      FirstDoable(s, ops[0]);
      PerformEffect(s, ops[0]);
      PerformSpends(s, ops[0]);
      if r.ok {
        assert forall k :: 0 <= k < |ops[1..]| ==> ops[1..][k] == ops[k + 1];
        RunSpends(r.session, ops[1..]);
      }
    }
  }

  /** What can be done at all: what lies on the disk, and 256 writes. */
  lemma DoableExactly(view: seq<byte>, log: seq<Extent>, loc: nat, data: seq<byte>, count: nat)
    ensures Doable(view, log, Op.Write(loc, data)) <==> (data == [] || loc + |data| <= |view|) && |log| < 256
    ensures Doable(view, log, Op.Read(loc, count)) <==> count == 0 || loc + count <= |view|
  {
  }
}
