/** Uninstalling: replaying a log through the cache, with one retry per entry, on a device that may fail. */
module Uninstall {
  import opened Blocks
  import opened Bytes
  import opened UndoLog
  import opened BlockCache
  import opened BlockCacheLoops

  datatype Undo = Undo(dev: Dev, flushFailed: bool, writeFailed: bool)

  function Invalidate(d: Dev): Dev {
    d.(dirty := false, cached := INVALID)
  }

  /** One entry: write it, and on failure flush, invalidate the cache and try once more. */
  function RestoreExtent(d: Dev, e: Extent): (r: Undo)
    requires 0 < |d.cache|
    ensures |r.dev.cache| == |d.cache| && |r.dev.disk| == |d.disk|
  {
    var first := Put(d, e.loc, e.data);
    if first.ok then Undo(first.dev, false, false)
    else
      var f := Flush(first.dev);
      var second := Put(Invalidate(f.dev), e.loc, e.data);
      Undo(second.dev, !f.ok, !second.ok)
  }

  function RestoreAll(d: Dev, log: seq<Extent>): (r: Undo)
    requires 0 < |d.cache|
    ensures |r.dev.cache| == |d.cache| && |r.dev.disk| == |d.disk|
    decreases |log|
  {
    if log == [] then Undo(d, false, false)
    else
      var u := RestoreExtent(d, log[0]);
      var r := RestoreAll(u.dev, log[1..]);
      Undo(r.dev, u.flushFailed || r.flushFailed, u.writeFailed || r.writeFailed)
  }

  /** `uninstall()` */
  function UninstallAll(d: Dev, log: seq<Extent>): (r: Step)
    requires 0 < |d.cache|
    ensures |r.dev.cache| == |d.cache| && |r.dev.disk| == |d.disk|
  {
    var u := RestoreAll(Invalidate(d), log);
    var f := Flush(u.dev);
    Step(f.dev, !u.writeFailed && !u.flushFailed && f.ok)
  }

  predicate AddressableLog(log: seq<Extent>) {
    forall k :: 0 <= k < |log| ==> log[k].loc < WORD
  }

  // ---------- a run that reports success has restored everything ----------

  lemma {:induction false} RestoreAllWellFormed(d: Dev, log: seq<Extent>)
    requires WellFormed(d) && AddressableLog(log)
    ensures WellFormed(RestoreAll(d, log).dev)
    decreases |log|
  {
    if log != [] {
      RestoreExtentWellFormed(d, log[0]);
      RestoreAllWellFormed(RestoreExtent(d, log[0]).dev, log[1..]);
    }
  }

  lemma RestoreExtentWellFormed(d: Dev, e: Extent)
    requires WellFormed(d) && e.loc < WORD
    ensures WellFormed(RestoreExtent(d, e).dev)
  {
    PutWellFormed(d, e.loc, e.data, 0);
    var first := Put(d, e.loc, e.data);
    if !first.ok {
      FlushSpec(first.dev);
      PutWellFormed(Invalidate(Flush(first.dev).dev), e.loc, e.data, 0);
    }
  }

  /** Even with garbage in the cache the writing loop only ever marks blocks of the disk dirty. */
  lemma {:induction false} PutWellFormed(d: Dev, loc: nat, data: seq<byte>, progress: nat)
    requires WellFormed(d)
    ensures WellFormed(PutFrom(d, loc, data, progress).dev)
    decreases |data| - progress
  {
    if progress < |data| {
      var at := Wrap(loc + progress);
      BlockAtBound(at, |d.cache|);
      CacheBlockSpec(d, BlockAt(at, |d.cache|));
      var m := PutStop(|d.cache|, loc, |data|, progress);
      var c := PutChunk(d, at, data[progress..m]);
      if c.ok {
        PutWellFormed(c.dev, loc, data, m);
      }
    }
  }

  /** An entry that raised no flag was written: whatever the first attempt left behind was flushed,
      never garbage, before the retry started over. */
  lemma RestoreExtentSpec(d: Dev, e: Extent)
    requires Coherent(d) && e.loc < WORD
    ensures var u := RestoreExtent(d, e);
      !u.flushFailed && !u.writeFailed ==>
        Coherent(u.dev) && Fits(e, |d.disk|) && View(u.dev) == Overwrite(View(d), e.loc, e.data)
  {
    var first := Put(d, e.loc, e.data);
    var k := PutFromSpec(d, e.loc, e.data, 0);
    if first.ok {
      assert e.data[0..k] == e.data;
    } else {
      FlushSpec(first.dev);
      var clean := Invalidate(Flush(first.dev).dev);
      if Flush(first.dev).ok {
        var k2 := PutFromSpec(clean, e.loc, e.data, 0);
        assert View(clean) == Overwrite(View(d), e.loc, e.data[0..k]);
        if Put(clean, e.loc, e.data).ok {
          assert e.data[0..k2] == e.data;
          assert Overwrite(View(clean), e.loc, e.data) == Overwrite(View(d), e.loc, e.data);
        }
      }
    }
  }

  lemma {:induction false} RestoreAllSpec(d: Dev, log: seq<Extent>)
    requires Coherent(d) && AddressableLog(log)
    ensures var u := RestoreAll(d, log);
      !u.flushFailed && !u.writeFailed ==>
        && WellFormed(u.dev) && View(u.dev) == ApplyAll(View(d), log)
        && forall k :: 0 <= k < |log| ==> Fits(log[k], |d.disk|)
    decreases |log|
  {
    var u := RestoreAll(d, log);
    if log != [] && !u.flushFailed && !u.writeFailed {
      RestoreExtentSpec(d, log[0]);
      RestoreAllSpec(RestoreExtent(d, log[0]).dev, log[1..]);
      assert forall k :: 1 <= k < |log| ==> log[k] == log[1..][k - 1];
    }
  }

  /** If `uninstall()` returns true then the physical disk is the starting disk with every entry
      written in order, for every pattern of faults and whatever the cache held before. */
  lemma UninstallSound(d: Dev, log: seq<Extent>)
    requires WellFormed(d) && AddressableLog(log) && UninstallAll(d, log).ok
    ensures UninstallAll(d, log).dev.disk == ApplyAll(d.disk, log)
    ensures forall k :: 0 <= k < |log| ==> Fits(log[k], |d.disk|)
  {
    RestoreAllSpec(Invalidate(d), log);
    FlushSpec(RestoreAll(Invalidate(d), log).dev);
  }

  // ---------- without faults it succeeds exactly when the entries fit ----------

  predicate Faultless(d: Dev) {
    forall k :: 0 <= k < |d.faults| ==> d.faults[k] == Works
  }

  ghost predicate WholeBlocks(d: Dev) {
    exists blocks: nat :: |d.disk| == BlockStart(blocks, |d.cache|)
  }

  lemma CacheBlockFaultless(d: Dev, block: nat)
    requires Faultless(d)
    ensures Faultless(CacheBlock(d, block).dev)
    ensures InRange(d, block) ==> CacheBlock(d, block).ok
  {
  }

  /** Without faults the loop completes every write that lies inside the device. */
  lemma {:induction false} PutFaultless(d: Dev, loc: nat, data: seq<byte>, progress: nat)
    requires Faultless(d) && WholeBlocks(d) && 0 < |d.cache| && |d.disk| < WORD
    ensures Faultless(PutFrom(d, loc, data, progress).dev)
    ensures progress < |data| ==> loc + |data| <= |d.disk| ==> PutFrom(d, loc, data, progress).ok
    decreases |data| - progress
  {
    if progress < |data| {
      var at := Wrap(loc + progress);
      var blocks: nat :| |d.disk| == BlockStart(blocks, |d.cache|);
      if loc + |data| <= |d.disk| {
        BlockInside(at, |d.cache|, blocks);
      }
      CacheBlockFaultless(d, BlockAt(at, |d.cache|));
      var m := PutStop(|d.cache|, loc, |data|, progress);
      var c := PutChunk(d, at, data[progress..m]);
      if c.ok {
        assert |c.dev.disk| == BlockStart(blocks, |c.dev.cache|);
        PutFaultless(c.dev, loc, data, m);
      }
    }
  }

  lemma RestoreExtentFaultless(d: Dev, e: Extent)
    requires WellFormed(d) && Faultless(d) && WholeBlocks(d) && e.loc < WORD
    ensures var u := RestoreExtent(d, e); Faultless(u.dev) && !u.flushFailed
    ensures Fits(e, |d.disk|) ==> !RestoreExtent(d, e).writeFailed
  {
    PutFaultless(d, e.loc, e.data, 0);
    var first := Put(d, e.loc, e.data);
    if !first.ok {
      var f := Flush(first.dev);
      assert Faultless(f.dev) && f.ok;
      var blocks: nat :| |d.disk| == BlockStart(blocks, |d.cache|);
      assert |f.dev.disk| == BlockStart(blocks, |f.dev.cache|);
      PutFaultless(Invalidate(f.dev), e.loc, e.data, 0);
    }
  }

  lemma {:induction false} RestoreAllFaultless(d: Dev, log: seq<Extent>)
    requires WellFormed(d) && Faultless(d) && WholeBlocks(d) && AddressableLog(log)
    requires forall k :: 0 <= k < |log| ==> Fits(log[k], |d.disk|)
    ensures var u := RestoreAll(d, log); Faultless(u.dev) && !u.flushFailed && !u.writeFailed
    decreases |log|
  {
    if log != [] {
      var u := RestoreExtent(d, log[0]);
      RestoreExtentFaultless(d, log[0]);
      RestoreExtentWellFormed(d, log[0]);
      var blocks: nat :| |d.disk| == BlockStart(blocks, |d.cache|);
      assert |u.dev.disk| == BlockStart(blocks, |u.dev.cache|);
      RestoreAllFaultless(u.dev, log[1..]);
    }
  }

  /** On a device of whole blocks that stops failing, `uninstall()` returns true exactly when every entry fits. */
  lemma UninstallComplete(d: Dev, log: seq<Extent>)
    requires WellFormed(d) && Faultless(d) && WholeBlocks(d) && AddressableLog(log)
    ensures UninstallAll(d, log).ok <==> forall k :: 0 <= k < |log| ==> Fits(log[k], |d.disk|)
  {
    if UninstallAll(d, log).ok {
      UninstallSound(d, log);
    }
    if forall k :: 0 <= k < |log| ==> Fits(log[k], |d.disk|) {
      var blocks: nat :| |d.disk| == BlockStart(blocks, |d.cache|);
      assert |Invalidate(d).disk| == BlockStart(blocks, |Invalidate(d).cache|);
      RestoreAllFaultless(Invalidate(d), log);
    }
  }
}
