/** Uninstalling on a device that fails: what the retry saves, counted in transfers that go wrong. */
module UninstallFaults {
  import opened Blocks
  import opened Bytes
  import opened UndoLog
  import opened BlockCache
  import opened BlockCacheLoops
  import opened Uninstall

  /** How many transfers of a fault script go wrong. */
  function Bad(faults: seq<Fault>): (n: nat) {
    if faults == [] then 0 else (if faults[0].Works? then 0 else 1) + Bad(faults[1..])
  }

  /** A step spent exactly one bad transfer if it failed, and none if it succeeded. */
  predicate Spends(d: Dev, r: Step) {
    Bad(d.faults) == Bad(r.dev.faults) + if r.ok then 0 else 1
  }

  lemma FlushSpends(d: Dev)
    ensures Spends(d, Flush(d))
  {
  }

  lemma CacheBlockSpends(d: Dev, block: nat)
    requires InRange(d, block)
    ensures Spends(d, CacheBlock(d, block))
  {
    FlushSpends(d);
  }

  /** A write inside the device fails only by a transfer that goes wrong, and stops at the first one. */
  lemma {:induction false} PutSpends(d: Dev, loc: nat, data: seq<byte>, progress: nat)
    requires WholeBlocks(d) && 0 < |d.cache| && |d.disk| < WORD
    requires progress < |data| ==> loc + |data| <= |d.disk|
    ensures Spends(d, PutFrom(d, loc, data, progress))
    decreases |data| - progress
  {
    hide BlockCache.CacheBlock, Bytes.Overwrite;
    if progress < |data| {
      var at := loc + progress;
      var blocks: nat :| |d.disk| == BlockStart(blocks, |d.cache|);
      BlockInside(at, |d.cache|, blocks);
      CacheBlockSpends(d, BlockAt(at, |d.cache|));
      var m := PutStop(|d.cache|, loc, |data|, progress);
      var c := PutChunk(d, at, data[progress..m]);
      if c.ok {
        assert |c.dev.disk| == BlockStart(blocks, |c.dev.cache|);
        PutSpends(c.dev, loc, data, m);
      }
    }
  }

  /** An entry raises a flag exactly if at least two transfers went wrong while it was restored: the retry
      makes good for one. */
  lemma RestoreExtentExactly(d: Dev, e: Extent)
    requires WholeBlocks(d) && 0 < |d.cache| && |d.disk| < WORD && Fits(e, |d.disk|)
    ensures var u := RestoreExtent(d, e);
      && Bad(u.dev.faults) <= Bad(d.faults)
      && (u.flushFailed || u.writeFailed <==> Bad(u.dev.faults) + 2 <= Bad(d.faults))
  {
    hide BlockCache.PutFrom, BlockCache.Flush;
    PutSpends(d, e.loc, e.data, 0);
    var first := Put(d, e.loc, e.data);
    if !first.ok {
      var f := Flush(first.dev);
      FlushSpends(first.dev);
      var blocks: nat :| |d.disk| == BlockStart(blocks, |d.cache|);
      assert |Invalidate(f.dev).disk| == BlockStart(blocks, |Invalidate(f.dev).cache|);
      PutSpends(Invalidate(f.dev), e.loc, e.data, 0);
    }
  }

  /** While every single entry was restored at most one transfer went wrong. */
  ghost predicate OneEach(d: Dev, log: seq<Extent>)
    requires 0 < |d.cache|
    decreases |log|
  {
    log == [] || var next := RestoreExtent(d, log[0]).dev;
      Bad(d.faults) <= Bad(next.faults) + 1 && OneEach(next, log[1..])
  }

  ghost predicate AllInside(log: seq<Extent>, size: nat) {
    forall k :: 0 <= k < |log| ==> Fits(log[k], size)
  }

  lemma {:induction false} RestoreAllExactly(d: Dev, log: seq<Extent>)
    requires WholeBlocks(d) && 0 < |d.cache| && |d.disk| < WORD && AllInside(log, |d.disk|)
    ensures var u := RestoreAll(d, log);
      && Bad(u.dev.faults) <= Bad(d.faults)
      && (!u.flushFailed && !u.writeFailed <==> OneEach(d, log))
      && (Bad(d.faults) <= 1 ==> OneEach(d, log))
    decreases |log|
  {
    hide RestoreExtent;
    if log != [] {
      var next := RestoreExtent(d, log[0]).dev;
      RestoreExtentExactly(d, log[0]);
      var blocks: nat :| |d.disk| == BlockStart(blocks, |d.cache|);
      assert |next.disk| == BlockStart(blocks, |next.cache|);
      RestoreAllExactly(next, log[1..]);
    }
  }

  /** The next transfer goes wrong, and the last flush of `uninstall()` needs it. */
  predicate LastFlushHit(u: Undo) {
    u.dev.dirty && !NextFault(u.dev).Works?
  }

  /** Where all entries lie inside a device of whole blocks, `uninstall()` returns true, whatever goes wrong,
      exactly if that was at most one transfer for each entry and not the last flush; then the disk is the old
      one with all entries written. One bad transfer in all harms nothing but as the last flush. */
  lemma UninstallExactly(d: Dev, log: seq<Extent>)
    requires WellFormed(d) && WholeBlocks(d) && AddressableLog(log) && AllInside(log, |d.disk|)
    ensures var clean, r := Invalidate(d), UninstallAll(d, log);
      && (r.ok <==> OneEach(clean, log) && !LastFlushHit(RestoreAll(clean, log)))
      && (Bad(d.faults) <= 1 ==> (r.ok <==> !LastFlushHit(RestoreAll(clean, log))))
      && (r.ok ==> r.dev.disk == ApplyAll(d.disk, log))
  {
    hide RestoreAll;
    var blocks: nat :| |d.disk| == BlockStart(blocks, |d.cache|);
    assert |Invalidate(d).disk| == BlockStart(blocks, |Invalidate(d).cache|);
    RestoreAllExactly(Invalidate(d), log);
    if UninstallAll(d, log).ok {
      UninstallSound(d, log);
    }
  }

  // ---------- the first load ----------

  /** With nothing cached, a write starts with a load, and fails if that does. */
  lemma FirstLoad(d: Dev, loc: nat, data: seq<byte>)
    requires 1 < |d.cache| && d.cached == INVALID && !d.dirty && loc < WORD && data != []
    requires !NextFault(d).Works?
    ensures var r := Put(d, loc, data); !r.ok && !r.dev.dirty && r.dev.faults == d.faults[1..]
  {
    BlockAtBound(loc, |d.cache|);
  }

  ghost predicate SomeBytes(log: seq<Extent>) {
    exists k :: 0 <= k < |log| && log[k].data != []
  }

  /** Nothing is cached and the next transfer goes wrong: the first entry with bytes meets it. */
  lemma {:induction false} FirstLoadRestored(d: Dev, log: seq<Extent>)
    requires 1 < |d.cache| && d.cached == INVALID && !d.dirty && AddressableLog(log) && SomeBytes(log)
    requires WholeBlocks(d) && |d.disk| < WORD && AllInside(log, |d.disk|)
    requires !NextFault(d).Works?
    ensures Bad(RestoreAll(d, log).dev.faults) < Bad(d.faults)
    ensures !NextFault(d.(faults := d.faults[1..])).Works? ==> RestoreAll(d, log).writeFailed
    decreases |log|
  {
    hide BlockCache.PutFrom, BlockCache.Flush;
    var e := log[0];
    RestoreExtentExactly(d, e);
    var next := RestoreExtent(d, e).dev;
    var blocks: nat :| |d.disk| == BlockStart(blocks, |d.cache|);
    assert |next.disk| == BlockStart(blocks, |next.cache|);
    if e.data == [] {
      NothingRestored(d, e);
      var k :| 0 <= k < |log| && log[k].data != [];
      assert log[1..][k - 1] == log[k];
      FirstLoadRestored(d, log[1..]);
    } else {
      FirstLoad(d, e.loc, e.data);
      var first := Put(d, e.loc, e.data);
      FlushClean(first.dev);
      if !NextFault(first.dev).Works? {
        FirstLoad(Invalidate(first.dev), e.loc, e.data);
      }
      PutSpends(d, e.loc, e.data, 0);
      PutSpends(Invalidate(first.dev), e.loc, e.data, 0);
      RestoreAllExactly(next, log[1..]);
    }
  }

  lemma FlushClean(d: Dev)
    requires !d.dirty
    ensures Flush(d) == Step(d, true)
  {
  }

  lemma NothingRestored(d: Dev, e: Extent)
    requires 0 < |d.cache| && e.data == []
    ensures RestoreExtent(d, e) == Undo(d, false, false)
  {
  }

  /** A script whose first transfer goes wrong and no other never harms `uninstall()`, and one whose first
      two go wrong always makes it report failure, if there is anything to restore. */
  lemma FirstTransferBad(d: Dev, log: seq<Extent>)
    requires WellFormed(d) && WholeBlocks(d) && AddressableLog(log) && AllInside(log, |d.disk|) && SomeBytes(log)
    requires d.faults != [] && !d.faults[0].Works?
    ensures var r := UninstallAll(d, log);
      && ((forall k :: 0 < k < |d.faults| ==> d.faults[k].Works?) ==> r.ok && r.dev.disk == ApplyAll(d.disk, log))
      && (1 < |d.faults| && !d.faults[1].Works? ==> !r.ok)
  {
    hide RestoreAll;
    var clean := Invalidate(d);
    var blocks: nat :| |d.disk| == BlockStart(blocks, |d.cache|);
    assert |clean.disk| == BlockStart(blocks, |clean.cache|);
    FirstLoadRestored(clean, log);
    if forall k :: 0 < k < |d.faults| ==> d.faults[k].Works? {
      AllWork(d.faults[1..]);
      UninstallExactly(d, log);
      NextOfNone(RestoreAll(clean, log).dev);
    }
  }

  lemma {:induction false} AllWork(faults: seq<Fault>)
    requires forall k :: 0 <= k < |faults| ==> faults[k].Works?
    ensures Bad(faults) == 0
  {
    if faults != [] {
      AllWork(faults[1..]);
    }
  }

  lemma NextOfNone(d: Dev)
    requires Bad(d.faults) == 0
    ensures NextFault(d).Works?
  {
  }

  // ---------- entries that do not lie inside the device ----------

  lemma SameWholeBlocks(d: Dev, c: Dev)
    requires WholeBlocks(d) && |c.disk| == |d.disk| && |c.cache| == |d.cache|
    ensures WholeBlocks(c)
  {
  }

  lemma OverwriteBehind(v: seq<byte>, loc: nat, data: seq<byte>)
    requires |v| <= loc || data == []
    ensures Overwrite(v, loc, data) == v
  {
  }

  lemma OverwriteSplit(v: seq<byte>, loc: nat, data: seq<byte>, a: nat, m: nat)
    requires a <= m <= |data|
    ensures Overwrite(Overwrite(v, loc + a, data[a..m]), loc + m, data[m..]) == Overwrite(v, loc + a, data[a..])
  {
  }

  /** Without faults a chunk that fails lies behind the device. */
  lemma ChunkBehind(d: Dev, at: nat, bytes: seq<byte>)
    requires Coherent(d) && Faultless(d) && WholeBlocks(d) && at < WORD && bytes != []
    requires OffsetAt(at, |d.cache|) + |bytes| <= |d.cache|
    ensures var c := PutChunk(d, at, bytes); Faultless(c.dev) && WholeBlocks(c.dev) && Coherent(c.dev)
    ensures !PutChunk(d, at, bytes).ok ==> |d.disk| <= at && View(PutChunk(d, at, bytes).dev) == View(d)
  {
    hide BlockCache.ShowsBlock;
    var block := BlockAt(at, |d.cache|);
    BlockAtBound(at, |d.cache|);
    var c := PutChunk(d, at, bytes);
    SameWholeBlocks(d, c.dev);
    var blocks: nat :| |d.disk| == BlockStart(blocks, |d.cache|);
    if at < |d.disk| {
      BlockInside(at, |d.cache|, blocks);
    }
    PutChunkSpec(d, at, bytes);
    CacheBlockFaultless(d, block);
    FlushSpec(d);
    if !CacheBlock(d, block).ok {
      FlushedCoherent(d);
    }
  }

  lemma FlushedCoherent(d: Dev)
    requires Coherent(d) && Flush(d).ok
    ensures Coherent(Flush(d).dev)
  {
    FlushSpec(d);
  }

  /** Without faults a write stores every byte that the device has room for, whether it succeeds or not. */
  lemma {:induction false} PutAsFar(d: Dev, loc: nat, data: seq<byte>, progress: nat)
    requires Coherent(d) && Faultless(d) && WholeBlocks(d) && loc < WORD && progress <= |data|
    requires 0 < progress ==> loc + progress <= |d.disk|
    ensures var r := PutFrom(d, loc, data, progress);
      && Coherent(r.dev) && Faultless(r.dev) && View(r.dev) == Overwrite(View(d), loc + progress, data[progress..])
    decreases |data| - progress
  {
    hide BlockCache.PutChunk, BlockCache.View, Bytes.Overwrite;
    if progress < |data| {
      assert Wrap(loc + progress) == loc + progress;
      var m := PutStop(|d.cache|, loc, |data|, progress);
      var c := PutChunk(d, loc + progress, data[progress..m]);
      StopAligned(|d.cache|, loc, |data|, progress);
      ChunkBehind(d, loc + progress, data[progress..m]);
      PutChunkSpec(d, loc + progress, data[progress..m]);
      if c.ok {
        PutAsFar(c.dev, loc, data, m);
        OverwriteSplit(View(d), loc, data, progress, m);
      } else {
        OverwriteBehind(View(d), loc + progress, data[progress..]);
      }
    } else {
      OverwriteBehind(View(d), loc + progress, data[progress..]);
    }
  }

  lemma OverwriteTwice(v: seq<byte>, loc: nat, data: seq<byte>)
    ensures Overwrite(Overwrite(v, loc, data), loc, data) == Overwrite(v, loc, data)
  {
  }

  lemma RestoreAsFar(d: Dev, e: Extent)
    requires Coherent(d) && Faultless(d) && WholeBlocks(d) && e.loc < WORD
    ensures var u := RestoreExtent(d, e);
      Coherent(u.dev) && Faultless(u.dev) && WholeBlocks(u.dev) && View(u.dev) == Overwrite(View(d), e.loc, e.data)
  {
    hide BlockCache.PutFrom, BlockCache.View, Bytes.Overwrite;
    assert e.data[0..] == e.data;
    PutAsFar(d, e.loc, e.data, 0);
    SameWholeBlocks(d, RestoreExtent(d, e).dev);
    var first := Put(d, e.loc, e.data);
    if !first.ok {
      FlushFaultless(first.dev);
      var clean := Invalidate(Flush(first.dev).dev);
      SameWholeBlocks(d, clean);
      PutAsFar(clean, e.loc, e.data, 0);
      OverwriteTwice(View(d), e.loc, e.data);
    }
  }

  lemma FlushFaultless(d: Dev)
    requires Coherent(d) && Faultless(d)
    ensures var f := Flush(d);
      f.ok && Faultless(f.dev) && Coherent(Invalidate(f.dev)) && View(Invalidate(f.dev)) == View(d) == f.dev.disk
  {
    FlushSpec(d);
  }

  lemma {:induction false} RestoreAllAsFar(d: Dev, log: seq<Extent>)
    requires Coherent(d) && Faultless(d) && WholeBlocks(d) && AddressableLog(log)
    ensures var u := RestoreAll(d, log); Coherent(u.dev) && Faultless(u.dev) && View(u.dev) == ApplyAll(View(d), log)
    decreases |log|
  {
    hide RestoreExtent, BlockCache.View;
    if log != [] {
      RestoreAsFar(d, log[0]);
      RestoreAllAsFar(RestoreExtent(d, log[0]).dev, log[1..]);
    }
  }

  /** Nothing is given up because of another entry: without faults every byte of every entry that the device has room for is
      restored, in order, also where some entries do not fit and `uninstall()` returns false. */
  lemma EveryEntryTried(d: Dev, log: seq<Extent>)
    requires WellFormed(d) && Faultless(d) && WholeBlocks(d) && AddressableLog(log)
    ensures UninstallAll(d, log).dev.disk == ApplyAll(d.disk, log)
  {
    hide RestoreAll;
    SameWholeBlocks(d, Invalidate(d));
    RestoreAllAsFar(Invalidate(d), log);
    FlushFaultless(RestoreAll(Invalidate(d), log).dev);
  }
}
