/** How many transfers the cache makes: none within the cached block, and one fault script entry for each. */
module Transfers {
  import opened Blocks
  import opened Bytes
  import opened UndoLog
  import opened BlockCache
  import opened BlockCacheLoops
  import opened Uninstall
  import opened UninstallFaults

  function Drop(faults: seq<Fault>, n: nat): seq<Fault> {
    if n <= |faults| then faults[n..] else []
  }

  lemma DropDrop(faults: seq<Fault>, a: nat, b: nat)
    ensures Drop(Drop(faults, a), b) == Drop(faults, a + b)
  {
  }

  /** At most `n` transfers were made, and all `n` where nothing went wrong. */
  ghost predicate Takes(before: seq<Fault>, after: seq<Fault>, ok: bool, n: nat) {
    exists u: nat :: u <= n && after == Drop(before, u) && (ok ==> u == n)
  }

  lemma TakesBoth(a: seq<Fault>, b: seq<Fault>, c: seq<Fault>, ok: bool, m: nat, n: nat)
    requires Takes(a, b, true, m) && Takes(b, c, ok, n)
    ensures Takes(a, c, ok, m + n)
  {
    var u: nat :| u <= n && c == Drop(b, u) && (ok ==> u == n);
    DropDrop(a, m, u);
  }

  lemma TakesFewer(a: seq<Fault>, b: seq<Fault>, m: nat, n: nat)
    requires Takes(a, b, false, m) && m <= n
    ensures Takes(a, b, false, n)
  {
  }

  /** The block `b` comes into the cache: nothing to do if it is there, else a load, behind a flush of a changed block. */
  function LoadTransfers(cached: nat, dirty: bool, b: nat): nat {
    if cached == b then 0 else if dirty then 2 else 1
  }

  lemma CacheBlockTakes(d: Dev, b: nat)
    requires InRange(d, b)
    ensures var r := CacheBlock(d, b); Takes(d.faults, r.dev.faults, r.ok, LoadTransfers(d.cached, d.dirty, b))
    ensures var r := CacheBlock(d, b); r.ok ==> r.dev.cached == b
    ensures d.cached == b ==> CacheBlock(d, b) == Step(d, true)
  {
    var f, r := Flush(d), CacheBlock(d, b);
    assert Takes(d.faults, f.dev.faults, f.ok, if d.dirty then 1 else 0) by {
      assert f.dev.faults == Drop(d.faults, if d.dirty then 1 else 0);
    }
    if d.cached == b {
      assert r.dev.faults == Drop(d.faults, 0);
    } else if f.ok {
      assert r.dev.faults == Drop(f.dev.faults, 1);
      TakesBoth(d.faults, f.dev.faults, r.dev.faults, r.ok, if d.dirty then 1 else 0, 1);
    } else {
      TakesFewer(d.faults, f.dev.faults, 1, 2);
    }
  }

  /** A write of `count` bytes: its first block comes into the cache, and each further one takes a flush and a load. */
  function WriteTransfers(cached: nat, dirty: bool, loc: nat, count: nat, size: nat): nat
    requires 0 < size
  {
    if count == 0 then 0
    else
      BlocksRise(loc, count - 1, size);
      LoadTransfers(cached, dirty, BlockAt(loc, size)) + 2 * (BlockAt(loc + count - 1, size) - BlockAt(loc, size))
  }

  lemma {:induction false} BlocksRise(a: nat, n: nat, size: nat)
    requires 0 < size
    ensures BlockAt(a, size) <= BlockAt(a + n, size)
    ensures OffsetAt(a, size) + n < size ==> BlockAt(a + n, size) == BlockAt(a, size)
    ensures OffsetAt(a, size) + n == size ==> BlockAt(a + n, size) == BlockAt(a, size) + 1
    decreases a
  {
    if a >= size {
      BlocksRise(a - size, n, size);
    }
  }

  /** The chunk at `progress` ends in its block, or the next one starts a block. */
  lemma StopBlock(size: nat, loc: nat, count: nat, progress: nat)
    requires 0 < size && progress < count && loc + count < WORD
    ensures var m, b := PutStop(size, loc, count, progress), BlockAt(loc + progress, size);
      if m == count then BlockAt(loc + count - 1, size) == b else BlockAt(loc + m, size) == b + 1
  {
    var at := loc + progress;
    BlocksRise(at, count - 1 - progress, size);
    BlocksRise(at, size - OffsetAt(at, size), size);
  }

  lemma PutChunkTakes(d: Dev, at: nat, bytes: seq<byte>)
    requires 0 < |d.cache| && InRange(d, BlockAt(at, |d.cache|))
    ensures var r, b := PutChunk(d, at, bytes), BlockAt(at, |d.cache|);
      && Takes(d.faults, r.dev.faults, r.ok, LoadTransfers(d.cached, d.dirty, b))
      && (r.ok ==> r.dev.cached == b && r.dev.dirty)
  {
    hide BlockCache.CacheBlock;
    CacheBlockTakes(d, BlockAt(at, |d.cache|));
  }

  lemma WriteTransfersStep(cached: nat, dirty: bool, loc: nat, data: seq<byte>, progress: nat, size: nat)
    requires 0 < size && progress < |data| && loc + |data| < WORD
    ensures var m, at := PutStop(size, loc, |data|, progress), loc + progress;
      var first, all := LoadTransfers(cached, dirty, BlockAt(at, size)), WriteTransfers(cached, dirty, at, |data| - progress, size);
      if m == |data| then first == all && BlockAt(at, size) == BlockAt(loc + |data| - 1, size)
      else all == first + WriteTransfers(BlockAt(at, size), true, loc + m, |data| - m, size)
  {
    hide PutStop;
    StopBlock(size, loc, |data|, progress);
    BlocksRise(loc + progress, |data| - 1 - progress, size);
    var m := PutStop(size, loc, |data|, progress);
    if m < |data| {
      BlocksRise(loc + m, |data| - 1 - m, size);
    }
  }

  /** How many transfers a write inside the device takes, whatever was cached. */
  lemma {:induction false} PutTakes(d: Dev, loc: nat, data: seq<byte>, progress: nat)
    requires WholeBlocks(d) && 0 < |d.cache| && |d.disk| < WORD
    requires progress < |data| && loc + |data| <= |d.disk|
    ensures var r := PutFrom(d, loc, data, progress);
      && Takes(d.faults, r.dev.faults, r.ok, WriteTransfers(d.cached, d.dirty, loc + progress, |data| - progress, |d.cache|))
      && (r.ok ==> r.dev.cached == BlockAt(loc + |data| - 1, |d.cache|) && r.dev.dirty)
    decreases |data| - progress
  {
    hide BlockCache.PutChunk, WriteTransfers, LoadTransfers, BlockCache.PutStop, Takes;
    var at, size := loc + progress, |d.cache|;
    var blocks: nat :| |d.disk| == BlockStart(blocks, size);
    BlockInside(at, size, blocks);
    var m := PutStop(size, loc, |data|, progress);
    WriteTransfersStep(d.cached, d.dirty, loc, data, progress, size);
    PutChunkTakes(d, at, data[progress..m]);
    var c, r := PutChunk(d, at, data[progress..m]), PutFrom(d, loc, data, progress);
    var first, all := LoadTransfers(d.cached, d.dirty, BlockAt(at, size)), WriteTransfers(d.cached, d.dirty, at, |data| - progress, size);
    if !c.ok {
      assert r == c;
      assert first <= all;
      TakesFewer(d.faults, c.dev.faults, first, all);
    } else if m < |data| {
      assert |c.dev.disk| == BlockStart(blocks, |c.dev.cache|);
      PutTakes(c.dev, loc, data, m);
      assert r == PutFrom(c.dev, loc, data, m);
      TakesBoth(d.faults, c.dev.faults, r.dev.faults, r.ok, first, all - first);
    }
  }

  /** A write inside the cached block makes no transfer, so nothing can go wrong with it. */
  lemma PutInCachedBlock(d: Dev, loc: nat, data: seq<byte>)
    requires Coherent(d) && WholeBlocks(d) && data != [] && loc + |data| <= |d.disk|
    requires BlockAt(loc, |d.cache|) == d.cached == BlockAt(loc + |data| - 1, |d.cache|)
    ensures var r := Put(d, loc, data); r.ok && r.dev.faults == d.faults && r.dev.disk == d.disk
  {
    CachedStop(d, loc, |data|);
    BlockAtBound(loc, |d.cache|);
    CacheBlockTakes(d, d.cached);
    assert Wrap(loc + 0) == loc && data[0..|data|] == data;
    var c := PutChunk(d, loc, data);
    assert c.ok && c.dev.faults == d.faults && c.dev.disk == d.disk;
    assert Put(d, loc, data) == PutFrom(c.dev, loc, data, |data|);
  }

  /** A chunk that starts and a stretch that ends in the same block are one chunk. */
  lemma CachedStop(d: Dev, loc: nat, count: nat)
    requires 0 < |d.cache| && 0 < count && loc + count < WORD
    requires BlockAt(loc, |d.cache|) == BlockAt(loc + count - 1, |d.cache|)
    ensures PutStop(|d.cache|, loc, count, 0) == count && Chunk(loc, count, |d.cache|) == count
  {
    StopBlock(|d.cache|, loc, count, 0);
    var m := PutStop(|d.cache|, loc, count, 0);
    if m < count {
      BlocksRise(loc + m, count - 1 - m, |d.cache|);
    }
  }

  /** Nor does a read there. */
  lemma GetInCachedBlock(d: Dev, loc: nat, count: nat)
    requires Coherent(d) && 0 < count && loc + count <= |d.disk|
    requires BlockAt(loc, |d.cache|) == d.cached == BlockAt(loc + count - 1, |d.cache|)
    ensures var r := Get(d, loc, count); r.ok && r.dev == d && r.data == View(d)[loc..loc + count]
  {
    hide BlockCache.GetChunk, BlockCache.View, BlockCache.WellFormed, BlockCache.Coherent;
    GetChunkCached(d, loc, count);
    GetFromSpec(d, loc, count, []);
    var g := GetChunk(d, loc, count);
    assert [] + g.data == g.data && Wrap(loc + 0) == loc;
    assert Get(d, loc, count) == GetFrom(d, loc, count, g.data);
  }

  lemma GetChunkCached(d: Dev, loc: nat, count: nat)
    requires Coherent(d) && 0 < count && loc + count <= |d.disk|
    requires BlockAt(loc, |d.cache|) == d.cached == BlockAt(loc + count - 1, |d.cache|)
    ensures loc + count < WORD
    ensures var g := GetChunk(d, loc, count); g.ok && g.dev == d && |g.data| == count
  {
    hide BlockCache.CacheBlock, BlockCache.Chunk;
    CachedStop(d, loc, count);
    BlockAtBound(loc, |d.cache|);
    CacheBlockTakes(d, d.cached);
  }

  // ---------- one bad transfer, wherever it is ----------

  /** How many transfers restoring a log takes before the last flush. */
  function LogTransfers(cached: nat, dirty: bool, log: seq<Extent>, size: nat): nat
    requires 0 < size
    decreases |log|
  {
    if log == [] then 0
    else if log[0].data == [] then LogTransfers(cached, dirty, log[1..], size)
    else
      var e := log[0];
      WriteTransfers(cached, dirty, e.loc, |e.data|, size)
      + LogTransfers(BlockAt(e.loc + |e.data| - 1, size), true, log[1..], size)
  }

  /** Exactly transfer number `j` of the script goes wrong. */
  ghost predicate OnlyBad(faults: seq<Fault>, j: nat) {
    j < |faults| && forall k :: 0 <= k < |faults| ==> (faults[k].Works? <==> k != j)
  }

  lemma {:induction false} OnlyBadDropped(faults: seq<Fault>, j: nat, u: nat)
    requires OnlyBad(faults, j)
    ensures Bad(Drop(faults, u)) == if u <= j then 1 else 0
    ensures u <= j ==> OnlyBad(Drop(faults, u), j - u)
    decreases |faults|
  {
    if u > j {
      AllWork(Drop(faults, u));
    } else if u == 0 {
      if j == 0 {
        AllWork(faults[1..]);
      } else {
        OnlyBadDropped(faults[1..], j - 1, 0);
        assert Drop(faults[1..], 0) == faults[1..];
      }
    } else {
      OnlyBadDropped(faults[1..], j - 1, u - 1);
      DropDrop(faults, 1, u - 1);
    }
  }

  lemma RestoreExtentOneBad(d: Dev, e: Extent, j: nat)
    requires WholeBlocks(d) && 0 < |d.cache| && |d.disk| < WORD && Fits(e, |d.disk|) && e.data != []
    requires OnlyBad(d.faults, j)
    ensures var next, n := RestoreExtent(d, e).dev, WriteTransfers(d.cached, d.dirty, e.loc, |e.data|, |d.cache|);
      && (j < n ==> Bad(next.faults) == 0)
      && (n <= j ==> next.faults == Drop(d.faults, n) && next.dirty && next.cached == BlockAt(e.loc + |e.data| - 1, |d.cache|))
  {
    hide BlockCache.PutFrom, BlockCache.Flush, WriteTransfers;
    var first, n := Put(d, e.loc, e.data), WriteTransfers(d.cached, d.dirty, e.loc, |e.data|, |d.cache|);
    PutTakes(d, e.loc, e.data, 0);
    PutSpends(d, e.loc, e.data, 0);
    OnlyBadDropped(d.faults, j, 0);
    var u: nat :| u <= n && first.dev.faults == Drop(d.faults, u) && (first.ok ==> u == n);
    OnlyBadDropped(d.faults, j, u);
    if !first.ok {
      var f := Flush(first.dev);
      FlushSpends(first.dev);
      var blocks: nat :| |d.disk| == BlockStart(blocks, |d.cache|);
      assert |Invalidate(f.dev).disk| == BlockStart(blocks, |Invalidate(f.dev).cache|);
      PutSpends(Invalidate(f.dev), e.loc, e.data, 0);
    }
  }

  lemma {:induction false} RestoreAllOneBad(d: Dev, log: seq<Extent>, j: nat)
    requires WholeBlocks(d) && 0 < |d.cache| && |d.disk| < WORD && AllInside(log, |d.disk|)
    requires OnlyBad(d.faults, j)
    ensures var u, n := RestoreAll(d, log), LogTransfers(d.cached, d.dirty, log, |d.cache|);
      && (j < n ==> Bad(u.dev.faults) == 0)
      && (n <= j ==> u.dev.faults == Drop(d.faults, n) && u.dev.dirty == (d.dirty || SomeBytes(log)))
    decreases |log|
  {
    hide RestoreExtent, WriteTransfers;
    if log != [] {
      var e, next := log[0], RestoreExtent(d, log[0]).dev;
      var blocks: nat :| |d.disk| == BlockStart(blocks, |d.cache|);
      assert |next.disk| == BlockStart(blocks, |next.cache|);
      SomeBytesNext(log);
      if e.data == [] {
        NothingRestored(d, e);
        RestoreAllOneBad(d, log[1..], j);
      } else {
        var n := WriteTransfers(d.cached, d.dirty, e.loc, |e.data|, |d.cache|);
        RestoreExtentOneBad(d, e, j);
        RestoreAllExactly(next, log[1..]);
        if n <= j {
          OnlyBadDropped(d.faults, j, n);
          RestoreAllOneBad(next, log[1..], j - n);
          DropDrop(d.faults, n, LogTransfers(next.cached, next.dirty, log[1..], |d.cache|));
        }
      }
    }
  }

  lemma SomeBytesNext(log: seq<Extent>)
    requires log != []
    ensures SomeBytes(log) <==> log[0].data != [] || SomeBytes(log[1..])
  {
    assert forall k :: 1 <= k < |log| ==> log[k] == log[1..][k - 1];
    assert forall k :: 0 <= k < |log| - 1 ==> log[1..][k] == log[k + 1];
  }

  /** If exactly transfer `j` goes wrong, `uninstall()` returns true, with the disk restored, exactly unless
      that is the last flush; and that is the one behind the transfers that restoring the entries takes. */
  lemma OneBadTransfer(d: Dev, log: seq<Extent>, j: nat)
    requires WellFormed(d) && WholeBlocks(d) && AddressableLog(log) && AllInside(log, |d.disk|) && SomeBytes(log)
    requires OnlyBad(d.faults, j)
    ensures var r, n := UninstallAll(d, log), LogTransfers(INVALID, false, log, |d.cache|);
      && (r.ok <==> j != n)
      && (r.ok ==> r.dev.disk == ApplyAll(d.disk, log))
  {
    hide RestoreAll, LogTransfers;
    var clean := Invalidate(d);
    var u, n := RestoreAll(clean, log), LogTransfers(INVALID, false, log, |d.cache|);
    var blocks: nat :| |d.disk| == BlockStart(blocks, |d.cache|);
    assert |clean.disk| == BlockStart(blocks, |clean.cache|);
    RestoreAllOneBad(clean, log, j);
    OnlyBadDropped(d.faults, j, 0);
    UninstallExactly(d, log);
    if j < n {
      NextOfNone(u.dev);
    }
  }
}
