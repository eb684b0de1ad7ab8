/** A write that fails between its blocks is not logged. This module finds exactly when that can lose data. */
module TornWrite {
  import opened Blocks
  import opened Bytes
  import opened UndoLog
  import opened BlockCache
  import opened BlockCacheLoops
  import opened DiskSession
  import opened Uninstall

  function WithFaults(d: Dev, faults: seq<Fault>): Dev {
    d.(faults := faults)
  }

  /** A fault script under which caching a block works and `more` is left to come. */
  lemma CacheBlockWorks(d: Dev, block: nat, more: seq<Fault>) returns (faults: seq<Fault>)
    requires d.faults == [] && InRange(d, block)
    ensures CacheBlock(d, block).ok && CacheBlock(d, block).dev.faults == []
    ensures CacheBlock(WithFaults(d, faults), block) == Step(WithFaults(CacheBlock(d, block).dev, more), true)
  {
    if d.cached == block {
      faults := more;
    } else if d.dirty {
      faults := [Works] + ([Works] + more);
      assert faults[1..] == [Works] + more;
      assert faults[1..][1..] == more;
    } else {
      faults := [Works] + more;
      assert faults[1..] == more;
    }
  }

  /** The same for one turn of the reading loop. */
  lemma ChunkWorks(d: Dev, at: nat, left: nat, more: seq<Fault>) returns (faults: seq<Fault>)
    requires d.faults == [] && WellFormed(d) && WholeBlocks(d) && at < |d.disk| && 0 < left
    ensures var g := GetChunk(d, at, left);
      && g.ok && g.dev.faults == [] && WellFormed(g.dev) && WholeBlocks(g.dev)
      && GetChunk(WithFaults(d, faults), at, left) == Fetch(WithFaults(g.dev, more), true, g.data)
  {
    BlockOfAddress(d, at);
    CacheBlockSpec(d, BlockAt(at, |d.cache|));
    SameSizeWholeBlocks(d, GetChunk(d, at, left).dev);
    faults := CacheBlockWorks(d, BlockAt(at, |d.cache|), more);
  }

  /** The same for the whole reading loop over a range inside the device. */
  lemma {:induction false} GetWorks(d: Dev, loc: nat, count: nat, acc: seq<byte>, more: seq<Fault>)
    returns (faults: seq<Fault>)
    requires WellFormed(d) && d.faults == [] && WholeBlocks(d) && loc + count <= |d.disk| && |acc| <= count
    ensures var r := GetFrom(d, loc, count, acc);
      && r.ok && r.dev.faults == []
      && GetFrom(WithFaults(d, faults), loc, count, acc) == Fetch(WithFaults(r.dev, more), true, r.data)
    decreases count - |acc|
  {
    hide BlockCache.CacheBlock, BlockCache.GetChunk;
    if |acc| == count {
      faults := more;
    } else {
      var at, left := loc + |acc|, count - |acc|;
      assert Wrap(at) == at;
      var nothing := ChunkWorks(d, at, left, []);
      var g := GetChunk(d, at, left);
      var later := GetWorks(g.dev, loc, count, acc + g.data, more);
      faults := ChunkWorks(d, at, left, later);
    }
  }

  lemma BlockOfAddress(d: Dev, at: nat)
    requires WellFormed(d) && WholeBlocks(d) && at < |d.disk|
    ensures InRange(d, BlockAt(at, |d.cache|)) && BlockAt(at, |d.cache|) != INVALID
  {
    var blocks: nat :| |d.disk| == BlockStart(blocks, |d.cache|);
    BlockInside(at, |d.cache|, blocks);
    BlockAtBound(at, |d.cache|);
  }

  lemma SameSizeWholeBlocks(d: Dev, c: Dev)
    requires WholeBlocks(d) && |c.disk| == |d.disk| && |c.cache| == |d.cache|
    ensures WholeBlocks(c)
  {
  }

  /** A script under which the writing loop stores and flushes everything before block `lb` and then stops. */
  lemma {:induction false} PutTorn(d: Dev, loc: nat, data: seq<byte>, progress: nat, lb: nat)
    returns (faults: seq<Fault>)
    requires Coherent(d) && d.faults == [] && WholeBlocks(d) && loc + |data| <= |d.disk|
    requires progress <= lb < |data| && OffsetAt(loc + lb, |d.cache|) == 0
    requires progress == lb ==> d.dirty && d.cached != BlockAt(loc + lb, |d.cache|)
    ensures var r := PutFrom(WithFaults(d, faults), loc, data, progress);
      !r.ok && r.dev.disk == Overwrite(View(d), loc + progress, data[progress..lb])
    decreases lb - progress
  {
    if progress == lb {
      faults := StopAt(d, loc, data, lb);
      assert data[lb..lb] == [];
    } else {
      var m := PutStop(|d.cache|, loc, |data|, progress);
      var later;
      var c := OneChunk(d, loc, data, progress, lb);
      later := PutTorn(c, loc, data, m, lb);
      faults := OneChunkWorks(d, loc, data, progress, later);
      OverwriteTwice(View(d), loc, data, progress, m, lb);
    }
  }

  lemma OverwriteTwice(v: seq<byte>, loc: nat, data: seq<byte>, a: nat, b: nat, c: nat)
    requires a <= b <= c <= |data|
    ensures Overwrite(Overwrite(v, loc + a, data[a..b]), loc + b, data[b..c]) == Overwrite(v, loc + a, data[a..c])
  {
  }

  /** The flush before the last block works, its read does not. */
  lemma StopAt(d: Dev, loc: nat, data: seq<byte>, lb: nat) returns (faults: seq<Fault>)
    requires WellFormed(d) && d.dirty && lb < |data| && loc + lb < WORD && d.cached != BlockAt(loc + lb, |d.cache|)
    ensures var r := PutFrom(WithFaults(d, faults), loc, data, lb); !r.ok && r.dev.disk == View(d)
  {
    faults := [Works] + [SeekFails];
    assert faults[1..] == [SeekFails];
    assert Wrap(loc + lb) == loc + lb;
  }

  /** The state after one chunk when nothing fails. */
  lemma OneChunk(d: Dev, loc: nat, data: seq<byte>, progress: nat, lb: nat) returns (c: Dev)
    requires Coherent(d) && d.faults == [] && WholeBlocks(d) && loc + |data| <= |d.disk|
    requires progress < lb < |data| && OffsetAt(loc + lb, |d.cache|) == 0
    ensures var m := PutStop(|d.cache|, loc, |data|, progress);
      && c == PutChunk(d, loc + progress, data[progress..m]).dev
      && m <= lb && Coherent(c) && c.faults == [] && WholeBlocks(c) && |c.cache| == |d.cache|
      && c.dirty && c.cached != BlockAt(loc + lb, |d.cache|)
      && View(c) == Overwrite(View(d), loc + progress, data[progress..m])
  {
    var at, m := loc + progress, PutStop(|d.cache|, loc, |data|, progress);
    assert Wrap(at) == at;
    StopAligned(|d.cache|, loc, |data|, progress);
    StopBefore(|d.cache|, loc, |data|, progress, lb);
    PlainChunk(d, at, data[progress..m]);
    PutChunkSpec(d, at, data[progress..m]);
    c := PutChunk(d, at, data[progress..m]).dev;
    SameSizeWholeBlocks(d, c);
  }

  lemma PlainChunk(d: Dev, at: nat, bytes: seq<byte>)
    requires WellFormed(d) && d.faults == [] && WholeBlocks(d) && at < |d.disk|
    ensures var c := PutChunk(d, at, bytes);
      c.ok && c.dev.faults == [] && c.dev.dirty && c.dev.cached == BlockAt(at, |d.cache|)
  {
    BlockOfAddress(d, at);
    var nothing := CacheBlockWorks(d, BlockAt(at, |d.cache|), []);
    CacheBlockSpec(d, BlockAt(at, |d.cache|));
  }

  lemma OneChunkWorks(d: Dev, loc: nat, data: seq<byte>, progress: nat, later: seq<Fault>)
    returns (faults: seq<Fault>)
    requires Coherent(d) && d.faults == [] && WholeBlocks(d) && progress < |data| && loc + |data| <= |d.disk|
    ensures var m := PutStop(|d.cache|, loc, |data|, progress);
      PutFrom(WithFaults(d, faults), loc, data, progress)
      == PutFrom(WithFaults(PutChunk(d, loc + progress, data[progress..m]).dev, later), loc, data, m)
  {
    var at, m := loc + progress, PutStop(|d.cache|, loc, |data|, progress);
    assert Wrap(at) == at;
    BlockOfAddress(d, at);
    faults := CacheBlockWorks(d, BlockAt(at, |d.cache|), later);
    assert PutChunk(WithFaults(d, faults), at, data[progress..m])
           == Step(WithFaults(PutChunk(d, at, data[progress..m]).dev, later), true);
  }

  /** A chunk that starts before a block boundary ends there or earlier, in an earlier block. */
  lemma StopBefore(size: nat, loc: nat, count: nat, progress: nat, lb: nat)
    requires 0 < size && progress < lb < count && loc + count <= WORD && OffsetAt(loc + lb, size) == 0
    ensures PutStop(size, loc, count, progress) <= lb
    ensures BlockAt(loc + progress, size) != BlockAt(loc + lb, size)
  {
    var at := loc + progress;
    StartPlusOffset(at, size);
    StartPlusOffset(loc + lb, size);
    var a, b := BlockAt(at, size), BlockAt(loc + lb, size);
    if a < b {
      StartMonotone(a, b, size);
      if a + 1 < b {
        StartMonotone(a + 1, b, size);
      }
    } else if b < a {
      StartMonotone(b, a, size);
      assert false;
    } else {
      assert false;
    }
  }

  lemma LastBlockAligned(loc: nat, count: nat, size: nat)
    requires 0 < size && 0 < LastBlock(loc, count, size)
    ensures LastBlock(loc, count, size) < count && OffsetAt(loc + LastBlock(loc, count, size), size) == 0
  {
    StartPlusOffset(loc + count - 1, size);
    BlockOfStart(BlockAt(loc + count - 1, size), size, 0);
  }

  /** A logged write inside the device keeps the original recoverable under every fault script exactly
      when each unlogged byte before its last block is rewritten with the value it already has. */
  lemma TornWriteExactly(s: Session, original: seq<byte>, loc: nat, data: seq<byte>)
    requires Recoverable(s, original) && WholeBlocks(s.dev) && |s.log| < LOG_MAX && loc + |data| <= |s.dev.disk|
    ensures TearHarmless(View(s.dev), s.log, loc, data, LastBlock(loc, |data|, |s.dev.cache|))
            <==> forall faults: seq<Fault> ::
                   var r := LoggedWrite(s.(dev := WithFaults(s.dev, faults)), loc, data);
                   Undoable(r.session.dev.disk, r.session.log, original)
  {
    var lb := LastBlock(loc, |data|, |s.dev.cache|);
    if TearHarmless(View(s.dev), s.log, loc, data, lb) {
      forall faults: seq<Fault>
        ensures var r := LoggedWrite(s.(dev := WithFaults(s.dev, faults)), loc, data);
                Undoable(r.session.dev.disk, r.session.log, original)
      {
        var t := s.(dev := WithFaults(s.dev, faults));
        assert Recoverable(t, original) && View(t.dev) == View(s.dev);
        WriteKeeps(t, original, loc, data);
      }
    } else {
      var faults := TearingScript(s, original, loc, data);
    }
  }

  lemma TearingScript(s: Session, original: seq<byte>, loc: nat, data: seq<byte>) returns (faults: seq<Fault>)
    requires Recoverable(s, original) && WholeBlocks(s.dev) && |s.log| < LOG_MAX && loc + |data| <= |s.dev.disk|
    requires !TearHarmless(View(s.dev), s.log, loc, data, LastBlock(loc, |data|, |s.dev.cache|))
    ensures var r := LoggedWrite(s.(dev := WithFaults(s.dev, faults)), loc, data);
      !r.ok && !Undoable(r.session.dev.disk, r.session.log, original)
  {
    var lb := LastBlock(loc, |data|, |s.dev.cache|);
    var p :| loc <= p < loc + lb && p < |View(s.dev)| && FirstSaved(s.log, p).None? && data[p - loc] != View(s.dev)[p];
    LastBlockAligned(loc, |data|, |s.dev.cache|);
    var g, later;
    var plain := WithFaults(s.dev, []);
    SameSizeWholeBlocks(s.dev, plain);
    faults, g, later := ReadThenTear(plain, loc, data, lb);
    assert WithFaults(plain, faults) == WithFaults(s.dev, faults);
    TornOutcome(s, original, loc, data, faults, g, later, p);
  }

  lemma ReadThenTear(d: Dev, loc: nat, data: seq<byte>, lb: nat)
    returns (faults: seq<Fault>, g: Fetch, later: seq<Fault>)
    requires Coherent(d) && d.faults == [] && WholeBlocks(d) && loc + |data| <= |d.disk|
    requires 0 < lb < |data| && OffsetAt(loc + lb, |d.cache|) == 0
    ensures |g.dev.cache| == |d.cache| && View(g.dev) == View(d)
    ensures Get(WithFaults(d, faults), loc, |data|) == Fetch(WithFaults(g.dev, later), true, g.data)
    ensures Tears(WithFaults(g.dev, later), View(d), loc, data, lb)
  {
    g := PlainGet(d, loc, |data|);
    later := PutTears(g.dev, loc, data, lb);
    faults := GetWorks(d, loc, |data|, [], later);
  }

  ghost predicate Tears(d: Dev, view: seq<byte>, loc: nat, data: seq<byte>, lb: nat)
    requires 0 < |d.cache| && lb <= |data|
  {
    !Put(d, loc, data).ok && Put(d, loc, data).dev.disk == Overwrite(view, loc, data[..lb])
  }

  lemma PutTears(d: Dev, loc: nat, data: seq<byte>, lb: nat) returns (faults: seq<Fault>)
    requires Coherent(d) && d.faults == [] && WholeBlocks(d) && loc + |data| <= |d.disk|
    requires 0 < lb < |data| && OffsetAt(loc + lb, |d.cache|) == 0
    ensures Tears(WithFaults(d, faults), View(d), loc, data, lb)
  {
    faults := PutTorn(d, loc, data, 0, lb);
    assert data[0..lb] == data[..lb];
  }

  lemma PlainGet(d: Dev, loc: nat, count: nat) returns (g: Fetch)
    requires Coherent(d) && d.faults == [] && WholeBlocks(d)
    requires loc + count <= |d.disk|
    ensures WholeBlocks(g.dev) && g == Get(d, loc, count) && g.ok
    ensures Coherent(g.dev) && g.dev.faults == [] && View(g.dev) == View(d)
    ensures |g.dev.cache| == |d.cache| && |g.dev.disk| == |d.disk|
  {
    var nothing := GetWorks(d, loc, count, [], []);
    GetFromSpec(d, loc, count, []);
    g := Get(d, loc, count);
    SameSizeWholeBlocks(d, g.dev);
  }

  lemma TornOutcome(s: Session, original: seq<byte>, loc: nat, data: seq<byte>,
                    faults: seq<Fault>, g: Fetch, later: seq<Fault>, p: nat)
    requires Recoverable(s, original) && |s.log| < LOG_MAX && View(g.dev) == View(s.dev)
    requires 0 < |g.dev.cache| && Get(WithFaults(s.dev, faults), loc, |data|) == Fetch(WithFaults(g.dev, later), true, g.data)
    requires var r := Put(WithFaults(g.dev, later), loc, data);
      && !r.ok && p < |r.dev.disk| == |View(s.dev)| && r.dev.disk[p] != View(s.dev)[p]
    requires FirstSaved(s.log, p).None?
    ensures var r := LoggedWrite(s.(dev := WithFaults(s.dev, faults)), loc, data);
      !r.ok && !Undoable(r.session.dev.disk, r.session.log, original)
  {
    assert original[p] == View(s.dev)[p];
  }
}
