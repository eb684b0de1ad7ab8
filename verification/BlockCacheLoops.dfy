/** The chunk loops of the cache refine reading and overwriting a plain byte array. */
module BlockCacheLoops {
  import opened Blocks
  import opened Bytes
  import opened BlockCache

  /** Where a chunk that starts at `at` lies in the cached block. */
  lemma ChunkSpec(c: Dev, at: nat, left: nat)
    requires Coherent(c) && 0 < left && c.cached != INVALID && c.cached == BlockAt(at, |c.cache|)
    ensures var size := |c.cache|; var n, offset := Chunk(at, left, size), OffsetAt(at, size);
      && at == BlockStart(c.cached, size) + offset
      && at + n <= |c.disk|
      && c.cache[offset..offset + n] == View(c)[at..at + n]
  {
    StartPlusOffset(at, |c.cache|);
  }

  lemma GetChunkSpec(d: Dev, at: nat, left: nat)
    requires Coherent(d) && at < WORD && 0 < left
    ensures var r := GetChunk(d, at, left);
      && WellFormed(r.dev) && View(r.dev) == View(d) && Between(d.disk, r.dev.disk, View(d))
      && (r.ok ==> Coherent(r.dev) && at + |r.data| <= |d.disk| && r.data == View(d)[at..at + |r.data|])
  {
    BlockAtBound(at, |d.cache|);
    CacheBlockSpec(d, BlockAt(at, |d.cache|));
    var c := CacheBlock(d, BlockAt(at, |d.cache|));
    if c.ok {
      ChunkSpec(c.dev, at, left);
    }
  }

  /** A read from `loc + |acc|` to `loc + count` that started in `d` and ended in `r`. */
  ghost predicate ReadsView(d: Dev, loc: nat, count: nat, acc: seq<byte>, r: Fetch) {
    && WellFormed(r.dev) && View(r.dev) == View(d) && Between(d.disk, r.dev.disk, View(d))
    && (r.ok ==> Coherent(r.dev))
    && (r.ok && |acc| < count ==>
          loc + count <= |d.disk| && r.data == acc + View(d)[loc + |acc|..loc + count])
  }

  lemma ReadsViewStep(d: Dev, loc: nat, count: nat, acc: seq<byte>, g: Fetch, r: Fetch)
    requires View(g.dev) == View(d) && Between(d.disk, g.dev.disk, View(d))
    requires 0 < |g.data| && |acc + g.data| <= count && loc + |acc| + |g.data| <= |d.disk|
    requires g.data == View(d)[loc + |acc|..loc + |acc| + |g.data|]
    requires ReadsView(g.dev, loc, count, acc + g.data, r)
    requires r.ok && |acc + g.data| == count ==> r.data == acc + g.data
    ensures ReadsView(d, loc, count, acc, r)
  {
  }

  /** `_device_read` returns exactly the logical bytes it was asked for, and changes none, whatever goes wrong. */
  lemma {:induction false} GetFromSpec(d: Dev, loc: nat, count: nat, acc: seq<byte>)
    requires Coherent(d) && loc < WORD && |acc| <= count && (0 < |acc| ==> loc + |acc| <= |d.disk|)
    ensures ReadsView(d, loc, count, acc, GetFrom(d, loc, count, acc))
    decreases count - |acc|
  {
    hide BlockCache.GetChunk, BlockCache.CacheBlock;
    if |acc| < count {
      var at := loc + |acc|;
      assert Wrap(at) == at;
      GetChunkSpec(d, at, count - |acc|);
      var g := GetChunk(d, at, count - |acc|);
      if g.ok {
        GetFromSpec(g.dev, loc, count, acc + g.data);
        ReadsViewStep(d, loc, count, acc, g, GetFrom(g.dev, loc, count, acc + g.data));
      }
    }
  }

  lemma OverwriteInside(disk: seq<byte>, start: nat, cache: seq<byte>, offset: nat, bytes: seq<byte>)
    requires offset + |bytes| <= |cache|
    ensures Overwrite(disk, start, Overwrite(cache, offset, bytes))
         == Overwrite(Overwrite(disk, start, cache), start + offset, bytes)
  {
  }

  /** The logical contents are the disk under the cached block. */
  lemma CachedView(c: Dev)
    requires Coherent(c) && c.cached != INVALID
    ensures View(c) == Overwrite(c.disk, BlockStart(c.cached, |c.cache|), c.cache)
  {
  }

  lemma ShowsOverwritten(disk: seq<byte>, start: nat, cache: seq<byte>)
    requires start + |cache| <= |disk|
    ensures ShowsBlock(cache, start, Overwrite(disk, start, cache))
  {
  }

  /** Storing bytes in a coherent cached block overwrites the logical contents there. */
  lemma StoreSpec(c: Dev, at: nat, bytes: seq<byte>)
    requires Coherent(c) && c.cached != INVALID && 0 < |bytes|
    requires var offset := OffsetAt(at, |c.cache|);
      at == BlockStart(c.cached, |c.cache|) + offset && offset + |bytes| <= |c.cache|
    ensures var s := c.(cache := Overwrite(c.cache, OffsetAt(at, |c.cache|), bytes), dirty := true);
      Coherent(s) && View(s) == Overwrite(View(c), at, bytes)
  {
    hide BlockCache.ShowsBlock, Bytes.Overwrite, Blocks.BlockStart, Blocks.OffsetAt;
    var start, offset := BlockStart(c.cached, |c.cache|), OffsetAt(at, |c.cache|);
    CachedView(c);
    OverwriteInside(c.disk, start, c.cache, offset, bytes);
    ShowsOverwritten(c.disk, start, Overwrite(c.cache, offset, bytes));
  }

  /** How far a physical disk may lag behind after writing `data[a..k]` at `loc + a`. */
  ghost predicate WrittenBetween(before: seq<byte>, after: seq<byte>, view: seq<byte>,
                                 loc: nat, data: seq<byte>, a: nat, k: nat)
    requires a <= k <= |data|
  {
    && |before| == |after| == |view|
    && forall p :: 0 <= p < |before| ==>
         || after[p] == before[p] || after[p] == view[p]
         || (loc + a <= p < loc + k && after[p] == data[p - loc])
  }

  lemma PutChunkSpec(d: Dev, at: nat, bytes: seq<byte>)
    requires Coherent(d) && at < WORD && bytes != [] && OffsetAt(at, |d.cache|) + |bytes| <= |d.cache|
    ensures var r := PutChunk(d, at, bytes);
      && WellFormed(r.dev) && Between(d.disk, r.dev.disk, View(d))
      && (!r.ok ==> View(r.dev) == View(d))
      && (r.ok ==> Coherent(r.dev) && at + |bytes| <= |d.disk| && View(r.dev) == Overwrite(View(d), at, bytes))
  {
    BlockAtBound(at, |d.cache|);
    CacheBlockSpec(d, BlockAt(at, |d.cache|));
    var c := CacheBlock(d, BlockAt(at, |d.cache|));
    if c.ok {
      StartPlusOffset(at, |d.cache|);
      StoreSpec(c.dev, at, bytes);
    }
  }

  /** A chunk that is not the last one ends where a block ends. */
  lemma StopAligned(size: nat, loc: nat, count: nat, progress: nat)
    requires 0 < size && progress < count && loc + progress < WORD
    ensures var m := PutStop(size, loc, count, progress);
      && OffsetAt(loc + progress, size) + (m - progress) <= size
      && (m < count ==> OffsetAt(loc + m, size) == 0)
  {
    StartPlusOffset(loc + progress, size);
    BlockOfStart(BlockAt(loc + progress, size) + 1, size, 0);
  }

  /** A write from `progress` on that started in `d`, ended in `r` and stored `data[progress..k]`. */
  ghost predicate WritesView(d: Dev, loc: nat, data: seq<byte>, progress: nat, k: nat, r: Step) {
    && progress <= k <= |data| && 0 < |d.cache|
    && WellFormed(r.dev)
    && View(r.dev) == Overwrite(View(d), loc + progress, data[progress..k])
    && WrittenBetween(d.disk, r.dev.disk, View(d), loc, data, progress, k)
    && (progress < k ==> loc + k <= |d.disk|)
    && (r.ok ==> Coherent(r.dev) && k == |data|)
    && (!r.ok ==> k < |data| && (k == progress || OffsetAt(loc + k, |d.cache|) == 0))
  }

  /** One chunk `data[progress..m]` stored, or a failure before it. */
  ghost predicate WritesChunk(d: Dev, loc: nat, data: seq<byte>, progress: nat, m: nat, c: Step) {
    && progress < m <= |data| && 0 < |d.cache| == |c.dev.cache|
    && WellFormed(c.dev) && Between(d.disk, c.dev.disk, View(d))
    && (!c.ok ==> View(c.dev) == View(d))
    && (c.ok ==> && Coherent(c.dev) && loc + m <= |d.disk|
                 && View(c.dev) == Overwrite(View(d), loc + progress, data[progress..m])
                 && (m < |data| ==> OffsetAt(loc + m, |d.cache|) == 0))
  }

  lemma WritesChunkSpec(d: Dev, loc: nat, data: seq<byte>, progress: nat, m: nat)
    requires Coherent(d) && loc + progress < WORD && progress < |data| && m == PutStop(|d.cache|, loc, |data|, progress)
    ensures WritesChunk(d, loc, data, progress, m, PutChunk(d, loc + progress, data[progress..m]))
  {
    StopAligned(|d.cache|, loc, |data|, progress);
    PutChunkSpec(d, loc + progress, data[progress..m]);
  }

  lemma WritesViewStep(d: Dev, loc: nat, data: seq<byte>, progress: nat, c: Step, m: nat, k: nat, r: Step)
    requires WritesChunk(d, loc, data, progress, m, c) && c.ok
    requires WritesView(c.dev, loc, data, m, k, r)
    ensures WritesView(d, loc, data, progress, k, r)
  {
    var two := Overwrite(View(c.dev), loc + m, data[m..k]);
    assert two == Overwrite(View(d), loc + progress, data[progress..k]);
  }

  lemma WritesNothing(d: Dev, loc: nat, data: seq<byte>, progress: nat, r: Step)
    requires progress <= |data| && 0 < |d.cache| && WellFormed(r.dev)
    requires View(r.dev) == View(d) && Between(d.disk, r.dev.disk, View(d))
    requires if r.ok then Coherent(r.dev) && progress == |data| else progress < |data|
    ensures WritesView(d, loc, data, progress, progress, r)
  {
  }

  /** `_device_write` from `progress` on changes exactly the bytes `[loc + progress, loc + k)` of the
      logical contents, where `k` is how far it came; it came all the way when it succeeds. A write
      that fails has stored whole chunks only, all of them before its last block. */
  lemma {:induction false} PutFromSpec(d: Dev, loc: nat, data: seq<byte>, progress: nat) returns (k: nat)
    requires Coherent(d) && loc < WORD && progress <= |data| && (0 < progress ==> loc + progress <= |d.disk|)
    ensures WritesView(d, loc, data, progress, k, PutFrom(d, loc, data, progress))
    decreases |data| - progress
  {
    k := progress;
    if progress >= |data| {
      WritesNothing(d, loc, data, progress, Step(d, true));
    } else {
      assert Wrap(loc + progress) == loc + progress;
      var m := PutStop(|d.cache|, loc, |data|, progress);
      var c := PutChunk(d, loc + progress, data[progress..m]);
      WritesChunkSpec(d, loc, data, progress, m);
      if c.ok {
        k := PutFromSpec(c.dev, loc, data, m);
        WritesViewStep(d, loc, data, progress, c, m, k, PutFrom(c.dev, loc, data, m));
      } else {
        WritesNothing(d, loc, data, progress, c);
      }
    }
  }
}
