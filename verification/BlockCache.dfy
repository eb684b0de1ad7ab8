/** The one-block write-back cache as a function of device state.
    Every transfer with the device may go wrong: each one consumes an entry of a fault script. */
module BlockCache {
  import opened Blocks
  import opened Bytes

  /** What happens to one seek-and-transfer. A failed read may leave anything in the cache;
      a failed write may have put a prefix of the block on the disk. */
  datatype Fault = Works | SeekFails | TransferFails(junk: seq<byte>, written: nat)

  /** The block size is the length of `cache`. An exhausted script means that no more faults occur. */
  datatype Dev = Dev(disk: seq<byte>, cache: seq<byte>, cached: nat, dirty: bool, faults: seq<Fault>)

  datatype Step = Step(dev: Dev, ok: bool)
  datatype Fetch = Fetch(dev: Dev, ok: bool, data: seq<byte>)

  /** `(uint64_t)-1`: no block is cached. */
  const INVALID: nat := WORD - 1
  /** Files and devices end below the largest `off_t`. */
  const OFFSET_LIMIT: nat := 0x8000_0000_0000_0000

  predicate InRange(d: Dev, block: nat) {
    BlockStart(block, |d.cache|) + |d.cache| <= |d.disk|
  }

  predicate WellFormed(d: Dev) {
    && 1 < |d.cache|
    && |d.disk| < OFFSET_LIMIT
    && (d.cached != INVALID ==> InRange(d, d.cached))
    && (d.dirty ==> d.cached != INVALID)
  }

  /** The logical contents: the disk overlaid with the dirty block. */
  function View(d: Dev): (v: seq<byte>)
    ensures |v| == |d.disk|
  {
    if d.dirty then Overwrite(d.disk, BlockStart(d.cached, |d.cache|), d.cache) else d.disk
  }

  /** The cached block, if there is one, shows the logical contents. */
  ghost predicate Coherent(d: Dev) {
    && WellFormed(d)
    && (d.cached != INVALID ==> ShowsBlock(d.cache, BlockStart(d.cached, |d.cache|), View(d)))
  }

  ghost predicate ShowsBlock(cache: seq<byte>, start: nat, view: seq<byte>) {
    && start + |cache| <= |view|
    && forall i {:trigger cache[i]} :: 0 <= i < |cache| ==> cache[i] == view[start + i]
  }

  /** Every byte of the physical disk is the one it had or the logical one. */
  ghost predicate Between(before: seq<byte>, after: seq<byte>, view: seq<byte>) {
    && |before| == |after| == |view|
    && forall p :: 0 <= p < |before| ==> after[p] == before[p] || after[p] == view[p]
  }

  function NextFault(d: Dev): Fault {
    if d.faults == [] then Works else d.faults[0]
  }

  function Consume(d: Dev): Dev {
    d.(faults := if d.faults == [] then [] else d.faults[1..])
  }

  function Min(a: nat, b: nat): nat {
    if a < b then a else b
  }

  /** `device_flush_cache` */
  function Flush(d: Dev): (r: Step)
    ensures |r.dev.cache| == |d.cache| && |r.dev.disk| == |d.disk|
  {
    if !d.dirty then Step(d, true)
    else
      var start := BlockStart(d.cached, |d.cache|);
      match NextFault(d)
      case Works => Step(Consume(d).(disk := Overwrite(d.disk, start, d.cache), dirty := false), true)
      case SeekFails => Step(Consume(d), false)
      case TransferFails(_, n) =>
        Step(Consume(d).(disk := Overwrite(d.disk, start, d.cache[..Min(n, |d.cache|)])), false)
  }

  /** The seek and read at the end of `device_cache_block`. */
  function LoadBlock(d: Dev, block: nat): (r: Step)
    ensures |r.dev.cache| == |d.cache| && r.dev.disk == d.disk
  {
    match NextFault(d)
    case SeekFails => Step(Consume(d), false)
    case TransferFails(junk, _) =>
      Step(if |junk| == |d.cache| then Consume(d).(cache := junk) else Consume(d), false)
    case Works =>
      if InRange(d, block) then
        Step(Consume(d).(cache := d.disk[BlockStart(block, |d.cache|)..BlockStart(block, |d.cache|) + |d.cache|], cached := block), true)
      else Step(Consume(d), false)
  }

  /** `device_cache_block` */
  function CacheBlock(d: Dev, block: nat): (r: Step)
    ensures |r.dev.cache| == |d.cache| && |r.dev.disk| == |d.disk|
  {
    if d.cached == block then Step(d, true)
    else
      var f := Flush(d);
      if !f.ok then f else LoadBlock(f.dev, block)
  }

  /** How many of `left` bytes from address `at` on lie in the block of `at`. */
  function Chunk(at: nat, left: nat, size: nat): (n: nat)
    requires 0 < size && 0 < left
    ensures 0 < n <= left && OffsetAt(at, size) + n <= size
  {
    Min(left, size - OffsetAt(at, size))
  }

  /** One turn of the loop of `_device_read`, at address `at` with `left` bytes to go. */
  function GetChunk(d: Dev, at: nat, left: nat): (r: Fetch)
    requires 0 < |d.cache| && 0 < left
    ensures |r.dev.cache| == |d.cache| && |r.dev.disk| == |d.disk|
    ensures r.ok ==> |r.data| == Chunk(at, left, |d.cache|)
  {
    var c := CacheBlock(d, BlockAt(at, |d.cache|));
    var offset := OffsetAt(at, |d.cache|);
    Fetch(c.dev, c.ok, if c.ok then c.dev.cache[offset..offset + Chunk(at, left, |d.cache|)] else [])
  }

  /** The chunk loop of `_device_read`; `acc` is the part of the buffer already filled. */
  function GetFrom(d: Dev, loc: nat, count: nat, acc: seq<byte>): (r: Fetch)
    requires 0 < |d.cache| && |acc| <= count
    ensures |r.dev.cache| == |d.cache| && |r.dev.disk| == |d.disk|
    ensures |r.data| <= count && (r.ok ==> |r.data| == count)
    decreases count - |acc|
  {
    if |acc| >= count then Fetch(d, true, acc)
    else
      var g := GetChunk(d, Wrap(loc + |acc|), count - |acc|);
      if g.ok then GetFrom(g.dev, loc, count, acc + g.data) else Fetch(g.dev, false, acc)
  }

  /** One turn of the loop of `_device_write`: stores `bytes`, which do not leave the block of `at`. */
  function PutChunk(d: Dev, at: nat, bytes: seq<byte>): (r: Step)
    requires 0 < |d.cache|
    ensures |r.dev.cache| == |d.cache| && |r.dev.disk| == |d.disk|
  {
    var c := CacheBlock(d, BlockAt(at, |d.cache|));
    if !c.ok then c
    else Step(c.dev.(cache := Overwrite(c.dev.cache, OffsetAt(at, |d.cache|), bytes), dirty := true), true)
  }

  /** Where the chunk that starts at `progress` ends. */
  function PutStop(size: nat, loc: nat, count: nat, progress: nat): (m: nat)
    requires 0 < size && progress < count
    ensures progress < m <= count
  {
    progress + Chunk(Wrap(loc + progress), count - progress, size)
  }

  /** The chunk loop of `_device_write` from `progress` on. */
  function PutFrom(d: Dev, loc: nat, data: seq<byte>, progress: nat): (r: Step)
    requires 0 < |d.cache|
    ensures |r.dev.cache| == |d.cache| && |r.dev.disk| == |d.disk|
    decreases |data| - progress
  {
    if progress >= |data| then Step(d, true)
    else
      var m := PutStop(|d.cache|, loc, |data|, progress);
      var c := PutChunk(d, Wrap(loc + progress), data[progress..m]);
      if c.ok then PutFrom(c.dev, loc, data, m) else c
  }

  function Get(d: Dev, loc: nat, count: nat): (r: Fetch)
    requires 0 < |d.cache|
  {
    GetFrom(d, loc, count, [])
  }

  function Put(d: Dev, loc: nat, data: seq<byte>): (r: Step)
    requires 0 < |d.cache|
  {
    PutFrom(d, loc, data, 0)
  }

  // ---------- single steps ----------

  /** Flushing never changes the logical contents, whatever goes wrong; a successful flush
      leaves the disk equal to them. */
  lemma FlushSpec(d: Dev)
    requires WellFormed(d)
    ensures var r := Flush(d);
      && WellFormed(r.dev) && View(r.dev) == View(d) && Between(d.disk, r.dev.disk, View(d))
      && r.dev.cached == d.cached && r.dev.cache == d.cache
      && (r.ok ==> !r.dev.dirty && r.dev.disk == View(d))
      && (!r.ok ==> d.dirty && r.dev.dirty)
  {
  }

  /** A load takes one transfer, and if it fails the cache still counts as that of the block it held, whatever its
      bytes are then. */
  lemma LoadBlockSpec(d: Dev, block: nat)
    requires WellFormed(d) && !d.dirty && block != INVALID
    ensures var r := LoadBlock(d, block);
      && WellFormed(r.dev) && !r.dev.dirty && r.dev.disk == d.disk
      && (!r.ok ==> r.dev.cached == d.cached)
      && (r.ok <==> NextFault(d).Works? && InRange(d, block))
      && (r.ok ==> r.dev.cached == block && InRange(d, block) && Coherent(r.dev))
  {
  }

  /** Caching a block never changes the logical contents; on success the cache shows that block of them. */
  lemma CacheBlockSpec(d: Dev, block: nat)
    requires WellFormed(d) && block != INVALID
    ensures var r := CacheBlock(d, block);
      && WellFormed(r.dev) && View(r.dev) == View(d) && Between(d.disk, r.dev.disk, View(d))
      && (r.ok ==> r.dev.cached == block)
      && (r.ok && Coherent(d) ==> Coherent(r.dev))
  {
    if d.cached != block {
      FlushSpec(d);
      var f := Flush(d);
      if f.ok {
        LoadBlockSpec(f.dev, block);
        assert CacheBlock(d, block) == LoadBlock(f.dev, block);
      }
    }
  }
}
