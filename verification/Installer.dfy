/** The installer's device layer in place: one cache buffer, an undo array and a device that may fail. */
module Installer {
  import opened Blocks
  import opened Bytes
  import opened UndoLog
  import opened BlockCache
  import opened DiskSession
  import opened Uninstall
  import opened UndoFile
  import opened Scripts

  /** The first guess that can be read from the start of the device. */
  function GuessBlockSize(guesses: seq<nat>, length: nat, faults: seq<Fault>): (r: Option<nat>)
    ensures r.Some? ==> r.value in guesses && r.value <= length
    decreases |guesses|
  {
    if guesses == [] then None
    else if guesses[0] <= length && (faults == [] || faults[0].Works?) then Some(guesses[0])
    else GuessBlockSize(guesses[1..], length, if faults == [] then [] else faults[1..])
  }

  predicate NoFaults(faults: seq<Fault>) {
    forall k :: 0 <= k < |faults| ==> faults[k] == Works
  }

  /** One turn of the reading loop. */
  lemma GetTurn(d: Dev, loc: nat, count: nat, acc: seq<byte>)
    requires 0 < |d.cache| && |acc| < count
    ensures var g := GetChunk(d, (loc + |acc|) % WORD, count - |acc|);
      GetFrom(d, loc, count, acc) == if g.ok then GetFrom(g.dev, loc, count, acc + g.data) else Fetch(g.dev, false, acc)
  {
    hide BlockCache.GetChunk;
  }

  lemma PutTurn(d: Dev, loc: nat, data: seq<byte>, progress: nat)
    requires 0 < |d.cache| && progress < |data|
    ensures var at := (loc + progress) % WORD;
      var m := progress + Chunk(at, |data| - progress, |d.cache|);
      var c := PutChunk(d, at, data[progress..m]);
      PutFrom(d, loc, data, progress) == if c.ok then PutFrom(c.dev, loc, data, m) else c
  {
    hide BlockCache.PutChunk;
  }

  lemma ReversedIs(log: seq<Extent>, r: seq<Extent>)
    requires |r| == |log| && forall k :: 0 <= k < |log| ==> r[|log| - 1 - k] == log[k]
    ensures r == Reversed(log)
  {
    forall k | 0 <= k < |log| ensures r[k] == Reversed(log)[k] {
      ReversedAt(log, k);
      var j := |log| - 1 - k;
      assert r[|log| - 1 - j] == log[j];
    }
  }

  const GUESSES: seq<nat> := [512, 2048, 4096]

  /** Transfer number `k` of the script works, or the script is at its end. */
  predicate WorksAt(faults: seq<Fault>, k: nat) {
    k >= |faults| || faults[k].Works?
  }

  /** The block sizes tried: 512, 2048 and 4096, each with a transfer of its own. */
  lemma GuessesExactly(length: nat, faults: seq<Fault>)
    ensures GuessBlockSize(GUESSES, length, faults)
         == if 512 <= length && WorksAt(faults, 0) then Some(512)
            else if 2048 <= length && WorksAt(faults, 1) then Some(2048)
            else if 4096 <= length && WorksAt(faults, 2) then Some(4096) else None
  {
    var f1 := if faults == [] then [] else faults[1..];
    var f2 := if f1 == [] then [] else f1[1..];
    assert GUESSES == [512, 2048, 4096] && GUESSES[1..] == [2048, 4096] && GUESSES[1..][1..] == [4096];
    assert GuessBlockSize([4096], length, f2)
      == if 4096 <= length && WorksAt(f2, 0) then Some(4096) else GuessBlockSize([], length, if f2 == [] then [] else f2[1..]);
    assert GuessBlockSize([2048, 4096], length, f1)
      == if 2048 <= length && WorksAt(f1, 0) then Some(2048) else GuessBlockSize([4096], length, f2);
    assert WorksAt(f2, 0) == WorksAt(faults, 2) && WorksAt(f1, 0) == WorksAt(faults, 1);
  }

  datatype Loading = UndoLoaded | LoadFailed | Overrun

  class Device {
    const disk: array<byte>
    const undo: array<Extent>
    var cache: array<byte>
    var cachedBlock: nat
    var dirty: bool
    var undoCount: nat
    var uninstalling: bool
    /** The faults still to come: the environment, not part of the program. */
    var faults: seq<Fault>

    /** The undo array, with addresses of 64 bits. */
    ghost predicate Undos()
      reads undo
    {
      undo.Length == LOG_MAX && forall k :: 0 <= k < LOG_MAX ==> undo[k].loc < WORD
    }

    ghost predicate Valid()
      reads this, disk, cache, undo
    {
      disk != cache && Undos() && undoCount <= LOG_MAX && WellFormed(Model())
    }

    ghost function Model(): Dev
      reads this, disk, cache
    {
      Dev(disk[..], cache[..], cachedBlock, dirty, faults)
    }

    ghost function Log(): seq<Extent>
      reads this, undo
      requires undoCount <= undo.Length
    {
      undo[..undoCount]
    }

    ghost function State(): Session
      reads this, disk, cache, undo
      requires undoCount <= undo.Length
    {
      Session(Model(), Log())
    }

    constructor (disk: array<byte>, faults: seq<Fault>)
      ensures this.disk == disk && this.faults == faults && !uninstalling && undoCount == 0
      ensures Undos() && fresh(undo) && fresh(cache)
    {
      this.disk := disk;
      this.faults := faults;
      undo := new Extent[LOG_MAX](_ => Extent(0, []));
      cache := new byte[0];
      cachedBlock, dirty, undoCount, uninstalling := 0, false, 0, false;
    }

    /** What the next seek and transfer will do. */
    method Transfer() returns (f: Fault)
      modifies this`faults
      ensures f == old(NextFault(Model())) && Model() == old(Consume(Model()))
    {
      f := if faults == [] then Works else faults[0];
      faults := if faults == [] then [] else faults[1..];
    }

    /** One guess at the block size: the cache gets that size, and the first bytes of the device if there are enough. */
    method ReadFirst(size: nat) returns (ok: bool)
      requires Undos() && undoCount <= LOG_MAX && disk.Length < OFFSET_LIMIT && 1 < size
      modifies this`cache, this`cachedBlock, this`dirty, this`faults
      ensures fresh(cache) && cache.Length == size && faults == (if old(faults) == [] then [] else old(faults)[1..])
      ensures ok == (size <= disk.Length && (old(faults) == [] || old(faults)[0].Works?))
      ensures ok ==> Valid() && Coherent(Model()) && cachedBlock == 0 && !dirty
    {
      cache := new byte[size](_ => 0);
      var f := Transfer();
      ok := f.Works? && size <= disk.Length;
      if ok {
        forall k | 0 <= k < size {
          cache[k] := disk[k];
        }
        dirty, cachedBlock := false, 0;
      }
    }

    /** `device_init`: afterwards block 0 is cached, clean and coherent. */
    method Init() returns (ok: bool)
      requires Undos() && undoCount <= LOG_MAX && disk.Length < OFFSET_LIMIT
      modifies this`cache, this`cachedBlock, this`dirty, this`faults
      ensures var g := GuessBlockSize(GUESSES, disk.Length, old(faults));
        && ok == g.Some?
        && (ok ==> fresh(cache) && cache.Length == g.value)
      ensures ok ==> Valid() && Coherent(Model()) && cachedBlock == 0 && !dirty
      ensures disk[..] == old(disk[..]) && Log() == old(Log()) && (old(NoFaults(faults)) ==> NoFaults(faults))
    {
      ok := false;
      var i := 0;
      while i < |GUESSES| && !ok
        invariant 0 <= i <= |GUESSES| && (ok ==> 0 < i && fresh(cache) && Valid() && Coherent(Model()) && cachedBlock == 0 && !dirty)
        invariant GuessBlockSize(GUESSES, disk.Length, old(faults))
               == if ok then Some(cache.Length) else GuessBlockSize(GUESSES[i..], disk.Length, faults)
        invariant disk[..] == old(disk[..]) && Log() == old(Log()) && (old(NoFaults(faults)) ==> NoFaults(faults))
      {
        ok := ReadFirst(GUESSES[i]);
        i := i + 1;
      }
    }

    /** The first `n` bytes of the cache go to the device. */
    method WriteBack(start: nat, n: nat)
      requires disk != cache && n <= cache.Length && start + cache.Length <= disk.Length
      modifies disk
      ensures disk[..] == Overwrite(old(disk[..]), start, cache[..][..n])
    {
      forall k | 0 <= k < n {
        disk[start + k] := cache[k];
      }
    }

    /** `device_flush_cache` */
    method FlushCache() returns (ok: bool)
      requires Valid()
      modifies this`dirty, this`faults, disk
      ensures Valid() && Step(Model(), ok) == old(Flush(Model()))
    {
      if !dirty {
        return true;
      }
      FlushSpec(Model());
      var f := Transfer();
      var start := cachedBlock * cache.Length;
      StartIsProduct(cachedBlock, cache.Length);
      match f {
        case SeekFails =>
          return false;
        case TransferFails(_, written) =>
          WriteBack(start, Min(written, cache.Length));
          return false;
        case Works =>
          WriteBack(start, cache.Length);
          assert cache[..][..cache.Length] == cache[..];
          dirty := false;
          return true;
      }
    }

    /** The seek and read at the end of `device_cache_block`. */
    method LoadBlock(block: nat) returns (ok: bool)
      requires Valid() && block != INVALID && !dirty
      modifies this`faults, this`cachedBlock, cache
      ensures Valid() && Step(Model(), ok) == old(BlockCache.LoadBlock(Model(), block))
    {
      LoadBlockSpec(Model(), block);
      StartIsProduct(block, cache.Length);
      var start := block * cache.Length;
      var f := Transfer();
      match f {
        case SeekFails =>
          return false;
        case TransferFails(junk, _) =>
          if |junk| == cache.Length {
            forall k | 0 <= k < cache.Length {
              cache[k] := junk[k];
            }
            assert cache[..] == junk;
          }
          return false;
        case Works =>
          if start + cache.Length > disk.Length {
            return false;
          }
          forall k | 0 <= k < cache.Length {
            cache[k] := disk[start + k];
          }
          assert cache[..] == disk[..][start..start + cache.Length];
          cachedBlock := block;
          return true;
      }
    }

    /** `device_cache_block` */
    method CacheBlock(block: nat) returns (ok: bool)
      requires Valid() && block != INVALID
      modifies this`dirty, this`faults, this`cachedBlock, disk, cache
      ensures Valid() && Step(Model(), ok) == old(BlockCache.CacheBlock(Model(), block))
    {
      if cachedBlock == block {
        return true;
      }
      if dirty {
        ok := FlushCache();
        if !ok {
          return false;
        }
      }
      ok := LoadBlock(block);
    }

    /** One turn of the loop of `_device_read`. */
    method ReadChunk(buffer: array<byte>, progress: nat, at: nat, left: nat) returns (ok: bool, chunk: nat)
      requires Valid() && buffer != disk && buffer != cache
      requires 0 < left && progress + left <= buffer.Length && at < WORD
      modifies this`dirty, this`faults, this`cachedBlock, disk, cache, buffer
      ensures Valid()
      ensures var g := old(GetChunk(Model(), at, left));
        && Model() == g.dev && ok == g.ok
        && (ok ==> |g.data| == chunk <= left && buffer[..progress + chunk] == old(buffer[..progress]) + g.data)
        && (!ok ==> buffer[..] == old(buffer[..]))
      ensures buffer[progress + left..] == old(buffer[progress + left..])
    {
      chunk := left;
      BlocksAreDivMod(at, cache.Length);
      BlockAtBound(at, cache.Length);
      ok := CacheBlock(at / cache.Length);
      if ok {
        var offset := at % cache.Length;
        if chunk > cache.Length - offset {
          chunk := cache.Length - offset;
        }
        forall k | 0 <= k < chunk {
          buffer[progress + k] := cache[offset + k];
        }
      }
    }

    /** A turn from `progress` on, as seen from the whole loop. */
    method ReadTurn(buffer: array<byte>, loc: nat, count: nat, progress: nat) returns (ok: bool, next: nat)
      requires Valid() && buffer != disk && buffer != cache && progress < count <= buffer.Length && loc < WORD
      modifies this`dirty, this`faults, this`cachedBlock, disk, cache, buffer
      ensures Valid() && progress < next <= count
      ensures old(GetFrom(Model(), loc, count, buffer[..progress]))
              == if ok then GetFrom(Model(), loc, count, buffer[..next]) else Fetch(Model(), false, buffer[..progress])
      ensures buffer[count..] == old(buffer[count..])
    {
      hide BlockCache.GetFrom, BlockCache.GetChunk;
      ghost var acc, at := buffer[..progress], (loc + progress) % WORD;
      ghost var g := GetChunk(Model(), at, count - progress);
      GetTurn(Model(), loc, count, acc);
      ghost var want := GetFrom(Model(), loc, count, acc);
      assert want == if g.ok then GetFrom(g.dev, loc, count, acc + g.data) else Fetch(g.dev, false, acc);
      var chunk;
      ok, chunk := ReadChunk(buffer, progress, (loc + progress) % WORD, count - progress);
      next := if ok then progress + chunk else count;
      assert g.dev == Model() && g.ok == ok;
      if ok {
        assert buffer[..next] == acc + g.data;
        assert want == GetFrom(Model(), loc, count, buffer[..next]);
      } else {
        assert buffer[..progress] == acc;
      }
    }

    /** `_device_read`: fills `buffer[..count]` with the logical bytes at `loc`. */
    method Read(buffer: array<byte>, loc: nat, count: nat) returns (ok: bool)
      requires Valid() && buffer != disk && buffer != cache && count <= buffer.Length && loc < WORD
      modifies this`dirty, this`faults, this`cachedBlock, disk, cache, buffer
      ensures Valid()
      ensures var r := old(Get(Model(), loc, count));
        Model() == r.dev && ok == r.ok && buffer[..|r.data|] == r.data
      ensures buffer[count..] == old(buffer[count..])
    {
      var progress: nat := 0;
      ok := true;
      ghost var want, tail := Get(Model(), loc, count), buffer[count..];
      while ok && progress < count
        invariant Valid() && progress <= count && buffer[count..] == tail
        invariant ok ==> want == GetFrom(Model(), loc, count, buffer[..progress])
        invariant !ok ==> want.dev == Model() && !want.ok && buffer[..|want.data|] == want.data
        decreases ok, count - progress
      {
        ok, progress := ReadTurn(buffer, loc, count, progress);
      }
    }

    /** One turn of the loop of `_device_write`; `m` is where the chunk ends. */
    method WriteChunk(data: seq<byte>, progress: nat, at: nat) returns (ok: bool, m: nat)
      requires Valid() && progress < |data| && at < WORD
      modifies this`dirty, this`faults, this`cachedBlock, disk, cache
      ensures Valid()
      ensures m == progress + Chunk(at, |data| - progress, cache.Length)
      ensures Step(Model(), ok) == old(PutChunk(Model(), at, data[progress..m]))
    {
      hide BlockCache.CacheBlock;
      var chunk := |data| - progress;
      BlocksAreDivMod(at, cache.Length);
      BlockAtBound(at, cache.Length);
      CacheBlockSpec(Model(), BlockAt(at, cache.Length));
      var offset := at % cache.Length;
      if chunk > cache.Length - offset {
        chunk := cache.Length - offset;
      }
      m := progress + chunk;
      ok := CacheBlock(at / cache.Length);
      if ok {
        StoreAt(data[progress..m], offset);
      }
    }

    /** The copy into the cached block. */
    method StoreAt(bytes: seq<byte>, offset: nat)
      requires Valid() && cachedBlock != INVALID && offset + |bytes| <= cache.Length
      modifies this`dirty, cache
      ensures Valid() && Model() == old(Model()).(cache := Overwrite(old(cache[..]), offset, bytes), dirty := true)
    {
      ghost var before := cache[..];
      forall k | 0 <= k < |bytes| {
        cache[offset + k] := bytes[k];
      }
      assert cache[..] == Overwrite(before, offset, bytes);
      dirty := true;
    }

    /** A turn from `progress` on, as seen from the whole loop. */
    method WriteTurn(data: seq<byte>, loc: nat, progress: nat) returns (ok: bool, next: nat)
      requires Valid() && progress < |data| && loc < WORD
      modifies this`dirty, this`faults, this`cachedBlock, disk, cache
      ensures Valid() && progress < next <= |data| && Log() == old(Log())
      ensures old(PutFrom(Model(), loc, data, progress))
              == if ok then PutFrom(Model(), loc, data, next) else Step(Model(), false)
    {
      hide BlockCache.PutChunk, BlockCache.PutFrom;
      PutTurn(Model(), loc, data, progress);
      ok, next := WriteChunk(data, progress, (loc + progress) % WORD);
    }

    /** The loop of `_device_write`. */
    method Store(data: seq<byte>, loc: nat) returns (ok: bool)
      requires Valid() && loc < WORD
      modifies this`dirty, this`faults, this`cachedBlock, disk, cache
      ensures Valid() && Step(Model(), ok) == old(Put(Model(), loc, data)) && Log() == old(Log())
    {
      var progress: nat := 0;
      ok := true;
      ghost var want, log := Put(Model(), loc, data), Log();
      while ok && progress < |data|
        invariant Valid() && progress <= |data| && Log() == log
        invariant want == if ok then PutFrom(Model(), loc, data, progress) else Step(Model(), false)
        decreases ok, |data| - progress
      {
        ok, progress := WriteTurn(data, loc, progress);
      }
    }

    /** `_device_write` */
    method Write(data: seq<byte>, loc: nat) returns (ok: bool)
      requires Valid() && loc < WORD
      modifies this, disk, cache, undo
      ensures Valid() && cache == old(cache) && uninstalling == old(uninstalling)
      ensures !uninstalling ==> Outcome(State(), ok) == old(LoggedWrite(State(), loc, data))
      ensures uninstalling ==> Step(Model(), ok) == old(Put(Model(), loc, data)) && Log() == old(Log())
    {
      if !uninstalling {
        if undoCount >= LOG_MAX {
          return false;
        }
        ghost var g := Get(Model(), loc, |data|);
        var saved := new byte[|data|];
        ok := Read(saved, loc, |data|);
        if !ok {
          return false;
        }
        assert saved[..] == saved[..|g.data|] == g.data;
        undo[undoCount] := Extent(loc, saved[..]);
        assert Log() == old(Log()) && undo[..undoCount + 1] == old(Log()) + [Extent(loc, g.data)];
      }
      ok := Store(data, loc);
      if ok && !uninstalling {
        undoCount := undoCount + 1;
      }
    }

    /** `reverse_uninstall_data`: through a second array, then copied back. */
    method ReverseUndo()
      requires Valid()
      modifies undo
      ensures Valid() && Log() == Reversed(old(Log()))
    {
      ghost var log := Log();
      var rev := BackToFront();
      forall k | 0 <= k < undoCount {
        undo[k] := rev[k];
      }
      assert forall k :: 0 <= k < undoCount ==> Log()[undoCount - 1 - k] == log[k];
      ReversedIs(log, Log());
    }

    method BackToFront() returns (rev: array<Extent>)
      requires Undos() && undoCount <= LOG_MAX
      ensures fresh(rev) && rev.Length == LOG_MAX && forall k :: 0 <= k < LOG_MAX ==> rev[k].loc < WORD
      ensures forall k :: 0 <= k < undoCount ==> rev[undoCount - 1 - k] == undo[k]
    {
      rev := new Extent[LOG_MAX](_ => Extent(0, []));
      var i, j := 0, undoCount - 1;
      while i < undoCount
        invariant 0 <= i <= undoCount && j == undoCount - 1 - i && fresh(rev)
        invariant forall k :: 0 <= k < i ==> rev[undoCount - 1 - k] == undo[k]
        invariant forall k :: 0 <= k < LOG_MAX ==> rev[k].loc < WORD
      {
        rev[j] := undo[i];
        i, j := i + 1, j - 1;
      }
    }

    /** One entry of `uninstall()`, with its retry loop. */
    method RestoreEntry(e: Extent) returns (flushFailed: bool, writeFailed: bool)
      requires Valid() && uninstalling && e.loc < WORD
      modifies this, disk, cache, undo
      ensures Valid() && uninstalling && cache == old(cache) && Log() == old(Log())
      ensures Undo(Model(), flushFailed, writeFailed) == old(RestoreExtent(Model(), e))
    {
      flushFailed, writeFailed := false, false;
      var ok := Write(e.data, e.loc);
      if !ok {
        var flushed := FlushCache();
        flushFailed := !flushed;
        dirty, cachedBlock := false, INVALID;
        ok := Write(e.data, e.loc);
        writeFailed := !ok;
      }
    }

    /** `uninstall()` */
    method UninstallAll() returns (ok: bool)
      requires Valid()
      modifies this, disk, cache, undo
      ensures Valid() && Log() == old(Log()) && cache == old(cache)
      ensures Step(Model(), ok) == old(Uninstall.UninstallAll(Model(), Log()))
    {
      hide Uninstall.RestoreExtent, BlockCache.Flush;
      var flushFailed, writeFailed := false, false;
      uninstalling, dirty, cachedBlock := true, false, INVALID;
      ghost var start, log := Model(), Log();
      assert log[0..] == log;
      var i := 0;
      while i < undoCount
        invariant Valid() && uninstalling && cache == old(cache) && Log() == log && 0 <= i <= undoCount
        invariant var rest := RestoreAll(Model(), log[i..]);
          RestoreAll(start, log) == Undo(rest.dev, flushFailed || rest.flushFailed, writeFailed || rest.writeFailed)
      {
        assert undo[i] == log[i] && log[i..][1..] == log[i + 1..];
        var f, w := RestoreEntry(undo[i]);
        flushFailed, writeFailed := flushFailed || f, writeFailed || w;
        i := i + 1;
      }
      ok := FlushCache();
      ok := ok && !writeFailed && !flushFailed;
    }

    /** `store_uninstall_data`: the bytes of the file, or failure at the first entry that cannot be written. */
    method StoreUndo() returns (ok: bool, file: seq<byte>)
      requires Valid()
      ensures ok == StoreFile(Log()).Some?
      ensures ok ==> file == StoreFile(Log()).value
    {
      file := LittleEndian(undoCount, 8);
      ghost var log := Log();
      assert log[0..] == log;
      for i := 0 to undoCount
        invariant StoreFile(log) == if StoreEntries(log[i..]).None? then None
                                    else Some(file + StoreEntries(log[i..]).value)
      {
        var e := undo[i];
        assert e == log[i] && log[i..][1..] == log[i + 1..];
        if e.data == [] {
          return false, file;
        }
        ghost var before := file;
        file := file + LittleEndian(e.loc, 8) + LittleEndian(|e.data|, 8) + e.data;
        if StoreEntries(log[i + 1..]).Some? {
          assert before + StoreEntries(log[i..]).value == file + StoreEntries(log[i + 1..]).value;
        }
      }
      assert log[undoCount..] == [];
      assert file + [] == file;
      ok := true;
    }

    /** `load_uninstall_data`. The array has room for 256 entries and the count read is not checked: exactly
        when a file announces more, and the first 256 can be read, the loop gets to a place that is not there. */
    method LoadUndo(file: seq<byte>) returns (r: Loading)
      requires Valid()
      modifies this`undoCount, undo
      ensures Undos() && (undoCount <= LOG_MAX ==> Valid())
      ensures r.Overrun? <==>
        8 <= |file| && FromLittleEndian(file[..8]) > LOG_MAX && LoadEntries(file[8..], LOG_MAX).Some?
      ensures r.UndoLoaded? ==> Valid() && LoadFile(file) == Some(Log())
      ensures r.LoadFailed? ==> LoadFile(file).None?
    {
      hide Bytes.FromLittleEndian, BlockCache.WellFormed, Loads, LoadEntries, ParseEntry;
      if |file| < 8 {
        return LoadFailed;
      }
      undoCount := FromLittleEndian(file[..8]);
      var rest := file[8..];
      var i := 0;
      ghost var all, n, done: seq<Extent> := rest, undoCount, [];
      LoadsFirst(all, n);
      LoadsFirst(all, LOG_MAX);
      while i < undoCount
        invariant Undos() && 0 <= i <= undoCount == n && i <= LOG_MAX && undo[..i] == done
        invariant Loads(all, n, done, rest, i) && Loads(all, LOG_MAX, done, rest, i)
      {
        if i == LOG_MAX {
          LoadsLast(all, LOG_MAX, done, rest);
          return Overrun;
        }
        LoadsNext(all, n, done, rest, i);
        LoadsNext(all, LOG_MAX, done, rest, i);
        var e := ReadUndo(rest);
        if e.None? {
          return LoadFailed;
        }
        undo[i] := e.value;
        rest := rest[16 + |e.value.data|..];
        done := done + [e.value];
        i := i + 1;
      }
      LoadsLast(all, n, done, rest);
      r := UndoLoaded;
    }

    /** The three reads of one entry. */
    static method ReadUndo(rest: seq<byte>) returns (e: Option<Extent>)
      ensures e == ParseEntry(rest) && (e.Some? ==> e.value.loc < WORD)
    {
      if |rest| < 16 {
        return None;
      }
      var loc, count := FromLittleEndian(rest[..8]), FromLittleEndian(rest[8..16]);
      FromLittleEndianBound(rest[..8]);
      Pow256Values();
      if count == 0 || |rest| < 16 + count {
        return None;
      }
      e := Some(Extent(loc, rest[16..16 + count]));
    }

    /** In the middle of an install. */
    ghost predicate Ready()
      reads this, disk, cache, undo
    {
      Valid() && !uninstalling && Coherent(Model())
    }

    /** A part of an install has come out as the run `r`. */
    ghost predicate Ran(r: Outcome, ok: bool)
      reads this, disk, cache, undo
    {
      Valid() && !uninstalling && Outcome(State(), ok) == r && (ok ==> Ready())
    }

    /** The `device_read` macro: the bytes read, or a jump to `cleanup`. */
    method Peek(loc: nat, count: nat) returns (ok: bool, data: seq<byte>)
      requires Ready() && loc < WORD
      modifies this, disk, cache, undo
      ensures Ran(old(Run(State(), [Op.Read(loc, count)])), ok) && cache == old(cache) && |data| == count
      ensures ok ==> View(Model()) == old(View(Model())) && data == Slice(old(View(Model())), loc, count)
    {
      GetEffect(Model(), loc, count);
      RunOne(State(), Op.Read(loc, count));
      var buffer := new byte[count];
      ok := Read(buffer, loc, count);
      data := buffer[..];
    }

    /** The `device_write` macro. */
    method Patch(data: seq<byte>, loc: nat) returns (ok: bool)
      requires Ready() && loc < WORD
      modifies this, disk, cache, undo
      ensures Ran(old(Run(State(), [Op.Write(loc, data)])), ok) && cache == old(cache)
      ensures ok ==> View(Model()) == Overwrite(old(View(Model())), loc, data)
    {
      PerformEffect(State(), Op.Write(loc, data));
      RunOne(State(), Op.Write(loc, data));
      ok := Write(data, loc);
    }
  }
}
