/** Whole runs of the installer over the cache: logged writes, aborts and uninstalling. */
module DiskSession {
  import opened Blocks
  import opened Bytes
  import opened UndoLog
  import opened BlockCache
  import opened BlockCacheLoops

  const LOG_MAX: nat := 256

  datatype Session = Session(dev: Dev, log: seq<Extent>)
  datatype Outcome = Outcome(session: Session, ok: bool)

  /** `_device_write` while installing: the old bytes are read first, and logged once the write is complete. */
  function LoggedWrite(s: Session, loc: nat, data: seq<byte>): (r: Outcome)
    requires 0 < |s.dev.cache|
    ensures |r.session.dev.cache| == |s.dev.cache|
  {
    if |s.log| >= LOG_MAX then Outcome(s, false)
    else
      var g := Get(s.dev, loc, |data|);
      if !g.ok then Outcome(s.(dev := g.dev), false)
      else
        var p := Put(g.dev, loc, data);
        Outcome(Session(p.dev, if p.ok then s.log + [Extent(loc, g.data)] else s.log), p.ok)
  }

  datatype Op = Read(loc: nat, count: nat) | Write(loc: nat, data: seq<byte>)

  function Perform(s: Session, op: Op): (r: Outcome)
    requires 0 < |s.dev.cache|
    ensures |r.session.dev.cache| == |s.dev.cache|
  {
    match op
    case Read(loc, count) => var g := Get(s.dev, loc, count); Outcome(s.(dev := g.dev), g.ok)
    case Write(loc, data) => LoggedWrite(s, loc, data)
  }

  /** The operations in order, up to and including the first that fails. */
  function Run(s: Session, ops: seq<Op>): (r: Outcome)
    requires 0 < |s.dev.cache|
    ensures |r.session.dev.cache| == |s.dev.cache|
    decreases |ops|
  {
    if ops == [] then Outcome(s, true)
    else
      var r := Perform(s, ops[0]);
      if r.ok then Run(r.session, ops[1..]) else r
  }

  predicate Addressable(ops: seq<Op>) {
    forall k :: 0 <= k < |ops| ==> ops[k].loc < WORD
  }

  // ---------- what installing keeps ----------

  /** The log can bring both the physical disk and its logical contents back to `original`. */
  ghost predicate Recoverable(s: Session, original: seq<byte>) {
    && Coherent(s.dev)
    && Undoable(s.dev.disk, s.log, original)
    && Undoable(View(s.dev), s.log, original)
  }

  lemma BetweenUndoable(before: seq<byte>, after: seq<byte>, view: seq<byte>, log: seq<Extent>, original: seq<byte>)
    requires Between(before, after, view)
    requires Undoable(before, log, original) && Undoable(view, log, original)
    ensures Undoable(after, log, original)
  {
  }

  lemma LogGrows(disk: seq<byte>, view: seq<byte>, after: seq<byte>, log: seq<Extent>, original: seq<byte>,
                 loc: nat, data: seq<byte>)
    requires Undoable(disk, log, original) && Undoable(view, log, original) && |disk| == |view| == |after|
    requires loc + |data| <= |view| || data == []
    requires forall p :: 0 <= p < |after| ==>
               after[p] == disk[p] || after[p] == view[p] || loc <= p < loc + |data|
    ensures Undoable(after, log + [Extent(loc, if data == [] then [] else view[loc..loc + |data|])], original)
  {
    var e := Extent(loc, if data == [] then [] else view[loc..loc + |data|]);
    forall p | 0 <= p < |after|
      ensures original[p] == if FirstSaved(log + [e], p).Some? then FirstSaved(log + [e], p).value else after[p]
    {
      FirstSavedAppend(log, e, p);
    }
  }

  /** Nothing is lost when a write stops after storing `data[..k]`, because every byte it may have
      touched is either logged already or unchanged. */
  ghost predicate TearHarmless(view: seq<byte>, log: seq<Extent>, loc: nat, data: seq<byte>, k: nat)
    requires k <= |data|
  {
    forall p :: loc <= p < loc + k && p < |view| && FirstSaved(log, p).None? ==> data[p - loc] == view[p]
  }

  /** Where the block of the last byte of a write begins, relative to the write. */
  function LastBlock(loc: nat, count: nat, size: nat): (k: nat)
    requires 0 < size
    ensures k <= count
  {
    if count == 0 || OffsetAt(loc + count - 1, size) >= count then 0
    else count - 1 - OffsetAt(loc + count - 1, size)
  }

  lemma AlignedBeforeLastBlock(loc: nat, count: nat, size: nat, k: nat)
    requires 0 < size && k < count && (k == 0 || OffsetAt(loc + k, size) == 0)
    ensures k <= LastBlock(loc, count, size)
  {
    var end := loc + count - 1;
    if k > 0 {
      StartPlusOffset(loc + k, size);
      StartPlusOffset(end, size);
      var a, b := BlockAt(loc + k, size), BlockAt(end, size);
      if b < a {
        StartMonotone(b, a, size);
        assert false;
      } else if a < b {
        StartMonotone(a, b, size);
      }
    }
  }

  lemma ReadKeeps(s: Session, original: seq<byte>, loc: nat, count: nat)
    requires Recoverable(s, original) && loc < WORD
    ensures var g := Get(s.dev, loc, count);
      && WellFormed(g.dev) && View(g.dev) == View(s.dev) && Undoable(g.dev.disk, s.log, original)
      && (g.ok ==> Recoverable(s.(dev := g.dev), original))
      && (g.ok && count > 0 ==> loc + count <= |s.dev.disk| && g.data == View(s.dev)[loc..loc + count])
  {
    GetFromSpec(s.dev, loc, count, []);
    BetweenUndoable(s.dev.disk, Get(s.dev, loc, count).dev.disk, View(s.dev), s.log, original);
  }

  /** A logged write either completes, and everything stays recoverable; or it fails, and the physical
      disk is recoverable provided a tear before the last block would do no harm. */
  lemma WriteKeeps(s: Session, original: seq<byte>, loc: nat, data: seq<byte>)
    requires Recoverable(s, original) && loc < WORD
    ensures var r := LoggedWrite(s, loc, data);
      && WellFormed(r.session.dev)
      && (r.ok ==> && Recoverable(r.session, original)
                   && View(r.session.dev) == Overwrite(View(s.dev), loc, data))
      && (!r.ok && TearHarmless(View(s.dev), s.log, loc, data, LastBlock(loc, |data|, |s.dev.cache|))
          ==> Undoable(r.session.dev.disk, r.session.log, original))
  {
    if |s.log| < LOG_MAX {
      ReadKeeps(s, original, loc, |data|);
      var g := Get(s.dev, loc, |data|);
      if g.ok {
        var k := PutFromSpec(g.dev, loc, data, 0);
        PutKeeps(s, original, g, loc, data, k);
      }
    }
  }

  lemma PutKeeps(s: Session, original: seq<byte>, g: Fetch, loc: nat, data: seq<byte>, k: nat)
    requires Recoverable(s.(dev := g.dev), original) && View(g.dev) == View(s.dev)
    requires 0 < |s.dev.cache| == |g.dev.cache| && |g.data| == |data|
    requires data != [] ==> loc + |data| <= |s.dev.disk| && g.data == View(s.dev)[loc..loc + |data|]
    requires WritesView(g.dev, loc, data, 0, k, Put(g.dev, loc, data))
    ensures var p := Put(g.dev, loc, data);
      if p.ok then
        && Recoverable(Session(p.dev, s.log + [Extent(loc, g.data)]), original)
        && View(p.dev) == Overwrite(View(s.dev), loc, data)
      else
        TearHarmless(View(s.dev), s.log, loc, data, LastBlock(loc, |data|, |s.dev.cache|))
        ==> Undoable(p.dev.disk, s.log, original)
  {
    var p := Put(g.dev, loc, data);
    if p.ok {
      assert data[0..k] == data;
      assert g.data == if data == [] then [] else View(s.dev)[loc..loc + |data|];
      LogGrows(g.dev.disk, View(s.dev), p.dev.disk, s.log, original, loc, data);
      LogGrows(g.dev.disk, View(s.dev), View(p.dev), s.log, original, loc, data);
    } else {
      AlignedBeforeLastBlock(loc, |data|, |s.dev.cache|, k);
    }
  }
}
