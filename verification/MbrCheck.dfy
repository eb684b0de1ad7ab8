/** The checks of a master boot record before anything is installed behind it. */
module MbrCheck {
  import opened Bytes
  import opened BlockCache
  import opened DiskSession
  import opened Scripts
  import opened Installer
  import opened Mbr

  const FIRST_USABLE: nat := 63

  function ByteAt(v: seq<byte>, loc: nat): byte {
    Slice(v, loc, 1)[0]
  }

  // ---------- one slot of the table ----------

  /** What a check of one part has done and found: operations, a partition that starts too low, something that is
      not an MBR, an active partition. */
  datatype Finding = Finding(ops: seq<Op>, low: bool, bad: bool, active: bool)

  predicate FlagValid(flag: byte) {
    flag == 0 || flag == 0x80
  }

  /** `hint8 &= 0x80` */
  function Masked(flag: byte): byte {
    if flag >= 0x80 then 0x80 else 0
  }

  /** The flag of slot `i`, cleaned if an MBR is forced. */
  function FlagOps(v: seq<byte>, i: nat, force: bool): (ops: seq<Op>) {
    var flag := ByteAt(v, TABLE + i * 16);
    [Op.Read(TABLE + i * 16, 1)]
    + if force && !FlagValid(flag) then [Op.Write(TABLE + i * 16, [Masked(flag)])] else []
  }

  function TypeOps(v: seq<byte>, i: nat): (ops: seq<Op>) {
    [Op.Read(TABLE + i * 16 + 4, 1)]
    + if ByteAt(v, TABLE + i * 16 + 4) != 0 then [Op.Read(TABLE + i * 16 + 8, 4)] else []
  }

  predicate StartsLow(v: seq<byte>, i: nat) {
    ByteAt(v, TABLE + i * 16 + 4) != 0 && FromLittleEndian(Slice(v, TABLE + i * 16 + 8, 4)) < FIRST_USABLE
  }

  function CheckedSlot(v: seq<byte>, i: nat, force: bool): Finding {
    var flag := ByteAt(v, TABLE + i * 16);
    var g := ViewAfter(v, FlagOps(v, i, force));
    Finding(FlagOps(v, i, force) + TypeOps(g, i), StartsLow(g, i), !force && !FlagValid(flag), flag >= 0x80)
  }

  method CheckFlag(dev: Device, i: nat, force: bool) returns (ok: bool, bad: bool, active: bool)
    requires dev.Ready() && i < 4
    modifies dev, dev.disk, dev.cache, dev.undo
    ensures dev.Ran(old(Run(dev.State(), FlagOps(View(dev.Model()), i, force))), ok) && dev.cache == old(dev.cache)
    ensures ok ==> View(dev.Model()) == ViewAfter(old(View(dev.Model())), FlagOps(old(View(dev.Model())), i, force))
    ensures ok ==> var flag := ByteAt(old(View(dev.Model())), TABLE + i * 16);
      bad == (!force && !FlagValid(flag)) && active == (flag >= 0x80)
  {
    hide DiskSession.Run, BlockCache.View, ViewAfter;
    ghost var s, v := dev.State(), View(dev.Model());
    ghost var more := if force && !FlagValid(ByteAt(v, TABLE + i * 16)) then [Op.Write(TABLE + i * 16, [Masked(ByteAt(v, TABLE + i * 16))])] else [];
    RunAppend(s, [Op.Read(TABLE + i * 16, 1)], more);
    ViewAfterAppend(v, [Op.Read(TABLE + i * 16, 1)], more);
    ViewAfterOne(v, Op.Read(TABLE + i * 16, 1));
    ViewAfterNothing(v);
    var hint8;
    ok, hint8 := dev.Peek(TABLE + i * 16, 1);
    bad, active := false, false;
    if !ok { return; }
    RunNothing(dev.State());
    if hint8[0] != 0 && hint8[0] != 0x80 {
      if !force {
        bad := true;
      } else {
        hint8 := [Masked(hint8[0])];
        ViewAfterOne(v, Op.Write(TABLE + i * 16, hint8));
        ok := dev.Patch(hint8, TABLE + i * 16);
      }
    }
    active := hint8[0] >= 0x80;
  }

  lemma ViewAfterNothing(v: seq<byte>)
    ensures ViewAfter(v, []) == v
  {
  }

  method CheckType(dev: Device, i: nat) returns (ok: bool, low: bool)
    requires dev.Ready() && i < 4
    modifies dev, dev.disk, dev.cache, dev.undo
    ensures dev.Ran(old(Run(dev.State(), TypeOps(View(dev.Model()), i))), ok) && dev.cache == old(dev.cache)
    ensures ok ==> View(dev.Model()) == old(View(dev.Model())) && low == StartsLow(old(View(dev.Model())), i)
  {
    hide DiskSession.Run, BlockCache.View, ViewAfter;
    ghost var v := View(dev.Model());
    var slot := TABLE + i * 16;
    ghost var more := if ByteAt(v, slot + 4) != 0 then [Op.Read(slot + 8, 4)] else [];
    RunAppend(dev.State(), [Op.Read(slot + 4, 1)], more);
    var hint8, hint32;
    low := false;
    ok, hint8 := dev.Peek(slot + 4, 1);
    if !ok { return; }
    RunNothing(dev.State());
    if hint8[0] != 0 {
      ok, hint32 := dev.Peek(slot + 8, 4);
      low := FromLittleEndian(hint32) < FIRST_USABLE;
    }
  }

  method CheckSlot(dev: Device, i: nat, force: bool) returns (ok: bool, low: bool, bad: bool, active: bool)
    requires dev.Ready() && i < 4
    modifies dev, dev.disk, dev.cache, dev.undo
    ensures dev.Ran(old(Run(dev.State(), CheckedSlot(View(dev.Model()), i, force).ops)), ok) && dev.cache == old(dev.cache)
    ensures ok ==> var v := old(View(dev.Model())); var f := CheckedSlot(v, i, force);
      View(dev.Model()) == ViewAfter(v, f.ops) && f == Finding(f.ops, low, bad, active)
  {
    hide DiskSession.Run, BlockCache.View, ViewAfter, FlagOps, TypeOps, StartsLow;
    ghost var v := View(dev.Model());
    ghost var flag := FlagOps(v, i, force);
    RunAppend(dev.State(), flag, TypeOps(ViewAfter(v, flag), i));
    SlotViews(v, i, force);
    low := false;
    ok, bad, active := CheckFlag(dev, i, force);
    if !ok { return; }
    ok, low := CheckType(dev, i);
  }

  lemma SlotViews(v: seq<byte>, i: nat, force: bool)
    ensures var flag := FlagOps(v, i, force); var g := ViewAfter(v, flag);
      ViewAfter(v, flag + TypeOps(g, i)) == g
  {
    hide FlagOps;
    var flag := FlagOps(v, i, force);
    var g := ViewAfter(v, flag);
    ViewAfterAppend(v, flag, TypeOps(g, i));
    ReadsKeepView(g, TypeOps(g, i));
  }

  // ---------- one part after the other ----------

  /** Two findings in a row. */
  function Both(a: Finding, b: Finding): Finding {
    Finding(a.ops + b.ops, b.low, a.bad || b.bad, a.active || b.active)
  }

  const NOTHING: Finding := Finding([], false, false, false)

  /** The first `n` slots, up to one that starts too low. */
  function CheckedSlots(v: seq<byte>, n: nat, force: bool): Finding {
    if n == 0 then NOTHING
    else
      var a := CheckedSlots(v, n - 1, force);
      if a.low then a else Both(a, CheckedSlot(ViewAfter(v, a.ops), n - 1, force))
  }

  /** Something that marks a file system, and how much of it a forced install clears. */
  datatype Mark = Mark(loc: nat, bytes: seq<byte>, clear: nat)

  /** "_ECH_FS_", "NTFS", "FAT", "FAT", "FAT32" and the magic number of ext2. */
  const MARKS: seq<Mark> := [
    Mark(4, [0x5f, 0x45, 0x43, 0x48, 0x5f, 0x46, 0x53, 0x5f], 8), Mark(3, [0x4e, 0x54, 0x46, 0x53], 4),
    Mark(54, [0x46, 0x41, 0x54], 5), Mark(82, [0x46, 0x41, 0x54], 5), Mark(3, [0x46, 0x41, 0x54, 0x33, 0x32], 5),
    Mark(1080, [0x53, 0xef], 2)]

  predicate Marked(v: seq<byte>, m: Mark) {
    Slice(v, m.loc, |m.bytes|) == m.bytes
  }

  function CheckedMark(v: seq<byte>, m: Mark, force: bool): Finding {
    Finding([Op.Read(m.loc, |m.bytes|)] + if force && Marked(v, m) then [Op.Write(m.loc, Zeros(m.clear))] else [],
            false, !force && Marked(v, m), false)
  }

  function CheckedMarks(v: seq<byte>, n: nat, force: bool): Finding
    requires n <= |MARKS|
  {
    if n == 0 then NOTHING
    else
      var a := CheckedMarks(v, n - 1, force);
      Both(a, CheckedMark(ViewAfter(v, a.ops), MARKS[n - 1], force))
  }

  /** All checks; an MBR without an active partition gets its first one made active. */
  function CheckScript(v: seq<byte>, force: bool): (t: Script)
  {
    var a := CheckedSlots(v, 4, force);
    if a.low then Script(a.ops, false)
    else
      var b := CheckedMarks(ViewAfter(v, a.ops), |MARKS|, force);
      var good := !a.bad && !b.bad;
      Script(a.ops + (b.ops + if good && !a.active then [Op.Write(TABLE, [0x80])] else []), good)
  }

  method CheckMark(dev: Device, m: Mark, force: bool) returns (ok: bool, bad: bool)
    requires dev.Ready() && m.loc < WORD
    modifies dev, dev.disk, dev.cache, dev.undo
    ensures dev.Ran(old(Run(dev.State(), CheckedMark(View(dev.Model()), m, force).ops)), ok) && dev.cache == old(dev.cache)
    ensures ok ==> var v := old(View(dev.Model())); var f := CheckedMark(v, m, force);
      View(dev.Model()) == ViewAfter(v, f.ops) && bad == f.bad
  {
    hide DiskSession.Run, BlockCache.View, ViewAfter;
    ghost var v := View(dev.Model());
    ghost var more := if force && Marked(v, m) then [Op.Write(m.loc, Zeros(m.clear))] else [];
    RunAppend(dev.State(), [Op.Read(m.loc, |m.bytes|)], more);
    ViewAfterAppend(v, [Op.Read(m.loc, |m.bytes|)], more);
    ViewAfterOne(v, Op.Read(m.loc, |m.bytes|));
    ViewAfterNothing(v);
    var hintc;
    bad := false;
    ok, hintc := dev.Peek(m.loc, |m.bytes|);
    if !ok { return; }
    RunNothing(dev.State());
    if hintc == m.bytes {
      if !force {
        bad := true;
      } else {
        ViewAfterOne(v, Op.Write(m.loc, Zeros(m.clear)));
        ok := dev.Patch(Zeros(m.clear), m.loc);
      }
    }
  }

  lemma {:induction false} SlotsGrow(v: seq<byte>, n: nat, m: nat, force: bool)
    requires n <= m
    ensures CheckedSlots(v, n, force).ops <= CheckedSlots(v, m, force).ops
    ensures CheckedSlots(v, n, force).low ==> CheckedSlots(v, m, force) == CheckedSlots(v, n, force)
  {
    hide CheckedSlot;
    if n < m {
      SlotsGrow(v, n, m - 1, force);
    }
  }

  lemma {:induction false} MarksGrow(v: seq<byte>, n: nat, m: nat, force: bool)
    requires n <= m <= |MARKS|
    ensures CheckedMarks(v, n, force).ops <= CheckedMarks(v, m, force).ops && !CheckedMarks(v, m, force).low
  {
    if n < m {
      MarksGrow(v, n, m - 1, force);
    }
  }

  /** The same checks for all four slots. */
  method CheckSlots(dev: Device, force: bool) returns (ok: bool, low: bool, bad: bool, active: bool)
    requires dev.Ready()
    modifies dev, dev.disk, dev.cache, dev.undo
    ensures dev.Ran(old(Run(dev.State(), CheckedSlots(View(dev.Model()), 4, force).ops)), ok) && dev.cache == old(dev.cache)
    ensures ok ==> var v := old(View(dev.Model())); var f := CheckedSlots(v, 4, force);
      View(dev.Model()) == ViewAfter(v, f.ops) && f == Finding(f.ops, low, bad, active)
  {
    hide DiskSession.Run, BlockCache.View, ViewAfter, CheckedSlot;
    ghost var s, v := dev.State(), View(dev.Model());
    ok, low, bad, active := true, false, false, false;
    RunNothing(s);
    ViewAfterNothing(v);
    for i := 0 to 4
      invariant dev.Ready() && dev.cache == old(dev.cache) && ok && !low
      invariant var f := CheckedSlots(v, i, force);
        && Run(s, f.ops) == Outcome(dev.State(), true) && View(dev.Model()) == ViewAfter(v, f.ops)
        && f == Finding(f.ops, low, bad, active)
    {
      ghost var f := CheckedSlots(v, i, force);
      ghost var g := CheckedSlot(ViewAfter(v, f.ops), i, force);
      RunAppend(s, f.ops, g.ops);
      ViewAfterAppend(v, f.ops, g.ops);
      SlotsGrow(v, i + 1, 4, force);
      var b, c;
      ok, low, b, c := CheckSlot(dev, i, force);
      if !ok {
        RunStops(s, CheckedSlots(v, i + 1, force).ops, CheckedSlots(v, 4, force).ops);
        return;
      }
      bad, active := bad || b, active || c;
      if low { return; }
    }
  }

  method CheckMarks(dev: Device, force: bool) returns (ok: bool, bad: bool)
    requires dev.Ready()
    modifies dev, dev.disk, dev.cache, dev.undo
    ensures dev.Ran(old(Run(dev.State(), CheckedMarks(View(dev.Model()), |MARKS|, force).ops)), ok) && dev.cache == old(dev.cache)
    ensures ok ==> var v := old(View(dev.Model())); var f := CheckedMarks(v, |MARKS|, force);
      View(dev.Model()) == ViewAfter(v, f.ops) && bad == f.bad
  {
    hide DiskSession.Run, BlockCache.View, ViewAfter, CheckedMark;
    ghost var s, v := dev.State(), View(dev.Model());
    ok, bad := true, false;
    RunNothing(s);
    ViewAfterNothing(v);
    for i := 0 to |MARKS|
      invariant dev.Ready() && dev.cache == old(dev.cache) && ok
      invariant var f := CheckedMarks(v, i, force);
        && Run(s, f.ops) == Outcome(dev.State(), true) && View(dev.Model()) == ViewAfter(v, f.ops) && bad == f.bad
    {
      ghost var f := CheckedMarks(v, i, force);
      ghost var g := CheckedMark(ViewAfter(v, f.ops), MARKS[i], force);
      RunAppend(s, f.ops, g.ops);
      ViewAfterAppend(v, f.ops, g.ops);
      MarksGrow(v, i + 1, |MARKS|, force);
      var b;
      ok, b := CheckMark(dev, MARKS[i], force);
      if !ok {
        RunStops(s, CheckedMarks(v, i + 1, force).ops, CheckedMarks(v, |MARKS|, force).ops);
        return;
      }
      bad := bad || b;
    }
  }

  /** The sanity checks of `bios_install`. */
  method CheckMbr(dev: Device, force: bool) returns (ok: bool, go: bool)
    requires dev.Ready()
    modifies dev, dev.disk, dev.cache, dev.undo
    ensures dev.Ran(old(Run(dev.State(), CheckScript(View(dev.Model()), force).ops)), ok) && dev.cache == old(dev.cache)
    ensures ok ==> var v := old(View(dev.Model())); var t := CheckScript(v, force); go == t.go
  {
    hide DiskSession.Run, BlockCache.View, ViewAfter, CheckedSlots, CheckedMarks;
    ghost var s, v := dev.State(), View(dev.Model());
    ghost var a := CheckedSlots(v, 4, force);
    ghost var b := CheckedMarks(ViewAfter(v, a.ops), |MARKS|, force);
    ghost var last := if !a.bad && !b.bad && !a.active then [Op.Write(TABLE, [0x80])] else [];
    RunAppend(s, a.ops, b.ops + last);
    RunAppend(Run(s, a.ops).session, b.ops, last);
    var low, bad, active, bad2;
    go := false;
    ok, low, bad, active := CheckSlots(dev, force);
    if !ok || low { return; }
    ok, bad2 := CheckMarks(dev, force);
    if !ok { return; }
    RunNothing(dev.State());
    go := !bad && !bad2;
    if go && !active {
      ok := dev.Patch([0x80], TABLE);
    }
  }
}
