/** What the checks of a master boot record come to. */
module MbrVerdict {
  import opened Bytes
  import opened DiskSession
  import opened Scripts
  import opened Mbr
  import opened MbrCheck
  import opened MbrConversion

  predicate SlotValid(v: seq<byte>, i: nat) {
    FlagValid(ByteAt(v, TABLE + i * 16))
  }

  predicate SlotActive(v: seq<byte>, i: nat) {
    ByteAt(v, TABLE + i * 16) >= 0x80
  }

  predicate AllValid(v: seq<byte>, n: nat) {
    forall i: nat :: i < n ==> SlotValid(v, i)
  }

  predicate NoneLow(v: seq<byte>, n: nat) {
    forall i: nat :: i < n ==> !StartsLow(v, i)
  }

  predicate AnyActive(v: seq<byte>, n: nat) {
    exists i: nat :: i < n && SlotActive(v, i)
  }

  predicate NoMarks(v: seq<byte>, n: nat)
    requires n <= |MARKS|
  {
    forall k :: 0 <= k < n ==> !Marked(v, MARKS[k])
  }

  predicate OnlyReads(ops: seq<Op>) {
    forall k :: 0 <= k < |ops| ==> ops[k].Read?
  }

  // ---------- without force ----------

  lemma {:induction false} PlainSlots(v: seq<byte>, n: nat)
    ensures var f := CheckedSlots(v, n, false);
      && OnlyReads(f.ops) && (f.low <==> !NoneLow(v, n))
      && (!f.low ==> (f.bad <==> !AllValid(v, n)) && (f.active <==> AnyActive(v, n)))
  {
    hide StartsLow, SlotValid, SlotActive, CheckedSlot;
    if n > 0 {
      PlainSlots(v, n - 1);
      var a := CheckedSlots(v, n - 1, false);
      ReadsKeepView(v, a.ops);
      PlainSlot(v, n - 1);
      assert AllValid(v, n) <==> AllValid(v, n - 1) && SlotValid(v, n - 1);
      assert AnyActive(v, n) <==> AnyActive(v, n - 1) || SlotActive(v, n - 1);
    }
  }

  lemma PlainSlot(v: seq<byte>, i: nat)
    ensures var f := CheckedSlot(v, i, false);
      && OnlyReads(f.ops) && f.low == StartsLow(v, i) && f.bad == !SlotValid(v, i) && f.active == SlotActive(v, i)
  {
    hide StartsLow, FlagValid;
    ReadsKeepView(v, FlagOps(v, i, false));
  }

  lemma {:induction false} PlainMarks(v: seq<byte>, n: nat)
    requires n <= |MARKS|
    ensures var f := CheckedMarks(v, n, false); OnlyReads(f.ops) && (f.bad <==> !NoMarks(v, n))
  {
    hide Marked;
    if n > 0 {
      PlainMarks(v, n - 1);
      ReadsKeepView(v, CheckedMarks(v, n - 1, false).ops);
    }
  }

  /** Unless it is forced the check lets an install go on exactly if every flag of the table is valid, no partition
      starts below block 63 and nothing marks a file system; it writes nothing but one flag, if none is set. */
  lemma PlainCheckExactly(v: seq<byte>)
    ensures var t, mark := CheckScript(v, false), !AnyActive(v, 4);
      && (t.go <==> AllValid(v, 4) && NoneLow(v, 4) && NoMarks(v, |MARKS|))
      && ViewAfter(v, t.ops) == (if t.go && mark then Overwrite(v, TABLE, [0x80]) else v)
      && Writes(t.ops) == (if t.go && mark then 1 else 0)
  {
    hide CheckedSlots, CheckedMarks, AllValid, NoneLow, NoMarks, AnyActive;
    PlainSlots(v, 4);
    var a := CheckedSlots(v, 4, false);
    ReadsKeepView(v, a.ops);
    WritesOfWrites(a.ops);
    if !a.low {
      PlainMarks(v, |MARKS|);
      var b := CheckedMarks(v, |MARKS|, false);
      var last := if !a.bad && !b.bad && !a.active then [Op.Write(TABLE, [0x80])] else [];
      ReadsKeepView(v, b.ops);
      ViewAfterAppend(v, a.ops, b.ops + last);
      ViewAfterAppend(v, b.ops, last);
      WritesOfWrites(b.ops);
      WritesOfWrites(last);
      WritesAppend(a.ops, b.ops + last);
      WritesAppend(b.ops, last);
      ViewAfterNothing(v);
      ViewAfterOne(v, Op.Write(TABLE, [0x80]));
    }
  }

  // ---------- with force ----------

  predicate FlagAddress(q: nat, n: nat) {
    exists i: nat :: i < n && q == TABLE + i * 16
  }

  /** A slot that is forced keeps everything but its flag, which becomes valid. */
  lemma ForcedSlot(v: seq<byte>, i: nat)
    requires i < 4 && SECTOR_END <= |v|
    ensures var f := CheckedSlot(v, i, true); var g := ViewAfter(v, f.ops);
      && !f.bad && f.low == StartsLow(v, i) && |g| == |v| && SlotValid(g, i) && SlotActive(g, i) == f.active
      && forall q :: 0 <= q < |v| && q != TABLE + i * 16 ==> g[q] == v[q]
  {
    var at := TABLE + i * 16;
    var flag := FlagOps(v, i, true);
    var g := ViewAfter(v, flag);
    SlotViews(v, i, true);
    FlagView(v, i);
    assert ByteAt(v, at) == v[at] && ByteAt(g, at) == g[at];
    assert ByteAt(g, at + 4) == g[at + 4] == v[at + 4] == ByteAt(v, at + 4);
    assert Slice(g, at + 8, 4) == Slice(v, at + 8, 4);
  }

  const SECTOR_END: nat := 512

  lemma FlagView(v: seq<byte>, i: nat)
    requires i < 4 && SECTOR_END <= |v|
    ensures var at := TABLE + i * 16;
      ViewAfter(v, FlagOps(v, i, true)) == if FlagValid(v[at]) then v else Overwrite(v, at, [Masked(v[at])])
  {
    var at := TABLE + i * 16;
    assert ByteAt(v, at) == v[at];
    var more := if FlagValid(v[at]) then [] else [Op.Write(at, [Masked(v[at])])];
    ViewAfterAppend(v, [Op.Read(at, 1)], more);
    ViewAfterOne(v, Op.Read(at, 1));
    ViewAfterNothing(v);
    ViewAfterOne(v, Op.Write(at, [Masked(v[at])]));
  }

  lemma {:induction false} ForcedSlots(v: seq<byte>, n: nat)
    requires n <= 4 && SECTOR_END <= |v|
    ensures var f := CheckedSlots(v, n, true); var g := ViewAfter(v, f.ops);
      && !f.bad && |g| == |v| && (f.low <==> !NoneLow(v, n))
      && (!f.low ==> AllValid(g, n) && (f.active <==> AnyActive(g, n))
                     && forall q :: 0 <= q < |v| && !FlagAddress(q, n) ==> g[q] == v[q])
  {
    hide CheckedSlot, StartsLow, FlagValid, ViewAfter;
    ViewAfterNothing(v);
    if n > 0 {
      ForcedSlots(v, n - 1);
      var a := CheckedSlots(v, n - 1, true);
      if !a.low {
        var h := ViewAfter(v, a.ops);
        var b := CheckedSlot(h, n - 1, true);
        ForcedSlot(h, n - 1);
        ViewAfterAppend(v, a.ops, b.ops);
        SlotsMore(v, h, ViewAfter(h, b.ops), n - 1);
      }
    }
  }

  lemma SlotsMore(v: seq<byte>, h: seq<byte>, g: seq<byte>, n: nat)
    requires n < 4 && SECTOR_END <= |v| == |h| == |g| && AllValid(h, n) && SlotValid(g, n)
    requires forall q :: 0 <= q < |v| && !FlagAddress(q, n) ==> h[q] == v[q]
    requires forall q :: 0 <= q < |v| && q != TABLE + n * 16 ==> g[q] == h[q]
    ensures AllValid(g, n + 1) && (AnyActive(g, n + 1) <==> AnyActive(h, n) || SlotActive(g, n))
    ensures StartsLow(h, n) == StartsLow(v, n)
    ensures forall q :: 0 <= q < |v| && !FlagAddress(q, n + 1) ==> g[q] == v[q]
  {
    forall i: nat | i < n ensures ByteAt(g, TABLE + i * 16) == ByteAt(h, TABLE + i * 16) {
      assert g[TABLE + i * 16] == h[TABLE + i * 16];
    }
    forall i: nat | i < n ensures SlotValid(g, i) && (SlotActive(g, i) <==> SlotActive(h, i)) {
      assert SlotValid(h, i);
    }
    var at := TABLE + n * 16;
    forall q | at + 4 <= q < at + 12 ensures h[q] == v[q] {
      assert !FlagAddress(q, n);
    }
    assert Slice(h, at + 8, 4) == Slice(v, at + 8, 4) && ByteAt(h, at + 4) == h[at + 4] == v[at + 4] == ByteAt(v, at + 4);
    forall q | 0 <= q < |v| && !FlagAddress(q, n + 1) ensures g[q] == v[q] {
      assert q != at;
    }
  }

  /** Bytes in front of the table and behind the sector, some of them cleared. */
  ghost predicate Cleared(v: seq<byte>, g: seq<byte>) {
    && |g| == |v| && (forall q :: 0 <= q < |v| ==> g[q] == v[q] || g[q] == 0)
    && forall q :: TABLE <= q < SECTOR_END && q < |v| ==> g[q] == v[q]
  }

  /** Clearing bytes marks nothing that was not marked. */
  lemma MarkedBefore(v: seq<byte>, g: seq<byte>, k: nat)
    requires k < |MARKS| && Cleared(v, g) && CHECKED <= |v| && Marked(g, MARKS[k])
    ensures Marked(v, MARKS[k])
  {
    var m := MARKS[k];
    forall i | 0 <= i < |m.bytes| ensures v[m.loc + i] == m.bytes[i] {
      assert Slice(g, m.loc, |m.bytes|)[i] == g[m.loc + i] == m.bytes[i] != 0;
    }
    assert Slice(v, m.loc, |m.bytes|) == m.bytes;
  }

  lemma ForcedMark(v: seq<byte>, k: nat)
    requires k < |MARKS| && CHECKED <= |v|
    ensures var f := CheckedMark(v, MARKS[k], true); var g := ViewAfter(v, f.ops);
      !f.bad && Cleared(v, g) && !Marked(g, MARKS[k])
  {
    var m := MARKS[k];
    var more := if Marked(v, m) then [Op.Write(m.loc, Zeros(m.clear))] else [];
    ViewAfterAppend(v, [Op.Read(m.loc, |m.bytes|)], more);
    ViewAfterOne(v, Op.Read(m.loc, |m.bytes|));
    ViewAfterNothing(v);
    ViewAfterOne(v, Op.Write(m.loc, Zeros(m.clear)));
    var g := if Marked(v, m) then Overwrite(v, m.loc, Zeros(m.clear)) else v;
    assert ViewAfter(v, CheckedMark(v, m, true).ops) == g;
    if Marked(v, m) {
      assert Slice(g, m.loc, |m.bytes|)[0] == g[m.loc] == 0 != m.bytes[0];
    }
  }

  lemma {:induction false} ForcedMarks(v: seq<byte>, n: nat)
    requires n <= |MARKS| && CHECKED <= |v|
    ensures var f := CheckedMarks(v, n, true); var g := ViewAfter(v, f.ops);
      !f.bad && Cleared(v, g) && NoMarks(g, n)
  {
    hide CheckedMark, Marked, ViewAfter;
    ViewAfterNothing(v);
    if n > 0 {
      ForcedMarks(v, n - 1);
      var a := CheckedMarks(v, n - 1, true);
      var h := ViewAfter(v, a.ops);
      var b := CheckedMark(h, MARKS[n - 1], true);
      ForcedMark(h, n - 1);
      ViewAfterAppend(v, a.ops, b.ops);
      var g := ViewAfter(h, b.ops);
      forall k | 0 <= k < n - 1 ensures !Marked(g, MARKS[k]) {
        if Marked(g, MARKS[k]) {
          MarkedBefore(h, g, k);
        }
      }
    }
  }

  /** A forced check goes on exactly if no partition starts below block 63, and leaves a disk that passes unforced, with
      an active partition. */
  lemma ForcedThenPlain(v: seq<byte>)
    requires CHECKED <= |v|
    ensures var t := CheckScript(v, true); var g := ViewAfter(v, t.ops);
      && (t.go <==> NoneLow(v, 4))
      && (t.go ==> AllValid(g, 4) && NoneLow(g, 4) && NoMarks(g, |MARKS|) && AnyActive(g, 4))
  {
    hide CheckedSlots, CheckedMarks, StartsLow, Marked, ViewAfter;
    ForcedSlots(v, 4);
    var a := CheckedSlots(v, 4, true);
    if !a.low {
      var h := ViewAfter(v, a.ops);
      ForcedMarks(h, |MARKS|);
      var b := CheckedMarks(h, |MARKS|, true);
      var c := ViewAfter(h, b.ops);
      var last := if !a.active then [Op.Write(TABLE, [0x80])] else [];
      ViewAfterAppend(v, a.ops, b.ops + last);
      ViewAfterAppend(h, b.ops, last);
      ViewAfterNothing(c);
      ViewAfterOne(c, Op.Write(TABLE, [0x80]));
      var g := if a.active then c else Overwrite(c, TABLE, [0x80]);
      assert ViewAfter(v, CheckScript(v, true).ops) == g;
      TableAfter(v, h, c, g, a.active);
      forall k | 0 <= k < |MARKS| ensures !Marked(g, MARKS[k]) {
        SameMark(c, g, k);
      }
    }
  }

  lemma SameMark(c: seq<byte>, g: seq<byte>, k: nat)
    requires k < |MARKS| && |g| == |c| && forall q :: 0 <= q < |c| && q != TABLE ==> g[q] == c[q]
    ensures Marked(g, MARKS[k]) == Marked(c, MARKS[k])
  {
    var m := MARKS[k];
    assert Slice(g, m.loc, |m.bytes|) == Slice(c, m.loc, |m.bytes|);
  }

  lemma TableAfter(v: seq<byte>, h: seq<byte>, c: seq<byte>, g: seq<byte>, active: bool)
    requires CHECKED <= |v| == |h| && NoneLow(v, 4) && AllValid(h, 4) && (active <==> AnyActive(h, 4)) && Cleared(h, c)
    requires forall q :: 0 <= q < |v| && !FlagAddress(q, 4) ==> h[q] == v[q]
    requires g == if active then c else Overwrite(c, TABLE, [0x80])
    ensures AllValid(g, 4) && NoneLow(g, 4) && AnyActive(g, 4)
  {
    forall i: nat | i < 4
      ensures SlotValid(g, i) && !StartsLow(g, i) && (SlotActive(g, i) <==> SlotActive(h, i) || (i == 0 && !active))
    {
      var at := TABLE + i * 16;
      forall q | at + 4 <= q < at + 12 ensures g[q] == v[q] {
        assert !FlagAddress(q, 4);
      }
      assert Slice(g, at + 8, 4) == Slice(v, at + 8, 4) && ByteAt(g, at + 4) == g[at + 4] == v[at + 4] == ByteAt(v, at + 4);
      assert !StartsLow(v, i) && SlotValid(h, i);
      assert ByteAt(g, at) == g[at] && ByteAt(h, at) == h[at];
    }
    if active {
      var i: nat :| i < 4 && SlotActive(h, i);
      assert SlotActive(g, i);
    } else {
      assert SlotActive(g, 0);
    }
  }

  // ---------- where it reads and writes ----------

  const CHECKED: nat := 1082

  predicate Near(ops: seq<Op>) {
    AllInside(CHECKED, ops) && Addressable(ops)
  }

  lemma NearAppend(a: seq<Op>, b: seq<Op>)
    requires Near(a) && Near(b)
    ensures Near(a + b)
  {
    AllInsideAppend(CHECKED, a, b);
  }

  lemma {:induction false} SlotsNear(v: seq<byte>, n: nat, force: bool)
    requires n <= 4
    ensures var ops := CheckedSlots(v, n, force).ops; Near(ops) && Writes(ops) <= n
  {
    hide CheckedSlot, Near;
    if n > 0 {
      SlotsNear(v, n - 1, force);
      var a := CheckedSlots(v, n - 1, force);
      if !a.low {
        var b := CheckedSlot(ViewAfter(v, a.ops), n - 1, force).ops;
        SlotNear(ViewAfter(v, a.ops), n - 1, force);
        NearAppend(a.ops, b);
        WritesAppend(a.ops, b);
      }
    } else {
      assert Near([]) by { NothingNear(); }
    }
  }

  lemma NothingNear()
    ensures Near([])
  {
  }

  lemma SlotNear(g: seq<byte>, i: nat, force: bool)
    requires i < 4
    ensures var ops := CheckedSlot(g, i, force).ops; Near(ops) && Writes(ops) <= 1
  {
    hide StartsLow, FlagOps, ByteAt;
    var flag := FlagOps(g, i, force);
    var kind := TypeOps(ViewAfter(g, flag), i);
    FlagNear(g, i, force);
    WritesOfWrites(kind);
    NearAppend(flag, kind);
    WritesAppend(flag, kind);
  }

  lemma FlagNear(g: seq<byte>, i: nat, force: bool)
    requires i < 4
    ensures Near(FlagOps(g, i, force)) && Writes(FlagOps(g, i, force)) <= 1
  {
    hide FlagValid, Masked, ByteAt;
    var ops := FlagOps(g, i, force);
    WritesAppend(ops[..1], ops[1..]);
    assert ops == ops[..1] + ops[1..];
    WritesOfWrites(ops[..1]);
  }

  lemma {:induction false} MarksNear(v: seq<byte>, n: nat, force: bool)
    requires n <= |MARKS|
    ensures var ops := CheckedMarks(v, n, force).ops; Near(ops) && Writes(ops) <= n
  {
    hide Marked, Zeros;
    if n > 0 {
      MarksNear(v, n - 1, force);
      var a := CheckedMarks(v, n - 1, force);
      var b := CheckedMark(ViewAfter(v, a.ops), MARKS[n - 1], force).ops;
      MarkNear(ViewAfter(v, a.ops), n - 1, force);
      NearAppend(a.ops, b);
      WritesAppend(a.ops, b);
    }
  }

  lemma MarkNear(g: seq<byte>, k: nat, force: bool)
    requires k < |MARKS|
    ensures var ops := CheckedMark(g, MARKS[k], force).ops; Near(ops) && Writes(ops) <= 1
  {
    hide Marked;
    var ops := CheckedMark(g, MARKS[k], force).ops;
    WritesAppend(ops[..1], ops[1..]);
    assert ops == ops[..1] + ops[1..];
    WritesOfWrites(ops[..1]);
  }

  /** All checks stay in the first 1082 bytes and write at most eleven times. */
  lemma CheckNear(v: seq<byte>, force: bool)
    ensures var ops := CheckScript(v, force).ops; Near(ops) && Writes(ops) <= 11
  {
    hide CheckedSlots, CheckedMarks;
    SlotsNear(v, 4, force);
    var a := CheckedSlots(v, 4, force);
    if !a.low {
      MarksNear(ViewAfter(v, a.ops), |MARKS|, force);
      var b := CheckedMarks(ViewAfter(v, a.ops), |MARKS|, force);
      var last := if !a.bad && !b.bad && !a.active then [Op.Write(TABLE, [0x80])] else [];
      NearAppend(b.ops, last);
      NearAppend(a.ops, b.ops + last);
      WritesAppend(b.ops, last);
      WritesAppend(a.ops, b.ops + last);
    }
  }

  lemma NearInside(size: nat, ops: seq<Op>)
    requires Near(ops) && CHECKED <= size
    ensures AllInside(size, ops)
  {
  }

  // ---------- after a conversion ----------

  /** A converted table passes exactly if no converted partition starts below block 63; its first slot is then made
      active. */
  lemma ConvertedPassesExactly(f: seq<byte>, id: seq<byte>, parts: seq<Part>)
    requires |id| == 4 && |parts| <= 4 && FirstSector(f, id, parts)
    requires forall i :: 0 <= i < |parts| ==> Convertible(parts[i])
    requires CHECKED <= |f| ==> f[1080] == 0
    ensures CheckScript(f, false).go <==> forall i :: 0 <= i < |parts| ==> parts[i].start >= FIRST_USABLE
    ensures CheckScript(f, false).go ==> ViewAfter(f, CheckScript(f, false).ops) == Overwrite(f, TABLE, [0x80])
  {
    PlainCheckExactly(f);
    ConvertedUnmarked(f, id, parts);
    forall i: nat | i < 4
      ensures SlotValid(f, i) && !SlotActive(f, i)
      ensures StartsLow(f, i) <==> i < |parts| && parts[i].start < FIRST_USABLE
    {
      ConvertedSlot(f, id, parts, i);
    }
    if NoneLow(f, 4) {
      forall i | 0 <= i < |parts| ensures parts[i].start >= FIRST_USABLE {
        assert !StartsLow(f, i);
      }
    }
  }

  lemma ConvertedSlot(f: seq<byte>, id: seq<byte>, parts: seq<Part>, i: nat)
    requires |id| == 4 && |parts| <= 4 && FirstSector(f, id, parts) && i < 4
    requires forall j :: 0 <= j < |parts| ==> Convertible(parts[j])
    ensures ByteAt(f, TABLE + i * 16) == 0
    ensures StartsLow(f, i) <==> i < |parts| && parts[i].start < FIRST_USABLE
  {
    var slot := TABLE + i * 16;
    assert Slice(f, slot, 1)[0] == f[slot] && Slice(f, slot + 4, 1)[0] == f[slot + 4];
    if i < |parts| {
      SlotPieces(0, parts[i]);
      SlotBytesAt(f, slot, SlotBytes(0, parts[i]));
      Pow256Values();
      LittleEndianRoundTrip(parts[i].start, 4);
    }
  }

  lemma SlotBytesAt(f: seq<byte>, slot: nat, s: seq<byte>)
    requires |s| == 16 && slot + 16 <= |f| && f[slot..slot + 16] == s
    ensures f[slot] == s[0] && f[slot + 4] == s[4] && f[slot + 8..slot + 12] == s[8..12]
  {
    assert f[slot..slot + 16][0] == f[slot] && f[slot..slot + 16][4] == f[slot + 4];
    var t := f[slot..slot + 16];
    assert forall i :: 0 <= i < 16 ==> t[i] == f[slot + i];
    assert t[8..12] == f[slot + 8..slot + 12];
  }

  lemma ConvertedUnmarked(f: seq<byte>, id: seq<byte>, parts: seq<Part>)
    requires |id| == 4 && |parts| <= 4 && FirstSector(f, id, parts) && (CHECKED <= |f| ==> f[1080] == 0)
    ensures NoMarks(f, |MARKS|)
  {
    forall k | 0 <= k < |MARKS| ensures !Marked(f, MARKS[k]) {
      assert Slice(f, MARKS[k].loc, |MARKS[k].bytes|)[0] == 0;
      assert MARKS[k].bytes[0] != 0;
    }
  }
}
