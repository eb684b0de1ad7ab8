/** The boot sector and the checks of a master boot record in terms of single bytes at fixed places. */
module MbrBytes {
  import opened Bytes
  import opened UndoLog
  import opened DiskSession
  import opened Scripts
  import opened BootSector
  import opened Mbr
  import opened MbrConversion
  import opened MbrCheck
  import opened MbrVerdict

  // ---------- the boot sector ----------

  /** Stage 2 in whole sectors: the first half gets the odd one. */
  lemma SizesExactly(imageSize: nat, sectors: nat)
    requires 512 <= imageSize && (sectors - 1) * 512 < imageSize - 512 <= sectors * 512 && sectors <= 254
    ensures SizeA(imageSize) == (sectors + 1) / 2 * 512 && SizeB(imageSize) == sectors / 2 * 512
  {
    assert Stage2Sectors(imageSize) == sectors;
  }

  /** Where the boot code finds sizes and places: two numbers of 16 and two of 64 bits from byte 420 on. */
  lemma SectorBytes(v: seq<byte>, g: seq<byte>, img: seq<byte>, locA: nat, locB: nat)
    requires SectorInstalled(v, g, img, locA, locB)
    ensures Number4(g[420], g[421], 0, 0) == SizeA(|img|) && Number4(g[422], g[423], 0, 0) == SizeB(|img|)
    ensures Number4(g[424], g[425], g[426], g[427]) + 0x1_0000_0000 * Number4(g[428], g[429], g[430], g[431]) == locA
    ensures Number4(g[432], g[433], g[434], g[435]) + 0x1_0000_0000 * Number4(g[436], g[437], g[438], g[439]) == locB
  {
    hide Reassembles, SizeA, SizeB, HalvesFit, Bytes.FromLittleEndian;
    NumberOfBytes(g[420..422]);
    NumberOfBytes(g[422..424]);
    NumberOfBytes(g[424..432]);
    NumberOfBytes(g[432..440]);
  }

  // ---------- the checks ----------

  /** "_ECH_FS_", "NTFS", "FAT" at two places, "FAT32", or the magic number of ext2. */
  predicate ShowsFileSystem(v: seq<byte>)
    requires 1082 <= |v|
  {
    || v[4..12] == [0x5f, 0x45, 0x43, 0x48, 0x5f, 0x46, 0x53, 0x5f]
    || v[3..7] == [0x4e, 0x54, 0x46, 0x53] || v[3..8] == [0x46, 0x41, 0x54, 0x33, 0x32]
    || v[54..57] == [0x46, 0x41, 0x54] || v[82..85] == [0x46, 0x41, 0x54]
    || v[1080..1082] == [0x53, 0xef]
  }

  predicate LowSlot(v: seq<byte>, i: nat)
    requires 446 + 16 * i + 12 <= |v|
  {
    var s := 446 + 16 * i;
    v[s + 4] != 0 && Number4(v[s + 8], v[s + 9], v[s + 10], v[s + 11]) < 63
  }

  lemma SlotRead(v: seq<byte>, i: nat)
    requires 446 + 16 * i + 12 <= |v|
    ensures ByteAt(v, TABLE + i * 16) == v[446 + 16 * i]
    ensures StartsLow(v, i) <==> LowSlot(v, i)
  {
    var s := 446 + 16 * i;
    assert ByteAt(v, s) == v[s] && ByteAt(v, s + 4) == v[s + 4];
    NumberOfBytes(v[s + 8..s + 12]);
  }

  lemma MarksRead(v: seq<byte>)
    requires 1082 <= |v|
    ensures NoMarks(v, |MARKS|) <==> !ShowsFileSystem(v)
  {
    assert |MARKS| == 6;
    assert Marked(v, MARKS[0]) <==> v[4..12] == [0x5f, 0x45, 0x43, 0x48, 0x5f, 0x46, 0x53, 0x5f];
    assert Marked(v, MARKS[1]) <==> v[3..7] == [0x4e, 0x54, 0x46, 0x53];
    assert Marked(v, MARKS[2]) <==> v[54..57] == [0x46, 0x41, 0x54];
    assert Marked(v, MARKS[3]) <==> v[82..85] == [0x46, 0x41, 0x54];
    assert Marked(v, MARKS[4]) <==> v[3..8] == [0x46, 0x41, 0x54, 0x33, 0x32];
    assert Marked(v, MARKS[5]) <==> v[1080..1082] == [0x53, 0xef];
  }

  predicate TableValid(v: seq<byte>)
    requires 512 <= |v|
  {
    forall i :: 0 <= i < 4 ==> v[446 + 16 * i] == 0 || v[446 + 16 * i] == 0x80
  }

  predicate TableLow(v: seq<byte>)
    requires 512 <= |v|
  {
    exists i: nat :: i < 4 && LowSlot(v, i)
  }

  predicate TableActive(v: seq<byte>)
    requires 512 <= |v|
  {
    exists i :: 0 <= i < 4 && v[446 + 16 * i] >= 0x80
  }

  lemma TableRead(v: seq<byte>)
    requires 512 <= |v|
    ensures AllValid(v, 4) <==> TableValid(v)
    ensures NoneLow(v, 4) <==> !TableLow(v)
    ensures AnyActive(v, 4) <==> TableActive(v)
  {
    hide StartsLow, LowSlot, ByteAt;
    forall i: nat | i < 4
      ensures SlotValid(v, i) <==> v[446 + 16 * i] == 0 || v[446 + 16 * i] == 0x80
      ensures SlotActive(v, i) <==> v[446 + 16 * i] >= 0x80
      ensures StartsLow(v, i) <==> LowSlot(v, i)
    {
      SlotRead(v, i);
    }
    if AllValid(v, 4) {
      forall i | 0 <= i < 4 ensures v[446 + 16 * i] == 0 || v[446 + 16 * i] == 0x80 {
        assert SlotValid(v, i);
      }
    }
    if TableActive(v) {
      var i :| 0 <= i < 4 && v[446 + 16 * i] >= 0x80;
      assert SlotActive(v, i);
    }
    if AnyActive(v, 4) {
      var i: nat :| i < 4 && SlotActive(v, i);
      assert v[446 + 16 * i] >= 0x80;
    }
    if TableLow(v) {
      var i: nat :| i < 4 && LowSlot(v, i);
      assert StartsLow(v, i);
    }
  }

  /** The unforced check by the bytes: it passes exactly if every flag is 0 or 0x80, every slot with a type starts at
      block 63 or later, and no file system shows; the first flag is set if none was. */
  lemma PlainBytes(v: seq<byte>)
    requires 1082 <= |v|
    ensures var t := CheckScript(v, false);
      && (t.go <==> TableValid(v) && !TableLow(v) && !ShowsFileSystem(v))
      && ViewAfter(v, t.ops) == if t.go && !TableActive(v) then Overwrite(v, 446, [0x80]) else v
  {
    PlainCheckExactly(v);
    TableRead(v);
    MarksRead(v);
  }

  // ---------- what a forced check leaves ----------

  /** A forced check clears this byte: it belongs to something that shows a file system. */
  predicate Clears(v: seq<byte>, q: nat)
    requires 1082 <= |v|
  {
    || (v[4..12] == [0x5f, 0x45, 0x43, 0x48, 0x5f, 0x46, 0x53, 0x5f] && 4 <= q < 12)
    || (v[3..7] == [0x4e, 0x54, 0x46, 0x53] && 3 <= q < 7)
    || (v[54..57] == [0x46, 0x41, 0x54] && 54 <= q < 59)
    || (v[82..85] == [0x46, 0x41, 0x54] && 82 <= q < 87)
    || (v[3..8] == [0x46, 0x41, 0x54, 0x33, 0x32] && 3 <= q < 8)
    || (v[1080..1082] == [0x53, 0xef] && 1080 <= q < 1082)
  }

  /** One of the first `n` marks is there, and clearing it reaches this byte. */
  predicate Wiped(v: seq<byte>, n: nat, q: nat)
    requires n <= |MARKS|
  {
    exists k :: 0 <= k < n && WipedFor(v, MARKS[k], q)
  }

  predicate WipedFor(v: seq<byte>, m: Mark, q: nat) {
    Marked(v, m) && m.loc <= q < m.loc + m.clear
  }

  lemma WipedRead(v: seq<byte>, q: nat)
    requires 1082 <= |v|
    ensures Wiped(v, |MARKS|, q) <==> Clears(v, q)
  {
    assert |MARKS| == 6;
    assert Wiped(v, 6, q) <==> WipedFor(v, MARKS[0], q) || WipedFor(v, MARKS[1], q) || WipedFor(v, MARKS[2], q)
                               || WipedFor(v, MARKS[3], q) || WipedFor(v, MARKS[4], q) || WipedFor(v, MARKS[5], q);
    assert Marked(v, MARKS[0]) <==> v[4..12] == [0x5f, 0x45, 0x43, 0x48, 0x5f, 0x46, 0x53, 0x5f];
    assert Marked(v, MARKS[1]) <==> v[3..7] == [0x4e, 0x54, 0x46, 0x53];
    assert Marked(v, MARKS[2]) <==> v[54..57] == [0x46, 0x41, 0x54];
    assert Marked(v, MARKS[3]) <==> v[82..85] == [0x46, 0x41, 0x54];
    assert Marked(v, MARKS[4]) <==> v[3..8] == [0x46, 0x41, 0x54, 0x33, 0x32];
    assert Marked(v, MARKS[5]) <==> v[1080..1082] == [0x53, 0xef];
  }

  ghost predicate WipedBy(v: seq<byte>, h: seq<byte>, n: nat)
    requires n <= |MARKS|
  {
    |h| == |v| && forall q :: 0 <= q < |v| ==> h[q] == if Wiped(v, n, q) then 0 else v[q]
  }

  /** Clearing earlier marks neither hides nor makes a later one. */
  lemma MarkStays(v: seq<byte>, h: seq<byte>, k: nat)
    requires k < |MARKS| && 1082 <= |v| && WipedBy(v, h, k)
    ensures Marked(h, MARKS[k]) <==> Marked(v, MARKS[k])
  {
    MarkKept(v, h, k);
    var m := MARKS[k];
    if Marked(h, m) {
      forall i | 0 <= i < |m.bytes| ensures v[m.loc + i] == m.bytes[i] {
        assert Slice(h, m.loc, |m.bytes|)[i] == h[m.loc + i] == m.bytes[i] != 0;
      }
      assert Slice(v, m.loc, |m.bytes|) == m.bytes;
    }
  }

  lemma MarkKept(v: seq<byte>, h: seq<byte>, k: nat)
    requires k < |MARKS| && 1082 <= |v| && WipedBy(v, h, k)
    ensures Marked(v, MARKS[k]) ==> Marked(h, MARKS[k])
  {
    hide WipedFor;
    var m := MARKS[k];
    if Marked(v, m) {
      forall q | m.loc <= q < m.loc + |m.bytes| ensures h[q] == v[q] {
        if Wiped(v, k, q) {
          var j :| 0 <= j < k && WipedFor(v, MARKS[j], q);
          MarksExclude(v, j, k, q);
        }
      }
      SlicesAgree(v, h, m.loc, |m.bytes|);
    }
  }

  lemma SlicesAgree(v: seq<byte>, h: seq<byte>, loc: nat, n: nat)
    requires |h| == |v| && loc + n <= |v| && forall q :: loc <= q < loc + n ==> h[q] == v[q]
    ensures Slice(h, loc, n) == Slice(v, loc, n)
  {
  }

  lemma MarkShown(v: seq<byte>, m: Mark, q: nat)
    requires Marked(v, m) && m.loc + |m.bytes| <= |v| && m.loc <= q < m.loc + |m.bytes|
    ensures v[q] == m.bytes[q - m.loc]
  {
    assert Slice(v, m.loc, |m.bytes|)[q - m.loc] == v[q];
  }

  /** Two marks that are both there are apart. */
  lemma MarksExclude(v: seq<byte>, j: nat, k: nat, q: nat)
    requires j < k < |MARKS| && 1082 <= |v| && Marked(v, MARKS[k])
    requires MARKS[k].loc <= q < MARKS[k].loc + |MARKS[k].bytes|
    ensures !WipedFor(v, MARKS[j], q)
  {
    hide Marked;
    if Marked(v, MARKS[j]) && j < 2 && k in {1, 4} {
      MarkShown(v, MARKS[j], 4);
      MarkShown(v, MARKS[k], 4);
    }
  }

  lemma WipedMore(v: seq<byte>, h: seq<byte>, n: nat)
    requires n < |MARKS| && 1082 <= |v| && WipedBy(v, h, n) && (Marked(h, MARKS[n]) <==> Marked(v, MARKS[n]))
    ensures WipedBy(v, if Marked(h, MARKS[n]) then Overwrite(h, MARKS[n].loc, Zeros(MARKS[n].clear)) else h, n + 1)
  {
    hide Marked;
    forall q: nat ensures Wiped(v, n + 1, q) <==> Wiped(v, n, q) || WipedFor(v, MARKS[n], q) {
      if WipedFor(v, MARKS[n], q) {
        assert Wiped(v, n + 1, q);
      }
    }
  }

  lemma {:induction false} ForcedWipes(v: seq<byte>, n: nat)
    requires n <= |MARKS| && 1082 <= |v|
    ensures WipedBy(v, ViewAfter(v, CheckedMarks(v, n, true).ops), n)
  {
    hide Marked, ViewAfter, WipedFor;
    ViewAfterNothing(v);
    if n > 0 {
      ForcedWipes(v, n - 1);
      var a := CheckedMarks(v, n - 1, true);
      var h := ViewAfter(v, a.ops);
      var m := MARKS[n - 1];
      MarkStays(v, h, n - 1);
      ViewAfterAppend(v, a.ops, CheckedMark(h, m, true).ops);
      MarkCleared(h, m);
      WipedMore(v, h, n - 1);
    }
  }

  lemma MarkCleared(h: seq<byte>, m: Mark)
    ensures ViewAfter(h, CheckedMark(h, m, true).ops) == if Marked(h, m) then Overwrite(h, m.loc, Zeros(m.clear)) else h
  {
    var more := if Marked(h, m) then [Op.Write(m.loc, Zeros(m.clear))] else [];
    ViewAfterAppend(h, [Op.Read(m.loc, |m.bytes|)], more);
    ViewAfterOne(h, Op.Read(m.loc, |m.bytes|));
    ViewAfterNothing(h);
    ViewAfterOne(h, Op.Write(m.loc, Zeros(m.clear)));
  }

  /** The flag a forced check leaves: only the highest bit stays. */
  function CleanFlag(flag: byte): byte {
    if flag >= 0x80 then 0x80 else 0
  }

  ghost predicate FlagsCleaned(v: seq<byte>, h: seq<byte>, n: nat) {
    |h| == |v| && forall q :: 0 <= q < |v| ==> h[q] == if FlagAddress(q, n) then CleanFlag(v[q]) else v[q]
  }

  ghost predicate ActiveBefore(v: seq<byte>, n: nat)
    requires 512 <= |v| && n <= 4
  {
    exists i :: 0 <= i < n && v[446 + 16 * i] >= 0x80
  }

  lemma {:induction false} ForcedFlags(v: seq<byte>, n: nat)
    requires n <= 4 && 512 <= |v|
    ensures var f := CheckedSlots(v, n, true);
      !f.low ==> FlagsCleaned(v, ViewAfter(v, f.ops), n) && (f.active <==> ActiveBefore(v, n))
  {
    hide CheckedSlot, StartsLow, FlagValid, ViewAfter;
    ViewAfterNothing(v);
    if n > 0 {
      ForcedFlags(v, n - 1);
      var a := CheckedSlots(v, n - 1, true);
      if !a.low {
        var h := ViewAfter(v, a.ops);
        var b := CheckedSlot(h, n - 1, true);
        ForcedFlag(h, n - 1);
        ViewAfterAppend(v, a.ops, b.ops);
        FlagsMore(v, h, ViewAfter(h, b.ops), n - 1);
        assert ActiveBefore(v, n) <==> ActiveBefore(v, n - 1) || v[446 + 16 * (n - 1)] >= 0x80;
      }
    }
  }

  lemma SlotViewIsFlagView(v: seq<byte>, i: nat)
    ensures var f := CheckedSlot(v, i, true);
      ViewAfter(v, f.ops) == ViewAfter(v, FlagOps(v, i, true)) && f.active == (ByteAt(v, TABLE + i * 16) >= 0x80)
  {
    hide ViewAfter, FlagOps, TypeOps, StartsLow, ByteAt;
    SlotViews(v, i, true);
  }

  lemma ForcedFlag(v: seq<byte>, i: nat)
    requires i < 4 && 512 <= |v|
    ensures var f := CheckedSlot(v, i, true); var g, at := ViewAfter(v, f.ops), 446 + 16 * i;
      g == Overwrite(v, at, [CleanFlag(v[at])]) && (f.active <==> v[at] >= 0x80)
  {
    hide ViewAfter, FlagOps, CheckedSlot, ByteAt;
    var at := 446 + 16 * i;
    SlotViewIsFlagView(v, i);
    FlagView(v, i);
    SlotRead(v, i);
    CleanKept(v, at);
  }

  lemma CleanKept(v: seq<byte>, at: nat)
    requires at < |v|
    ensures FlagValid(v[at]) ==> Overwrite(v, at, [CleanFlag(v[at])]) == v
    ensures !FlagValid(v[at]) ==> CleanFlag(v[at]) == Masked(v[at])
  {
  }

  lemma FlagsMore(v: seq<byte>, h: seq<byte>, g: seq<byte>, n: nat)
    requires n < 4 && 512 <= |v| && FlagsCleaned(v, h, n) && g == Overwrite(h, 446 + 16 * n, [CleanFlag(h[446 + 16 * n])])
    ensures FlagsCleaned(v, g, n + 1) && h[446 + 16 * n] == v[446 + 16 * n]
  {
    assert !FlagAddress(446 + 16 * n, n);
    forall q | 0 <= q < |v| ensures FlagAddress(q, n + 1) <==> FlagAddress(q, n) || q == 446 + 16 * n {
      if FlagAddress(q, n) {
        var i: nat :| i < n && q == TABLE + i * 16;
        assert i < n + 1;
      }
      if q == 446 + 16 * n {
        assert n < n + 1 && q == TABLE + n * 16;
      }
    }
  }

  /** What a forced check leaves at address `q`: of a flag the highest bit, or 0x80 in the first slot if none was
      active; zero in what shows a file system; and anything else as it was. */
  function ForcedByte(v: seq<byte>, q: nat): byte
    requires 1082 <= |v| && q < |v|
  {
    if q == 446 && !TableActive(v) then 0x80
    else if q in {446, 462, 478, 494} then CleanFlag(v[q])
    else if Clears(v, q) then 0 else v[q]
  }

  /** The forced check by the bytes. */
  lemma ForcedBytes(v: seq<byte>)
    requires 1082 <= |v|
    ensures var t := CheckScript(v, true); var g := ViewAfter(v, t.ops);
      && (t.go <==> !TableLow(v))
      && (t.go ==> |g| == |v| && forall q :: 0 <= q < |v| ==> g[q] == ForcedByte(v, q))
  {
    hide CheckedSlots, CheckedMarks, StartsLow, Marked, ViewAfter, Clears, Wiped, LowSlot;
    ForcedThenPlain(v);
    TableRead(v);
    ForcedFlags(v, 4);
    var a := CheckedSlots(v, 4, true);
    if CheckScript(v, true).go {
      var h := ViewAfter(v, a.ops);
      ForcedWipes(h, |MARKS|);
      var b := CheckedMarks(h, |MARKS|, true);
      var c := ViewAfter(h, b.ops);
      var last := if !a.active then [Op.Write(TABLE, [0x80])] else [];
      ViewAfterAppend(v, a.ops, b.ops + last);
      ViewAfterAppend(h, b.ops, last);
      ViewAfterNothing(c);
      ViewAfterOne(c, Op.Write(TABLE, [0x80]));
      assert ViewAfter(v, CheckScript(v, true).ops) == if a.active then c else Overwrite(c, 446, [0x80]);
      forall q | 0 <= q < |v| ensures c[q] == if q in {446, 462, 478, 494} then CleanFlag(v[q]) else if Clears(v, q) then 0 else v[q] {
        WipedRead(h, q);
        FlagsRead(v, h, q);
      }
    }
  }

  lemma FlagsRead(v: seq<byte>, h: seq<byte>, q: nat)
    requires 1082 <= |v| && FlagsCleaned(v, h, 4)
    ensures Clears(h, q) == Clears(v, q)
    ensures FlagAddress(q, 4) <==> q in {446, 462, 478, 494}
    ensures q in {446, 462, 478, 494} ==> !Clears(h, q)
  {
    forall p | 0 <= p < 446 || 512 <= p < 1082 ensures h[p] == v[p] {
      assert !FlagAddress(p, 4);
    }
    assert h[4..12] == v[4..12] && h[3..7] == v[3..7] && h[3..8] == v[3..8];
    assert h[54..57] == v[54..57] && h[82..85] == v[82..85] && h[1080..1082] == v[1080..1082];
    if q in {446, 462, 478, 494} {
      var i := (q - 446) / 16;
      assert i < 4 && q == TABLE + i * 16;
    }
  }
}
