/** Converting the GPT of a hybrid image to an MBR partition table. */
module Mbr {
  import opened Bytes
  import opened UndoLog
  import opened BlockCache
  import opened DiskSession
  import opened Scripts
  import opened Installer

  // ---------- cylinder, head, sector ----------

  const CHS_END: nat := 63 * 255 * 1024

  /** `lba2chs`; the byte stores and masks are written as remainders and multiples of 64. */
  function Lba2Chs(lba: nat): (chs: seq<byte>)
    ensures |chs| == 3
  {
    var cylinder := lba / (255 * 63);
    if lba > CHS_END || cylinder >= 1024 then [0xfe, 0xff, 0xff]
    else
      var head := lba / 63 % 255;
      var sector := lba % 63 + 1;
      [head, cylinder / 256 * 64 + sector, cylinder % 256]
  }

  /** The block address a BIOS computes from the three bytes. */
  function ChsAddress(chs: seq<byte>): int
    requires |chs| == 3
  {
    var head: int, middle: int, low: int := chs[0], chs[1], chs[2];
    ((middle / 64 * 256 + low) * 255 + head) * 63 + middle % 64 - 1
  }

  /** For every address the bytes name it, or the last address that can be named. */
  lemma ChsRoundTrip(lba: nat)
    ensures ChsAddress(Lba2Chs(lba)) == if lba < CHS_END then lba else CHS_END - 1
  {
    var cylinder, head, sector := lba / (255 * 63), lba / 63 % 255, lba % 63 + 1;
    assert lba == lba / 63 * 63 + lba % 63;
    assert lba / 63 / 255 == cylinder;
    assert lba / 63 == cylinder * 255 + head;
    if lba <= CHS_END && cylinder < 1024 {
      var chs := Lba2Chs(lba);
      assert chs[1] / 64 == cylinder / 256 && chs[1] % 64 == sector;
    }
  }

  /** `lba2chs` filling its output array. */
  method FillChs(chs: array<byte>, lba: nat)
    requires chs.Length == 3
    modifies chs
    ensures chs[..] == Lba2Chs(lba)
  {
    var cylinder := lba / (255 * 63);
    if lba > CHS_END || cylinder >= 1024 {
      chs[0], chs[1], chs[2] := 0xfe, 0xff, 0xff;
      return;
    }
    var head, sector := lba / 63 % 255, lba % 63 + 1;
    chs[0] := head;
    chs[1] := cylinder / 4 / 64 * 64;
    chs[1] := chs[1] + sector % 64;
    chs[2] := cylinder % 256;
  }

  // ---------- gathering the partitions ----------

  const UINT32_MAX: nat := 0xffff_ffff

  datatype Part = Part(start: nat, end: nat, kind: byte)

  /** `gpt2mbr_type` on the two halves of the type GUID. */
  function MbrType(guid1: nat, guid2: nat): Option<byte> {
    if guid1 == 0x11d2f81fc12a7328 && guid2 == 0x3bc93ec9a0004bba then Some(0xef)
    else if guid1 == 0x4433b9e5ebd0a0a2 && guid2 == 0xc79926b7b668c087 then Some(0x07)
    else if guid1 == 0x11aa000048465300 && guid2 == 0xacec4365300011aa then Some(0xaf)
    else None
  }

  datatype TypeConv = TypeConv(guid1: nat, guid2: nat, kind: byte)

  const TYPES: seq<TypeConv> := [
    TypeConv(0x11d2f81fc12a7328, 0x3bc93ec9a0004bba, 0xef),
    TypeConv(0x4433b9e5ebd0a0a2, 0xc79926b7b668c087, 0x07),
    TypeConv(0x11aa000048465300, 0xacec4365300011aa, 0xaf)]

  /** The search of the conversion table. */
  method LookUpType(guid1: nat, guid2: nat) returns (kind: Option<byte>)
    ensures kind == MbrType(guid1, guid2)
  {
    var i := 0;
    while i < |TYPES|
      invariant 0 <= i <= |TYPES|
      invariant forall k :: 0 <= k < i ==> TYPES[k].guid1 != guid1 || TYPES[k].guid2 != guid2
    {
      if TYPES[i].guid1 == guid1 && TYPES[i].guid2 == guid2 {
        return Some(TYPES[i].kind);
      }
      i := i + 1;
    }
    assert TYPES[0].kind == 0xef && TYPES[1].kind == 0x07 && TYPES[2].kind == 0xaf;
    kind := None;
  }

  const ENTRY_SIZE: nat := 128

  predicate InUse(entry: seq<byte>)
    requires |entry| == ENTRY_SIZE
  {
    FromLittleEndian(entry[16..24]) != 0 || FromLittleEndian(entry[24..32]) != 0
  }

  /** One turn of the gathering loop; None means that the GPT will not be converted. */
  function Gather(parts: seq<Part>, entry: seq<byte>): (r: Option<seq<Part>>)
    requires |entry| == ENTRY_SIZE
  {
    var start, end := FromLittleEndian(entry[32..40]), FromLittleEndian(entry[40..48]);
    if !InUse(entry) then Some(parts)
    else if start > UINT32_MAX || end > UINT32_MAX then None
    else
      match MbrType(FromLittleEndian(entry[..8]), FromLittleEndian(entry[8..16]))
      case None => None
      case Some(kind) => if |parts| == 4 then None else Some(parts + [Part(start, end, kind)])
  }

  /** The addresses of a fifth partition are stored before it is counted, behind an array of four. */
  predicate StoresBehind(parts: seq<Part>, entry: seq<byte>)
    requires |entry| == ENTRY_SIZE
  {
    |parts| == 4 && InUse(entry) && FromLittleEndian(entry[32..40]) <= UINT32_MAX
  }

  /** The same turn as the program takes it, test by test; `behind` if it stores anything behind its array. */
  method GatherEntry(parts: seq<Part>, entry: seq<byte>) returns (r: Option<seq<Part>>, behind: bool)
    requires |entry| == ENTRY_SIZE && |parts| <= 4
    ensures r == Gather(parts, entry) && behind == StoresBehind(parts, entry)
  {
    behind := false;
    if FromLittleEndian(entry[16..24]) == 0 && FromLittleEndian(entry[24..32]) == 0 {
      return Some(parts), behind;
    }
    var start := FromLittleEndian(entry[32..40]);
    if start > UINT32_MAX {
      return None, behind;
    }
    behind := |parts| >= 4;
    var end := FromLittleEndian(entry[40..48]);
    if end > UINT32_MAX {
      return None, behind;
    }
    var kind := LookUpType(FromLittleEndian(entry[..8]), FromLittleEndian(entry[8..16]));
    if kind.None? {
      return None, behind;
    }
    if |parts| == 4 {
      return None, behind;
    }
    r := Some(parts + [Part(start, end, kind.value)]);
  }

  /** The bytes of a GPT entry, where they lie on the disk. */
  function EntryAt(v: seq<byte>, loc: nat): (e: seq<byte>)
    ensures |e| == ENTRY_SIZE
  {
    Slice(v, loc, ENTRY_SIZE)
  }

  /** The `k`-th entry of the array at `base`, with addresses of 64 bits. */
  function EntryOf(v: seq<byte>, base: nat, size: nat, k: nat): (e: seq<byte>)
    ensures |e| == ENTRY_SIZE
  {
    EntryAt(v, Wrap(base + k * size))
  }

  predicate UsedAt(v: seq<byte>, base: nat, size: nat, k: nat) {
    InUse(EntryOf(v, base, size, k))
  }

  /** The first `n` entries of the array at `base`. */
  function GatherAll(v: seq<byte>, base: nat, size: nat, n: nat): (r: Option<seq<Part>>) {
    if n == 0 then Some([])
    else GatherNext(GatherAll(v, base, size, n - 1), EntryOf(v, base, size, n - 1))
  }

  function GatherNext(parts: Option<seq<Part>>, entry: seq<byte>): (r: Option<seq<Part>>)
    requires |entry| == ENTRY_SIZE
  {
    if parts.None? then None else Gather(parts.value, entry)
  }

  // ---------- which partitions are gathered ----------

  /** The numbers of the used entries among the first `n`. */
  function UsedIndices(v: seq<byte>, base: nat, size: nat, n: nat): (s: seq<nat>) {
    if n == 0 then []
    else UsedIndices(v, base, size, n - 1) + if UsedAt(v, base, size, n - 1) then [n - 1] else []
  }

  /** They are those of the used entries and no others, in rising order. */
  lemma {:induction false} UsedIndicesSpec(v: seq<byte>, base: nat, size: nat, n: nat)
    ensures var s := UsedIndices(v, base, size, n);
      && (forall k: nat :: k in s <==> k < n && UsedAt(v, base, size, k))
      && (forall i, j :: 0 <= i < j < |s| ==> s[i] < s[j])
  {
    hide UsedAt;
    if n > 0 {
      var before := UsedIndices(v, base, size, n - 1);
      UsedIndicesSpec(v, base, size, n - 1);
      assert forall i :: 0 <= i < |before| ==> before[i] in before;
    }
  }

  /** An entry whose addresses have 32 bits and whose type has a counterpart. */
  predicate Fit(entry: seq<byte>)
    requires |entry| == ENTRY_SIZE
  {
    && FromLittleEndian(entry[32..40]) <= UINT32_MAX && FromLittleEndian(entry[40..48]) <= UINT32_MAX
    && MbrType(FromLittleEndian(entry[..8]), FromLittleEndian(entry[8..16])).Some?
  }

  /** Start, end and type of an entry. */
  function PartOf(entry: seq<byte>): (p: Part)
    requires |entry| == ENTRY_SIZE && Fit(entry)
  {
    Part(FromLittleEndian(entry[32..40]), FromLittleEndian(entry[40..48]),
         MbrType(FromLittleEndian(entry[..8]), FromLittleEndian(entry[8..16])).value)
  }

  /** The partitions can be converted: at most four entries are in use, and all of them fit. */
  ghost predicate AllFit(v: seq<byte>, base: nat, size: nat, used: seq<nat>) {
    |used| <= 4 && forall k :: 0 <= k < |used| ==> Fit(EntryOf(v, base, size, used[k]))
  }

  /** `parts` are the partitions of the entries with the numbers `used`, in that order. */
  ghost predicate PartsOf(v: seq<byte>, base: nat, size: nat, used: seq<nat>, parts: seq<Part>)
    requires AllFit(v, base, size, used)
  {
    |parts| == |used| && forall k :: 0 <= k < |parts| ==> parts[k] == PartOf(EntryOf(v, base, size, used[k]))
  }

  /** Partitions are gathered exactly when at most four entries are in use and all of them fit; then they are
      those of the used entries, in order. */
  lemma {:induction false} GatheredParts(v: seq<byte>, base: nat, size: nat, n: nat)
    ensures var used, r := UsedIndices(v, base, size, n), GatherAll(v, base, size, n);
      && (r.Some? <==> AllFit(v, base, size, used))
      && (r.Some? ==> PartsOf(v, base, size, used, r.value))
  {
    hide EntryOf, InUse, Fit, PartOf, Gather;
    if n > 0 {
      GatheredParts(v, base, size, n - 1);
      var before, r := UsedIndices(v, base, size, n - 1), GatherAll(v, base, size, n - 1);
      assert before + [] == before;
      AllFitMore(v, base, size, before, n - 1);
      if r.Some? {
        GatherTurn(r.value, EntryOf(v, base, size, n - 1));
      }
    }
  }

  lemma AllFitMore(v: seq<byte>, base: nat, size: nat, used: seq<nat>, k: nat)
    ensures AllFit(v, base, size, used + [k])
            <==> AllFit(v, base, size, used) && |used| < 4 && Fit(EntryOf(v, base, size, k))
  {
    hide EntryOf, Fit;
    var more := used + [k];
    assert more[|used|] == k;
    assert forall i :: 0 <= i < |used| ==> more[i] == used[i];
  }

  lemma GatherTurn(parts: seq<Part>, entry: seq<byte>)
    requires |entry| == ENTRY_SIZE && |parts| <= 4
    ensures Gather(parts, entry)
            == if !InUse(entry) then Some(parts)
               else if |parts| < 4 && Fit(entry) then Some(parts + [PartOf(entry)]) else None
  {
  }

  /** What every gathered partition satisfies. */
  ghost predicate Convertible(p: Part) {
    p.start <= UINT32_MAX && p.end <= UINT32_MAX && p.kind in {0xef, 0x07, 0xaf}
  }

  lemma {:induction false} GatherStops(v: seq<byte>, base: nat, size: nat, n: nat, m: nat)
    requires n <= m && GatherAll(v, base, size, n).None?
    ensures GatherAll(v, base, size, m).None?
  {
    hide EntryOf;
    if n < m {
      GatherStops(v, base, size, n, m - 1);
    }
  }

  lemma GatherStep(v: seq<byte>, base: nat, size: nat, i: nat)
    ensures GatherAll(v, base, size, i + 1) == GatherNext(GatherAll(v, base, size, i), EntryOf(v, base, size, i))
    ensures GatherAll(v, base, size, i).Some? ==>
      AnyBehind(v, base, size, i + 1)
      == (AnyBehind(v, base, size, i) || StoresBehind(GatherAll(v, base, size, i).value, EntryOf(v, base, size, i)))
  {
    hide EntryOf, StoresBehind;
  }

  // ---------- the partition behind the array ----------

  /** Some turn among the first `n` stores behind the array. */
  predicate AnyBehind(v: seq<byte>, base: nat, size: nat, n: nat) {
    n > 0 && (AnyBehind(v, base, size, n - 1)
              || (GatherAll(v, base, size, n - 1).Some?
                  && StoresBehind(GatherAll(v, base, size, n - 1).value, EntryOf(v, base, size, n - 1))))
  }

  /** Exactly if more than four entries are in use, the first four fit, and the fifth starts within 32 bits. */
  lemma {:induction false} AnyBehindExactly(v: seq<byte>, base: nat, size: nat, n: nat)
    ensures var used := UsedIndices(v, base, size, n);
      AnyBehind(v, base, size, n)
      <==> |used| > 4 && AllFit(v, base, size, used[..4])
           && FromLittleEndian(EntryOf(v, base, size, used[4])[32..40]) <= UINT32_MAX
  {
    hide EntryOf, Fit, PartOf, Gather, MbrType, Bytes.FromLittleEndian, InUse;
    if n > 0 {
      AnyBehindExactly(v, base, size, n - 1);
      GatheredParts(v, base, size, n - 1);
      var before, used := UsedIndices(v, base, size, n - 1), UsedIndices(v, base, size, n);
      if |before| > 4 {
        assert used[..4] == before[..4] && used[4] == before[4];
      } else if |before| == 4 && |used| > 4 {
        assert used[..4] == before;
      }
    }
  }

  // ---------- on the device ----------

  /** The entries read until one cannot be converted. */
  function GatherOps(v: seq<byte>, base: nat, size: nat, n: nat): (ops: seq<Op>) {
    if n == 0 then []
    else GatherOps(v, base, size, n - 1)
         + if GatherAll(v, base, size, n - 1).Some? then [Op.Read(Wrap(base + (n - 1) * size), ENTRY_SIZE)] else []
  }

  lemma {:induction false} GatherOpsGrow(v: seq<byte>, base: nat, size: nat, n: nat, m: nat)
    requires n <= m
    ensures GatherOps(v, base, size, n) <= GatherOps(v, base, size, m)
    ensures GatherAll(v, base, size, n).None? ==>
      GatherOps(v, base, size, n) == GatherOps(v, base, size, m) && AnyBehind(v, base, size, n) == AnyBehind(v, base, size, m)
  {
    hide EntryOf;
    if n < m {
      GatherOpsGrow(v, base, size, n, m - 1);
      if GatherAll(v, base, size, n).None? {
        GatherStops(v, base, size, n, m - 1);
      }
    }
  }

  lemma {:induction false} GatherOpsRead(v: seq<byte>, base: nat, size: nat, n: nat)
    ensures var ops := GatherOps(v, base, size, n);
      Addressable(ops) && forall k :: 0 <= k < |ops| ==> ops[k].Read?
  {
    if n > 0 {
      GatherOpsRead(v, base, size, n - 1);
    }
  }

  datatype Plan = Failed | Unconverted | Convert(parts: seq<Part>)

  method ReadEntry(dev: Device, loc: nat) returns (ok: bool, entry: seq<byte>)
    requires dev.Ready() && loc < WORD
    modifies dev, dev.disk, dev.cache, dev.undo
    ensures dev.Ran(old(Run(dev.State(), [Op.Read(loc, ENTRY_SIZE)])), ok) && dev.cache == old(dev.cache)
    ensures |entry| == ENTRY_SIZE
    ensures ok ==> View(dev.Model()) == old(View(dev.Model())) && entry == EntryAt(old(View(dev.Model())), loc)
  {
    ok, entry := dev.Peek(loc, ENTRY_SIZE);
  }

  /** What the gathering loop comes to. */
  ghost predicate Gathered(v: seq<byte>, base: nat, size: nat, n: nat, plan: Plan, behind: bool) {
    var r := GatherAll(v, base, size, n);
    plan == (if r.Some? then Convert(r.value) else Unconverted) && behind == AnyBehind(v, base, size, n)
  }

  lemma GatherOpsNext(v: seq<byte>, base: nat, size: nat, i: nat)
    requires GatherAll(v, base, size, i).Some?
    ensures GatherOps(v, base, size, i + 1)
         == GatherOps(v, base, size, i) + [Op.Read(Wrap(base + i * size), ENTRY_SIZE)]
  {
  }

  /** The `i`-th entry, after those before it. */
  method ReadNth(dev: Device, base: nat, size: nat, i: nat, ghost s: Session, ghost v: seq<byte>)
    returns (ok: bool, entry: seq<byte>)
    requires dev.Ready() && View(dev.Model()) == v && GatherAll(v, base, size, i).Some?
    requires 0 < |s.dev.cache| && Run(s, GatherOps(v, base, size, i)) == Outcome(dev.State(), true)
    modifies dev, dev.disk, dev.cache, dev.undo
    ensures dev.Ran(Run(s, GatherOps(v, base, size, i + 1)), ok) && dev.cache == old(dev.cache) && |entry| == ENTRY_SIZE
    ensures ok ==> View(dev.Model()) == v && entry == EntryOf(v, base, size, i)
  {
    hide DiskSession.Run, BlockCache.View, GatherAll, GatherOps, EntryAt;
    var loc := (base + i * size) % WORD;
    assert loc == Wrap(base + i * size);
    GatherOpsNext(v, base, size, i);
    RunAppend(s, GatherOps(v, base, size, i), [Op.Read(loc, ENTRY_SIZE)]);
    ok, entry := ReadEntry(dev, loc);
  }

  /** The gathering loop of `bios_install`. */
  method GatherParts(dev: Device, base: nat, size: nat, count: nat) returns (plan: Plan, behind: bool)
    requires dev.Ready()
    modifies dev, dev.disk, dev.cache, dev.undo
    ensures dev.Ran(old(Run(dev.State(), GatherOps(View(dev.Model()), base, size, count))), !plan.Failed?)
    ensures dev.cache == old(dev.cache)
    ensures !plan.Failed? ==> View(dev.Model()) == old(View(dev.Model()))
    ensures !plan.Failed? ==> Gathered(old(View(dev.Model())), base, size, count, plan, behind)
  {
    hide Gather, StoresBehind, GatherOps, GatherAll, AnyBehind, EntryOf, BlockCache.View, DiskSession.Run;
    ghost var s, v := dev.State(), View(dev.Model());
    var parts: seq<Part> := [];
    behind := false;
    GatherStart(s, v, base, size);
    var i := 0;
    while i < count
      invariant 0 <= i <= count && dev.Ready() && dev.cache == old(dev.cache) && |parts| <= 4
      invariant View(dev.Model()) == v && GatherAll(v, base, size, i) == Some(parts)
      invariant Run(s, GatherOps(v, base, size, i)) == Outcome(dev.State(), true) && behind == AnyBehind(v, base, size, i)
    {
      GatherStep(v, base, size, i);
      GatherOpsGrow(v, base, size, i + 1, count);
      AtMostFour(v, base, size, i + 1);
      var ok, entry := ReadNth(dev, base, size, i, s, v);
      if !ok {
        RunStops(s, GatherOps(v, base, size, i + 1), GatherOps(v, base, size, count));
        return Failed, behind;
      }
      var r, b := GatherEntry(parts, entry);
      behind := behind || b;
      if r.None? {
        GatherStops(v, base, size, i + 1, count);
        return Unconverted, behind;
      }
      parts := r.value;
      i := i + 1;
    }
    plan := Convert(parts);
  }

  lemma GatherStart(s: Session, v: seq<byte>, base: nat, size: nat)
    requires 0 < |s.dev.cache|
    ensures GatherAll(v, base, size, 0) == Some([]) && !AnyBehind(v, base, size, 0)
    ensures Run(s, GatherOps(v, base, size, 0)) == Outcome(s, true)
  {
  }

  lemma AtMostFour(v: seq<byte>, base: nat, size: nat, n: nat)
    ensures GatherAll(v, base, size, n).Some? ==> |GatherAll(v, base, size, n).value| <= 4
  {
    GatheredParts(v, base, size, n);
  }

  // ---------- the new partition table ----------

  function Zeros(n: nat): (z: seq<byte>)
    ensures |z| == n && forall i :: 0 <= i < n ==> z[i] == 0
  {
    seq(n, _ => 0)
  }

  const TABLE: nat := 0x1be

  function SectorCount(p: Part): nat {
    (p.end - p.start + 1) % 0x1_0000_0000
  }

  /** Type, start and sector count of an entry. */
  function NumberWrites(p: Part, slot: nat): (w: seq<Extent>)
    ensures |w| == 3
  {
    [ Extent(slot + 4, [p.kind]), Extent(slot + 8, LittleEndian(p.start, 4)),
      Extent(slot + 12, LittleEndian(SectorCount(p), 4)) ]
  }

  /** Its first and last address by cylinder, head and sector. */
  function ChsWrites(p: Part, slot: nat): (w: seq<Extent>)
    ensures |w| == 2
  {
    [Extent(slot + 1, Lba2Chs(p.start)), Extent(slot + 5, Lba2Chs(p.end))]
  }

  /** The five writes for the `i`-th entry. */
  function PartWrites(p: Part, i: nat): (w: seq<Extent>)
    ensures |w| == 5
  {
    NumberWrites(p, TABLE + i * 16) + ChsWrites(p, TABLE + i * 16)
  }

  function SlotBytes(flag: byte, p: Part): (s: seq<byte>)
    ensures |s| == 16
  {
    [flag] + Lba2Chs(p.start) + [p.kind] + Lba2Chs(p.end) + LittleEndian(p.start, 4) + LittleEndian(SectorCount(p), 4)
  }

  function TableWrites(parts: seq<Part>): (w: seq<Extent>) {
    if parts == [] then []
    else TableWrites(parts[..|parts| - 1]) + PartWrites(parts[|parts| - 1], |parts| - 1)
  }

  lemma PieceStored(v: seq<byte>, p: Part, i: nat, k: nat)
    requires TABLE + i * 16 + 16 <= |v| && k < 5
    ensures Shows(ApplyAll(v, PartWrites(p, i)), PartWrites(p, i)[k].loc, PartWrites(p, i)[k].data)
  {
    var w := PartWrites(p, i);
    LaterPieces(p, i, k);
    KeptWhole(v, w, k);
  }

  lemma LaterPieces(p: Part, i: nat, k: nat)
    requires k < 5
    ensures LaterApart(PartWrites(p, i), k)
    ensures PartWrites(p, i)[k].loc + |PartWrites(p, i)[k].data| <= TABLE + i * 16 + 16
  {
  }

  ghost predicate Within(w: seq<Extent>, lo: nat, hi: nat) {
    forall k :: 0 <= k < |w| ==> lo <= w[k].loc && w[k].loc + |w[k].data| <= hi
  }

  lemma PartWithin(p: Part, i: nat)
    ensures Within(PartWrites(p, i), TABLE + i * 16 + 1, TABLE + i * 16 + 16)
  {
  }

  lemma WithinOutside(v: seq<byte>, w: seq<Extent>, a: nat, b: nat, lo: nat, hi: nat)
    requires Within(w, a, b) && lo <= hi <= |v| && (hi <= a || b <= lo)
    ensures ApplyAll(v, w)[lo..hi] == v[lo..hi]
  {
    ApplyAllOutside(v, w, lo, hi);
  }

  /** The five writes fill one slot and leave its first byte, the active flag, alone. */
  lemma PartFillsSlot(v: seq<byte>, p: Part, i: nat)
    requires TABLE + i * 16 + 16 <= |v|
    ensures Shows(ApplyAll(v, PartWrites(p, i)), TABLE + i * 16, SlotBytes(v[TABLE + i * 16], p))
  {
    PiecesStored(v, p, i);
    FlagKept(v, PartWrites(p, i), p, i);
    JoinSlot(ApplyAll(v, PartWrites(p, i)), v[TABLE + i * 16], p, TABLE + i * 16);
  }

  lemma FlagKept(v: seq<byte>, w: seq<Extent>, p: Part, i: nat)
    requires TABLE + i * 16 + 16 <= |v| && w == PartWrites(p, i)
    ensures ApplyAll(v, w)[TABLE + i * 16] == v[TABLE + i * 16]
  {
    var slot := TABLE + i * 16;
    PartWithin(p, i);
    WithinOutside(v, w, slot + 1, slot + 16, slot, slot + 1);
    assert v[slot..slot + 1][0] == v[slot];
    assert ApplyAll(v, w)[slot..slot + 1][0] == ApplyAll(v, w)[slot];
  }

  lemma PiecesStored(v: seq<byte>, p: Part, i: nat)
    requires TABLE + i * 16 + 16 <= |v|
    ensures Pieces(ApplyAll(v, PartWrites(p, i)), p, TABLE + i * 16)
  {
    PieceStored(v, p, i, 0);
    PieceStored(v, p, i, 1);
    PieceStored(v, p, i, 2);
    PieceStored(v, p, i, 3);
    PieceStored(v, p, i, 4);
  }

  ghost predicate Pieces(f: seq<byte>, p: Part, slot: nat) {
    && Shows(f, slot + 4, [p.kind]) && Shows(f, slot + 8, LittleEndian(p.start, 4))
    && Shows(f, slot + 12, LittleEndian(SectorCount(p), 4))
    && Shows(f, slot + 1, Lba2Chs(p.start)) && Shows(f, slot + 5, Lba2Chs(p.end))
  }

  lemma JoinSlot(f: seq<byte>, flag: byte, p: Part, slot: nat)
    requires slot + 16 <= |f| && f[slot] == flag && Pieces(f, p, slot)
    ensures Shows(f, slot, SlotBytes(flag, p))
  {
    assert f[slot..slot + 16] == f[slot..slot + 1] + f[slot + 1..slot + 4] + f[slot + 4..slot + 5]
                                 + f[slot + 5..slot + 8] + f[slot + 8..slot + 12] + f[slot + 12..slot + 16];
  }

  /** After all entries are written every slot used holds its partition and nothing else has changed. */
  lemma {:induction false} TableFilled(v: seq<byte>, parts: seq<Part>)
    requires |parts| <= 4 && 512 <= |v|
    ensures var f := ApplyAll(v, TableWrites(parts));
      && (forall i :: 0 <= i < |parts| ==> Shows(f, TABLE + i * 16, SlotBytes(v[TABLE + i * 16], parts[i])))
      && (forall q :: 0 <= q < |v| && !(TABLE <= q < TABLE + |parts| * 16) ==> f[q] == v[q])
  {
    if parts != [] {
      var n := |parts| - 1;
      TableFilled(v, parts[..n]);
      var before := ApplyAll(v, TableWrites(parts[..n]));
      ApplyAllAppend(v, TableWrites(parts[..n]), PartWrites(parts[n], n));
      PartFillsSlot(before, parts[n], n);
      PartOnlySlot(before, parts[n], n);
      AddSlot(v, before, ApplyAll(v, TableWrites(parts)), parts, n);
    }
  }

  lemma PartOnlySlot(v: seq<byte>, p: Part, i: nat)
    requires TABLE + i * 16 + 16 <= |v|
    ensures SameOutside(v, ApplyAll(v, PartWrites(p, i)), TABLE + i * 16, TABLE + i * 16 + 16)
  {
    PartWithin(p, i);
    WithinOutside(v, PartWrites(p, i), TABLE + i * 16 + 1, TABLE + i * 16 + 16, 0, TABLE + i * 16);
    WithinOutside(v, PartWrites(p, i), TABLE + i * 16 + 1, TABLE + i * 16 + 16, TABLE + i * 16 + 16, |v|);
    SlicesSame(v, ApplyAll(v, PartWrites(p, i)), TABLE + i * 16, TABLE + i * 16 + 16);
  }

  ghost predicate SameOutside(v: seq<byte>, f: seq<byte>, lo: nat, hi: nat) {
    |v| == |f| && forall q :: 0 <= q < |v| && !(lo <= q < hi) ==> f[q] == v[q]
  }

  lemma SlicesSame(v: seq<byte>, f: seq<byte>, lo: nat, hi: nat)
    requires |v| == |f| && lo <= hi <= |v| && f[0..lo] == v[0..lo] && f[hi..|v|] == v[hi..|v|]
    ensures SameOutside(v, f, lo, hi)
  {
  }

  lemma AddSlot(v: seq<byte>, before: seq<byte>, f: seq<byte>, parts: seq<Part>, n: nat)
    requires |parts| == n + 1 <= 4 && 512 <= |v| == |before|
    requires forall i :: 0 <= i < n ==> Shows(before, TABLE + i * 16, SlotBytes(v[TABLE + i * 16], parts[..n][i]))
    requires SameOutside(v, before, TABLE, TABLE + n * 16)
    requires SameOutside(before, f, TABLE + n * 16, TABLE + n * 16 + 16)
    requires Shows(f, TABLE + n * 16, SlotBytes(before[TABLE + n * 16], parts[n]))
    ensures forall i :: 0 <= i <= n ==> Shows(f, TABLE + i * 16, SlotBytes(v[TABLE + i * 16], parts[i]))
    ensures SameOutside(v, f, TABLE, TABLE + n * 16 + 16)
  {
    hide SlotBytes;
    forall i | 0 <= i <= n ensures Shows(f, TABLE + i * 16, SlotBytes(v[TABLE + i * 16], parts[i])) {
      if i < n {
        assert Shows(before, TABLE + i * 16, SlotBytes(v[TABLE + i * 16], parts[..n][i]));
        assert f[TABLE + i * 16..TABLE + i * 16 + 16] == before[TABLE + i * 16..TABLE + i * 16 + 16];
      }
    }
  }

  // ---------- what a slot means ----------

  datatype Slot = Slot(flag: byte, first: int, kind: byte, last: int, start: nat, count: nat)

  function DecodeSlot(s: seq<byte>): Slot
    requires |s| == 16
  {
    Slot(s[0], ChsAddress(s[1..4]), s[4], ChsAddress(s[5..8]),
         FromLittleEndian(s[8..12]), FromLittleEndian(s[12..16]))
  }

  function ClampChs(lba: nat): nat {
    if lba < CHS_END then lba else CHS_END - 1
  }

  /** A slot decodes to the start address and type of its partition, to its sector count cut off at
      32 bits, and to its first and last address as far as cylinder, head and sector can name them. */
  lemma SlotDecodes(flag: byte, p: Part)
    requires Convertible(p)
    ensures DecodeSlot(SlotBytes(flag, p))
            == Slot(flag, ClampChs(p.start), p.kind, ClampChs(p.end), p.start, SectorCount(p))
  {
    var s := SlotBytes(flag, p);
    SlotPieces(flag, p);
    ChsRoundTrip(p.start);
    ChsRoundTrip(p.end);
    Pow256Values();
    LittleEndianRoundTrip(p.start, 4);
    LittleEndianRoundTrip(SectorCount(p), 4);
  }

  lemma SlotPieces(flag: byte, p: Part)
    ensures var s := SlotBytes(flag, p);
      && s[0] == flag && s[1..4] == Lba2Chs(p.start) && s[4] == p.kind && s[5..8] == Lba2Chs(p.end)
      && s[8..12] == LittleEndian(p.start, 4) && s[12..16] == LittleEndian(SectorCount(p), 4)
  {
  }

  /** The stored count is the length of the partition exactly when that fits in 32 bits and is not negative. */
  lemma SectorCountExact(p: Part)
    requires Convertible(p)
    ensures SectorCount(p) == p.end - p.start + 1
            <==> p.start <= p.end + 1 && !(p.start == 0 && p.end == UINT32_MAX)
  {
  }
}
