/** The paths of an install one by one: when each is feasible, and the disk it leaves. */
module PathResults {
  import opened Bytes
  import opened UndoLog
  import opened BlockCache
  import opened DiskSession
  import opened Scripts
  import opened BootSector
  import opened Mbr
  import opened MbrCheck
  import opened MbrVerdict
  import opened GptProbe
  import opened GptEmbed
  import opened GptPlan
  import opened PartitionInstall
  import opened GptInstall
  import opened BiosInstall

  /** An install with the script `t` on a disk that shows `v` goes to its end when nothing fails. */
  predicate Succeeds(v: seq<byte>, t: Script) {
    t.go && Feasible(|v|, 0, t.ops)
  }

  // ---------- behind a master boot record ----------

  /** The disk has a table that is fit to be left alone. */
  predicate MbrFit(v: seq<byte>) {
    AllValid(v, 4) && NoneLow(v, 4) && NoMarks(v, |MARKS|)
  }

  /** The logical contents when the boot phase begins: with an active partition, if need be the first. */
  function Activated(v: seq<byte>): (f: seq<byte>)
    ensures |f| == |v|
  {
    if AnyActive(v, 4) then v else Overwrite(v, TABLE, [0x80])
  }

  lemma MbrInside(size: nat, imageSize: nat)
    requires HalvesFit(imageSize)
    ensures InsideDisk(size, imageSize, SECTOR, SECTOR + SizeA(imageSize)) <==> imageSize <= size
  {
  }

  /** Behind a table that is fit to be left alone the path writes at most ten times. */
  lemma MbrPathExactly(v: seq<byte>, img: seq<byte>)
    requires HalvesFit(|img|)
    ensures var t := MbrPath(v, false, img);
      && (t.go <==> MbrFit(v)) && Writes(t.ops) <= 10
      && (CHECKED <= |v| && t.go ==> (AllInside(|v|, t.ops) <==> |img| <= |v|))
      && (t.go ==> ViewAfter(v, t.ops) == ApplyAll(Activated(v), BootWrites(Activated(v), img, SECTOR, SECTOR + SizeA(|img|))))
  {
    hide CheckScript, BootOps, BootWrites, AllInside, ViewAfter, MbrFit, Activated, Near, SizeA, Splits, HalvesFit, ApplyAll;
    FitSplits(|img|);
    var m := CheckScript(v, false);
    var f := ViewAfter(v, m.ops);
    var boot := BootOps(f, img, SECTOR, SECTOR + SizeA(|img|));
    CheckedPlainly(v);
    CheckNear(v, false);
    BehindSector(f, img, |v|);
    JoinChecked(v, m, boot);
  }

  lemma BehindSector(f: seq<byte>, img: seq<byte>, size: nat)
    requires HalvesFit(|img|)
    ensures var locB := SECTOR + SizeA(|img|); var boot := BootOps(f, img, SECTOR, locB);
      && Writes(boot) == 9 && (AllInside(size, boot) <==> |img| <= size)
      && ViewAfter(f, boot) == ApplyAll(f, BootWrites(f, img, SECTOR, locB))
  {
    hide BootOps, BootWrites, AllInside, ViewAfter, InsideDisk, ApplyAll;
    Sizes16(|img|);
    BootOpsExactly(f, img, SECTOR, SECTOR + SizeA(|img|), size);
    MbrInside(size, |img|);
  }

  lemma JoinChecked(v: seq<byte>, m: Script, boot: seq<Op>)
    requires Near(m.ops)
    ensures Writes(m.ops + boot) == Writes(m.ops) + Writes(boot)
    ensures CHECKED <= |v| ==> (AllInside(|v|, m.ops + boot) <==> AllInside(|v|, boot))
    ensures ViewAfter(v, m.ops + boot) == ViewAfter(ViewAfter(v, m.ops), boot)
  {
    hide AllInside, ViewAfter, Near;
    WritesAppend(m.ops, boot);
    AllInsideAppend(|v|, m.ops, boot);
    ViewAfterAppend(v, m.ops, boot);
    if CHECKED <= |v| {
      NearInside(|v|, m.ops);
    }
  }

  lemma FitSplits(imageSize: nat)
    requires HalvesFit(imageSize)
    ensures Splits(imageSize) && SECTOR <= imageSize
  {
  }

  lemma CheckedPlainly(v: seq<byte>)
    ensures var t := CheckScript(v, false);
      && (t.go <==> MbrFit(v)) && Writes(t.ops) <= 1 && (t.go ==> ViewAfter(v, t.ops) == Activated(v))
  {
    hide CheckScript;
    PlainCheckExactly(v);
  }

  /** The probing of a disk without a GPT reads behind both sizes of a first block. */
  lemma ProbeInside(v: seq<byte>)
    requires FindGpt(v, LB_GUESSES).None?
    ensures FindOps(v, LB_GUESSES) == [Op.Read(512, HEADER_SIZE), Op.Read(4096, HEADER_SIZE)]
    ensures AllInside(|v|, FindOps(v, LB_GUESSES)) <==> 4096 + HEADER_SIZE <= |v|
  {
    hide FindOps, FindGpt;
    assert LB_GUESSES == [512, 4096];
    FindTwo(v, 512, 4096);
    TwoInside(|v|, Op.Read(512, HEADER_SIZE), Op.Read(4096, HEADER_SIZE));
  }

  lemma TwoInside(size: nat, a: Op, b: Op)
    ensures AllInside(size, [a, b]) <==> Inside(size, a) && Inside(size, b)
  {
    assert [a, b][0] == a && [a, b][1] == b;
  }

  lemma FindTwo(v: seq<byte>, a: nat, b: nat)
    requires FindGpt(v, [a, b]).None?
    ensures FindOps(v, [a, b]) == [Op.Read(a, HEADER_SIZE), Op.Read(b, HEADER_SIZE)]
  {
    hide HasSignature, HeaderOn;
    assert [a, b][1..] == [b] && [b][1..] == [];
    assert FindGpt(v, [a, b]) == FindGpt(v, [b]);
    assert FindOps(v, [b]) == [Op.Read(b, HEADER_SIZE)] + FindOps(v, []);
  }

  /** A disk without a GPT, not forced: the install succeeds exactly if the table is fit, and the disk has room for the
      image and for what is probed. */
  lemma MbrInstallExactly(v: seq<byte>, o: Options, img: seq<byte>)
    requires HalvesFit(|img|) && !o.force && FindGpt(v, LB_GUESSES).None?
    ensures Succeeds(v, InstallScript(v, o, img)) <==> MbrFit(v) && 4096 + HEADER_SIZE <= |v| && |img| <= |v|
  {
    hide MbrPath, FindOps, FindGpt, MbrFit, AllInside, ViewAfter, BootWrites, ApplyAll, SizeA, HalvesFit, Activated;
    FitSplits(|img|);
    var t := MbrPath(v, false, img);
    ProbeInside(v);
    FindOpsRead(v, LB_GUESSES);
    MbrPathExactly(v, img);
    WritesAppend(FindOps(v, LB_GUESSES), t.ops);
    AllInsideAppend(|v|, FindOps(v, LB_GUESSES), t.ops);
  }

  /** Its disk: the boot sector leads to all of stage 2 and keeps the table, in which the first partition is active if
      none was; everything behind the image is as before. */
  lemma MbrInstalled(v: seq<byte>, o: Options, img: seq<byte>)
    requires HalvesFit(|img|) && !o.force && FindGpt(v, LB_GUESSES).None? && MbrFit(v)
    requires |img| <= |v| < OFFSET_LIMIT
    ensures var f, g, locB := Activated(v), ViewAfter(v, InstallScript(v, o, img).ops), SECTOR + SizeA(|img|);
      SectorInstalled(f, g, img, SECTOR, locB) && BootRestKept(f, g, |img|, SECTOR, locB)
  {
    hide MbrPath, FindOps, FindGpt, MbrFit, AllInside, BootWrites, SectorInstalled, BootRestKept, ViewAfter, Activated;
    var t := MbrPath(v, false, img);
    FindOpsRead(v, LB_GUESSES);
    MbrPathExactly(v, img);
    ViewAfterAppend(v, FindOps(v, LB_GUESSES), t.ops);
    BootInstalled(Activated(v), img, SECTOR, SECTOR + SizeA(|img|));
  }

  // ---------- on a GPT ----------

  /** What is read before the place is chosen: the headers, and the signature and entries of an image that is not
      converted. */
  function HeadOps(v: seq<byte>, o: Options, lb: nat): (ops: seq<Op>)
  {
    var h1 := HeaderOn(v, lb);
    FindOps(v, LB_GUESSES) + ([Op.Read(SecondaryAt(h1, lb), HEADER_SIZE)]
                              + if o.convert then ConvertOps(v, h1, lb, o.id) else [])
  }

  /** A disk with a signed GPT on which nothing is converted. */
  predicate StaysGpt(v: seq<byte>, o: Options, lb: nat) {
    && FindGpt(v, LB_GUESSES) == Some(lb) && !o.force && 0 < lb
    && HasSignature(HeaderOn(v, SecondaryAt(HeaderOn(v, lb), lb)))
    && !(o.convert && WillConvert(v, HeaderOn(v, lb), lb))
  }

  lemma JoinReads(v: seq<byte>, a: seq<Op>, b: seq<Op>, c: seq<Op>, t: Script)
    ensures Then(Script(a, true), Then(Script(b, true), Then(Script(c, true), t))) == Script(a + (b + c) + t.ops, t.go)
    ensures Then(Script(a, true), Then(Script(b, true), t)) == Script(a + (b + []) + t.ops, t.go)
  {
    assert a + (b + (c + t.ops)) == a + (b + c) + t.ops;
    assert a + (b + t.ops) == a + (b + []) + t.ops;
  }

  /** Then the install is these reads, and the path of the place. */
  lemma GptHead(v: seq<byte>, o: Options, img: seq<byte>, lb: nat)
    requires StaysGpt(v, o, lb) && Splits(|img|)
    ensures var h1 := HeaderOn(v, lb);
      var target := TargetPath(v, o.part, img, h1, HeaderOn(v, SecondaryAt(h1, lb)), lb);
      InstallScript(v, o, img) == Script(HeadOps(v, o, lb) + target.ops, target.go)
  {
    hide TargetPath, ConvertOps, WillConvert, HeaderOn, HasSignature, FindOps, FindGpt;
    var h1 := HeaderOn(v, lb);
    var target := TargetPath(v, o.part, img, h1, HeaderOn(v, SecondaryAt(h1, lb)), lb);
    JoinReads(v, FindOps(v, LB_GUESSES), [Op.Read(SecondaryAt(h1, lb), HEADER_SIZE)],
              if o.convert then ConvertOps(v, h1, lb, o.id) else [], target);
  }

  lemma ConvertOpsRead(v: seq<byte>, h1: seq<byte>, lb: nat, id: seq<byte>)
    requires IsHeader(h1) && !WillConvert(v, h1, lb)
    ensures OnlyReads(ConvertOps(v, h1, lb, id))
  {
    GatherOpsRead(v, ArrayAt(h1, lb), EntryBytes(h1), EntryCount(h1));
  }

  lemma HeadReads(v: seq<byte>, o: Options, lb: nat)
    requires StaysGpt(v, o, lb)
    ensures Writes(HeadOps(v, o, lb)) == 0 && ViewAfter(v, HeadOps(v, o, lb)) == v
  {
    hide ConvertOps, WillConvert, HeaderOn, HasSignature, FindOps, FindGpt;
    var h1 := HeaderOn(v, lb);
    var probe := [Op.Read(SecondaryAt(h1, lb), HEADER_SIZE)];
    var c := if o.convert then ConvertOps(v, h1, lb, o.id) else [];
    FindOpsRead(v, LB_GUESSES);
    if o.convert {
      ConvertOpsRead(v, h1, lb, o.id);
    }
    WritesOfWrites(probe + c);
    ReadsKeepView(v, probe + c);
    WritesAppend(FindOps(v, LB_GUESSES), probe + c);
    ViewAfterAppend(v, FindOps(v, LB_GUESSES), probe + c);
  }

  /** So it succeeds exactly if the reads lie on the disk and the path succeeds, and leaves what the path leaves. */
  lemma GptHeadExactly(v: seq<byte>, o: Options, img: seq<byte>, lb: nat)
    requires StaysGpt(v, o, lb) && Splits(|img|)
    ensures var h1 := HeaderOn(v, lb);
      var target, t := TargetPath(v, o.part, img, h1, HeaderOn(v, SecondaryAt(h1, lb)), lb), InstallScript(v, o, img);
      && (Succeeds(v, t) <==> AllInside(|v|, HeadOps(v, o, lb)) && Succeeds(v, target))
      && ViewAfter(v, t.ops) == ViewAfter(v, target.ops)
  {
    hide TargetPath, HeadOps, HeaderOn, InstallScript, StaysGpt, AllInside;
    var h1 := HeaderOn(v, lb);
    GptLb(v, o, lb);
    var target := TargetPath(v, o.part, img, h1, HeaderOn(v, SecondaryAt(h1, lb)), lb);
    GptHead(v, o, img, lb);
    HeadReads(v, o, lb);
    WritesAppend(HeadOps(v, o, lb), target.ops);
    AllInsideAppend(|v|, HeadOps(v, o, lb), target.ops);
    ViewAfterAppend(v, HeadOps(v, o, lb), target.ops);
  }

  lemma GptLb(v: seq<byte>, o: Options, lb: nat)
    requires StaysGpt(v, o, lb)
    ensures lb == 512 || lb == 4096
  {
  }

  /** Into a partition: it succeeds exactly if the number is accepted and headers, entry and halves lie on the disk. */
  lemma PartitionInstallExactly(v: seq<byte>, o: Options, img: seq<byte>, lb: nat)
    requires StaysGpt(v, o, lb) && Splits(|img|) && o.part.Some?
    ensures var h1, n := HeaderOn(v, lb), o.part.value;
      var locs := PlacesIn(NthEntry(v, h1, n, lb), lb, SizeA(|img|));
      Succeeds(v, InstallScript(v, o, img))
      <==> AllInside(|v|, HeadOps(v, o, lb)) && Accepts(v, h1, n, lb) && EntryPlace(h1, n, lb) + ENTRY_SIZE <= |v|
           && InsideDisk(|v|, |img|, locs.0, locs.1)
  {
    hide HeadOps, HeaderOn, InstallScript, StaysGpt, AllInside, PartitionScript, Accepts, InsideDisk, PlacesIn, NthEntry;
    GptLb(v, o, lb);
    GptHeadExactly(v, o, img, lb);
    PartitionFeasibleExactly(v, img, HeaderOn(v, lb), o.part.value, lb, 0);
  }

  /** Behind the arrays, in sensible tables: it succeeds exactly if headers and entries lie on the disk, no entry in use
      would be cut off, and the unused entries that stay are few enough for the log. */
  lemma EmbedInstallExactly(v: seq<byte>, o: Options, img: seq<byte>, lb: nat)
    requires StaysGpt(v, o, lb) && o.part.None? && |v| < OFFSET_LIMIT
    requires var h1 := HeaderOn(v, lb); var h2 := HeaderOn(v, SecondaryAt(h1, lb));
      EmbedInput(h1, h2, lb, |img|) && AreasInside(|v|, AreasOf(h1, h2, lb))
    ensures var h1 := HeaderOn(v, lb);
      var last, count := LastOf(v, h1, lb), NewCount(lb, EntryBytes(h1), SizeA(|img|));
      Succeeds(v, InstallScript(v, o, img))
      <==> AllInside(|v|, HeadOps(v, o, lb)) && last < count && 2 * (count - last - 1) + 11 <= LOG_MAX
           && EntriesInside(|v|, EntryLba(h1) * lb, EntryBytes(h1), EntryCount(h1))
  {
    hide HeadOps, HeaderOn, InstallScript, StaysGpt, AllInside, GptScript, LastOf, NewCount, EntriesInside, EmbedInput, AreasInside;
    var h1 := HeaderOn(v, lb);
    var h2 := HeaderOn(v, SecondaryAt(h1, lb));
    EmbedComputable(h1, h2, lb, |img|);
    GptHeadExactly(v, o, img, lb);
    GptFeasibleExactly(v, h1, h2, lb, img, 0);
  }

  lemma EmbedComputable(h1: seq<byte>, h2: seq<byte>, lb: nat, imageSize: nat)
    requires EmbedInput(h1, h2, lb, imageSize)
    ensures Computable(h1, h2, lb, imageSize) && 0 < lb
  {
  }

  /** Its disk is the one of `GptInstalled`. */
  lemma EmbedInstalled(v: seq<byte>, o: Options, img: seq<byte>, lb: nat)
    requires StaysGpt(v, o, lb) && o.part.None? && |v| < OFFSET_LIMIT
    requires var h1 := HeaderOn(v, lb); var h2 := HeaderOn(v, SecondaryAt(h1, lb));
      EmbedInput(h1, h2, lb, |img|) && AreasInside(|v|, AreasOf(h1, h2, lb))
    requires Succeeds(v, InstallScript(v, o, img))
    ensures var h1 := HeaderOn(v, lb);
      GptOutcome(v, ViewAfter(v, InstallScript(v, o, img).ops), h1, HeaderOn(v, SecondaryAt(h1, lb)), lb, img)
  {
    hide HeadOps, HeaderOn, InstallScript, StaysGpt, Feasible, GptScript, EmbedInput, AreasInside, GptOutcome, ViewAfter;
    var h1 := HeaderOn(v, lb);
    var h2 := HeaderOn(v, SecondaryAt(h1, lb));
    EmbedComputable(h1, h2, lb, |img|);
    GptHeadExactly(v, o, img, lb);
    GptScriptSpec(v, h1, h2, lb, img);
  }
}
