/** What the installer does to a device, as lists of reads and writes. */
module Scripts {
  import opened Bytes
  import opened UndoLog
  import opened BlockCache
  import opened BlockCacheLoops
  import opened DiskSession

  /** The bytes from `loc` on; zeros where the disk has none. */
  function Slice(v: seq<byte>, loc: nat, count: nat): (s: seq<byte>)
    ensures |s| == count
  {
    if loc + count <= |v| then v[loc..loc + count] else seq(count, _ => 0)
  }

  // ---------- one operation ----------

  /** The operation lies inside a disk of `size` bytes. */
  predicate Inside(size: nat, op: Op) {
    match op
    case Read(loc, count) => count == 0 || loc + count <= size
    case Write(loc, data) => data == [] || loc + |data| <= size
  }

  /** And its log entry inside the log. */
  predicate Doable(view: seq<byte>, log: seq<Extent>, op: Op) {
    Inside(|view|, op) && (op.Write? ==> |log| < LOG_MAX)
  }

  function NextView(view: seq<byte>, op: Op): (v: seq<byte>)
    ensures |v| == |view|
  {
    match op
    case Read(_, _) => view
    case Write(loc, data) => Overwrite(view, loc, data)
  }

  function NextLog(view: seq<byte>, log: seq<Extent>, op: Op): seq<Extent> {
    match op
    case Read(_, _) => log
    case Write(loc, data) => log + [Extent(loc, Slice(view, loc, |data|))]
  }

  lemma GetEffect(d: Dev, loc: nat, count: nat)
    requires Coherent(d) && loc < WORD
    ensures var g := Get(d, loc, count);
      && WellFormed(g.dev) && View(g.dev) == View(d)
      && (g.ok ==> Coherent(g.dev) && (count == 0 || loc + count <= |d.disk|) && g.data == Slice(View(d), loc, count))
  {
    GetFromSpec(d, loc, count, []);
  }

  lemma PutEffect(d: Dev, loc: nat, data: seq<byte>)
    requires Coherent(d) && loc < WORD
    ensures var p := Put(d, loc, data);
      && WellFormed(p.dev)
      && (p.ok ==> Coherent(p.dev) && (data == [] || loc + |data| <= |d.disk|) && View(p.dev) == Overwrite(View(d), loc, data))
  {
    var k := PutFromSpec(d, loc, data, 0);
    assert data[0..|data|] == data;
  }

  /** An operation that succeeds under any faults was doable, and its effect on contents and log depends on
      these alone. */
  lemma PerformEffect(s: Session, op: Op)
    requires Coherent(s.dev) && op.loc < WORD
    ensures var r := Perform(s, op);
      && WellFormed(r.session.dev)
      && (r.ok ==> && Coherent(r.session.dev) && Doable(View(s.dev), s.log, op)
                   && View(r.session.dev) == NextView(View(s.dev), op)
                   && r.session.log == NextLog(View(s.dev), s.log, op))
  {
    hide BlockCache.ShowsBlock, BlockCache.View, BlockCache.Get, BlockCache.Put;
    match op {
      case Read(loc, count) => GetEffect(s.dev, loc, count);
      case Write(loc, data) =>
        GetEffect(s.dev, loc, |data|);
        var g := Get(s.dev, loc, |data|);
        if g.ok {
          PutEffect(g.dev, loc, data);
        }
    }
  }

  // ---------- lists of operations ----------

  /** The logical contents after the operations. */
  function ViewAfter(v: seq<byte>, ops: seq<Op>): (r: seq<byte>)
    ensures |r| == |v|
    decreases |ops|
  {
    if ops == [] then v else ViewAfter(NextView(v, ops[0]), ops[1..])
  }

  lemma {:induction false} ViewAfterAppend(v: seq<byte>, a: seq<Op>, b: seq<Op>)
    ensures ViewAfter(v, a + b) == ViewAfter(ViewAfter(v, a), b)
    decreases |a|
  {
    if a == [] {
      assert a + b == b;
    } else {
      assert (a + b)[1..] == a[1..] + b;
      ViewAfterAppend(NextView(v, a[0]), a[1..], b);
    }
  }

  lemma ViewAfterOne(v: seq<byte>, op: Op)
    ensures ViewAfter(v, [op]) == NextView(v, op)
  {
    assert [op][1..] == [];
  }

  lemma {:induction false} ReadsKeepView(v: seq<byte>, ops: seq<Op>)
    requires forall k :: 0 <= k < |ops| ==> ops[k].Read?
    ensures ViewAfter(v, ops) == v
    decreases |ops|
  {
    if ops != [] {
      ReadsKeepView(v, ops[1..]);
    }
  }

  /** A run of two lists is a run of the first and, if it completes, one of the second. */
  lemma {:induction false} RunAppend(s: Session, a: seq<Op>, b: seq<Op>)
    requires 0 < |s.dev.cache|
    ensures Run(s, a + b) == if Run(s, a).ok then Run(Run(s, a).session, b) else Run(s, a)
    decreases |a|
  {
    if a == [] {
      assert a + b == b;
    } else {
      assert (a + b)[1..] == a[1..] + b;
      if Perform(s, a[0]).ok {
        RunAppend(Perform(s, a[0]).session, a[1..], b);
      }
    }
  }

  /** A run that stops in the first operations of a list has run the whole of it. */
  lemma RunStops(s: Session, a: seq<Op>, b: seq<Op>)
    requires 0 < |s.dev.cache| && a <= b && !Run(s, a).ok
    ensures Run(s, b) == Run(s, a)
  {
    RunAppend(s, a, b[|a|..]);
    assert a + b[|a|..] == b;
  }

  lemma RunNothing(s: Session)
    requires 0 < |s.dev.cache|
    ensures Run(s, []) == Outcome(s, true)
  {
  }

  lemma RunOne(s: Session, op: Op)
    requires 0 < |s.dev.cache|
    ensures Run(s, [op]) == Perform(s, op)
  {
    assert [op][1..] == [];
  }

  /** Short lists written out. */
  lemma RunTwo(s: Session, a: Op, b: Op)
    requires 0 < |s.dev.cache|
    ensures var r := Run(s, [a]); Run(s, [a, b]) == if r.ok then Run(r.session, [b]) else r
  {
    RunAppend(s, [a], [b]);
    assert [a] + [b] == [a, b];
  }

  lemma RunThree(s: Session, a: Op, b: Op, c: Op)
    requires 0 < |s.dev.cache|
    ensures var r := Run(s, [a]); Run(s, [a, b, c]) == if r.ok then Run(r.session, [b, c]) else r
    ensures var r := Run(s, [a]).session; var q := Run(r, [b]); Run(r, [b, c]) == if q.ok then Run(q.session, [c]) else q
  {
    hide Run;
    RunAppend(s, [a], [b, c]);
    assert [a] + [b, c] == [a, b, c];
    RunTwo(Run(s, [a]).session, b, c);
  }

  lemma RunFour(s: Session, a: Op, b: Op, c: Op, d: Op)
    requires 0 < |s.dev.cache|
    ensures var r := Run(s, [a]); Run(s, [a, b, c, d]) == if r.ok then Run(r.session, [b, c, d]) else r
    ensures var r := Run(s, [a]).session; var q := Run(r, [b]); Run(r, [b, c, d]) == if q.ok then Run(q.session, [c, d]) else q
    ensures var r := Run(Run(s, [a]).session, [b]).session; var q := Run(r, [c]);
      Run(r, [c, d]) == if q.ok then Run(q.session, [d]) else q
  {
    hide Run;
    RunAppend(s, [a], [b, c, d]);
    assert [a] + [b, c, d] == [a, b, c, d];
    RunThree(Run(s, [a]).session, b, c, d);
  }

  /** A list of writes. */
  function WriteOps(w: seq<Extent>): (ops: seq<Op>)
    ensures |ops| == |w| && forall k :: 0 <= k < |w| ==> ops[k] == Op.Write(w[k].loc, w[k].data)
  {
    seq(|w|, k requires 0 <= k < |w| => Op.Write(w[k].loc, w[k].data))
  }

  lemma WriteOpsAppend(a: seq<Extent>, b: seq<Extent>)
    ensures WriteOps(a + b) == WriteOps(a) + WriteOps(b)
  {
  }

  lemma WriteOpsMore(a: seq<Extent>, e: Extent)
    ensures WriteOps(a + [e]) == WriteOps(a) + [Op.Write(e.loc, e.data)]
  {
  }

  lemma {:induction false} ViewAfterWrites(v: seq<byte>, w: seq<Extent>)
    ensures ViewAfter(v, WriteOps(w)) == ApplyAll(v, w)
    decreases |w|
  {
    if w != [] {
      assert WriteOps(w)[1..] == WriteOps(w[1..]);
      ViewAfterWrites(Overwrite(v, w[0].loc, w[0].data), w[1..]);
    }
  }

  /** How many of the operations write. */
  function Writes(ops: seq<Op>): (n: nat)
    ensures n <= |ops|
    decreases |ops|
  {
    if ops == [] then 0 else (if ops[0].Write? then 1 else 0) + Writes(ops[1..])
  }

  lemma {:induction false} WritesAppend(a: seq<Op>, b: seq<Op>)
    ensures Writes(a + b) == Writes(a) + Writes(b)
    decreases |a|
  {
    if a == [] {
      assert a + b == b;
    } else {
      assert (a + b)[1..] == a[1..] + b;
      WritesAppend(a[1..], b);
    }
  }

  lemma {:induction false} WritesOfWrites(ops: seq<Op>)
    ensures (forall k :: 0 <= k < |ops| ==> ops[k].Write?) ==> Writes(ops) == |ops|
    ensures (forall k :: 0 <= k < |ops| ==> ops[k].Read?) ==> Writes(ops) == 0
    decreases |ops|
  {
    if ops != [] {
      assert forall k :: 0 <= k < |ops[1..]| ==> ops[1..][k] == ops[k + 1];
      WritesOfWrites(ops[1..]);
    }
  }

  predicate AllInside(size: nat, ops: seq<Op>) {
    forall k :: 0 <= k < |ops| ==> Inside(size, ops[k])
  }

  lemma AllInsideAppend(size: nat, a: seq<Op>, b: seq<Op>)
    ensures AllInside(size, a + b) <==> AllInside(size, a) && AllInside(size, b)
  {
    assert forall k :: 0 <= k < |a| ==> (a + b)[k] == a[k];
    assert forall k :: 0 <= k < |b| ==> (a + b)[|a| + k] == b[k];
    if AllInside(size, a + b) {
      forall k | 0 <= k < |b| ensures Inside(size, b[k]) {
        var j := |a| + k;
        assert (a + b)[j] == b[k];
      }
    }
  }

  /** All operations lie inside the disk, and with `used` entries in the log their writes fit it. */
  predicate Feasible(size: nat, used: nat, ops: seq<Op>) {
    used + Writes(ops) <= LOG_MAX && AllInside(size, ops)
  }

  /** A run that completes has exactly the effect of its operations, and was feasible. */
  lemma {:induction false} RunEffect(s: Session, ops: seq<Op>)
    requires Coherent(s.dev) && Addressable(ops) && |s.log| <= LOG_MAX
    ensures var r := Run(s, ops);
      && WellFormed(r.session.dev)
      && (r.ok ==> && Coherent(r.session.dev) && View(r.session.dev) == ViewAfter(View(s.dev), ops)
                   && |r.session.log| == |s.log| + Writes(ops) && Feasible(|View(s.dev)|, |s.log|, ops))
    decreases |ops|
  {
    hide BlockCache.ShowsBlock, BlockCache.View;
    if ops != [] {
      PerformEffect(s, ops[0]);
      var r := Perform(s, ops[0]);
      if r.ok {
        assert forall k :: 0 <= k < |ops[1..]| ==> ops[1..][k] == ops[k + 1];
        RunEffect(r.session, ops[1..]);
      }
    }
  }

  // ---------- lists that depend on what is read ----------

  /** The operations up to where a part of the program ends, and whether it lets the install go on. */
  datatype Script = Script(ops: seq<Op>, go: bool)

  /** One part after the other. */
  function Then(a: Script, b: Script): Script {
    if a.go then Script(a.ops + b.ops, b.go) else a
  }
}
