/** Looking for a GPT: its header behind the first block of one of two sizes, and the secondary header it names. */
module GptProbe {
  import opened Bytes
  import opened BlockCache
  import opened DiskSession
  import opened Scripts
  import opened Installer
  import opened GptEmbed

  /** "EFI PART" */
  const EFI_PART: seq<byte> := [0x45, 0x46, 0x49, 0x20, 0x50, 0x41, 0x52, 0x54]

  const LB_GUESSES: seq<nat> := [512, 4096]

  /** The header read from `loc`. */
  function HeaderOn(v: seq<byte>, loc: nat): (h: seq<byte>)
    ensures IsHeader(h)
  {
    Slice(v, loc, HEADER_SIZE)
  }

  predicate HasSignature(h: seq<byte>)
    requires IsHeader(h)
  {
    h[..8] == EFI_PART
  }

  /** The first guess with a signed header behind its first block. */
  function FindGpt(v: seq<byte>, guesses: seq<nat>): (lb: Option<nat>)
    ensures lb.Some? ==> lb.value in guesses && HasSignature(HeaderOn(v, lb.value))
    decreases |guesses|
  {
    if guesses == [] then None
    else if HasSignature(HeaderOn(v, guesses[0])) then Some(guesses[0])
    else FindGpt(v, guesses[1..])
  }

  function FindOps(v: seq<byte>, guesses: seq<nat>): (ops: seq<Op>)
    decreases |guesses|
  {
    if guesses == [] then []
    else [Op.Read(guesses[0], HEADER_SIZE)]
         + if HasSignature(HeaderOn(v, guesses[0])) then [] else FindOps(v, guesses[1..])
  }

  /** The probing of `bios_install`; it ends there if a GPT is found and an MBR is to be forced. */
  function ProbeScript(v: seq<byte>, force: bool): (t: Script)
  {
    Script(FindOps(v, LB_GUESSES), !(force && FindGpt(v, LB_GUESSES).Some?))
  }

  lemma {:induction false} FindOpsRead(v: seq<byte>, guesses: seq<nat>)
    requires forall k :: 0 <= k < |guesses| ==> guesses[k] < WORD
    ensures var ops := FindOps(v, guesses);
      Addressable(ops) && Writes(ops) == 0 && ViewAfter(v, ops) == v
    decreases |guesses|
  {
    if guesses != [] {
      FindOpsRead(v, guesses[1..]);
      var rest := if HasSignature(HeaderOn(v, guesses[0])) then [] else FindOps(v, guesses[1..]);
      var first := [Op.Read(guesses[0], HEADER_SIZE)];
      WritesAppend(first, rest);
      WritesOfWrites(first);
      ViewAfterAppend(v, first, rest);
      ViewAfterOne(v, first[0]);
    }
  }

  method Probe(dev: Device) returns (ok: bool, lb: Option<nat>, h1: seq<byte>)
    requires dev.Ready()
    modifies dev, dev.disk, dev.cache, dev.undo
    ensures dev.Ran(old(Run(dev.State(), FindOps(View(dev.Model()), LB_GUESSES))), ok) && dev.cache == old(dev.cache)
    ensures IsHeader(h1)
    ensures ok ==> View(dev.Model()) == old(View(dev.Model())) && lb == FindGpt(View(dev.Model()), LB_GUESSES)
    ensures ok && lb.Some? ==> h1 == HeaderOn(old(View(dev.Model())), lb.value)
  {
    hide DiskSession.Run, HasSignature, BlockCache.View;
    ghost var v, all := View(dev.Model()), Run(dev.State(), FindOps(View(dev.Model()), LB_GUESSES));
    h1, lb, ok := Slice([], 0, HEADER_SIZE), None, true;
    var i := 0;
    assert LB_GUESSES[0..] == LB_GUESSES;
    while i < |LB_GUESSES|
      invariant 0 <= i <= |LB_GUESSES| && dev.Ready() && dev.cache == old(dev.cache) && View(dev.Model()) == v
      invariant lb.None? && IsHeader(h1) && ok
      invariant all == Run(dev.State(), FindOps(v, LB_GUESSES[i..]))
      invariant FindGpt(v, LB_GUESSES) == FindGpt(v, LB_GUESSES[i..])
    {
      ghost var rest := if HasSignature(HeaderOn(v, LB_GUESSES[i])) then [] else FindOps(v, LB_GUESSES[i + 1..]);
      assert LB_GUESSES[i..][1..] == LB_GUESSES[i + 1..];
      assert LB_GUESSES[i] == 512 || LB_GUESSES[i] == 4096;
      RunAppend(dev.State(), [Op.Read(LB_GUESSES[i], HEADER_SIZE)], rest);
      ok, h1 := dev.Peek(LB_GUESSES[i], HEADER_SIZE);
      if !ok { return; }
      RunNothing(dev.State());
      if h1[..8] == EFI_PART {
        assert HasSignature(h1) by { IsSigned(h1); }
        lb := Some(LB_GUESSES[i]);
        return;
      }
      assert !HasSignature(h1) by { IsSigned(h1); }
      i := i + 1;
    }
    RunNothing(dev.State());
  }

  lemma IsSigned(h: seq<byte>)
    requires IsHeader(h)
    ensures HasSignature(h) <==> h[..8] == EFI_PART
  {
  }

  /** Where the first header says the secondary one is. */
  function SecondaryAt(h1: seq<byte>, lb: nat): (loc: nat)
    requires IsHeader(h1)
    ensures loc < WORD
  {
    Wrap(AlternateLba(h1) * lb)
  }

  /** Reading the secondary header; it ends there if that is not signed. */
  function SecondaryScript(v: seq<byte>, h1: seq<byte>, lb: nat): (t: Script)
    requires IsHeader(h1)
  {
    Script([Op.Read(SecondaryAt(h1, lb), HEADER_SIZE)], HasSignature(HeaderOn(v, SecondaryAt(h1, lb))))
  }

  method ReadSecondary(dev: Device, h1: seq<byte>, lb: nat) returns (ok: bool, go: bool, h2: seq<byte>)
    requires dev.Ready() && IsHeader(h1)
    modifies dev, dev.disk, dev.cache, dev.undo
    ensures dev.Ran(old(Run(dev.State(), SecondaryScript(View(dev.Model()), h1, lb).ops)), ok) && dev.cache == old(dev.cache)
    ensures IsHeader(h2)
    ensures ok ==> View(dev.Model()) == old(View(dev.Model())) && h2 == HeaderOn(View(dev.Model()), SecondaryAt(h1, lb))
    ensures ok ==> go == old(SecondaryScript(View(dev.Model()), h1, lb).go)
  {
    hide DiskSession.Run, BlockCache.View;
    var loc := AlternateLba(h1) * lb % WORD;
    assert loc == SecondaryAt(h1, lb);
    ok, h2 := dev.Peek(loc, HEADER_SIZE);
    go := h2[..8] == EFI_PART;
  }
}
