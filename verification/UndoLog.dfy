/** The undo log of the disk installer: saved stretches of a disk, and what replaying them does. */
module UndoLog {
  import opened Bytes

  /** One `struct uninstall_data`; its `count` is the length of `data`. */
  datatype Extent = Extent(loc: nat, data: seq<byte>)

  predicate Covers(e: Extent, p: nat) {
    e.loc <= p < e.loc + |e.data|
  }

  predicate Fits(e: Extent, size: nat) {
    |e.data| == 0 || e.loc + |e.data| <= size
  }

  /** The disk after the extents are written in order. */
  function ApplyAll(disk: seq<byte>, log: seq<Extent>): (r: seq<byte>)
    ensures |r| == |disk|
    decreases |log|
  {
    if log == [] then disk else ApplyAll(Overwrite(disk, log[0].loc, log[0].data), log[1..])
  }

  function Reversed<T>(s: seq<T>): (r: seq<T>)
    ensures |r| == |s|
  {
    if s == [] then [] else Reversed(s[1..]) + [s[0]]
  }

  lemma {:induction false} ReversedAt<T>(s: seq<T>, k: nat)
    requires k < |s|
    ensures Reversed(s)[k] == s[|s| - 1 - k]
  {
    if k < |s| - 1 {
      ReversedAt(s[1..], k);
    }
  }

  /** The byte saved for position `p` by the first extent that covers it. */
  function FirstSaved(log: seq<Extent>, p: nat): Option<byte> {
    if log == [] then None
    else if Covers(log[0], p) then Some(log[0].data[p - log[0].loc])
    else FirstSaved(log[1..], p)
  }

  lemma {:induction false} ApplyAllAppend(disk: seq<byte>, a: seq<Extent>, b: seq<Extent>)
    ensures ApplyAll(disk, a + b) == ApplyAll(ApplyAll(disk, a), b)
    decreases |a|
  {
    if a == [] {
      assert a + b == b;
    } else {
      assert (a + b)[1..] == a[1..] + b;
      ApplyAllAppend(Overwrite(disk, a[0].loc, a[0].data), a[1..], b);
    }
  }

  lemma {:induction false} FirstSavedAppend(log: seq<Extent>, e: Extent, p: nat)
    ensures FirstSaved(log + [e], p)
            == if FirstSaved(log, p).Some? then FirstSaved(log, p)
               else if Covers(e, p) then Some(e.data[p - e.loc]) else None
  {
    if log == [] {
      assert log + [e] == [e];
      assert FirstSaved([e][1..], p) == None;
    } else {
      assert (log + [e])[1..] == log[1..] + [e];
      FirstSavedAppend(log[1..], e, p);
    }
  }

  /** Replaying the reversed log leaves at each position the byte saved first, or what was there. */
  lemma {:induction false} ReplayByte(disk: seq<byte>, log: seq<Extent>, p: nat)
    requires p < |disk|
    ensures ApplyAll(disk, Reversed(log))[p]
            == if FirstSaved(log, p).Some? then FirstSaved(log, p).value else disk[p]
  {
    if log != [] {
      var rest := ApplyAll(disk, Reversed(log[1..]));
      ApplyAllAppend(disk, Reversed(log[1..]), [log[0]]);
      assert ApplyAll(rest, [log[0]]) == Overwrite(rest, log[0].loc, log[0].data) by {
        assert [log[0]][1..] == [];
      }
      ReplayByte(disk, log[1..], p);
    }
  }

  /** What the log must know about a disk image to bring it back to `original`:
      the first save of every touched byte, and nothing changed elsewhere. */
  ghost predicate Undoable(disk: seq<byte>, log: seq<Extent>, original: seq<byte>) {
    && |disk| == |original|
    && forall p {:trigger original[p]} :: 0 <= p < |disk| ==>
         original[p] == if FirstSaved(log, p).Some? then FirstSaved(log, p).value else disk[p]
  }

  /** The reversed log restores the original exactly when the disk is undoable. */
  lemma UndoableIffRestored(disk: seq<byte>, log: seq<Extent>, original: seq<byte>)
    requires |disk| == |original|
    ensures Undoable(disk, log, original) <==> ApplyAll(disk, Reversed(log)) == original
  {
    forall p | 0 <= p < |disk|
      ensures ApplyAll(disk, Reversed(log))[p]
              == if FirstSaved(log, p).Some? then FirstSaved(log, p).value else disk[p]
    {
      ReplayByte(disk, log, p);
    }
  }

  /** Bytes outside every extent keep their value. */
  lemma {:induction false} ApplyAllOutside(disk: seq<byte>, log: seq<Extent>, lo: nat, hi: nat)
    requires lo <= hi <= |disk|
    requires forall k :: 0 <= k < |log| ==> log[k].loc + |log[k].data| <= lo || hi <= log[k].loc
    ensures ApplyAll(disk, log)[lo..hi] == disk[lo..hi]
    decreases |log|
  {
    if log != [] {
      var next := Overwrite(disk, log[0].loc, log[0].data);
      assert forall k :: 0 <= k < |log[1..]| ==> log[1..][k] == log[k + 1];
      ApplyAllOutside(next, log[1..], lo, hi);
      assert next[lo..hi] == disk[lo..hi];
    }
  }

  /** What an extent wrote to a stretch that no later extent touches is found there afterwards. */
  lemma {:induction false} ApplyAllKeeps(disk: seq<byte>, log: seq<Extent>, k: nat, lo: nat, hi: nat)
    requires k < |log| && log[k].loc <= lo <= hi <= log[k].loc + |log[k].data| && hi <= |disk|
    requires forall j :: k < j < |log| ==> log[j].loc + |log[j].data| <= lo || hi <= log[j].loc
    ensures ApplyAll(disk, log)[lo..hi] == log[k].data[lo - log[k].loc..hi - log[k].loc]
  {
    var before := ApplyAll(disk, log[..k]);
    var here := Overwrite(before, log[k].loc, log[k].data);
    assert log == log[..k] + ([log[k]] + log[k + 1..]);
    ApplyAllAppend(disk, log[..k], [log[k]] + log[k + 1..]);
    assert ([log[k]] + log[k + 1..])[1..] == log[k + 1..];
    var later := log[k + 1..];
    assert forall j :: 0 <= j < |later| ==> later[j] == log[k + 1 + j];
    ApplyAllOutside(here, later, lo, hi);
    assert here[lo..hi] == log[k].data[lo - log[k].loc..hi - log[k].loc];
  }

  ghost predicate Shows(disk: seq<byte>, loc: nat, data: seq<byte>) {
    loc + |data| <= |disk| && disk[loc..loc + |data|] == data
  }

  /** No later extent touches the `k`-th. */
  ghost predicate LaterApart(w: seq<Extent>, k: nat)
    requires k < |w|
  {
    forall j :: k < j < |w| ==> w[j].loc + |w[j].data| <= w[k].loc || w[k].loc + |w[k].data| <= w[j].loc
  }

  /** No extent touches the stretch. */
  ghost predicate AllApart(w: seq<Extent>, lo: nat, hi: nat) {
    forall j :: 0 <= j < |w| ==> w[j].loc + |w[j].data| <= lo || hi <= w[j].loc
  }

  lemma KeptApart(v: seq<byte>, w: seq<Extent>, lo: nat, hi: nat)
    requires lo <= hi <= |v| && AllApart(w, lo, hi)
    ensures ApplyAll(v, w)[lo..hi] == v[lo..hi]
  {
    ApplyAllOutside(v, w, lo, hi);
  }

  lemma KeptWhole(v: seq<byte>, w: seq<Extent>, k: nat)
    requires k < |w| && w[k].loc + |w[k].data| <= |v| && LaterApart(w, k)
    ensures Shows(ApplyAll(v, w), w[k].loc, w[k].data)
  {
    ApplyAllKeeps(v, w, k, w[k].loc, w[k].loc + |w[k].data|);
  }

  lemma ApplyOne(disk: seq<byte>, log: seq<Extent>, e: Extent)
    ensures ApplyAll(disk, log + [e]) == Overwrite(ApplyAll(disk, log), e.loc, e.data)
  {
    ApplyAllAppend(disk, log, [e]);
    assert [e][1..] == [];
  }

  /** Short lists written out. */
  lemma ApplyFour(v: seq<byte>, w: seq<Extent>)
    requires 2 <= |w| <= 4
    ensures var two := Overwrite(Overwrite(v, w[0].loc, w[0].data), w[1].loc, w[1].data);
      && (|w| == 2 ==> ApplyAll(v, w) == two)
      && (|w| == 3 ==> ApplyAll(v, w) == Overwrite(two, w[2].loc, w[2].data))
      && (|w| == 4 ==> ApplyAll(v, w) == Overwrite(Overwrite(two, w[2].loc, w[2].data), w[3].loc, w[3].data))
  {
    var one := Overwrite(v, w[0].loc, w[0].data);
    var two := Overwrite(one, w[1].loc, w[1].data);
    assert ApplyAll(v, w) == ApplyAll(two, w[2..]) by {
      assert w[1..][1..] == w[2..];
      assert ApplyAll(v, w) == ApplyAll(one, w[1..]);
    }
    if |w| == 4 {
      assert ApplyAll(two, w[2..]) == ApplyAll(Overwrite(two, w[2].loc, w[2].data), w[2..][1..]);
    }
  }
}
