/** The wipe as the display drives it: two screens are captured, then each call melts a few ticks until
    the end screen stands. */
module ScreenWipe {
  import opened Bytes
  import opened Grid
  import opened Melt

  ghost predicate AllNeedAtMost(y0: seq<int>, width: nat, height: nat, elapsed: nat) {
    |y0| == 2 * width && forall c :: 0 <= c < width ==> Needed(y0[c], height) <= elapsed
  }

  lemma FinishedIffElapsed(y: seq<int>, y0: seq<int>, width: nat, height: nat, elapsed: nat)
    requires Melted(y, y0, width, height, elapsed) && forall c :: 0 <= c < width ==> y0[c] <= height
    ensures AllFinished(y, width, height) <==> AllNeedAtMost(y0, width, height, elapsed)
  {
    forall c | 0 <= c < width
      ensures y[c] == height <==> Needed(y0[c], height) <= elapsed
    {
      FinishedExactly(y0[c], height, elapsed);
    }
  }

  lemma StartShown(scr: seq<int>, end: seq<int>, y: seq<int>, random: nat -> byte, width: nat, height: nat)
    requires |scr| == |end| == width * height && |y| == 2 * width && Offsets(y, random)
    ensures AllShow(scr, y, scr, end, width, height)
  {
    AllInside(width, height);
    forall c | 0 <= c < width
      ensures y[c] <= 0 && Shows(scr, scr, end, y[c], c, width, height)
    {
      OffsetsJagged(y, random, c);
    }
  }

  lemma OffsetsUpTo(y: seq<int>, random: nat -> byte, height: nat)
    requires Offsets(y, random)
    ensures forall c :: 0 <= c < |y| ==> y[c] <= height
  {
    forall c | 0 <= c < |y| ensures y[c] <= height {
      OffsetsJagged(y, random, c);
    }
  }

  lemma BoundSuffices(y0: seq<int>, random: nat -> byte, width: nat, height: nat, elapsed: nat)
    requires Offsets(y0, random) && |y0| == 2 * width && elapsed >= Bound(height)
    ensures AllNeedAtMost(y0, width, height, elapsed)
  {
    forall c | 0 <= c < width ensures Needed(y0[c], height) <= elapsed {
      MeltBounded(y0, random, height, c);
    }
  }

  class Wipe {
    const width: nat
    const height: nat
    /** The frame buffer */
    const scr: array<int>
    var wipeStart: array<int>
    var wipeEnd: array<int>
    var y: array<int>
    var go: bool

    /** The two screens captured, and the melt so far: offsets at its start and ticks done. */
    ghost var start: seq<int>
    ghost var end: seq<int>
    ghost var y0: seq<int>
    ghost var draws: nat -> byte
    ghost var elapsed: nat

    ghost predicate Captured()
      reads this, wipeStart, wipeEnd
    {
      && 0 < width && scr.Length == width * height
      && scr != wipeStart && scr != wipeEnd && wipeStart != wipeEnd
      && wipeStart[..] == start && wipeEnd[..] == end && |start| == |end| == width * height
    }

    ghost predicate Melting()
      reads this, scr, wipeStart, wipeEnd, y
    {
      && 0 < width && Buffers(scr, wipeStart, wipeEnd, y, start, end, width, height)
      && AllShow(scr[..], y[..], start, end, width, height)
      && Offsets(y0, draws) && Melted(y[..], y0, width, height, elapsed)
    }

    constructor (width: nat, height: nat, frameBuffer: array<int>)
      requires 0 < width && frameBuffer.Length == width * height
      ensures !go && this.width == width && this.height == height && scr == frameBuffer
    {
      this.width, this.height, scr, go := width, height, frameBuffer, false;
      var none := new int[0];
      wipeStart, wipeEnd, y := none, none, none;
      start, end, y0, draws, elapsed := [], [], [], k => 0, 0;
    }

    /** `wipe_StartScreen`, before the next screen is drawn. */
    method StartScreen()
      requires scr.Length == width * height
      modifies this`wipeStart, this`start
      ensures fresh(wipeStart) && wipeStart[..] == start == scr[..]
    {
      wipeStart := new int[scr.Length];
      Copy(wipeStart, scr);
      start := scr[..];
    }

    /** `wipe_EndScreen`, after it: the start screen is put back. */
    method EndScreen()
      requires 0 < width && scr.Length == width * height && scr != wipeStart
      requires wipeStart[..] == start && |start| == width * height
      modifies this`wipeEnd, this`end, scr
      ensures fresh(wipeEnd) && Captured() && end == old(scr[..]) && scr[..] == start
    {
      wipeEnd := new int[scr.Length];
      Copy(wipeEnd, scr);
      end := scr[..];
      Copy(scr, wipeStart);
    }

    /** `wipe_initMelt` */
    method InitMelt(random: nat -> byte)
      requires Captured()
      modifies this`y, this`y0, this`draws, this`elapsed, scr, wipeStart, wipeEnd
      ensures Melting() && elapsed == 0 && fresh(y) && draws == random
    {
      Copy(scr, wipeStart);
      Transpose(wipeStart, width, height);
      Transpose(wipeEnd, width, height);
      y := new int[2 * width];
      InitOffsets(y, random);
      y0, draws, elapsed := y[..], random, 0;
      StartShown(start, end, y[..], random, width, height);
    }

    /** One piece of the melt, while it is under way. */
    method ContinueMelt(ticks: nat) returns (done: bool)
      requires Melting()
      modifies this`elapsed, scr, y
      ensures Melting() && elapsed == old(elapsed) + ticks
      ensures done == (ticks == 0 || AllNeedAtMost(y0, width, height, old(elapsed)))
      ensures AllNeedAtMost(y0, width, height, elapsed) ==> scr[..] == end
    {
      OffsetsUpTo(y0, draws, height);
      FinishedIffElapsed(y[..], y0, width, height, elapsed);
      ghost var before := y[..];
      done := DoMelt(scr, wipeStart, wipeEnd, y, width, height, ticks, start, end);
      MeltedMore(y[..], before, y0, width, height, elapsed, ticks);
      elapsed := elapsed + ticks;
      FinishedIffElapsed(y[..], y0, width, height, elapsed);
      if AllFinished(y[..], width, height) {
        FinishedShowsEnd(scr[..], y[..], start, end, width, height);
      }
    }

    /** `wipe_ScreenWipe` for the melt. With at least one tick it reports the end of the wipe exactly when
        the ticks of the calls before had been enough for every column, and then the end screen stands. */
    method Turn(ticks: nat, random: nat -> byte) returns (over: bool)
      requires if go then Melting() else Captured()
      modifies this`y, this`y0, this`draws, this`elapsed, this`go, scr, wipeStart, wipeEnd, y
      ensures over == !go && (go ==> Melting())
      ensures draws == (if old(go) then old(draws) else random) && Offsets(y0, draws) && (old(go) ==> y0 == old(y0))
      ensures elapsed == (if old(go) then old(elapsed) else 0) + ticks
      ensures over == (ticks == 0 || AllNeedAtMost(y0, width, height, if old(go) then old(elapsed) else 0))
      ensures over && ticks > 0 ==> scr[..] == end
      ensures !old(go) ==> fresh(y)
      ensures old(go) ==> y == old(y)
    {
      if !go {
        go := true;
        InitMelt(random);
      }
      ghost var before := elapsed;
      var rc := ContinueMelt(ticks);
      if rc {
        go := false;
        assert ticks > 0 ==> AllNeedAtMost(y0, width, height, before);
      }
      over := !go;
    }

    /** The display's loop: however the clock hands out the ticks, the wipe ends, with the end screen. */
    method MeltScreen(ticks: nat -> nat, random: nat -> byte)
      requires !go && Captured() && forall k :: ticks(k) >= 1
      modifies this`y, this`y0, this`draws, this`elapsed, this`go, scr, wipeStart, wipeEnd, y
      ensures !go && scr[..] == end
    {
      var over := Turn(ticks(0), random);
      var k := 1;
      while !over
        invariant over == !go && (go ==> Melting() && fresh(y)) && (over ==> scr[..] == end)
        invariant Offsets(y0, draws)
        decreases if over then 0 else 1 + if elapsed < Bound(height) then Bound(height) - elapsed else 0
      {
        if elapsed >= Bound(height) {
          BoundSuffices(y0, draws, width, height, elapsed);
        }
        over := Turn(ticks(k), random);
        k := k + 1;
      }
    }
  }
}
