/** The clipping loop of the automap. */
module AutomapClip {
  import opened Automap
  import opened AutomapCover

  function Clamp(x: int, limit: int): int {
    if x < 0 then 0 else if x >= limit then limit - 1 else x
  }

  predicate Boxed(p: Point, a: Point, b: Point) {
    Between(p.x, a.x, b.x) && Between(p.y, a.y, b.y)
  }

  lemma BoxedTransitive(p: Point, a: Point, b: Point, a0: Point, b0: Point)
    requires Boxed(p, a, b) && Boxed(a, a0, b0) && Boxed(b, a0, b0)
    ensures Boxed(p, a0, b0)
  {
  }

  /** An end that has not moved, or has moved to the nearest frame edge: what clipping does to a
      horizontal or vertical line. */
  predicate Straight(p: Point, p0: Point, q0: Point, w: int, h: int) {
    && (p0.y == q0.y ==> p.y == p0.y && (p.x == p0.x || p.x == Clamp(p0.x, w)))
    && (p0.x == q0.x ==> p.x == p0.x && (p.y == p0.y || p.y == Clamp(p0.y, h)))
  }

  /** What every turn of the loop keeps. */
  predicate Clipping(a: Point, b: Point, a0: Point, b0: Point, w: int, h: int) {
    && Boxed(a, a0, b0) && Boxed(b, a0, b0)
    && (InFrame(a0, w, h) ==> a == a0) && (InFrame(b0, w, h) ==> b == b0)
    && Straight(a, a0, b0, w, h) && Straight(b, b0, a0, w, h)
  }

  /** One turn of the loop: the first end that is outside moves. */
  function Turn(a: Point, b: Point, w: int, h: int): (ends: (Point, Point))
    requires 0 < w && 0 < h && Turning(a, b, w, h)
  {
    CrossingDefined(a, b, w, h);
    var o, p := FrameCode(a, w, h), FrameCode(b, w, h);
    if Outside(o) then (Crossing(a, b, o, w, h), b) else (a, Crossing(a, b, p, w, h))
  }

  /** The loop goes on: no common side, and an end outside. */
  predicate Turning(a: Point, b: Point, w: int, h: int) {
    && !Share(FrameCode(a, w, h), FrameCode(b, w, h))
    && (Outside(FrameCode(a, w, h)) || Outside(FrameCode(b, w, h)))
  }

  /** What one turn does, side by side and end by end. */
  lemma TurnExactly(a: Point, b: Point, w: int, h: int)
    requires 0 < w && 0 < h && Turning(a, b, w, h)
    ensures var (c, d) := Turn(a, b, w, h);
      if InFrame(a, w, h) then c == a && CutAt(a, b, b, d, w, h) else d == b && CutAt(a, b, a, c, w, h)
  {
    CrossingTowards(a, b, Outside(FrameCode(a, w, h)), w, h);
  }

  /** The end `e` of the segment from `a` to `b` has moved to `t`: to the first of top, bottom, right and left that it
      is beyond, with the other coordinate cut off towards `a`. */
  ghost predicate CutAt(a: Point, b: Point, e: Point, t: Point, w: int, h: int) {
    if e.y < 0 || h <= e.y then
      a.y != b.y && t.y == (if e.y < 0 then 0 else h - 1)
      && CutShort(t.x, a.x, b.x - a.x, if e.y < 0 then a.y else a.y - h, a.y - b.y)
    else
      a.x != b.x && t.x == (if w <= e.x then w - 1 else 0)
      && CutShort(t.y, a.y, b.y - a.y, if w <= e.x then w - 1 - a.x else -a.x, b.x - a.x)
  }

  /** All turns: the line is rejected when its ends share a side, and done when both are inside. */
  function Clip(a: Point, b: Point, w: int, h: int): (r: (bool, Point, Point))
    requires 0 < w && 0 < h
    decreases if Share(FrameCode(a, w, h), FrameCode(b, w, h)) then 0 else 1 + TotalBits(a, b, w, h)
  {
    if Share(FrameCode(a, w, h), FrameCode(b, w, h)) then (false, a, b)
    else if !Turning(a, b, w, h) then (true, a, b)
    else
      TurnClears(a, b, w, h);
      var (c, d) := Turn(a, b, w, h);
      Clip(c, d, w, h)
  }

  /** A line from above the frame of the automap, whose exact crossing with row 0 is at 8.5: the start of the division is
      at 10, so the pixel next to it is 9. */
  lemma CutTowardsStart()
    ensures Clip(Point(10, -1), Point(7, 1), 320, 168) == (true, Point(9, 0), Point(7, 1))
    ensures Clip(Point(7, 1), Point(10, -1), 320, 168) == (true, Point(7, 1), Point(8, 0))
  {
    TurnsTo(Point(10, -1), Point(7, 1), Point(9, 0), Point(7, 1));
    TurnsTo(Point(7, 1), Point(10, -1), Point(7, 1), Point(8, 0));
  }

  lemma TurnsTo(a: Point, b: Point, c: Point, d: Point)
    requires Turning(a, b, 320, 168) && Turn(a, b, 320, 168) == (c, d) && InFrame(c, 320, 168) && InFrame(d, 320, 168)
    ensures Clip(a, b, 320, 168) == (true, c, d)
  {
    hide Turn;
    TurnClears(a, b, 320, 168);
  }

  function TotalBits(a: Point, b: Point, w: int, h: int): nat {
    Bits(FrameCode(a, w, h)) + Bits(FrameCode(b, w, h))
  }

  lemma TurnKeeps(a: Point, b: Point, a0: Point, b0: Point, w: int, h: int)
    requires 0 < w && 0 < h && Turning(a, b, w, h) && Clipping(a, b, a0, b0, w, h)
    ensures var (c, d) := Turn(a, b, w, h);
      && Clipping(c, d, a0, b0, w, h)
      && (a0.y == b0.y || a0.x == b0.x ==> !Share(FrameCode(c, w, h), FrameCode(d, w, h)))
  {
    var first := Outside(FrameCode(a, w, h));
    CrossingSpec(a, b, first, w, h);
    BoxedTransitive(Crossing(a, b, FrameCode(if first then a else b, w, h), w, h), a, b, a0, b0);
  }

  /** Both points lie within `m` of the line through `a0` and `b0`. */
  predicate Near(a: Point, b: Point, a0: Point, b0: Point, m: int) {
    Abs(Cross(a0, b0, a)) <= m && Abs(Cross(a0, b0, b)) <= m
  }

  lemma TurnNear(a: Point, b: Point, a0: Point, b0: Point, w: int, h: int, m: nat)
    requires 0 < w && 0 < h && Turning(a, b, w, h) && Near(a, b, a0, b0, m)
    ensures var (c, d) := Turn(a, b, w, h); Near(c, d, a0, b0, m + Span(a0, b0))
  {
    CrossingNear(a0, b0, a, b, Outside(FrameCode(a, w, h)), w, h, m);
  }

  lemma TurnClears(a: Point, b: Point, w: int, h: int)
    requires 0 < w && 0 < h && Turning(a, b, w, h)
    ensures var (c, d) := Turn(a, b, w, h);
      !Share(FrameCode(c, w, h), FrameCode(d, w, h)) ==> TotalBits(c, d, w, h) < TotalBits(a, b, w, h)
  {
    CrossingDefined(a, b, w, h);
    StepClearsBits(a, b, Outside(FrameCode(a, w, h)), w, h);
  }

  lemma AtMostFourBits(a: Point, b: Point, w: int, h: int)
    requires !Share(FrameCode(a, w, h), FrameCode(b, w, h))
    ensures TotalBits(a, b, w, h) <= 4
  {
  }

  /** What clipping promises about its result. */
  ghost predicate ClipResult(visible: bool, a: Point, b: Point, a0: Point, b0: Point, w: int, h: int) {
    && Boxed(a, a0, b0) && Boxed(b, a0, b0)
    && (visible ==> InFrame(a, w, h) && InFrame(b, w, h))
    && (!visible ==> Share(FrameCode(a, w, h), FrameCode(b, w, h)))
    && Near(a, b, a0, b0, 4 * Span(a0, b0)) && Covered(a, b, a0, b0, w, h, 4)
    && (InFrame(a0, w, h) ==> visible && a == a0)
    && (InFrame(b0, w, h) ==> visible && b == b0)
    && (a0.y == b0.y || a0.x == b0.x ==>
          && (visible <==> !Share(FrameCode(a0, w, h), FrameCode(b0, w, h)))
          && (visible ==> a == Point(Clamp(a0.x, w), Clamp(a0.y, h)) && b == Point(Clamp(b0.x, w), Clamp(b0.y, h))))
  }

  lemma NearFour(a: Point, b: Point, a0: Point, b0: Point, turns: nat)
    requires turns <= 4 && Near(a, b, a0, b0, turns * Span(a0, b0))
    ensures Near(a, b, a0, b0, 4 * Span(a0, b0))
  {
    ProductBound(turns, Span(a0, b0), 4);
  }

  lemma ClipDone(visible: bool, a: Point, b: Point, a0: Point, b0: Point, w: int, h: int, turns: nat)
    requires 0 < w && 0 < h && Clipping(a, b, a0, b0, w, h)
    requires turns <= 4 && Near(a, b, a0, b0, turns * Span(a0, b0)) && Covered(a, b, a0, b0, w, h, turns)
    requires if visible then InFrame(a, w, h) && InFrame(b, w, h) else Share(FrameCode(a, w, h), FrameCode(b, w, h))
    requires a0.y == b0.y || a0.x == b0.x ==> (visible <==> !Share(FrameCode(a0, w, h), FrameCode(b0, w, h)))
    ensures ClipResult(visible, a, b, a0, b0, w, h)
  {
    NearFour(a, b, a0, b0, turns);
    CoveredWider(a, b, a0, b0, w, h, turns, 4);
  }

  /** What holds whenever the loop comes round, after `turns` turns. */
  ghost predicate Going(a: Point, b: Point, a0: Point, b0: Point, w: int, h: int, turns: nat) {
    && Clipping(a, b, a0, b0, w, h)
    && !Share(FrameCode(a0, w, h), FrameCode(b0, w, h)) && !Share(FrameCode(a, w, h), FrameCode(b, w, h))
    && turns + TotalBits(a, b, w, h) <= 4 && Near(a, b, a0, b0, turns * Span(a0, b0))
    && Covered(a, b, a0, b0, w, h, turns)
  }

  lemma OneMore(turns: nat, span: nat)
    ensures turns * span + span == (turns + 1) * span
  {
  }

  lemma TurnGoesOn(a: Point, b: Point, a0: Point, b0: Point, w: int, h: int, turns: nat)
    requires 0 < w && 0 < h && Turning(a, b, w, h) && Going(a, b, a0, b0, w, h, turns)
    ensures turns < 4
    ensures var (c, d) := Turn(a, b, w, h);
      if Share(FrameCode(c, w, h), FrameCode(d, w, h)) then ClipResult(false, c, d, a0, b0, w, h)
      else Going(c, d, a0, b0, w, h, turns + 1)
  {
    var (c, d) := Turn(a, b, w, h);
    TurnKeeps(a, b, a0, b0, w, h);
    TurnClears(a, b, w, h);
    TurnNear(a, b, a0, b0, w, h, turns * Span(a0, b0));
    CrossingCovers(a, b, a0, b0, Outside(FrameCode(a, w, h)), w, h, turns);
    OneMore(turns, Span(a0, b0));
    if Share(FrameCode(c, w, h), FrameCode(d, w, h)) {
      ClipDone(false, c, d, a0, b0, w, h, turns + 1);
    }
  }

  /** The body of the loop: the first end that is outside moves to the first side it is beyond. */
  method ClipEnd(a: Point, b: Point, outcode1: Outcode, outcode2: Outcode, w: int, h: int)
    returns (c: Point, d: Point, code1: Outcode, code2: Outcode)
    requires 0 < w && 0 < h && Turning(a, b, w, h)
    requires outcode1 == FrameCode(a, w, h) && outcode2 == FrameCode(b, w, h)
    ensures (c, d) == Turn(a, b, w, h)
    ensures code1 == FrameCode(c, w, h) && code2 == FrameCode(d, w, h)
  {
    c, d, code1, code2 := a, b, outcode1, outcode2;
    CrossingDefined(a, b, w, h);
    var outside := if Outside(outcode1) then outcode1 else outcode2;
    var tmp := Crossing(a, b, outside, w, h);
    if outside == outcode1 {
      c := tmp;
      code1 := FrameCode(c, w, h);
    } else {
      d := tmp;
      code2 := FrameCode(d, w, h);
    }
  }

  lemma ClipTurns(a: Point, b: Point, w: int, h: int)
    requires 0 < w && 0 < h
    ensures Share(FrameCode(a, w, h), FrameCode(b, w, h)) ==> Clip(a, b, w, h) == (false, a, b)
    ensures InFrame(a, w, h) && InFrame(b, w, h) ==> Clip(a, b, w, h) == (true, a, b)
    ensures Turning(a, b, w, h) ==> var (c, d) := Turn(a, b, w, h); Clip(a, b, w, h) == Clip(c, d, w, h)
  {
    if Turning(a, b, w, h) {
      TurnClears(a, b, w, h);
    }
  }

  lemma OnItsLine(a: Point, b: Point)
    ensures Cross(a, b, a) == 0 == Cross(a, b, b)
  {
  }

  /** The loop of `AM_clipMline`. */
  method ClipLoop(a0: Point, b0: Point, w: int, h: int)
    returns (visible: bool, a: Point, b: Point, ghost turns: nat)
    requires 0 < w && 0 < h && !Share(FrameCode(a0, w, h), FrameCode(b0, w, h))
    ensures ClipResult(visible, a, b, a0, b0, w, h) && (visible, a, b) == Clip(a0, b0, w, h)
    ensures turns <= 4
  {
    hide Clip;
    ClipTurns(a0, b0, w, h);
    a, b, turns := a0, b0, 0;
    var outcode1, outcode2 := FrameCode(a, w, h), FrameCode(b, w, h);
    AtMostFourBits(a, b, w, h);
    OnItsLine(a, b);
    CoveredAtFirst(a, b, w, h);
    while Outside(outcode1) || Outside(outcode2)
      invariant outcode1 == FrameCode(a, w, h) && outcode2 == FrameCode(b, w, h)
      invariant turns <= 4 && Going(a, b, a0, b0, w, h, turns)
      invariant Clip(a, b, w, h) == Clip(a0, b0, w, h)
      decreases 4 - turns
    {
      TurnGoesOn(a, b, a0, b0, w, h, turns);
      ClipTurns(a, b, w, h);
      a, b, outcode1, outcode2 := ClipEnd(a, b, outcode1, outcode2, w, h);
      turns := turns + 1;
      if Share(outcode1, outcode2) {
        ClipTurns(a, b, w, h);
        return false, a, b, turns;
      }
    }
    ClipTurns(a, b, w, h);
    ClipDone(true, a, b, a0, b0, w, h, turns);
    visible := true;
  }

  /** A line is rejected only if no point of it is four pixels inside the frame. */
  lemma RejectedReach(a: Point, b: Point, a0: Point, b0: Point, w: int, h: int, t: real)
    requires ClipResult(false, a, b, a0, b0, w, h) && 0.0 <= t <= 1.0
    ensures !InnerAt(a0, b0, t, w, h, 4)
  {
    SharedShowsNone(a, b, a0, b0, w, h, 4, t);
  }

  /** The part of `AM_clipMline` on frame coordinates. It never divides by zero and takes at most four
      turns; a visible line ends inside the frame, in the box of the original, and keeps an end that was
      inside; horizontal and vertical lines are clipped exactly. */
  method ClipToFrame(a0: Point, b0: Point, w: int, h: int)
    returns (visible: bool, a: Point, b: Point, ghost turns: nat)
    requires 0 < w && 0 < h
    ensures ClipResult(visible, a, b, a0, b0, w, h) && (visible, a, b) == Clip(a0, b0, w, h)
    ensures turns <= 4
  {
    if Share(FrameCode(a0, w, h), FrameCode(b0, w, h)) {
      OnItsLine(a0, b0);
      CoveredAtFirst(a0, b0, w, h);
      ClipDone(false, a0, b0, a0, b0, w, h, 0);
      return false, a0, b0, 0;
    }
    visible, a, b, turns := ClipLoop(a0, b0, w, h);
  }
}
