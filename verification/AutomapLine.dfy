/** The automap's line drawing: which pixels a line's dots fall on. */
module AutomapLine {
  import Blocks
  import Grid
  import opened Automap
  import opened AutomapClip

  // ---------- the minor axis ----------

  /** The distance along the minor axis after `k` steps of the major axis: `k * minor / major`, rounded. */
  function MinorAt(k: nat, minor: nat, major: nat): nat {
    if major == 0 then 0 else (2 * (k * minor) + major) / (2 * major)
  }

  lemma MinorUnique(k: nat, minor: nat, major: nat, m: nat)
    requires 0 < major && 2 * (m * major) <= 2 * (k * minor) + major < 2 * (m * major) + 2 * major
    ensures m == MinorAt(k, minor, major)
  {
    assert m * (2 * major) == 2 * (m * major);
    Blocks.DivModUnique(2 * (k * minor) + major, 2 * major, m, 2 * (k * minor) + major - 2 * (m * major));
  }

  lemma MinorBounds(k: nat, minor: nat, major: nat)
    requires 0 < major
    ensures var m := MinorAt(k, minor, major);
      2 * (m * major) <= 2 * (k * minor) + major < 2 * (m * major) + 2 * major
  {
  }

  /** The offset is never more than half a pixel off the true line, and where two are as near it is the larger one. */
  lemma MinorNearest(k: nat, minor: nat, major: nat)
    requires 0 < major
    ensures 2 * Abs(k * minor - MinorAt(k, minor, major) * major) <= major
    ensures var miss := k * minor - MinorAt(k, minor, major) * major; 0 <= 2 * miss + major && 2 * miss < major
  {
  }

  /** The value of the decision variable after `k` steps. */
  function Decision(k: nat, minor: nat, major: nat): int {
    2 * (k * minor) + 2 * minor - 2 * (MinorAt(k, minor, major) * major) - major
  }

  lemma DecisionStart(minor: nat, major: nat)
    requires minor <= major
    ensures Decision(0, minor, major) == 2 * minor - major
  {
  }

  /** The decision variable always tells exactly when the offset grows. */
  lemma MinorStep(k: nat, minor: nat, major: nat)
    requires 0 < major && minor <= major
    ensures var d := Decision(k, minor, major);
      && MinorAt(k + 1, minor, major) == MinorAt(k, minor, major) + (if d >= 0 then 1 else 0)
      && Decision(k + 1, minor, major) == (if d >= 0 then d - 2 * major else d) + 2 * minor
  {
    var d, m0 := Decision(k, minor, major), MinorAt(k, minor, major);
    MinorBounds(k, minor, major);
    assert (k + 1) * minor == k * minor + minor;
    assert (m0 + 1) * major == m0 * major + major;
    MinorUnique(k + 1, minor, major, m0 + if d >= 0 then 1 else 0);
  }

  lemma MinorEnds(minor: nat, major: nat)
    requires minor <= major
    ensures MinorAt(0, minor, major) == 0 && MinorAt(major, minor, major) == minor
  {
    if major > 0 {
      MinorUnique(0, minor, major, 0);
      assert minor * major == major * minor;
      MinorUnique(major, minor, major, minor);
    }
  }

  /** The offset never overshoots. */
  lemma MinorInside(k: nat, minor: nat, major: nat)
    requires minor <= major && k <= major
    ensures MinorAt(k, minor, major) <= minor
  {
    if major > 0 {
      var m := MinorAt(k, minor, major);
      MinorBounds(k, minor, major);
      Blocks.ProductGap(0, 1, minor);
      if k < major { Blocks.ProductGap(k, major, minor); }
      assert major * minor == minor * major;
      if minor < m {
        Blocks.ProductGap(minor, m, major);
        assert false;
      }
    }
  }

  /** Neighbouring dots are neighbouring pixels. */
  lemma MinorConnected(k: nat, minor: nat, major: nat)
    requires minor <= major
    ensures MinorAt(k, minor, major) <= MinorAt(k + 1, minor, major) <= MinorAt(k, minor, major) + 1
  {
    if major > 0 {
      MinorStep(k, minor, major);
    }
  }

  // ---------- the dots of a line ----------

  function Ahead(from: int, delta: int, steps: nat): int {
    if delta < 0 then from - steps else from + steps
  }

  /** `ax > ay` */
  predicate Flat(a: Point, b: Point) {
    Abs(b.x - a.x) > Abs(b.y - a.y)
  }

  /** How many steps a line takes. */
  function Steps(a: Point, b: Point): nat {
    if Flat(a, b) then Abs(b.x - a.x) else Abs(b.y - a.y)
  }

  function LinePoint(a: Point, b: Point, k: nat): Point {
    var dx, dy := b.x - a.x, b.y - a.y;
    if Flat(a, b) then Point(Ahead(a.x, dx, k), Ahead(a.y, dy, MinorAt(k, Abs(dy), Abs(dx))))
    else Point(Ahead(a.x, dx, MinorAt(k, Abs(dx), Abs(dy))), Ahead(a.y, dy, k))
  }

  /** A line starts at one end, stops at the other, and stays in their box. */
  lemma LineEnds(a: Point, b: Point)
    ensures LinePoint(a, b, 0) == a && LinePoint(a, b, Steps(a, b)) == b
  {
    MinorEnds(if Flat(a, b) then Abs(b.y - a.y) else Abs(b.x - a.x), Steps(a, b));
  }

  lemma LineBoxed(a: Point, b: Point, k: nat)
    requires k <= Steps(a, b)
    ensures Boxed(LinePoint(a, b, k), a, b)
  {
    MinorInside(k, if Flat(a, b) then Abs(b.y - a.y) else Abs(b.x - a.x), Steps(a, b));
  }

  /** No dot is more than half a pixel from the true line, measured along the minor axis. */
  lemma LineNear(a: Point, b: Point, k: nat)
    requires k <= Steps(a, b)
    ensures 2 * Abs(Cross(a, b, LinePoint(a, b, k))) <= Steps(a, b)
  {
    var dx, dy := b.x - a.x, b.y - a.y;
    var minor := if Flat(a, b) then Abs(dy) else Abs(dx);
    var m := MinorAt(k, minor, Steps(a, b));
    if Steps(a, b) > 0 {
      MinorNearest(k, minor, Steps(a, b));
      if Flat(a, b) {
        Signed(dx, dy, k, m);
      } else {
        Signed(dy, dx, k, m);
      }
    }
  }

  /** `Cross` in terms of the two offsets, whatever the directions. */
  lemma Signed(major: int, minor: int, k: nat, m: nat)
    ensures Abs(Ahead(0, major, k) * minor - Ahead(0, minor, m) * major) == Abs(k * Abs(minor) - m * Abs(major))
  {
  }

  /** Each dot touches the one before it, and moves one pixel along the major axis. */
  lemma LineConnected(a: Point, b: Point, k: nat)
    requires k < Steps(a, b)
    ensures var p, q := LinePoint(a, b, k), LinePoint(a, b, k + 1);
      && Abs(q.x - p.x) <= 1 && Abs(q.y - p.y) <= 1
      && (if Flat(a, b) then Abs(q.x - p.x) == 1 else Abs(q.y - p.y) == 1)
  {
    MinorConnected(k, if Flat(a, b) then Abs(b.y - a.y) else Abs(b.x - a.x), Steps(a, b));
  }

  // ---------- the picture ----------

  /** `(yy)*f_w+(xx)` */
  function PixelIndex(p: Point, w: int): int {
    Grid.At(p.y, p.x, w)
  }

  lemma LineInFrame(a: Point, b: Point, k: nat, w: int, h: int)
    requires InFrame(a, w, h) && InFrame(b, w, h) && k <= Steps(a, b)
    ensures InFrame(LinePoint(a, b, k), w, h) && 0 <= PixelIndex(LinePoint(a, b, k), w) < w * h
  {
    LineBoxed(a, b, k);
    Grid.AtInside(LinePoint(a, b, k).y, LinePoint(a, b, k).x, w, h);
  }

  /** The picture after the first `k` dots. */
  function Dots(fb: seq<int>, a: Point, b: Point, k: nat, color: int, w: int, h: int): (r: seq<int>)
    requires InFrame(a, w, h) && InFrame(b, w, h) && k <= Steps(a, b) + 1 && |fb| == w * h
    ensures |r| == |fb|
  {
    if k == 0 then fb
    else
      LineInFrame(a, b, k - 1, w, h);
      Dots(fb, a, b, k - 1, color, w, h)[PixelIndex(LinePoint(a, b, k - 1), w) := color]
  }

  ghost predicate Dotted(a: Point, b: Point, p: Point, k: nat) {
    exists j: nat :: j < k && LinePoint(a, b, j) == p
  }

  /** A pixel has the line's colour exactly if it is one of the line's points; the others are left alone. */
  lemma {:induction false} DotsExactly(fb: seq<int>, a: Point, b: Point, k: nat, color: int, w: int, h: int, p: Point)
    requires InFrame(a, w, h) && InFrame(b, w, h) && k <= Steps(a, b) + 1 && |fb| == w * h && InFrame(p, w, h)
    ensures 0 <= PixelIndex(p, w) < w * h && PixelIndex(p, w) == p.y * w + p.x
    ensures Dots(fb, a, b, k, color, w, h)[PixelIndex(p, w)]
         == if Dotted(a, b, p, k) then color else fb[PixelIndex(p, w)]
  {
    Grid.AtInside(p.y, p.x, w, h);
    if k > 0 {
      DotsExactly(fb, a, b, k - 1, color, w, h, p);
      LineInFrame(a, b, k - 1, w, h);
      var last := LinePoint(a, b, k - 1);
      if PixelIndex(last, w) == PixelIndex(p, w) {
        Grid.AtApart(last.y, last.x, p.y, p.x, w, h);
      }
      assert Dotted(a, b, p, k) <==> Dotted(a, b, p, k - 1) || last == p;
    }
  }

  // ---------- from map to frame coordinates ----------

  /** The part of the map the frame shows, and the scale from map to frame units, 16.16 fixed point. */
  datatype Window = Window(x: int, y: int, x2: int, y2: int, scale: int)

  /** `MTOF`: both shifts round down. */
  function MapToFrame(x: int, scale: int): int {
    x * scale / 0x1_0000 / 0x1_0000
  }

  /** Both shifts together round the scaled distance down to whole frame units. */
  lemma MapToFrameExact(x: int, scale: int)
    ensures 0x1_0000_0000 * MapToFrame(x, scale) <= x * scale < 0x1_0000_0000 * (MapToFrame(x, scale) + 1)
  {
  }

  function FramePoint(p: Point, m: Window, h: int): Point {
    Point(MapToFrame(p.x - m.x, m.scale), h - MapToFrame(p.y - m.y, m.scale))
  }

  /** The outcode on map coordinates, where the top of the frame has the highest `y`. */
  function MapCode(p: Point, m: Window): Outcode {
    Outcode(p.x < m.x, p.x >= m.x && p.x > m.x2, p.y <= m.y2 && p.y < m.y, p.y > m.y2)
  }

  /** The reject on the map: both ends above the window, or below it, or left of it, or right of it. */
  lemma RejectedOnMap(a: Point, b: Point, m: Window)
    requires m.x <= m.x2 && m.y <= m.y2
    ensures Share(MapCode(a, m), MapCode(b, m))
            <==> || (a.y > m.y2 && b.y > m.y2) || (a.y < m.y && b.y < m.y)
                 || (a.x < m.x && b.x < m.x) || (a.x > m.x2 && b.x > m.x2)
  {
  }

  lemma ScaledOrder(x: int, y: int, scale: int)
    requires 0 < scale && x <= y
    ensures MapToFrame(x, scale) <= MapToFrame(y, scale)
    ensures x < 0 ==> MapToFrame(x, scale) < 0
  {
    assert x * scale <= y * scale;
    if x < 0 {
      assert x * scale < 0;
    }
  }

  /** The window's lower left corner is the frame's, one row below the last; right stays right, and up on
      the map is up in the frame. */
  lemma FrameUpright(p: Point, q: Point, m: Window, h: int)
    requires 0 < m.scale && p.x <= q.x && p.y <= q.y
    ensures FramePoint(Point(m.x, m.y), m, h) == Point(0, h)
    ensures FramePoint(p, m, h).x <= FramePoint(q, m, h).x && FramePoint(q, m, h).y <= FramePoint(p, m, h).y
  {
  }

  /** `AM_clipMline`: the early reject, then the clipping on frame coordinates. */
  method ClipMline(a: Point, b: Point, m: Window, w: int, h: int)
    returns (visible: bool, fa: Point, fb: Point, ghost turns: nat)
    requires 0 < w && 0 < h
    ensures if Share(MapCode(a, m), MapCode(b, m)) then !visible
            else && ClipResult(visible, fa, fb, FramePoint(a, m, h), FramePoint(b, m, h), w, h)
                 && (visible, fa, fb) == Clip(FramePoint(a, m, h), FramePoint(b, m, h), w, h)
    ensures turns <= 4
  {
    var outcode1, outcode2 := Outcode(false, false, false, false), Outcode(false, false, false, false);
    fa, fb, turns := a, b, 0;
    if a.y > m.y2 {
      outcode1 := outcode1.(top := true);
    } else if a.y < m.y {
      outcode1 := outcode1.(bottom := true);
    }
    if b.y > m.y2 {
      outcode2 := outcode2.(top := true);
    } else if b.y < m.y {
      outcode2 := outcode2.(bottom := true);
    }
    if Share(outcode1, outcode2) {
      return false, fa, fb, 0;
    }
    if a.x < m.x {
      outcode1 := outcode1.(left := true);
    } else if a.x > m.x2 {
      outcode1 := outcode1.(right := true);
    }
    if b.x < m.x {
      outcode2 := outcode2.(left := true);
    } else if b.x > m.x2 {
      outcode2 := outcode2.(right := true);
    }
    if Share(outcode1, outcode2) {
      return false, fa, fb, 0;
    }
    visible, fa, fb, turns := ClipToFrame(FramePoint(a, m, h), FramePoint(b, m, h), w, h);
  }

  // ---------- straight lines ----------

  lemma {:induction false} MinorOfZero(k: nat, major: nat)
    ensures MinorAt(k, 0, major) == 0
  {
  }

  predicate OnStraight(a: Point, b: Point, p: Point) {
    if a.y == b.y then p.y == a.y && Between(p.x, a.x, b.x) else p.x == a.x && Between(p.y, a.y, b.y)
  }

  /** A horizontal or vertical line covers exactly the pixels between its ends. */
  lemma StraightDots(a: Point, b: Point, p: Point)
    requires a.x == b.x || a.y == b.y
    ensures Dotted(a, b, p, Steps(a, b) + 1) <==> OnStraight(a, b, p)
  {
    if Dotted(a, b, p, Steps(a, b) + 1) {
      var j: nat :| j < Steps(a, b) + 1 && LinePoint(a, b, j) == p;
      LineBoxed(a, b, j);
    }
    if OnStraight(a, b, p) {
      var j := if a.y == b.y then Abs(p.x - a.x) else Abs(p.y - a.y);
      MinorOfZero(j, Steps(a, b));
      assert LinePoint(a, b, j) == p;
    }
  }

  /** Clipping a horizontal or vertical line loses none of its pixels inside the frame and adds none. */
  lemma StraightClipExact(visible: bool, a: Point, b: Point, a0: Point, b0: Point, w: int, h: int, p: Point)
    requires 0 < w && 0 < h && ClipResult(visible, a, b, a0, b0, w, h) && InFrame(p, w, h)
    requires a0.x == b0.x || a0.y == b0.y
    ensures visible && Dotted(a, b, p, Steps(a, b) + 1) <==> Dotted(a0, b0, p, Steps(a0, b0) + 1)
  {
    StraightDots(a0, b0, p);
    if visible {
      StraightDots(a, b, p);
    }
  }

  // ---------- the frame buffer ----------

  /** The window of the automap on the map, and its frame buffer. */
  class Canvas {
    const w: int
    const h: int
    const fb: array<int>
    var complaints: nat

    ghost predicate Valid()
      reads this
    {
      0 < w && 0 < h && fb.Length == w * h
    }

    constructor (w: int, h: int)
      requires 0 < w && 0 < h
      ensures Valid() && fresh(fb) && this.w == w && this.h == h && complaints == 0
    {
      this.w, this.h := w, h;
      Blocks.ProductGap(0, w, h);
      fb := new int[w * h];
      complaints := 0;
    }

    method PutDot(p: Point, color: int)
      requires Valid() && InFrame(p, w, h)
      modifies fb
      ensures 0 <= PixelIndex(p, w) < fb.Length && fb[..] == old(fb[..])[PixelIndex(p, w) := color]
    {
      Grid.AtInside(p.y, p.x, w, h);
      fb[p.y * w + p.x] := color;
    }

    /** The branch `ax > ay` */
    method DrawFlat(a: Point, b: Point, color: int)
      requires Valid() && InFrame(a, w, h) && InFrame(b, w, h) && Flat(a, b)
      modifies fb
      ensures fb[..] == Dots(old(fb[..]), a, b, Steps(a, b) + 1, color, w, h)
    {
      var dx, dy := b.x - a.x, b.y - a.y;
      var ax, ay := 2 * Abs(dx), 2 * Abs(dy);
      var sx, sy := if dx < 0 then -1 else 1, if dy < 0 then -1 else 1;
      var x, y, d := a.x, a.y, ay - ax / 2;
      ghost var k: nat := 0;
      LineEnds(a, b);
      DecisionStart(Abs(dy), Abs(dx));
      while true
        invariant k <= Steps(a, b) && Point(x, y) == LinePoint(a, b, k)
        invariant d == Decision(k, Abs(dy), Abs(dx))
        invariant fb[..] == Dots(old(fb[..]), a, b, k, color, w, h)
        decreases Steps(a, b) - k
      {
        LineInFrame(a, b, k, w, h);
        PutDot(Point(x, y), color);
        if x == b.x {
          return;
        }
        MinorStep(k, Abs(dy), Abs(dx));
        if d >= 0 {
          y := y + sy;
          d := d - ax;
        }
        x := x + sx;
        d := d + ay;
        k := k + 1;
      }
    }

    /** The other branch */
    method DrawSteep(a: Point, b: Point, color: int)
      requires Valid() && InFrame(a, w, h) && InFrame(b, w, h) && !Flat(a, b)
      modifies fb
      ensures fb[..] == Dots(old(fb[..]), a, b, Steps(a, b) + 1, color, w, h)
    {
      var dx, dy := b.x - a.x, b.y - a.y;
      var ax, ay := 2 * Abs(dx), 2 * Abs(dy);
      var sx, sy := if dx < 0 then -1 else 1, if dy < 0 then -1 else 1;
      var x, y, d := a.x, a.y, ax - ay / 2;
      ghost var k: nat := 0;
      LineEnds(a, b);
      DecisionStart(Abs(dx), Abs(dy));
      while true
        invariant k <= Steps(a, b) && Point(x, y) == LinePoint(a, b, k)
        invariant d == Decision(k, Abs(dx), Abs(dy))
        invariant fb[..] == Dots(old(fb[..]), a, b, k, color, w, h)
        decreases Steps(a, b) - k
      {
        LineInFrame(a, b, k, w, h);
        PutDot(Point(x, y), color);
        if y == b.y {
          return;
        }
        MinorStep(k, Abs(dx), Abs(dy));
        if d >= 0 {
          x := x + sx;
          d := d - ay;
        }
        y := y + sy;
        d := d + ax;
        k := k + 1;
      }
    }

    /** `AM_drawFline`: a line with an end outside the frame is not drawn but complained about. */
    method DrawFline(a: Point, b: Point, color: int)
      requires Valid()
      modifies this`complaints, fb
      ensures InFrame(a, w, h) && InFrame(b, w, h) ==>
        fb[..] == Dots(old(fb[..]), a, b, Steps(a, b) + 1, color, w, h) && complaints == old(complaints)
      ensures !InFrame(a, w, h) || !InFrame(b, w, h) ==>
        fb[..] == old(fb[..]) && complaints == old(complaints) + 1
    {
      if a.x < 0 || a.x >= w || a.y < 0 || a.y >= h || b.x < 0 || b.x >= w || b.y < 0 || b.y >= h {
        complaints := complaints + 1;
        return;
      }
      if Flat(a, b) {
        DrawFlat(a, b, color);
      } else {
        DrawSteep(a, b, color);
      }
    }

    /** `AM_drawMline`: the part of a map line inside the frame is drawn, and nobody complains. */
    method DrawMline(a: Point, b: Point, m: Window, color: int)
      returns (ghost drawn: bool, ghost c: Point, ghost d: Point)
      requires Valid()
      modifies this`complaints, fb
      ensures complaints == old(complaints)
      ensures if Share(MapCode(a, m), MapCode(b, m)) then !drawn
              else && ClipResult(drawn, c, d, FramePoint(a, m, h), FramePoint(b, m, h), w, h)
                   && (drawn, c, d) == Clip(FramePoint(a, m, h), FramePoint(b, m, h), w, h)
      ensures drawn ==> InFrame(c, w, h) && InFrame(d, w, h)
      ensures drawn ==> fb[..] == Dots(old(fb[..]), c, d, Steps(c, d) + 1, color, w, h)
      ensures !drawn ==> fb[..] == old(fb[..])
    {
      var visible, fa, fb, turns := ClipMline(a, b, m, w, h);
      drawn, c, d := visible, fa, fb;
      if visible {
        DrawFline(fa, fb, color);
      }
    }
  }
}
