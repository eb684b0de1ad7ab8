/** Which visible pixels the automap's early reject on map coordinates loses. */
module AutomapReject {
  import opened Automap
  import opened AutomapClip
  import opened AutomapLine

  const FIXED_ONE: int := 0x1_0000_0000

  /** The map line from `a` to `b` is rejected on the map, although the whole line has the dot `p`. */
  ghost predicate Drops(a: Point, b: Point, p: Point, m: Window, h: int) {
    var fa, fb := FramePoint(a, m, h), FramePoint(b, m, h);
    Share(MapCode(a, m), MapCode(b, m)) && Dotted(fa, fb, p, Steps(fa, fb) + 1)
  }

  ghost predicate Dropped(p: Point, m: Window, h: int) {
    exists a: Point, b: Point :: Drops(a, b, p, m, h)
  }

  /** A map distance that shows as `n`. */
  function Unmap(n: int, scale: int): int
    requires 0 < scale
  {
    (n * FIXED_ONE + scale - 1) / scale
  }

  lemma MapToFrameUnique(x: int, scale: int, n: int)
    requires n * FIXED_ONE <= x * scale < n * FIXED_ONE + FIXED_ONE
    ensures MapToFrame(x, scale) == n
  {
  }

  lemma Unmapped(n: int, scale: int)
    requires 0 < scale <= FIXED_ONE
    ensures MapToFrame(Unmap(n, scale), scale) == n
  {
    var z := n * FIXED_ONE + scale - 1;
    var q := z / scale;
    assert z == q * scale + z % scale;
    MapToFrameUnique(q, scale, n);
  }

  /** Beyond `limit` every frame coordinate from that of `limit + 1` on is taken. */
  lemma TakenBeyond(limit: int, n: int, scale: int) returns (x: int)
    requires 0 < scale <= FIXED_ONE && MapToFrame(limit + 1, scale) <= n
    ensures limit < x && MapToFrame(x, scale) == n
  {
    if MapToFrame(limit + 1, scale) == n {
      x := limit + 1;
    } else {
      x := Unmap(n, scale);
      Unmapped(n, scale);
      if x <= limit {
        ScaledOrder(x, limit + 1, scale);
        assert false;
      }
    }
  }

  /** A map line of one point has the one dot. */
  lemma PointDot(p: Point)
    ensures Dotted(p, p, p, Steps(p, p) + 1)
  {
    LineEnds(p, p);
    assert LinePoint(p, p, 0) == p;
  }

  lemma DotBoxed(a: Point, b: Point, p: Point)
    requires Dotted(a, b, p, Steps(a, b) + 1)
    ensures Boxed(p, a, b)
  {
    var j: nat :| j < Steps(a, b) + 1 && LinePoint(a, b, j) == p;
    LineBoxed(a, b, j);
  }

  /** The columns and rows that lines beyond the window's right and upper edge reach. */
  predicate Reached(p: Point, m: Window, h: int) {
    || MapToFrame(m.x2 - m.x + 1, m.scale) <= p.x
    || p.y <= h - MapToFrame(m.y2 - m.y + 1, m.scale)
  }

  lemma DropsReached(a: Point, b: Point, p: Point, m: Window, w: int, h: int)
    requires 0 < m.scale && m.x <= m.x2 && m.y <= m.y2 && InFrame(p, w, h) && Drops(a, b, p, m, h)
    ensures Reached(p, m, h)
  {
    DotBoxed(FramePoint(a, m, h), FramePoint(b, m, h), p);
    if MapCode(a, m).left && MapCode(b, m).left {
      ScaledOrder(a.x - m.x, a.x - m.x, m.scale);
      ScaledOrder(b.x - m.x, b.x - m.x, m.scale);
      assert false;
    } else if MapCode(a, m).right && MapCode(b, m).right {
      ScaledOrder(m.x2 - m.x + 1, a.x - m.x, m.scale);
      ScaledOrder(m.x2 - m.x + 1, b.x - m.x, m.scale);
    } else if MapCode(a, m).bottom && MapCode(b, m).bottom {
      ScaledOrder(a.y - m.y, a.y - m.y, m.scale);
      ScaledOrder(b.y - m.y, b.y - m.y, m.scale);
      assert false;
    } else {
      ScaledOrder(m.y2 - m.y + 1, a.y - m.y, m.scale);
      ScaledOrder(m.y2 - m.y + 1, b.y - m.y, m.scale);
    }
  }

  lemma ReachedDrops(p: Point, m: Window, h: int) returns (a: Point)
    requires 0 < m.scale <= FIXED_ONE && Reached(p, m, h)
    requires m.x <= m.x2 && m.y <= m.y2
    ensures Drops(a, a, p, m, h)
  {
    var x, y;
    if MapToFrame(m.x2 - m.x + 1, m.scale) <= p.x {
      x := TakenBeyond(m.x2 - m.x, p.x, m.scale);
      y := Unmap(h - p.y, m.scale);
      Unmapped(h - p.y, m.scale);
    } else {
      x := Unmap(p.x, m.scale);
      Unmapped(p.x, m.scale);
      y := TakenBeyond(m.y2 - m.y, h - p.y, m.scale);
    }
    a := Point(m.x + x, m.y + y);
    assert FramePoint(a, m, h) == p;
    PointDot(p);
  }

  /** For every window: the pixels lost are those of the columns and rows that lie beyond its right and upper
      edge; its left and lower edge lose none. */
  lemma DroppedExactly(p: Point, m: Window, w: int, h: int)
    requires 0 < m.scale <= FIXED_ONE && m.x <= m.x2 && m.y <= m.y2 && InFrame(p, w, h)
    ensures Dropped(p, m, h) <==> Reached(p, m, h)
  {
    if Reached(p, m, h) {
      var a := ReachedDrops(p, m, h);
    }
    if Dropped(p, m, h) {
      var a: Point, b: Point :| Drops(a, b, p, m, h);
      DropsReached(a, b, p, m, w, h);
    }
  }

  // ---------- the window the program sets up ----------

  /** `FixedDiv(FRACUNIT, scale_mtof)` */
  function FrameToMapScale(scale: int): int
    requires 4 < scale
  {
    FIXED_ONE / scale
  }

  /** `AM_activateNewScale`: the far corner is `FTOM(f_w)` and `FTOM(f_h)` away. */
  function ScaledWindow(x: int, y: int, scale: int, w: int, h: int): Window
    requires 4 < scale
  {
    Window(x, y, x + w * FrameToMapScale(scale), y + h * FrameToMapScale(scale), scale)
  }

  /** What dividing by the scale cuts off, `n` frame units on. */
  function CutOff(n: int, scale: int): int
    requires 4 < scale
  {
    n * (FIXED_ONE % scale)
  }

  /** One map unit beyond the window's edge is `n` frame units on, or one less if the scale is smaller than
      what was cut off. */
  lemma EdgeShown(n: int, scale: int)
    requires 4 < scale && 0 < n && n * scale < FIXED_ONE
    ensures MapToFrame(n * FrameToMapScale(scale) + 1, scale) == if scale < CutOff(n, scale) then n - 1 else n
    ensures 0 <= n * FrameToMapScale(scale) && scale < FIXED_ONE
  {
    var t, r := FIXED_ONE / scale, FIXED_ONE % scale;
    assert FIXED_ONE == t * scale + r;
    EdgeProduct(n, scale, t, r);
    assert n * r <= n * scale;
    MapToFrameUnique(n * t + 1, scale, if scale < n * r then n - 1 else n);
  }

  lemma EdgeProduct(n: int, scale: int, t: int, r: int)
    requires FIXED_ONE == t * scale + r
    ensures (n * t + 1) * scale == n * FIXED_ONE - n * r + scale
  {
    assert n * FIXED_ONE == n * (t * scale) + n * r;
    assert n * (t * scale) == (n * t) * scale;
  }

  /** The window of `AM_activateNewScale` always loses row 0; row 1 if and only if the scale is smaller than what is
      cut off over the height, and the last column if and only if it is smaller than what is cut off over the
      width. It loses nothing else. */
  lemma ScaledWindowDrops(x: int, y: int, scale: int, w: int, h: int, p: Point)
    requires 4 < scale && 0 < w && 0 < h && w * scale < FIXED_ONE && h * scale < FIXED_ONE && InFrame(p, w, h)
    ensures Dropped(p, ScaledWindow(x, y, scale, w, h), h) <==>
      || p.y == 0 || (p.y == 1 && scale < CutOff(h, scale)) || (p.x == w - 1 && scale < CutOff(w, scale))
  {
    EdgeShown(w, scale);
    EdgeShown(h, scale);
    hide CutOff, FrameToMapScale, MapToFrame;
    DroppedExactly(p, ScaledWindow(x, y, scale, w, h), w, h);
  }

  /** At a scale the program can compute, a vertical line through the last column is rejected as beyond the
      right edge, and a horizontal one through row 1 as beyond the upper edge. */
  lemma LinesDropped()
    ensures var m := ScaledWindow(0, 0, 5584, 320, 168);
      && Drops(Point(246129921, 40000000), Point(246129921, 100000000), Point(319, 100), m, 168)
      && Drops(Point(100000000, 129218209), Point(110000000, 129218209), Point(135, 1), m, 168)
  {
    var m := ScaledWindow(0, 0, 5584, 320, 168);
    assert FrameToMapScale(5584) == 769156;
    var a, b := FramePoint(Point(246129921, 40000000), m, 168), FramePoint(Point(246129921, 100000000), m, 168);
    assert a == Point(319, 116) && b == Point(319, 38);
    StraightDots(a, b, Point(319, 100));
    var c, d := FramePoint(Point(100000000, 129218209), m, 168), FramePoint(Point(110000000, 129218209), m, 168);
    assert c == Point(130, 1) && d == Point(143, 1);
    StraightDots(c, d, Point(135, 1));
  }
}
