/** How much of a line the automap's clipping can lose: the true segment, in real numbers, against the
    integer end points the loop is left with. */
module AutomapCover {
  import opened Automap

  /** The coordinate a fraction `t` of the way from `u` to `v`. */
  function Lerp(u: int, v: int, t: real): real {
    u as real + t * (v - u) as real
  }

  predicate Within(x: real, y: real, m: int) {
    -(m as real) <= x - y <= m as real
  }

  /** `p` is within `m` pixels, in each direction, of the point `t` of the way from `a` to `b`. */
  predicate NearAt(p: Point, a: Point, b: Point, t: real, m: int) {
    Within(Lerp(a.x, b.x, t), p.x as real, m) && Within(Lerp(a.y, b.y, t), p.y as real, m)
  }

  /** The point `t` of the way from `a` to `b` is at least `m` pixels inside the frame. */
  predicate InnerAt(a: Point, b: Point, t: real, w: int, h: int, m: int) {
    && m as real <= Lerp(a.x, b.x, t) <= (w - 1 - m) as real
    && m as real <= Lerp(a.y, b.y, t) <= (h - 1 - m) as real
  }

  /** The part of the segment that is `m` pixels inside the frame lies between two points within `m` pixels of
      `a` and of `b`. */
  ghost predicate Spans(a: Point, b: Point, a0: Point, b0: Point, w: int, h: int, m: int, ta: real, tb: real) {
    && 0.0 <= ta <= tb <= 1.0 && NearAt(a, a0, b0, ta, m) && NearAt(b, a0, b0, tb, m)
    && forall t {:trigger InnerAt(a0, b0, t, w, h, m)} ::
         0.0 <= t <= 1.0 && InnerAt(a0, b0, t, w, h, m) ==> ta <= t <= tb
  }

  ghost predicate Covered(a: Point, b: Point, a0: Point, b0: Point, w: int, h: int, m: int) {
    exists ta: real, tb: real :: Spans(a, b, a0, b0, w, h, m, ta, tb)
  }

  lemma CoveredAtFirst(a: Point, b: Point, w: int, h: int)
    ensures Covered(a, b, a, b, w, h, 0)
  {
    assert Spans(a, b, a, b, w, h, 0, 0.0, 1.0);
  }

  lemma CoveredWider(a: Point, b: Point, a0: Point, b0: Point, w: int, h: int, m: int, n: int)
    requires Covered(a, b, a0, b0, w, h, m) && m <= n
    ensures Covered(a, b, a0, b0, w, h, n)
  {
    var ta, tb :| Spans(a, b, a0, b0, w, h, m, ta, tb);
    forall t | 0.0 <= t <= 1.0 && InnerAt(a0, b0, t, w, h, n) ensures ta <= t <= tb {
      assert InnerAt(a0, b0, t, w, h, m);
    }
    assert Spans(a, b, a0, b0, w, h, n, ta, tb);
  }

  // ---------- fractions of fractions ----------

  lemma Nested(u: real, v: real, ta: real, tb: real, r: real)
    ensures u + (ta + r * (tb - ta)) * v == (u + ta * v) + r * ((u + tb * v) - (u + ta * v))
  {
    assert (r * (tb - ta)) * v == r * (tb * v - ta * v);
  }

  lemma RealProduct(x: real, y: real)
    requires 0.0 <= x && 0.0 <= y
    ensures 0.0 <= x * y
  {
  }

  /** A mean of two numbers is no bigger than both. */
  lemma MeanAtMost(x: real, y: real, r: real, m: real)
    requires x <= m && y <= m && 0.0 <= r <= 1.0
    ensures x + r * (y - x) <= m
  {
    RealProduct(1.0 - r, m - x);
    RealProduct(r, m - y);
    assert (1.0 - r) * (m - x) + r * (m - y) == m - (x + r * (y - x));
  }

  lemma MeanWithin(a0: real, b0: real, a: real, b: real, r: real, m: int)
    requires Within(a0, a, m) && Within(b0, b, m) && 0.0 <= r <= 1.0
    ensures Within(a0 + r * (b0 - a0), a + r * (b - a), m)
  {
    MeanAtMost(a0 - a, b0 - b, r, m as real);
    MeanAtMost(a - a0, b - b0, r, m as real);
    assert r * ((b0 - b) - (a0 - a)) == r * (b0 - a0) - r * (b - a);
    assert r * ((b - b0) - (a - a0)) == r * (b - a) - r * (b0 - a0);
  }

  /** A fraction of the stretch from `ta` to `tb` is near the same fraction of the way from `u` to `v`. */
  lemma LerpNear(u0: int, v0: int, u: int, v: int, ta: real, tb: real, r: real, m: int)
    requires Within(Lerp(u0, v0, ta), u as real, m) && Within(Lerp(u0, v0, tb), v as real, m) && 0.0 <= r <= 1.0
    ensures Within(Lerp(u0, v0, ta + r * (tb - ta)), Lerp(u, v, r), m)
  {
    Nested(u0 as real, (v0 - u0) as real, ta, tb, r);
    MeanWithin(Lerp(u0, v0, ta), Lerp(u0, v0, tb), u as real, v as real, r, m);
  }

  lemma PointNear(a: Point, b: Point, a0: Point, b0: Point, ta: real, tb: real, r: real, m: int)
    requires NearAt(a, a0, b0, ta, m) && NearAt(b, a0, b0, tb, m) && 0.0 <= r <= 1.0
    ensures Within(Lerp(a0.x, b0.x, ta + r * (tb - ta)), Lerp(a.x, b.x, r), m)
    ensures Within(Lerp(a0.y, b0.y, ta + r * (tb - ta)), Lerp(a.y, b.y, r), m)
  {
    LerpNear(a0.x, b0.x, a.x, b.x, ta, tb, r, m);
    LerpNear(a0.y, b0.y, a.y, b.y, ta, tb, r, m);
  }

  lemma LerpOrder(u: int, v: int, s: real, t: real)
    requires s <= t
    ensures if u <= v then Lerp(u, v, s) <= Lerp(u, v, t) else Lerp(u, v, t) <= Lerp(u, v, s)
  {
    var d := (v - u) as real;
    if u <= v {
      assert (t - s) * d >= 0.0;
    } else {
      assert (t - s) * d <= 0.0;
    }
    assert (t - s) * d == t * d - s * d;
  }

  // ---------- one cut ----------

  /** The exact place of a cut, of which the stored point misses at most a pixel each way. */
  function Fraction(n: int, d: int): real
    requires d != 0
  {
    n as real / d as real
  }

  lemma FractionUnit(n: int, d: int)
    requires d != 0 && (0 <= n <= d || d <= n <= 0)
    ensures 0.0 <= Fraction(n, d) <= 1.0 && Fraction(n, d) * d as real == n as real
  {
  }

  lemma RealGap(u: real, v: real, c: real, s: real, n: real, d: real, e: real)
    requires s * d == n && (c - u) * d == v * n + e
    ensures (u + s * v - c) * d == -e
  {
    assert (s * v) * d == v * (s * d);
    assert (u + s * v - c) * d == (s * v) * d - (c - u) * d;
  }

  lemma RealCancel(g: real, d: real, e: real)
    requires 0.0 < d && g * d == e && -d <= e <= d
    ensures -1.0 <= g <= 1.0
  {
    assert (g - 1.0) * d <= 0.0 <= (g + 1.0) * d;
  }

  lemma MissReal(c: int, u: int, v: int, n: int, d: int, e: int)
    requires d != 0 && (c - u) * d == (v - u) * n + e && Abs(e) <= Abs(d)
    requires Fraction(n, d) * d as real == n as real
    ensures Within(Lerp(u, v, Fraction(n, d)), c as real, 1)
  {
    var s, dr, er := Fraction(n, d), d as real, e as real;
    assert ((c - u) * d) as real == (c - u) as real * dr;
    assert ((v - u) * n) as real == (v - u) as real * n as real;
    RealGap(u as real, (v - u) as real, c as real, s, n as real, dr, er);
    var gap := Lerp(u, v, s) - c as real;
    assert gap * dr == -er;
    if d > 0 {
      RealCancel(gap, dr, -er);
    } else {
      assert gap * -dr == er;
      RealCancel(gap, -dr, er);
    }
  }

  lemma CutWithin(a: Point, b: Point, n: int, d: int, up: bool, miss: int)
    requires d != 0 && (0 <= n <= d || d <= n <= 0)
    requires 0 <= miss <= 1 && d == if up then a.y - b.y else b.x - a.x
    ensures NearAt(CutPoint(a, b, n, d, up, miss), a, b, Fraction(n, d), 1)
  {
    var ex, ey := CutMisses(a, b, n, d, up, miss);
    var c := CutPoint(a, b, n, d, up, miss);
    FractionUnit(n, d);
    MissReal(c.x, a.x, b.x, n, d, ex);
    MissReal(c.y, a.y, b.y, n, d, ey);
  }

  // ---------- one turn ----------

  /** A real point on or beyond the border of the frame. */
  predicate OnEdge(x: real, y: real, w: int, h: int) {
    x <= 0.0 || x >= (w - 1) as real || y <= 0.0 || y >= (h - 1) as real
  }

  lemma LerpThere(u: int, v: int, s: real, n: int, d: int)
    requires d == v - u && s * d as real == n as real
    ensures Lerp(u, v, s) == (u + n) as real
  {
  }

  lemma LerpBack(u: int, v: int, s: real, n: int, d: int)
    requires d == u - v && s * d as real == n as real
    ensures Lerp(u, v, s) == (u - n) as real
  {
    assert s * (v - u) as real == -(s * d as real);
  }

  /** What one turn cuts off lies on or beyond the border. */
  lemma CutOffOutside(a: Point, b: Point, first: bool, w: int, h: int, n: int, d: int, up: bool, miss: int, r: real)
    requires 0 < w && 0 < h && !Share(FrameCode(a, w, h), FrameCode(b, w, h))
    requires Outside(FrameCode(if first then a else b, w, h))
    requires CutOf(FrameCode(if first then a else b, w, h), a, b, w, h, n, d, up, miss)
    requires if first then 0.0 <= r <= Fraction(n, d) else Fraction(n, d) <= r <= 1.0
    ensures OnEdge(Lerp(a.x, b.x, r), Lerp(a.y, b.y, r), w, h)
  {
    hide Lerp, Fraction;
    var s := Fraction(n, d);
    FractionUnit(n, d);
    if up {
      LerpBack(a.y, b.y, s, n, d);
      if first { LerpOrder(a.y, b.y, r, s); } else { LerpOrder(a.y, b.y, s, r); }
    } else {
      LerpThere(a.x, b.x, s, n, d);
      if first { LerpOrder(a.x, b.x, r, s); } else { LerpOrder(a.x, b.x, s, r); }
    }
  }

  /** A fraction whose inner points are all beyond `r` of the way. */
  lemma InnerBeyond(a: Point, b: Point, a0: Point, b0: Point, ta: real, tb: real, t: real, w: int, h: int, m: int) returns (r: real)
    requires NearAt(a, a0, b0, ta, m) && NearAt(b, a0, b0, tb, m) && ta <= t <= tb && ta < tb
    ensures 0.0 <= r <= 1.0 && t == ta + r * (tb - ta)
    ensures OnEdge(Lerp(a.x, b.x, r), Lerp(a.y, b.y, r), w, h) ==> !InnerAt(a0, b0, t, w, h, m + 1)
  {
    r := (t - ta) / (tb - ta);
    PointNear(a, b, a0, b0, ta, tb, r, m);
  }

  /** Where the cut point belongs on the original segment. */
  function CutTime(ta: real, tb: real, n: int, d: int): real
    requires d != 0
  {
    ta + Fraction(n, d) * (tb - ta)
  }

  lemma CutTimeBetween(ta: real, tb: real, n: int, d: int)
    requires d != 0 && (0 <= n <= d || d <= n <= 0) && ta <= tb
    ensures ta <= CutTime(ta, tb, n, d) <= tb
  {
    FractionUnit(n, d);
    RealProduct(Fraction(n, d), tb - ta);
    RealProduct(1.0 - Fraction(n, d), tb - ta);
    assert (1.0 - Fraction(n, d)) * (tb - ta) == (tb - ta) - Fraction(n, d) * (tb - ta);
  }

  lemma TimeOrder(ta: real, tb: real, r: real, s: real)
    requires ta < tb
    ensures ta + r * (tb - ta) < ta + s * (tb - ta) ==> r < s
  {
    if s <= r {
      RealProduct(r - s, tb - ta);
      assert (r - s) * (tb - ta) == r * (tb - ta) - s * (tb - ta);
    }
  }

  /** The cut point is near its place. */
  lemma CutPlaced(a: Point, b: Point, a0: Point, b0: Point, m: int, ta: real, tb: real,
                  n: int, d: int, up: bool, miss: int)
    requires NearAt(a, a0, b0, ta, m) && NearAt(b, a0, b0, tb, m)
    requires d != 0 && (0 <= n <= d || d <= n <= 0)
    requires 0 <= miss <= 1 && d == if up then a.y - b.y else b.x - a.x
    ensures NearAt(CutPoint(a, b, n, d, up, miss), a0, b0, CutTime(ta, tb, n, d), m + 1)
  {
    hide Automap.CutPoint, Lerp, Fraction;
    var s, c := Fraction(n, d), CutPoint(a, b, n, d, up, miss);
    FractionUnit(n, d);
    PointNear(a, b, a0, b0, ta, tb, s, m);
    CutWithin(a, b, n, d, up, miss);
    assert CutTime(ta, tb, n, d) == ta + s * (tb - ta);
    WithinTwice(Lerp(a0.x, b0.x, ta + s * (tb - ta)), Lerp(a.x, b.x, s), c.x as real, m, 1);
    WithinTwice(Lerp(a0.y, b0.y, ta + s * (tb - ta)), Lerp(a.y, b.y, s), c.y as real, m, 1);
  }

  lemma WithinTwice(x: real, y: real, z: real, m: int, k: int)
    requires Within(x, y, m) && Within(y, z, k)
    ensures Within(x, z, m + k)
  {
  }

  /** No inner point of the segment is cut off. */
  lemma InnerKept(a: Point, b: Point, a0: Point, b0: Point, first: bool, w: int, h: int, m: int, ta: real, tb: real,
                  n: int, d: int, up: bool, miss: int, t: real)
    requires 0 < w && 0 < h && !Share(FrameCode(a, w, h), FrameCode(b, w, h))
    requires Outside(FrameCode(if first then a else b, w, h))
    requires CutOf(FrameCode(if first then a else b, w, h), a, b, w, h, n, d, up, miss)
    requires Spans(a, b, a0, b0, w, h, m, ta, tb)
    requires 0.0 <= t <= 1.0 && InnerAt(a0, b0, t, w, h, m + 1)
    ensures if first then CutTime(ta, tb, n, d) <= t <= tb else ta <= t <= CutTime(ta, tb, n, d)
  {
    assert InnerAt(a0, b0, t, w, h, m);
    var c := CutTime(ta, tb, n, d);
    CutTimeBetween(ta, tb, n, d);
    if if first then t < c else c < t {
      var r := InnerBeyond(a, b, a0, b0, ta, tb, t, w, h, m);
      TimeOrder(ta, tb, r, Fraction(n, d));
      TimeOrder(ta, tb, Fraction(n, d), r);
      CutOffOutside(a, b, first, w, h, n, d, up, miss, r);
      assert false;
    }
  }

  /** A turn keeps the cover, one pixel wider. */
  lemma CrossingCovers(a: Point, b: Point, a0: Point, b0: Point, first: bool, w: int, h: int, m: int)
    requires 0 < w && 0 < h && !Share(FrameCode(a, w, h), FrameCode(b, w, h))
    requires Outside(FrameCode(if first then a else b, w, h))
    requires Covered(a, b, a0, b0, w, h, m) && 0 <= m
    ensures var o := FrameCode(if first then a else b, w, h);
      && ((o.top || o.bottom) ==> a.y != b.y) && (!(o.top || o.bottom) ==> a.x != b.x)
      && var c := Crossing(a, b, o, w, h);
         Covered(if first then c else a, if first then b else c, a0, b0, w, h, m + 1)
  {
    var n, d, up, miss := CrossingIsCut(a, b, first, w, h);
    var ta, tb :| Spans(a, b, a0, b0, w, h, m, ta, tb);
    var c, tc := CutPoint(a, b, n, d, up, miss), CutTime(ta, tb, n, d);
    CutTimeBetween(ta, tb, n, d);
    CutPlaced(a, b, a0, b0, m, ta, tb, n, d, up, miss);
    var k := m + 1;
    forall t | 0.0 <= t <= 1.0 && InnerAt(a0, b0, t, w, h, k)
      ensures if first then tc <= t <= tb else ta <= t <= tc
    {
      InnerKept(a, b, a0, b0, first, w, h, m, ta, tb, n, d, up, miss, t);
    }
    if first {
      assert Spans(c, b, a0, b0, w, h, k, tc, tb);
    } else {
      assert Spans(a, c, a0, b0, w, h, k, ta, tc);
    }
  }

  // ---------- what a rejected line can have shown ----------

  lemma LerpAtMost(u: int, v: int, ta: real, tb: real, t: real, k: real)
    requires ta <= t <= tb
    ensures Lerp(u, v, ta) <= k && Lerp(u, v, tb) <= k ==> Lerp(u, v, t) <= k
    ensures Lerp(u, v, ta) >= k && Lerp(u, v, tb) >= k ==> Lerp(u, v, t) >= k
  {
    LerpOrder(u, v, ta, t);
    LerpOrder(u, v, t, tb);
  }

  /** If the ends share a side, no point of the segment is `m` pixels inside the frame. */
  lemma SharedShowsNone(a: Point, b: Point, a0: Point, b0: Point, w: int, h: int, m: int, t: real)
    requires Covered(a, b, a0, b0, w, h, m) && Share(FrameCode(a, w, h), FrameCode(b, w, h)) && 0.0 <= t <= 1.0
    ensures !InnerAt(a0, b0, t, w, h, m)
  {
    if InnerAt(a0, b0, t, w, h, m) {
      var ta, tb :| Spans(a, b, a0, b0, w, h, m, ta, tb);
      LerpAtMost(a0.x, b0.x, ta, tb, t, (m - 1) as real);
      LerpAtMost(a0.y, b0.y, ta, tb, t, (m - 1) as real);
      LerpAtMost(a0.x, b0.x, ta, tb, t, (w - m) as real);
      LerpAtMost(a0.y, b0.y, ta, tb, t, (h - m) as real);
      assert false;
    }
  }
}
