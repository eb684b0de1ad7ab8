/** One step of the automap's line clipping: where a segment is cut, and how exact that is. */
module Automap {
  import opened CArith

  datatype Point = Point(x: int, y: int)

  /** The four bits LEFT, RIGHT, BOTTOM and TOP of an outcode. */
  datatype Outcode = Outcode(left: bool, right: bool, bottom: bool, top: bool)

  predicate Outside(o: Outcode) {
    o.left || o.right || o.bottom || o.top
  }

  /** `outcode1 & outcode2` */
  predicate Share(o: Outcode, p: Outcode) {
    (o.left && p.left) || (o.right && p.right) || (o.bottom && p.bottom) || (o.top && p.top)
  }

  function Bits(o: Outcode): nat {
    (if o.left then 1 else 0) + (if o.right then 1 else 0) + (if o.bottom then 1 else 0) + (if o.top then 1 else 0)
  }

  /** `DOOUTCODE` for a frame of `w` by `h` pixels. */
  function FrameCode(p: Point, w: int, h: int): Outcode {
    Outcode(p.x < 0, p.x >= 0 && p.x >= w, p.y >= 0 && p.y >= h, p.y < 0)
  }

  predicate InFrame(p: Point, w: int, h: int) {
    0 <= p.x < w && 0 <= p.y < h
  }

  // ---------- one clipping step ----------

  /** Where the segment is cut, for the first side the outside end is beyond. */
  function Crossing(a: Point, b: Point, o: Outcode, w: int, h: int): Point
    requires Outside(o)
    requires (o.top || o.bottom) ==> a.y != b.y
    requires !(o.top || o.bottom) ==> a.x != b.x
  {
    if o.top then Point(a.x + CDiv((b.x - a.x) * a.y, a.y - b.y), 0)
    else if o.bottom then Point(a.x + CDiv((b.x - a.x) * (a.y - h), a.y - b.y), h - 1)
    else if o.right then Point(w - 1, a.y + CDiv((b.y - a.y) * (w - 1 - a.x), b.x - a.x))
    else Point(0, a.y + CDiv((b.y - a.y) * -a.x, b.x - a.x))
  }

  predicate Between(x: int, a: int, b: int) {
    a <= x <= b || b <= x <= a
  }

  /** A proper fraction of a distance, cut off towards zero, stays between the ends. */
  lemma FractionBetween(a: int, delta: int, n: int, d: int)
    requires d != 0 && (0 <= n <= d || d <= n <= 0)
    ensures Between(a + CDiv(delta * n, d), a, a + delta)
    ensures delta == 0 ==> CDiv(delta * n, d) == 0
  {
    var p, q := if d > 0 then n else -n, if d > 0 then d else -d;
    if delta >= 0 {
      QuotientBetween(delta, p, q);
      assert delta * n == if d > 0 then delta * p else -(delta * p);
    } else {
      QuotientBetween(-delta, p, q);
      assert delta * n == if d > 0 then -(-delta * p) else -delta * p;
    }
  }

  lemma QuotientBetween(delta: nat, p: nat, q: nat)
    requires 0 < q && p <= q
    ensures 0 <= delta * p && 0 <= delta * p / q <= delta
  {
  }

  /** The side the step cuts at really separates the two ends, so no division is by zero. */
  lemma CrossingDefined(a: Point, b: Point, w: int, h: int)
    requires 0 < w && 0 < h && !Share(FrameCode(a, w, h), FrameCode(b, w, h))
    ensures var o := FrameCode(a, w, h);
      Outside(o) ==> ((o.top || o.bottom) ==> a.y != b.y) && (!(o.top || o.bottom) ==> a.x != b.x)
    ensures var o := FrameCode(b, w, h);
      Outside(o) ==> ((o.top || o.bottom) ==> a.y != b.y) && (!(o.top || o.bottom) ==> a.x != b.x)
  {
  }

  /** The cut point lies in the box of the segment, and the bit it was cut for is gone. */
  lemma CrossingSpec(a: Point, b: Point, first: bool, w: int, h: int)
    requires 0 < w && 0 < h && !Share(FrameCode(a, w, h), FrameCode(b, w, h))
    requires Outside(FrameCode(if first then a else b, w, h))
    ensures var o := FrameCode(if first then a else b, w, h);
      && ((o.top || o.bottom) ==> a.y != b.y) && (!(o.top || o.bottom) ==> a.x != b.x)
      && var t := Crossing(a, b, o, w, h); var c := FrameCode(t, w, h);
         && Between(t.x, a.x, b.x) && Between(t.y, a.y, b.y)
         && (o.top || o.bottom ==> !c.top && !c.bottom)
         && (!(o.top || o.bottom) ==> !c.left && !c.right)
  {
    var o := FrameCode(if first then a else b, w, h);
    if o.top {
      FractionBetween(a.x, b.x - a.x, a.y, a.y - b.y);
    } else if o.bottom {
      FractionBetween(a.x, b.x - a.x, a.y - h, a.y - b.y);
    } else if o.right {
      FractionBetween(a.y, b.y - a.y, w - 1 - a.x, b.x - a.x);
    } else {
      FractionBetween(a.y, b.y - a.y, -a.x, b.x - a.x);
    }
  }

  /** A cut coordinate lies between the start of the division and the exact crossing, less than one pixel short of it. */
  ghost predicate CutShort(c: int, start: int, distance: int, n: int, d: int)
    requires d != 0
  {
    TowardsZero(c - start, (distance * n) as real / d as real)
  }

  /** The side a segment is cut at is the first of top, bottom, right and left that the outside end is beyond, whichever
      end that is; the other coordinate is divided from the first end. */
  lemma CrossingTowards(a: Point, b: Point, first: bool, w: int, h: int)
    requires 0 < w && 0 < h && !Share(FrameCode(a, w, h), FrameCode(b, w, h))
    requires Outside(FrameCode(if first then a else b, w, h))
    ensures var o := FrameCode(if first then a else b, w, h); var e := if first then a else b;
      && ((o.top || o.bottom) ==> a.y != b.y) && (!(o.top || o.bottom) ==> a.x != b.x)
      && var t := Crossing(a, b, o, w, h);
         if e.y < 0 then t.y == 0 && CutShort(t.x, a.x, b.x - a.x, a.y, a.y - b.y)
         else if h <= e.y then t.y == h - 1 && CutShort(t.x, a.x, b.x - a.x, a.y - h, a.y - b.y)
         else if w <= e.x then t.x == w - 1 && CutShort(t.y, a.y, b.y - a.y, w - 1 - a.x, b.x - a.x)
         else e.x < 0 && t.x == 0 && CutShort(t.y, a.y, b.y - a.y, -a.x, b.x - a.x)
  {
    hide CDiv;
    CrossingDefined(a, b, w, h);
    var o := FrameCode(if first then a else b, w, h);
    if o.top {
      CDivTowardsZero((b.x - a.x) * a.y, a.y - b.y);
    } else if o.bottom {
      CDivTowardsZero((b.x - a.x) * (a.y - h), a.y - b.y);
    } else if o.right {
      CDivTowardsZero((b.y - a.y) * (w - 1 - a.x), b.x - a.x);
    } else {
      CDivTowardsZero((b.y - a.y) * -a.x, b.x - a.x);
    }
  }

  /** Unless the segment is rejected, one step clears at least one bit and sets none. */
  lemma StepClearsBits(a: Point, b: Point, first: bool, w: int, h: int)
    requires 0 < w && 0 < h && !Share(FrameCode(a, w, h), FrameCode(b, w, h))
    requires Outside(FrameCode(if first then a else b, w, h))
    requires var o := FrameCode(if first then a else b, w, h);
      ((o.top || o.bottom) ==> a.y != b.y) && (!(o.top || o.bottom) ==> a.x != b.x)
    ensures var o := FrameCode(if first then a else b, w, h);
      var c := FrameCode(Crossing(a, b, o, w, h), w, h);
      !Share(c, FrameCode(if first then b else a, w, h)) ==> Bits(c) < Bits(o)
  {
    CrossingSpec(a, b, first, w, h);
  }

  function Abs(x: int): nat {
    if x < 0 then -x else x
  }

  /** Twice the area between `p` and the line through `a` and `b`: zero on the line. */
  function Cross(a: Point, b: Point, p: Point): int {
    (p.x - a.x) * (b.y - a.y) - (p.y - a.y) * (b.x - a.x)
  }

  lemma CDivRemainder(n: int, d: int)
    requires d != 0
    ensures Abs(n - CDiv(n, d) * d) < Abs(d)
  {
  }

  lemma Mixed(l: int, u: int, v: int, x: int, y: int, d: int, n: int, e: int)
    requires u * d - v * d == x * n - y * n + e
    ensures (l + u - v) * d == l * (d - n) + (l + x - y) * n + e
  {
  }

  /** `Cross` of the point `n / d` of the way from `p` to `q`, missed by `(ex, ey) / d`. */
  lemma CrossAlong(a: Point, b: Point, p: Point, q: Point, c: Point, n: int, d: int, ex: int, ey: int)
    requires (c.x - p.x) * d == (q.x - p.x) * n + ex && (c.y - p.y) * d == (q.y - p.y) * n + ey
    ensures Cross(a, b, c) * d
         == Cross(a, b, p) * (d - n) + Cross(a, b, q) * n + (ex * (b.y - a.y) - ey * (b.x - a.x))
  {
  }

  lemma ProductBound(x: int, k: int, m: nat)
    requires Abs(x) <= m && 0 <= k
    ensures -(m * k) <= x * k <= m * k
  {
  }

  lemma AbsProduct(x: int, k: int, m: nat)
    requires Abs(x) <= m
    ensures Abs(x * k) <= m * Abs(k)
  {
  }

  lemma Cancel(x: int, y: int, d: int)
    requires 0 < d && x * d <= y * d
    ensures x <= y
  {
  }

  /** A weighted mean is no bigger than both terms. */
  lemma MeanBound(lc: int, lp: int, lq: int, n: int, d: int, e: int, m: nat, span: nat)
    requires 0 <= n <= d && 0 < d
    requires lc * d == lp * (d - n) + lq * n + e && Abs(lp) <= m && Abs(lq) <= m && Abs(e) <= span * d
    ensures Abs(lc) <= m + span
  {
    ProductBound(lp, d - n, m);
    ProductBound(lq, n, m);
    Mixed(m, 0, 0, 0, 0, d, n, 0);
    assert (m + span) * d == m * d + span * d;
    assert -(m + span) * d == -((m + span) * d);
    Cancel(lc, m + span, d);
    Cancel(-(m + span), lc, d);
  }

  lemma NegativeProduct(x: int, y: int)
    ensures x * -y == -(x * y)
  {
  }

  /** The same for a fraction written with a negative denominator. */
  lemma MeanNear(lc: int, lp: int, lq: int, n: int, d: int, e: int, m: nat, span: nat)
    requires d != 0 && (0 <= n <= d || d <= n <= 0)
    requires lc * d == lp * (d - n) + lq * n + e && Abs(lp) <= m && Abs(lq) <= m && Abs(e) <= span * Abs(d)
    ensures Abs(lc) <= m + span
  {
    if d > 0 {
      MeanBound(lc, lp, lq, n, d, e, m, span);
    } else {
      NegativeProduct(lc, d);
      NegativeProduct(lp, d - n);
      NegativeProduct(lq, n);
      MeanBound(lc, lp, lq, -n, -d, -e, m, span);
    }
  }

  /** The width plus the height of a segment's box: `Cross` changes by at most this in one pixel. */
  function Span(a: Point, b: Point): nat {
    Abs(b.x - a.x) + Abs(b.y - a.y)
  }

  lemma ErrorBound(ex: int, ey: int, d: int, dx: int, dy: int)
    requires Abs(ex) <= Abs(d) && Abs(ey) <= Abs(d)
    ensures Abs(ex * dy - ey * dx) <= (Abs(dx) + Abs(dy)) * Abs(d)
  {
    AbsProduct(ex, dy, Abs(d));
    AbsProduct(ey, dx, Abs(d));
    assert (Abs(dx) + Abs(dy)) * Abs(d) == Abs(d) * Abs(dx) + Abs(d) * Abs(dy);
  }

  /** A cut point is no further from a line than both ends were, up to one pixel each way. */
  lemma NearEnough(a0: Point, b0: Point, p: Point, q: Point, c: Point, n: int, d: int, ex: int, ey: int, m: nat)
    requires d != 0 && (0 <= n <= d || d <= n <= 0) && Abs(ex) <= Abs(d) && Abs(ey) <= Abs(d)
    requires (c.x - p.x) * d == (q.x - p.x) * n + ex && (c.y - p.y) * d == (q.y - p.y) * n + ey
    requires Abs(Cross(a0, b0, p)) <= m && Abs(Cross(a0, b0, q)) <= m
    ensures Abs(Cross(a0, b0, c)) <= m + Span(a0, b0)
  {
    CrossAlong(a0, b0, p, q, c, n, d, ex, ey);
    ErrorBound(ex, ey, d, b0.x - a0.x, b0.y - a0.y);
    MeanNear(Cross(a0, b0, c), Cross(a0, b0, p), Cross(a0, b0, q), n, d,
             ex * (b0.y - a0.y) - ey * (b0.x - a0.x), m, Span(a0, b0));
  }

  /** The point `n / d` of the way from `a` to `b`, one coordinate cut off and the other off by `miss`. */
  function CutPoint(a: Point, b: Point, n: int, d: int, up: bool, miss: int): Point
    requires d != 0
  {
    if up then Point(a.x + CDiv((b.x - a.x) * n, d), a.y - n - miss)
    else Point(a.x + n, a.y + CDiv((b.y - a.y) * n, d))
  }

  /** By how much the divided coordinate of a cut point misses the exact one, times `d`. */
  lemma DividedMiss(u: int, v: int, n: int, d: int, c: int) returns (e: int)
    requires d != 0 && c == u + CDiv((v - u) * n, d)
    ensures Abs(e) <= Abs(d) && (c - u) * d == (v - u) * n + e
  {
    var p := (v - u) * n;
    CDivRemainder(p, d);
    e := CDiv(p, d) * d - p;
  }

  lemma UpMiss(u: int, v: int, n: int, d: int, miss: int, c: int)
    requires d == u - v && 0 <= miss <= 1 && c == u - n - miss
    ensures (c - u) * d == (v - u) * n + -miss * d && Abs(-miss * d) <= Abs(d)
  {
    assert (-n - miss) * d == -d * n + -miss * d;
  }

  /** By how much a cut point misses the exact point on the segment, times `d`. */
  lemma CutMisses(a: Point, b: Point, n: int, d: int, up: bool, miss: int) returns (ex: int, ey: int)
    requires d != 0 && 0 <= miss <= 1 && d == if up then a.y - b.y else b.x - a.x
    ensures Abs(ex) <= Abs(d) && Abs(ey) <= Abs(d)
    ensures var c := CutPoint(a, b, n, d, up, miss);
      (c.x - a.x) * d == (b.x - a.x) * n + ex && (c.y - a.y) * d == (b.y - a.y) * n + ey
  {
    hide CDiv;
    var c := CutPoint(a, b, n, d, up, miss);
    if up {
      ex := DividedMiss(a.x, b.x, n, d, c.x);
      UpMiss(a.y, b.y, n, d, miss, c.y);
      ey := -miss * d;
    } else {
      ex := 0;
      ey := DividedMiss(a.y, b.y, n, d, c.y);
    }
  }

  lemma CutNear(a0: Point, b0: Point, a: Point, b: Point, n: int, d: int, up: bool, miss: int, m: nat)
    requires d != 0 && (0 <= n <= d || d <= n <= 0) && 0 <= miss <= 1
    requires d == if up then a.y - b.y else b.x - a.x
    requires Abs(Cross(a0, b0, a)) <= m && Abs(Cross(a0, b0, b)) <= m
    ensures Abs(Cross(a0, b0, CutPoint(a, b, n, d, up, miss))) <= m + Span(a0, b0)
  {
    var ex, ey := CutMisses(a, b, n, d, up, miss);
    NearEnough(a0, b0, a, b, CutPoint(a, b, n, d, up, miss), n, d, ex, ey, m);
  }

  /** The crossing for outcode `o` is the point `n / d` of the way. */
  ghost predicate CutOf(o: Outcode, a: Point, b: Point, w: int, h: int, n: int, d: int, up: bool, miss: int) {
    && d != 0 && (0 <= n <= d || d <= n <= 0) && d == (if up then a.y - b.y else b.x - a.x)
    && up == (o.top || o.bottom) && miss == (if o.bottom && !o.top then 1 else 0)
    && n == (if o.top then a.y else if o.bottom then a.y - h else if o.right then w - 1 - a.x else -a.x)
  }

  /** Every crossing is a proper fraction of the way between the ends. */
  lemma CrossingIsCut(a: Point, b: Point, first: bool, w: int, h: int)
    returns (n: int, d: int, up: bool, miss: int)
    requires 0 < w && 0 < h && !Share(FrameCode(a, w, h), FrameCode(b, w, h))
    requires Outside(FrameCode(if first then a else b, w, h))
    ensures var o := FrameCode(if first then a else b, w, h);
      && ((o.top || o.bottom) ==> a.y != b.y) && (!(o.top || o.bottom) ==> a.x != b.x)
      && CutOf(o, a, b, w, h, n, d, up, miss) && Crossing(a, b, o, w, h) == CutPoint(a, b, n, d, up, miss)
  {
    var o := FrameCode(if first then a else b, w, h);
    up, miss := o.top || o.bottom, if o.bottom && !o.top then 1 else 0;
    d := if up then a.y - b.y else b.x - a.x;
    n := if o.top then a.y else if o.bottom then a.y - h else if o.right then w - 1 - a.x else -a.x;
  }

  /** The cut point misses a line by at most one pixel in each direction more than both ends did. */
  lemma CrossingNear(a0: Point, b0: Point, a: Point, b: Point, first: bool, w: int, h: int, m: nat)
    requires 0 < w && 0 < h && !Share(FrameCode(a, w, h), FrameCode(b, w, h))
    requires Outside(FrameCode(if first then a else b, w, h))
    requires Abs(Cross(a0, b0, a)) <= m && Abs(Cross(a0, b0, b)) <= m
    ensures var o := FrameCode(if first then a else b, w, h);
      && ((o.top || o.bottom) ==> a.y != b.y) && (!(o.top || o.bottom) ==> a.x != b.x)
      && Abs(Cross(a0, b0, Crossing(a, b, o, w, h))) <= m + Span(a0, b0)
  {
    var n, d, up, miss := CrossingIsCut(a, b, first, w, h);
    CutNear(a0, b0, a, b, n, d, up, miss, m);
  }
}
