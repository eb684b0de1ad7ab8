/** The screen wipes: the melt, which runs column by column through transposed buffers, and the colour
    cross-fade. A screen is stored as pairs of pixels, `width` of them in a row. */
module Melt {
  import opened Bytes
  import opened Grid
  import Blocks

  // ---------- transposition ----------

  /** `t` holds the columns of the `width` by `height` picture `s` as rows. */
  ghost predicate Transposed(t: seq<int>, s: seq<int>, width: nat, height: nat) {
    && |t| == |s| == width * height
    && forall r, c :: Inside(r, c, width, height) ==>
         && 0 <= At(r, c, width) < width * height && 0 <= At(c, r, height) < width * height
         && t[At(c, r, height)] == s[At(r, c, width)]
  }

  /** Row `r` and column `c` of one picture are column `r` and row `c` of the other. */
  lemma TransposedAt(t: seq<int>, s: seq<int>, width: nat, height: nat, r: nat, c: nat)
    requires Transposed(t, s, width, height) && r < height && c < width
    ensures 0 <= r * width + c < |s| && 0 <= c * height + r < |t| && t[c * height + r] == s[r * width + c]
  {
    assert Inside(r, c, width, height);
  }

  /** Transposing twice, the second time with the sides swapped, gives the picture back. */
  lemma TransposedTwice(u: seq<int>, t: seq<int>, s: seq<int>, width: nat, height: nat)
    requires Transposed(t, s, width, height) && Transposed(u, t, height, width)
    ensures u == s
  {
    forall k | 0 <= k < |s| ensures u[k] == s[k] {
      var r, c := AtCovers(k, width, height);
      assert Inside(c, r, height, width);
    }
  }

  /** There is only one transposed picture. */
  lemma TransposedUnique(t: seq<int>, t': seq<int>, s: seq<int>, width: nat, height: nat)
    requires Transposed(t, s, width, height) && Transposed(t', s, width, height)
    ensures t == t'
  {
    assert height * width == width * height;
    forall k | 0 <= k < |t| ensures t[k] == t'[k] {
      var c, r := AtCovers(k, height, width);
      assert Inside(r, c, width, height);
    }
  }

  /** The cell of column `c`, row `r` in a picture stored by columns. */
  ghost predicate RowsDone(dest: seq<int>, a: seq<int>, width: nat, height: nat, rows: nat)
    requires |dest| == |a| == width * height
  {
    forall r, c {:trigger At(c, r, height)} :: Inside(r, c, width, height) && r < rows ==>
      && 0 <= At(r, c, width) < |a| && 0 <= At(c, r, height) < |dest|
      && dest[At(c, r, height)] == a[At(r, c, width)]
  }

  /** One turn of the outer loop. */
  method TransposeRow(dest: array<int>, a: array<int>, width: nat, height: nat, y: nat)
    requires y < height && dest != a && dest.Length == a.Length == width * height
    requires RowsDone(dest[..], a[..], width, height, y)
    modifies dest
    ensures RowsDone(dest[..], a[..], width, height, y + 1)
  {
    AllInside(width, height);
    AllInside(height, width);
    assert height * width == width * height;
    var x := 0;
    while x < width
      invariant 0 <= x <= width
      invariant forall r, c {:trigger At(c, r, height)} ::
        (Inside(r, c, width, height) && Inside(c, r, height, width) && (r < y || (r == y && c < x))) ==>
        dest[At(c, r, height)] == a[At(r, c, width)]
    {
      assert Inside(y, x, width, height) && Inside(x, y, height, width);
      AllApart(x, y, height, width);
      dest[x * height + y] := a[y * width + x];
      x := x + 1;
    }
  }

  /** `wipe_shittyColMajorXform` */
  method Transpose(a: array<int>, width: nat, height: nat)
    requires a.Length == width * height
    modifies a
    ensures Transposed(a[..], old(a[..]), width, height)
  {
    var dest := new int[width * height];
    var y := 0;
    while y < height
      invariant 0 <= y <= height && a[..] == old(a[..]) && RowsDone(dest[..], a[..], width, height, y)
    {
      TransposeRow(dest, a, width, height, y);
      y := y + 1;
    }
    Copy(a, dest);
  }

  /** `memcpy` of a whole buffer. */
  method Copy(a: array<int>, src: array<int>)
    requires a.Length == src.Length && a != src
    modifies a
    ensures a[..] == src[..]
  {
    forall i | 0 <= i < a.Length {
      a[i] := src[i];
    }
    assert a[..] == src[..];
  }

  // ---------- the offset of one column ----------

  /** What one tick does to a column's offset. */
  function Step(y: int, height: nat): int {
    if y < 0 then y + 1
    else if y < height then
      var dy := if y < 16 then y + 1 else 8;
      if y + dy >= height then height else y + dy
    else y
  }

  function Steps(y: int, height: nat, ticks: nat): int
    decreases ticks
  {
    if ticks == 0 then y else Steps(Step(y, height), height, ticks - 1)
  }

  lemma {:induction false} StepsSplit(y: int, height: nat, s: nat, t: nat)
    ensures Steps(Steps(y, height, s), height, t) == Steps(y, height, s + t)
    decreases s
  {
    if s > 0 {
      StepsSplit(Step(y, height), height, s - 1, t);
    }
  }

  lemma {:induction false} FinishedStays(height: nat, t: nat)
    ensures Steps(height, height, t) == height
  {
    if t > 0 {
      FinishedStays(height, t - 1);
    }
  }

  /** Ticks a column still needs: it waits, speeds up, then falls eight rows a tick. */
  function Needed(y: int, height: nat): nat
    decreases if y < 0 then 1 else 0, height - y
  {
    if y < 0 then -y + Needed(0, height)
    else if y >= height then 0
    else 1 + Needed(Step(y, height), height)
  }

  /** A column is finished after exactly the ticks it needs, and not before. */
  lemma {:induction false} FinishedExactly(y: int, height: nat, t: nat)
    requires y <= height
    ensures Steps(y, height, t) == height <==> t >= Needed(y, height)
    ensures Steps(y, height, t) <= height
    decreases t
  {
    if t > 0 {
      FinishedExactly(Step(y, height), height, t - 1);
      if y < 0 && Step(y, height) < 0 {
        assert Needed(Step(y, height), height) == Needed(y, height) - 1;
      }
    }
  }

  /** `n / 8`, rounded up. */
  function Eighths(n: nat): nat {
    (n + 7) / 8
  }

  lemma {:induction false} NeededFalling(y: int, height: nat)
    requires 16 <= y <= height
    ensures Needed(y, height) == Eighths(height - y)
    decreases height - y
  {
    if y < height {
      NeededFalling(Step(y, height), height);
    }
  }

  /** The exact number of ticks on a screen of at least 31 rows. */
  lemma NeededExactly(y: int, height: nat)
    requires y <= 0 && height >= 31
    ensures Needed(y, height) == -y + 5 + Eighths(height - 31)
  {
    assert Step(0, height) == 1 && Step(1, height) == 3 && Step(3, height) == 7;
    assert Step(7, height) == 15 && Step(15, height) == 31;
    NeededFalling(31, height);
    assert Needed(7, height) == 2 + Needed(31, height);
    assert Needed(1, height) == 4 + Needed(31, height);
    assert Needed(0, height) == 5 + Needed(31, height);
  }

  /** On a lower screen the five speeding-up ticks are enough. */
  lemma NeededAtMost(y: int, height: nat)
    requires y <= 0 && height < 31
    ensures Needed(y, height) <= -y + 5
  {
    var a := Step(0, height);
    var b := Step(a, height);
    var c := Step(b, height);
    var d := Step(c, height);
    assert Step(d, height) == height;
    assert Needed(d, height) <= 1 && Needed(c, height) <= 2;
    assert Needed(b, height) <= 3 && Needed(a, height) <= 4;
    assert Needed(0, height) <= 5;
  }

  lemma StepForward(y: int, height: nat, t: nat)
    requires y <= height
    ensures Steps(y, height, t) <= Steps(y, height, t + 1) <= height
  {
    StepsSplit(y, height, t, 1);
    FinishedExactly(y, height, t);
    assert Steps(Steps(y, height, t), height, 1) == Step(Steps(y, height, t), height);
  }

  /** A column that starts one row higher than its neighbour is always exactly one tick behind it: it
      never overtakes it and is never further away than one tick's fall. */
  lemma OneTickBehind(y: int, height: nat, t: nat)
    requires y < 0
    ensures Steps(y, height, t + 1) == Steps(y + 1, height, t)
    ensures Steps(y, height, t) <= Steps(y + 1, height, t)
  {
    StepForward(y, height, t);
  }

  /** The row that a column has reached `t` ticks after it left the top of a screen that never ends. */
  function Fallen(t: nat): nat {
    if t <= 5 then [0, 1, 3, 7, 15, 31][t] else 31 + 8 * (t - 5)
  }

  /** Where a column is after each tick: it waits at the top, falls one row, two, four, eight and sixteen, then eight
      a tick, and stops at the end of the screen. */
  lemma {:induction false} RowsExactly(y: int, height: nat, t: nat)
    requires y <= 0
    ensures Steps(y, height, t) == if t <= -y then y + t else if Fallen(t + y) <= height then Fallen(t + y) else height
    decreases t
  {
    if t > 0 {
      RowsExactly(y, height, t - 1);
      StepsSplit(y, height, t - 1, 1);
      var before := Steps(y, height, t - 1);
      assert Steps(before, height, 1) == Step(before, height);
      FallenNext(if t - 1 <= -y then 0 else t - 1 + y);
    }
  }

  lemma FallenNext(t: nat)
    ensures Fallen(t + 1) == Fallen(t) + if Fallen(t) < 16 then Fallen(t) + 1 else 8
    ensures t <= Fallen(t)
  {
    assert t == 0 || t == 1 || t == 2 || t == 3 || t == 4 || t == 5 || t > 5;
  }

  // ---------- the offsets at the start ----------

  /** A column's offset, from its left neighbour's and a random number. */
  function NextOffset(left: int, random: int): int {
    var z := left + random % 3 - 1;
    if z > 0 then 0 else if z == -16 then -15 else z
  }

  ghost predicate Offsets(y: seq<int>, random: nat -> byte) {
    && (|y| > 0 ==> y[0] == -(random(0) % 16))
    && forall i :: 0 < i < |y| ==> y[i] == NextOffset(y[i - 1], random(i))
  }

  /** What `wipe_initMelt` can produce: close to the top edge, and neighbours close to each other. */
  lemma {:induction false} OffsetsJagged(y: seq<int>, random: nat -> byte, i: nat)
    requires Offsets(y, random) && i < |y|
    ensures -15 <= y[i] <= 0 && (i > 0 ==> -1 <= y[i] - y[i - 1] <= 1)
  {
    if i > 0 {
      OffsetsJagged(y, random, i - 1);
    }
  }

  /** Each column starts where its random number puts it, a row above its neighbour, level with it or a row below;
      or, where that would leave -15 to 0, level with it. */
  lemma OffsetsExactly(y: seq<int>, random: nat -> byte, i: nat)
    requires Offsets(y, random) && 0 < i < |y|
    ensures var want := y[i - 1] + random(i) % 3 - 1; y[i] == if -15 <= want <= 0 then want else y[i - 1]
  {
    OffsetsJagged(y, random, i - 1);
  }

  /** The most ticks any column needs on a screen of this height. */
  function Bound(height: nat): nat {
    if height < 31 then 20 else 20 + Eighths(height - 31)
  }

  /** Every column is finished within a fixed number of ticks. */
  lemma MeltBounded(y: seq<int>, random: nat -> byte, height: nat, i: nat)
    requires Offsets(y, random) && i < |y|
    ensures Needed(y[i], height) <= Bound(height)
  {
    OffsetsJagged(y, random, i);
    if height < 31 {
      NeededAtMost(y[i], height);
    } else {
      NeededExactly(y[i], height);
    }
  }

  method InitOffsets(y: array<int>, random: nat -> byte)
    requires y.Length > 0
    modifies y
    ensures Offsets(y[..], random)
    ensures y[0] == -(random(0) % 16)
    ensures forall i :: 0 < i < y.Length ==>
      var want := y[i - 1] + random(i) % 3 - 1; y[i] == if -15 <= want <= 0 then want else y[i - 1]
  {
    var first: int := random(0);
    y[0] := -(first % 16);
    var i := 1;
    while i < y.Length
      invariant 1 <= i <= y.Length && Offsets(y[..i], random)
    {
      var r: int := random(i);
      y[i] := y[i - 1] + r % 3 - 1;
      if y[i] > 0 {
        y[i] := 0;
      } else if y[i] == -16 {
        y[i] := -15;
      }
      assert y[..i + 1] == y[..i] + [y[i]];
      i := i + 1;
    }
    assert y[..] == y[..y.Length];
    forall k | 0 < k < y.Length
      ensures var want := y[k - 1] + random(k) % 3 - 1; y[k] == if -15 <= want <= 0 then want else y[k - 1]
    {
      OffsetsExactly(y[..], random, k);
    }
  }

  // ---------- the picture ----------

  /** What the screen shows in row `r` of column `c` when that column's offset is `y`. */
  function Pixel(start: seq<int>, end: seq<int>, y: int, r: int, c: int, width: nat, height: nat): int
    requires |start| == |end| == width * height && Inside(r, c, width, height)
  {
    AllInside(width, height);
    if y < 0 then start[At(r, c, width)]
    else if r < y then end[At(r, c, width)]
    else start[At(r - y, c, width)]
  }

  /** Column `c` of the screen is as its offset `y` says. */
  ghost predicate Shows(scr: seq<int>, start: seq<int>, end: seq<int>, y: int, c: int, width: nat, height: nat)
    requires |start| == |end| == |scr| == width * height
  {
    forall r :: Inside(r, c, width, height) ==>
      0 <= At(r, c, width) < |scr| && scr[At(r, c, width)] == Pixel(start, end, y, r, c, width, height)
  }

  /** In column `c`, whose offset is `y`: while it waits the start screen, then the end screen above row `y` and the start
      screen pushed down by `y` rows below it. */
  lemma ColumnExactly(scr: seq<int>, start: seq<int>, end: seq<int>, y: int, c: nat, width: nat, height: nat, r: nat)
    requires |start| == |end| == |scr| == width * height && Shows(scr, start, end, y, c, width, height)
    requires c < width && r < height
    ensures 0 <= r * width + c < |scr|
    ensures y <= 0 ==> scr[r * width + c] == start[r * width + c]
    ensures 0 <= r < y ==> scr[r * width + c] == end[r * width + c]
    ensures 0 <= y <= r ==> 0 <= (r - y) * width + c < |scr| && scr[r * width + c] == start[(r - y) * width + c]
  {
    AllInside(width, height);
    assert Inside(r, c, width, height);
    if 0 <= y <= r {
      assert Inside(r - y, c, width, height);
    }
  }

  /** `scr` with rows `row` to `row + count` of column `c` taken from `src`, from index `from` on. */
  ghost predicate Pasted(scr: seq<int>, old_: seq<int>, src: seq<int>, from: int, c: int, row: int, count: int,
                         width: nat, height: nat)
    requires |scr| == |old_| == width * height
    requires 0 <= from && 0 <= count && from + count <= |src| && 0 <= row
  {
    forall r, k :: Inside(r, k, width, height) ==>
      && 0 <= At(r, k, width) < |scr|
      && scr[At(r, k, width)] == if k == c && row <= r < row + count then src[from + r - row]
                                 else old_[At(r, k, width)]
  }

  /** The two inner loops of `wipe_doMelt`: a stretch of a stored column goes down the screen. */
  method PasteColumn(scr: array<int>, src: array<int>, from: nat, c: nat, row: nat, count: nat, width: nat, height: nat)
    requires scr != src && scr.Length == width * height
    requires from + count <= src.Length && c < width && row + count <= height
    modifies scr
    ensures Pasted(scr[..], old(scr[..]), src[..], from, c, row, count, width, height)
  {
    AllInside(width, height);
    var d, idx, j := row * width + c, 0, 0;
    while j < count
      invariant 0 <= j <= count && idx == j * width
      invariant Pasted(scr[..], old(scr[..]), src[..], from, c, row, j, width, height)
    {
      assert Inside(row + j, c, width, height);
      assert d + idx == At(row + j, c, width);
      AllApart(row + j, c, width, height);
      scr[d + idx] := src[from + j];
      idx := idx + width;
      j := j + 1;
    }
  }

  /** Both pastes of a falling column leave it as its new offset says. */
  lemma ColumnFalls(scr: seq<int>, mid: seq<int>, scr': seq<int>, startT: seq<int>, endT: seq<int>,
                    start: seq<int>, end: seq<int>, y: nat, dy: nat, c: nat, width: nat, height: nat)
    requires |scr| == |mid| == |scr'| == width * height && c < width && y + dy <= height
    requires Transposed(startT, start, width, height) && Transposed(endT, end, width, height)
    requires 0 <= c * height && c * height + height <= width * height
    requires Shows(scr, start, end, y, c, width, height)
    requires Pasted(mid, scr, endT, c * height + y, c, y, dy, width, height)
    requires Pasted(scr', mid, startT, c * height, c, y + dy, height - y - dy, width, height)
    ensures Shows(scr', start, end, y + dy, c, width, height)
  {
    AllInside(width, height);
    forall r | Inside(r, c, width, height)
      ensures scr'[At(r, c, width)] == Pixel(start, end, y + dy, r, c, width, height)
    {
      if r < y + dy {
        assert endT[At(c, r, height)] == end[At(r, c, width)];
      } else {
        assert Inside(r - (y + dy), c, width, height);
        assert startT[At(c, r - (y + dy), height)] == start[At(r - (y + dy), c, width)];
      }
    }
  }

  /** The screen agrees with `old_` outside column `c`. */
  ghost predicate OtherColumnsKept(scr: seq<int>, old_: seq<int>, c: int, width: nat, height: nat)
    requires |scr| == |old_| == width * height
  {
    forall r, k :: Inside(r, k, width, height) && k != c ==>
      0 <= At(r, k, width) < |scr| && scr[At(r, k, width)] == old_[At(r, k, width)]
  }

  /** The arrays of a running melt, holding the transposed start and end screens. */
  ghost predicate Buffers(scr: array<int>, startT: array<int>, endT: array<int>, y: array<int>,
                          start: seq<int>, end: seq<int>, width: nat, height: nat)
    reads startT, endT
  {
    && scr != startT && scr != endT && y != scr && y != startT && y != endT && startT != endT
    && scr.Length == width * height && y.Length == 2 * width
    && Transposed(startT[..], start, width, height) && Transposed(endT[..], end, width, height)
  }

  /** The part of the end screen that comes into view, and the start screen pushed down below it. */
  method DropColumn(scr: array<int>, startT: array<int>, endT: array<int>, ghost y: array<int>, i: nat, top: nat,
                    dy: nat, width: nat, height: nat, ghost start: seq<int>, ghost end: seq<int>)
    requires Buffers(scr, startT, endT, y, start, end, width, height) && i < width && top + dy <= height
    requires Shows(scr[..], start, end, top, i, width, height)
    modifies scr
    ensures Shows(scr[..], start, end, top + dy, i, width, height)
    ensures OtherColumnsKept(scr[..], old(scr[..]), i, width, height)
  {
    StoredColumn(i, width, height);
    PasteColumn(scr, endT, i * height + top, i, top, dy, width, height);
    ghost var mid := scr[..];
    PasteColumn(scr, startT, i * height, i, top + dy, height - (top + dy), width, height);
    ColumnFalls(old(scr[..]), mid, scr[..], startT[..], endT[..], start, end, top, dy, i, width, height);
  }

  /** One turn of the column loop. */
  method MeltColumn(scr: array<int>, startT: array<int>, endT: array<int>, y: array<int>, i: nat,
                    width: nat, height: nat, ghost start: seq<int>, ghost end: seq<int>) returns (moved: bool)
    requires Buffers(scr, startT, endT, y, start, end, width, height) && i < width
    requires y[i] <= height && Shows(scr[..], start, end, y[i], i, width, height)
    modifies scr, y
    ensures y[..] == old(y[..])[i := Step(old(y[i]), height)] && moved == (old(y[i]) < height)
    ensures Shows(scr[..], start, end, y[i], i, width, height)
    ensures OtherColumnsKept(scr[..], old(scr[..]), i, width, height)
  {
    AllInside(width, height);
    moved := y[i] < height;
    if y[i] < 0 {
      y[i] := y[i] + 1;
    } else if y[i] < height {
      var dy := if y[i] < 16 then y[i] + 1 else 8;
      if y[i] + dy >= height {
        dy := height - y[i];
      }
      DropColumn(scr, startT, endT, y, i, y[i], dy, width, height, start, end);
      y[i] := y[i] + dy;
    }
  }

  lemma StoredColumn(c: nat, width: nat, height: nat)
    requires c < width
    ensures 0 <= c * height && c * height + height <= width * height
  {
    Blocks.ProductGap(c, width, height);
  }

  /** Every column of the screen is as its offset says. */
  ghost predicate AllShow(scr: seq<int>, y: seq<int>, start: seq<int>, end: seq<int>, width: nat, height: nat)
    requires |start| == |end| == |scr| == width * height
  {
    |y| == 2 * width
    && forall c {:trigger y[c]} :: 0 <= c < width ==> y[c] <= height && Shows(scr, start, end, y[c], c, width, height)
  }

  lemma OthersStillShow(scr: seq<int>, scr': seq<int>, y: seq<int>, z: int, start: seq<int>, end: seq<int>,
                        i: nat, width: nat, height: nat)
    requires |start| == |end| == |scr| == |scr'| == width * height && i < width
    requires AllShow(scr, y, start, end, width, height) && OtherColumnsKept(scr', scr, i, width, height)
    requires z <= height && Shows(scr', start, end, z, i, width, height)
    ensures AllShow(scr', y[i := z], start, end, width, height)
  {
  }

  ghost predicate AllFinished(y: seq<int>, width: nat, height: nat) {
    |y| == 2 * width && forall c :: 0 <= c < width ==> y[c] == height
  }

  /** `z` is `y` after `t` ticks, in the columns that are used. */
  ghost predicate Melted(z: seq<int>, y: seq<int>, width: nat, height: nat, t: nat) {
    |z| == |y| == 2 * width && forall c :: 0 <= c < width ==> z[c] == Steps(y[c], height, t)
  }

  /** One tick: every column melts by one step. */
  method MeltTick(scr: array<int>, startT: array<int>, endT: array<int>, y: array<int>,
                  width: nat, height: nat, ghost start: seq<int>, ghost end: seq<int>) returns (moved: bool)
    requires Buffers(scr, startT, endT, y, start, end, width, height)
    requires AllShow(scr[..], y[..], start, end, width, height)
    modifies scr, y
    ensures AllShow(scr[..], y[..], start, end, width, height)
    ensures Melted(y[..], old(y[..]), width, height, 1)
    ensures moved == !AllFinished(old(y[..]), width, height)
  {
    moved := false;
    var i := 0;
    while i < width
      invariant 0 <= i <= width && AllShow(scr[..], y[..], start, end, width, height)
      invariant forall c :: 0 <= c < width ==> y[c] == if c < i then Step(old(y[c]), height) else old(y[c])
      invariant moved == exists c :: 0 <= c < i && old(y[c]) < height
    {
      ghost var scr0, y0 := scr[..], y[..];
      assert Shows(scr0, start, end, y0[i], i, width, height);
      var columnMoved := MeltColumn(scr, startT, endT, y, i, width, height, start, end);
      OthersStillShow(scr0, scr[..], y0, y[i], start, end, i, width, height);
      moved := moved || columnMoved;
      i := i + 1;
    }
  }

  lemma MeltedMore(z: seq<int>, y: seq<int>, x: seq<int>, width: nat, height: nat, s: nat, t: nat)
    requires Melted(y, x, width, height, s) && Melted(z, y, width, height, t)
    ensures Melted(z, x, width, height, s + t)
  {
    forall c | 0 <= c < width ensures z[c] == Steps(x[c], height, s + t) {
      StepsSplit(x[c], height, s, t);
    }
  }

  lemma FinishedForGood(z: seq<int>, y: seq<int>, width: nat, height: nat, t: nat)
    requires Melted(z, y, width, height, t) && AllFinished(y, width, height)
    ensures AllFinished(z, width, height)
  {
    FinishedStays(height, t);
  }

  /** `wipe_doMelt`. It reports the end exactly when there was nothing left to do on entry, or when it was
      asked for no ticks at all. */
  method DoMelt(scr: array<int>, startT: array<int>, endT: array<int>, y: array<int>,
                width: nat, height: nat, ticks: nat, ghost start: seq<int>, ghost end: seq<int>) returns (done: bool)
    requires Buffers(scr, startT, endT, y, start, end, width, height)
    requires AllShow(scr[..], y[..], start, end, width, height)
    modifies scr, y
    ensures AllShow(scr[..], y[..], start, end, width, height)
    ensures Melted(y[..], old(y[..]), width, height, ticks)
    ensures done == (ticks == 0 || AllFinished(old(y[..]), width, height))
  {
    done := true;
    var left := ticks;
    while left > 0
      invariant 0 <= left <= ticks && AllShow(scr[..], y[..], start, end, width, height)
      invariant Melted(y[..], old(y[..]), width, height, ticks - left)
      invariant done == (left == ticks || AllFinished(old(y[..]), width, height))
    {
      ghost var before := y[..];
      var moved := MeltTick(scr, startT, endT, y, width, height, start, end);
      if AllFinished(old(y[..]), width, height) {
        FinishedForGood(before, old(y[..]), width, height, ticks - left);
      }
      MeltedMore(y[..], before, old(y[..]), width, height, ticks - left, 1);
      if moved {
        done := false;
      }
      left := left - 1;
    }
  }

  /** Once all columns are finished the screen is the end screen. */
  lemma FinishedShowsEnd(scr: seq<int>, y: seq<int>, start: seq<int>, end: seq<int>, width: nat, height: nat)
    requires |start| == |end| == |scr| == width * height
    requires AllShow(scr, y, start, end, width, height) && AllFinished(y, width, height)
    ensures scr == end
  {
    forall k | 0 <= k < |scr| ensures scr[k] == end[k] {
      var r, c := AtCovers(k, width, height);
      assert Shows(scr, start, end, y[c], c, width, height);
    }
  }
}
