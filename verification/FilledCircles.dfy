// What the spans of `fill_circle` in drivers/src/hal/fb.rs cover: as coordinates handed
// to `draw_hline`, and as pixels of a screen that clamps them, as the framebuffer in
// drivers/src/peripheral/bcm2835/framebuffer.rs does.
module FilledCircles {
  import opened Lines
  import opened Circles
  import opened FrameBuffers

  // ---- The calls ----

  /** The centre and the rim are i32 coordinates. */
  predicate Placed(cx: nat, cy: nat, r: nat) {
    cx + r < I32_LIMIT && cy + r < I32_LIMIT
  }

  lemma {:induction false} CallMade(cx: int, cy: int, xs: seq<int>, color: nat, y: nat, c: Call)
    requires y < |xs| && c in Spans(cx, cy, xs[y], y, color)
    ensures c in CircleSpans(cx, cy, xs, color)
    decreases |xs|
  {
    if y < |xs| - 1 {
      CallMade(cx, cy, xs[..|xs| - 1], color, y, c);
    }
  }

  lemma {:induction false} CallOfRow(cx: int, cy: int, xs: seq<int>, color: nat, c: Call) returns (y: nat)
    requires c in CircleSpans(cx, cy, xs, color)
    ensures y < |xs| && c in Spans(cx, cy, xs[y], y, color)
    decreases |xs|
  {
    if c in Spans(cx, cy, xs[|xs| - 1], |xs| - 1, color) {
      y := |xs| - 1;
    } else {
      y := CallOfRow(cx, cy, xs[..|xs| - 1], color, c);
    }
  }

  lemma Wrapped(v: int)
    requires -I32_LIMIT <= v < I32_LIMIT
    ensures AsU32(v) == if 0 <= v then v else v + 2 * I32_LIMIT
  {
  }

  /** Each call of a row is a span of half-width `half`, `k` rows from the centre. */
  lemma SpanOf(cx: int, cy: int, x: nat, y: nat, color: nat, c: Call) returns (k: int, half: nat)
    requires c in Spans(cx, cy, x, y, color)
    ensures c == HLine(cx - half, cx + half, cy + k, color)
    ensures (half == x && Abs(k) == y) || (half == y && Abs(k) == x)
  {
    hide HLine;
    if c == HLine(cx - x, cx + x, cy + y, color) {
      k, half := y, x;
    } else if c == HLine(cx - x, cx + x, cy - y, color) {
      k, half := 0 - y, x;
    } else if c == HLine(cx - y, cx + y, cy + x, color) {
      k, half := x, y;
    } else {
      k, half := 0 - x, y;
    }
  }

  /** The calls of a filled circle, field by field: each span is as wide as it is for its distance from the centre. */
  lemma SpanCallsIff(cx: int, cy: int, xs: seq<int>, color: nat, c: Call)
    requires forall y :: 0 <= y < |xs| ==> xs[y] >= 0
    ensures c in CircleSpans(cx, cy, xs, color) <==>
            exists y, half, k :: 0 <= y < |xs| && half >= 0 && Mirrors(xs[y], y, half, k) &&
              c == DrawHLine((cx - half) % 0x1_0000_0000, (cx + half) % 0x1_0000_0000, (cy + k) % 0x1_0000_0000, color)
  {
    if c in CircleSpans(cx, cy, xs, color) {
      var y := CallOfRow(cx, cy, xs, color, c);
      var k, half := SpanOf(cx, cy, xs[y], y, color, c);
      assert Mirrors(xs[y], y, half, k);
    }
    forall y, half, k | 0 <= y < |xs| && half >= 0 && Mirrors(xs[y], y, half, k)
      ensures DrawHLine((cx - half) % 0x1_0000_0000, (cx + half) % 0x1_0000_0000, (cy + k) % 0x1_0000_0000, color)
              in CircleSpans(cx, cy, xs, color)
    {
      InSpans(cx, cy, xs[y], y, color, k, half);
      CallMade(cx, cy, xs, color, y, HLine(cx - half, cx + half, cy + k, color));
    }
  }

  /** Its coordinates as they arrive. */
  lemma SpanEnds(cx: nat, cy: nat, r: nat, half: nat, k: int, color: nat)
    requires Placed(cx, cy, r) && half <= r && Abs(k) <= r
    ensures var c := HLine(cx - half, cx + half, cy + k, color);
            && c.DrawHLine? && c.x2 == cx + half < I32_LIMIT
            && (if half <= cx then c.x1 == cx - half else c.x1 > I32_LIMIT)
            && c.y == if 0 <= cy + k then cy + k else cy + k + 2 * I32_LIMIT
  {
    Wrapped(cx - half);
    Wrapped(cx + half);
    Wrapped(cy + k);
  }

  /** The call behind a call of the circle. */
  lemma CallShape(cx: nat, cy: nat, r: nat, xs: seq<int>, color: nat, c: Call) returns (y: nat, k: int, half: nat)
    requires Placed(cx, cy, r) && IsOctant(r, xs) && c in CircleSpans(cx, cy, xs, color)
    ensures y < |xs| && y <= xs[y] <= r && half <= r && Abs(k) <= r
    ensures (half == xs[y] && Abs(k) == y) || (half == y && Abs(k) == xs[y])
    ensures c.DrawHLine? && c.x2 == cx + half < I32_LIMIT
    ensures if half <= cx then c.x1 == cx - half else c.x1 > I32_LIMIT
    ensures c.y < I32_LIMIT ==> c.y == cy + k
  {
    y := CallOfRow(cx, cy, xs, color, c);
    WithinRadius(r, xs[y], y);
    hide IsOctant, CircleSpans, Spans, HLine;
    k, half := SpanOf(cx, cy, xs[y], y, color, c);
    SpanEnds(cx, cy, r, half, k, color);
  }

  /** The first call: the centre's row, from rim to rim.  Its start wraps when the rim reaches past the left edge. */
  lemma FirstCall(cx: nat, cy: nat, r: nat, xs: seq<int>, color: nat) returns (c: Call)
    requires Placed(cx, cy, r) && IsOctant(r, xs)
    ensures c in CircleSpans(cx, cy, xs, color) && c.DrawHLine?
    ensures c.x2 == cx + r < I32_LIMIT && c.y == cy
    ensures if r <= cx then c.x1 == cx - r else c.x1 > I32_LIMIT
  {
    OctantStart(r, xs);
    assert HalfInRow(xs, 0, r);
    hide HalfInRow, IsOctant, CircleSpans;
    assert Abs(cy - cy) == 0;
    c := CallWithHalf(cx, cy, r, xs, color, cy, r);
  }

  /** Every span runs from left to right if and only if the circle does not reach past the left edge. */
  lemma ForwardIff(cx: nat, cy: nat, r: nat, xs: seq<int>, color: nat)
    requires Placed(cx, cy, r) && IsOctant(r, xs)
    ensures (forall c :: c in CircleSpans(cx, cy, xs, color) ==> c.DrawHLine? && c.x1 <= c.x2) <==> r <= cx
  {
    if r <= cx {
      forall c | c in CircleSpans(cx, cy, xs, color)
        ensures c.DrawHLine? && c.x1 <= c.x2
      {
        var y, k, half := CallShape(cx, cy, r, xs, color, c);
      }
    } else {
      var c := FirstCall(cx, cy, r, xs, color);
    }
  }

  // ---- The pixels between their ends ----

  predicate Covers(c: Call, px: nat, py: nat) {
    c.DrawHLine? && c.y == py && c.x1 <= px <= c.x2
  }

  ghost predicate Drawn(calls: seq<Call>, px: nat, py: nat) {
    exists c :: c in calls && Covers(c, px, py)
  }

  lemma DrawnSpanned(cx: nat, cy: nat, r: nat, xs: seq<int>, color: nat, px: nat, py: nat)
    requires Placed(cx, cy, r) && IsOctant(r, xs) && r <= cx && py < I32_LIMIT
    requires Drawn(CircleSpans(cx, cy, xs, color), px, py)
    ensures Spanned(xs, Abs(px - cx), Abs(py - cy))
  {
    var c :| c in CircleSpans(cx, cy, xs, color) && Covers(c, px, py);
    var y, k, half := CallShape(cx, cy, r, xs, color, c);
    assert Abs(py - cy) == Abs(k) && Abs(px - cx) <= half;
  }

  lemma InSpans(cx: int, cy: int, x: nat, y: nat, color: nat, k: int, half: nat)
    requires (half == x && Abs(k) == y) || (half == y && Abs(k) == x)
    ensures HLine(cx - half, cx + half, cy + k, color) in Spans(cx, cy, x, y, color)
  {
    hide HLine;
    assert k == y || k == 0 - y || k == x || k == 0 - x;
  }

  lemma SpannedDrawn(cx: nat, cy: nat, r: nat, xs: seq<int>, color: nat, px: nat, py: nat)
    requires Placed(cx, cy, r) && IsOctant(r, xs) && r <= cx
    requires Spanned(xs, Abs(px - cx), Abs(py - cy))
    ensures Drawn(CircleSpans(cx, cy, xs, color), px, py)
  {
    var a, b := Abs(px - cx), Abs(py - cy);
    var y :| 0 <= y < |xs| && ((b == y && a <= xs[y]) || (b == xs[y] && a <= y));
    var x := xs[y];
    WithinRadius(r, x, y);
    var half := if b == y && a <= x then x else y;
    var k := py - cy;
    SpanEnds(cx, cy, r, half, k, color);
    var c := HLine(cx - half, cx + half, cy + k, color);
    InSpans(cx, cy, x, y, color, k, half);
    hide HLine, Spans, CircleSpans, IsOctant;
    CallMade(cx, cy, xs, color, y, c);
    assert Covers(c, px, py);
  }

  /**
   * If the circle does not reach past the left edge, the spans cover exactly the pixels whose offset satisfies
   * l^2 + (s + 1)^2 - 1 <= r^2 for its longer leg l and its shorter leg s.
   */
  lemma DrawnIff(cx: nat, cy: nat, r: nat, xs: seq<int>, color: nat, px: nat, py: nat)
    requires Placed(cx, cy, r) && IsOctant(r, xs) && r <= cx && px < I32_LIMIT && py < I32_LIMIT
    ensures Drawn(CircleSpans(cx, cy, xs, color), px, py) <==> Filled(r, Abs(px - cx), Abs(py - cy))
  {
    SpannedIff(r, xs, Abs(px - cx), Abs(py - cy));
    if Drawn(CircleSpans(cx, cy, xs, color), px, py) {
      DrawnSpanned(cx, cy, r, xs, color, px, py);
    }
    if Spanned(xs, Abs(px - cx), Abs(py - cy)) {
      SpannedDrawn(cx, cy, r, xs, color, px, py);
    }
  }

  /** No call covers a pixel outside the circle. */
  lemma SpansWithinCircle(cx: nat, cy: nat, r: nat, xs: seq<int>, color: nat, px: nat, py: nat)
    requires Placed(cx, cy, r) && IsOctant(r, xs) && r <= cx && px < I32_LIMIT && py < I32_LIMIT
    requires Drawn(CircleSpans(cx, cy, xs, color), px, py)
    ensures Square(px - cx) + Square(py - cy) <= Square(r)
  {
    hide Filled, Drawn, Square, IsOctant, CircleSpans, Abs;
    DrawnIff(cx, cy, r, xs, color, px, py);
    var dx, dy := px - cx, py - cy;
    FilledWithinCircle(r, Abs(dx), Abs(dy));
    SquareAbs(dx);
    SquareAbs(dy);
  }

  lemma SquareAbs(d: int)
    ensures Square(Abs(d)) == Square(d)
  {
  }

  /** No row of the disc is left out. */
  lemma EveryRowFilled(cx: nat, cy: nat, r: nat, xs: seq<int>, color: nat, py: nat)
    requires Placed(cx, cy, r) && IsOctant(r, xs) && r <= cx && py < I32_LIMIT && Abs(py - cy) <= r
    ensures Drawn(CircleSpans(cx, cy, xs, color), cx, py)
  {
    ArcStart(r);
    ErrorMonotone(r, r, 0, Abs(py - cy), 0);
    DrawnIff(cx, cy, r, xs, color, cx, py);
  }

  // ---- On a screen ----

  /** `draw_hline` of the BCM2835 framebuffer: both ends are clamped to the screen and put in order. */
  predicate Paints(c: Call, width: nat, height: nat, px: nat, py: nat)
    requires width > 0
  {
    && c.DrawHLine? && c.y == py < height
    && var x1 := if c.x1 < width - 1 then c.x1 else width - 1;
       var x2 := if c.x2 < width - 1 then c.x2 else width - 1;
       if x1 <= x2 then x1 <= px <= x2 else x2 <= px <= x1
  }

  ghost predicate Painted(calls: seq<Call>, width: nat, height: nat, px: nat, py: nat)
    requires width > 0
  {
    exists c :: c in calls && Paints(c, width, height, px, py)
  }

  /** A span whose centre is on the screen is painted as far as the screen goes. */
  lemma PaintedIsDrawn(cx: nat, cy: nat, r: nat, xs: seq<int>, color: nat, width: nat, height: nat, px: nat, py: nat)
    requires Placed(cx, cy, r) && IsOctant(r, xs) && r <= cx < width && px < width && py < height
    ensures Painted(CircleSpans(cx, cy, xs, color), width, height, px, py) <==> Drawn(CircleSpans(cx, cy, xs, color), px, py)
  {
    forall c | c in CircleSpans(cx, cy, xs, color)
      ensures Paints(c, width, height, px, py) <==> Covers(c, px, py)
    {
      var y, k, half := CallShape(cx, cy, r, xs, color, c);
    }
  }

  /**
   * With the centre on a screen of more than one column, exactly the on-screen pixels of the disc are painted if and
   * only if the circle does not reach past the left edge.
   */
  lemma PaintsDiscIff(cx: nat, cy: nat, r: nat, xs: seq<int>, color: nat, width: nat, height: nat)
    requires Placed(cx, cy, r) && IsOctant(r, xs)
    requires cx < width <= I32_LIMIT && cy < height <= I32_LIMIT && width > 1
    ensures (forall px: nat, py: nat :: px < width && py < height ==>
               (Painted(CircleSpans(cx, cy, xs, color), width, height, px, py) <==> Filled(r, Abs(px - cx), Abs(py - cy))))
            <==> r <= cx
  {
    if r <= cx {
      forall px: nat, py: nat | px < width && py < height
        ensures Painted(CircleSpans(cx, cy, xs, color), width, height, px, py) <==> Filled(r, Abs(px - cx), Abs(py - cy))
      {
        PaintedIsDrawn(cx, cy, r, xs, color, width, height, px, py);
        DrawnIff(cx, cy, r, xs, color, px, py);
      }
    } else {
      LeftColumnMissed(cx, cy, r, xs, color, width, height);
    }
  }

  /** Otherwise the centre's row is painted from the rim to the right edge, and column 0 of it is not. */
  lemma LeftColumnMissed(cx: nat, cy: nat, r: nat, xs: seq<int>, color: nat, width: nat, height: nat)
    requires Placed(cx, cy, r) && IsOctant(r, xs) && cx < r
    requires cx < width <= I32_LIMIT && cy < height <= I32_LIMIT && width > 1
    ensures !Painted(CircleSpans(cx, cy, xs, color), width, height, 0, cy) && Filled(r, Abs(0 - cx), Abs(cy - cy))
  {
    ArcStart(r);
    ErrorMonotone(r, r, 0, cx, 0);
    OctantStart(r, xs);
    forall c | c in CircleSpans(cx, cy, xs, color)
      ensures !Paints(c, width, height, 0, cy)
    {
      var y, k, half := CallShape(cx, cy, r, xs, color, c);
    }
  }

  /** The spans of a circle of radius 5 about the left edge paint column 50 of their centre's row. */
  lemma WrappedSpan(xs: seq<int>, color: nat)
    requires IsOctant(5, xs)
    ensures Painted(CircleSpans(0, 0, xs, color), 100, 100, 50, 0) && Square(50 - 0) + Square(0 - 0) > Square(5)
  {
    var c := FirstCall(0, 0, 5, xs, color);
    assert Paints(c, 100, 100, 50, 0);
    SquareOrder(5, 50);
  }

  /** The clamping itself paints too much of a circle that lies wholly to the right of the screen. */
  lemma ClampedSpan(cx: nat, cy: nat, r: nat, xs: seq<int>, color: nat, width: nat, height: nat)
    requires Placed(cx, cy, r) && IsOctant(r, xs) && 0 < width <= cx - r && cy < height
    ensures Painted(CircleSpans(cx, cy, xs, color), width, height, width - 1, cy)
    ensures !Filled(r, Abs(width - 1 - cx), Abs(cy - cy))
  {
    hide Square, Filled, AsU32, IsOctant, CircleSpans;
    var c := FirstCall(cx, cy, r, xs, color);
    assert Paints(c, width, height, width - 1, cy);
    BeyondRim(r, cx - (width - 1));
    assert Abs(width - 1 - cx) == cx - (width - 1) && Abs(cy - cy) == 0;
  }

  lemma BeyondRim(r: nat, a: nat)
    requires r < a
    ensures !Filled(r, a, 0)
  {
    SquareOrder(r, a);
    assert Square(1) == 1;
  }

  // ---- On a screen, wherever the circle is ----

  /** The octant gives a span of this half-width to the rows `b` from the centre. */
  ghost predicate HalfInRow(xs: seq<int>, b: nat, half: nat) {
    exists y :: 0 <= y < |xs| && ((half == xs[y] && b == y) || (half == y && b == xs[y]))
  }

  /** What a span of that half-width paints of a row of the screen. */
  predicate InClamp(cx: nat, half: nat, width: nat, px: nat)
    requires width > 0
  {
    var right := if cx + half < width - 1 then cx + half else width - 1;
    if half <= cx then (if cx - half < width - 1 then cx - half else width - 1) <= px <= right else right <= px < width
  }

  ghost predicate RowPainted(xs: seq<int>, cx: nat, width: nat, b: nat, px: nat)
    requires width > 0
  {
    exists half: nat :: HalfInRow(xs, b, half) && InClamp(cx, half, width, px)
  }

  lemma CallPaints(c: Call, cx: nat, half: nat, width: nat, height: nat, px: nat, py: nat)
    requires 0 < width <= I32_LIMIT && py < height && px < width
    requires c.DrawHLine? && c.x2 == cx + half && (if half <= cx then c.x1 == cx - half else c.x1 > I32_LIMIT)
    ensures Paints(c, width, height, px, py) <==> c.y == py && InClamp(cx, half, width, px)
  {
  }

  /** The screen's rows are painted one by one. */
  lemma PaintedByRow(cx: nat, cy: nat, r: nat, xs: seq<int>, color: nat, width: nat, height: nat, px: nat, py: nat)
    requires Placed(cx, cy, r) && IsOctant(r, xs)
    requires width <= I32_LIMIT && height <= I32_LIMIT && px < width && py < height
    ensures Painted(CircleSpans(cx, cy, xs, color), width, height, px, py) <==> RowPainted(xs, cx, width, Abs(py - cy), px)
  {
    var calls := CircleSpans(cx, cy, xs, color);
    if c :| c in calls && Paints(c, width, height, px, py) {
      var y, k, half := CallShape(cx, cy, r, xs, color, c);
      CallPaints(c, cx, half, width, height, px, py);
      assert Abs(py - cy) == Abs(k);
      assert HalfInRow(xs, Abs(k), half);
    }
    if half: nat :| HalfInRow(xs, Abs(py - cy), half) && InClamp(cx, half, width, px) {
      var c := CallWithHalf(cx, cy, r, xs, color, py, half);
      CallPaints(c, cx, half, width, height, px, py);
    }
  }

  lemma CallWithHalf(cx: nat, cy: nat, r: nat, xs: seq<int>, color: nat, py: nat, half: nat) returns (c: Call)
    requires Placed(cx, cy, r) && IsOctant(r, xs) && HalfInRow(xs, Abs(py - cy), half)
    ensures c in CircleSpans(cx, cy, xs, color) && c.DrawHLine? && c.y == py && c.x2 == cx + half
    ensures if half <= cx then c.x1 == cx - half else c.x1 > I32_LIMIT
  {
    var k := py - cy;
    var y :| 0 <= y < |xs| && ((half == xs[y] && Abs(k) == y) || (half == y && Abs(k) == xs[y]));
    WithinRadius(r, xs[y], y);
    SpanEnds(cx, cy, r, half, k, color);
    InSpans(cx, cy, xs[y], y, color, k, half);
    c := HLine(cx - half, cx + half, cy + k, color);
    CallMade(cx, cy, xs, color, y, c);
  }

  // ---- Half-widths of a row ----

  /** A row is filled up to its largest half-width. */
  lemma FilledIffHalf(r: nat, xs: seq<int>, a: nat, b: nat)
    requires IsOctant(r, xs)
    ensures Filled(r, a, b) <==> exists half: nat :: HalfInRow(xs, b, half) && a <= half
  {
    SpannedIff(r, xs, a, b);
    if y :| 0 <= y < |xs| && ((b == y && a <= xs[y]) || (b == xs[y] && a <= y)) {
      var half: nat := if b == y && a <= xs[y] then xs[y] else y;
      assert HalfInRow(xs, b, half);
    }
    if half: nat :| HalfInRow(xs, b, half) && a <= half {
      var y :| 0 <= y < |xs| && ((half == xs[y] && b == y) || (half == y && b == xs[y]));
      assert Spanned(xs, a, b);
    }
  }

  lemma FilledNarrower(r: nat, a: nat, a': nat, b: nat)
    requires Filled(r, a, b) && a' <= a
    ensures Filled(r, a', b)
  {
    if b <= a' {
      ErrorMonotone(r, a, b, a', b);
    } else if b <= a {
      ErrorMonotone(r, a, b, b, a');
    } else {
      ErrorMonotone(r, b, a, b, a');
    }
  }

  /** The rows of the disc. */
  lemma FilledIffRow(r: nat, b: nat)
    ensures Filled(r, 0, b) <==> b <= r
  {
    ArcStart(r);
    if b <= r {
      ErrorMonotone(r, r, 0, b, 0);
    } else {
      BeyondRim(r, b);
    }
  }

  lemma OctantFalls(r: nat, xs: seq<int>, i: nat, j: nat)
    requires IsOctant(r, xs) && i <= j < |xs|
    ensures xs[j] <= xs[i]
  {
    if xs[i] < xs[j] {
      ErrorMonotone(r, xs[j], j, xs[j], i);
      var z := ArcBeyond(r, xs[j], i);
      OnArcUnique(r, z, xs[i], i);
    }
  }

  /** Where a row is wider than cx, it has a span of half-width exactly cx only if the octant's row cx has column b. */
  lemma HalfOfEdge(r: nat, xs: seq<int>, cx: nat, b: nat)
    requires IsOctant(r, xs) && Filled(r, cx + 1, b)
    ensures HalfInRow(xs, b, cx) <==> cx <= b && OnArc(r, b, cx)
    ensures HalfInRow(xs, b, cx) ==> HalfInRow(xs, b, cx + 1)
  {
    FilledIffHalf(r, xs, cx + 1, b);
    var wide: nat :| HalfInRow(xs, b, wide) && cx + 1 <= wide;
    var v :| 0 <= v < |xs| && ((wide == xs[v] && b == v) || (wide == v && b == xs[v]));
    hide OnArc, Filled, Error;
    if HalfInRow(xs, b, cx) {
      var y :| 0 <= y < |xs| && ((cx == xs[y] && b == y) || (cx == y && b == xs[y]));
      assert cx == y && b == xs[y];
      OctantFalls(r, xs, cx, v);
      OctantFalls(r, xs, cx, cx + 1);
      OctantFalls(r, xs, cx + 1, v);
      assert xs[cx + 1] == b;
      assert OnArc(r, xs[y], y);
    }
    if cx <= b && OnArc(r, b, cx) {
      EdgeRow(r, xs, cx, b);
    }
  }

  lemma EdgeRow(r: nat, xs: seq<int>, y: nat, x: nat)
    requires IsOctant(r, xs) && y <= x && OnArc(r, x, y)
    ensures y < |xs| && xs[y] == x
  {
    LongReached(r, xs, x, y);
    OnArcUnique(r, x, xs[y], y);
  }

  // ---- One row ----

  /**
   * The row `b` from the centre comes out right.  If the disc does not reach past the left edge in it, the clamp on
   * the right must not have painted the last column for nothing.  If it does, the span that wraps must be made
   * up for by one of half-width exactly cx, and the disc must reach the right edge.
   */
  ghost predicate RowRight(r: nat, cx: nat, width: nat, b: nat)
    requires width > 0
  {
    if Filled(r, cx + 1, b) then
      width == 1 || (cx <= b && OnArc(r, b, cx) && (cx < width ==> Filled(r, width - 1 - cx, b)))
    else
      width <= cx ==> Filled(r, cx - (width - 1), b)
  }

  ghost predicate RowMatches(r: nat, xs: seq<int>, cx: nat, width: nat, b: nat)
    requires width > 0
  {
    forall px: nat :: px < width ==> PixelMatches(r, xs, cx, width, b, px)
  }

  ghost predicate PixelMatches(r: nat, xs: seq<int>, cx: nat, width: nat, b: nat, px: nat)
    requires width > 0
  {
    RowPainted(xs, cx, width, b, px) <==> Filled(r, Abs(px - cx), b)
  }

  lemma NarrowRow(r: nat, xs: seq<int>, cx: nat, width: nat, b: nat, px: nat)
    requires IsOctant(r, xs) && 0 < width && b <= r && px < width && !Filled(r, cx + 1, b)
    ensures RowPainted(xs, cx, width, b, px) <==> Filled(r, Abs(px - cx), b) || (width <= cx && px == width - 1)
  {
    FilledIffHalf(r, xs, cx + 1, b);
    FilledIffHalf(r, xs, Abs(px - cx), b);
    FilledIffRow(r, b);
    FilledIffHalf(r, xs, 0, b);
    hide Filled, HalfInRow, IsOctant;
    forall half: nat | HalfInRow(xs, b, half)
      ensures half <= cx
      ensures InClamp(cx, half, width, px) <==> Abs(px - cx) <= half || (width <= cx && px == width - 1)
    {
    }
  }

  lemma WideRow(r: nat, xs: seq<int>, cx: nat, width: nat, b: nat, px: nat)
    requires IsOctant(r, xs) && 1 < width && px < width && Filled(r, cx + 1, b)
    ensures cx <= b && OnArc(r, b, cx) ==> RowPainted(xs, cx, width, b, px)
    ensures !(cx <= b && OnArc(r, b, cx)) ==> !RowPainted(xs, cx, width, b, 0)
  {
    HalfOfEdge(r, xs, cx, b);
    hide Filled, HalfInRow, IsOctant, OnArc;
    if HalfInRow(xs, b, cx) {
      assert InClamp(cx, cx, width, px) || InClamp(cx, cx + 1, width, px);
    } else {
      forall half: nat | HalfInRow(xs, b, half)
        ensures !InClamp(cx, half, width, 0)
      {
      }
    }
  }

  lemma OneColumn(r: nat, xs: seq<int>, cx: nat, b: nat)
    requires IsOctant(r, xs) && b <= r
    ensures RowPainted(xs, cx, 1, b, 0)
  {
    FilledIffRow(r, b);
    FilledIffHalf(r, xs, 0, b);
    var half: nat :| HalfInRow(xs, b, half);
    assert InClamp(cx, half, 1, 0);
  }

  lemma RowRightIff(r: nat, xs: seq<int>, cx: nat, width: nat, b: nat)
    requires IsOctant(r, xs) && 0 < width && b <= r
    ensures RowMatches(r, xs, cx, width, b) <==> RowRight(r, cx, width, b)
  {
    hide IsOctant, RowPainted, Filled, OnArc, Abs;
    AbsNear(cx, width);
    if Filled(r, cx + 1, b) {
      FilledNarrower(r, cx + 1, cx, b);
      if width == 1 {
        OneColumn(r, xs, cx, b);
      } else {
        WideRow(r, xs, cx, width, b, 0);
        assert PixelMatches(r, xs, cx, width, b, 0) ==> cx <= b && OnArc(r, b, cx);
        if cx <= b && OnArc(r, b, cx) {
          WideMatches(r, xs, cx, width, b);
        }
      }
    } else {
      forall px: nat | px < width
        ensures RowPainted(xs, cx, width, b, px) <==> Filled(r, Abs(px - cx), b) || (width <= cx && px == width - 1)
      {
        NarrowRow(r, xs, cx, width, b, px);
      }
      assert PixelMatches(r, xs, cx, width, b, width - 1) <==> (width <= cx ==> Filled(r, cx - (width - 1), b));
    }
  }

  lemma AbsNear(cx: nat, width: nat)
    requires width > 0
    ensures Abs(0 - cx) == cx
    ensures if cx < width then Abs(width - 1 - cx) == width - 1 - cx else Abs(width - 1 - cx) == cx - (width - 1)
  {
  }

  lemma WideMatches(r: nat, xs: seq<int>, cx: nat, width: nat, b: nat)
    requires IsOctant(r, xs) && 1 < width && Filled(r, cx + 1, b) && cx <= b && OnArc(r, b, cx)
    ensures RowMatches(r, xs, cx, width, b) <==> (cx < width ==> Filled(r, width - 1 - cx, b))
  {
    hide IsOctant, RowPainted, Filled, OnArc;
    forall px: nat | px < width
      ensures RowPainted(xs, cx, width, b, px)
    {
      WideRow(r, xs, cx, width, b, px);
    }
    AbsNear(cx, width);
    assert cx < width && PixelMatches(r, xs, cx, width, b, width - 1) ==> Filled(r, width - 1 - cx, b);
    if cx < width ==> Filled(r, width - 1 - cx, b) {
      forall px: nat | px < width
        ensures PixelMatches(r, xs, cx, width, b, px)
      {
        FilledNarrower(r, if px <= cx then cx + 1 else width - 1 - cx, Abs(px - cx), b);
      }
    }
  }

  // ---- The whole screen ----

  ghost predicate PaintsExactly(calls: seq<Call>, cx: nat, cy: nat, r: nat, width: nat, height: nat)
    requires width > 0
  {
    forall px: nat, py: nat :: px < width && py < height ==> PixelRight(calls, cx, cy, r, width, height, px, py)
  }

  ghost predicate PixelRight(calls: seq<Call>, cx: nat, cy: nat, r: nat, width: nat, height: nat, px: nat, py: nat)
    requires width > 0
  {
    Painted(calls, width, height, px, py) <==> Filled(r, Abs(px - cx), Abs(py - cy))
  }

  ghost predicate RowsRight(cx: nat, cy: nat, r: nat, width: nat, height: nat)
    requires width > 0
  {
    forall py: nat :: py < height ==> RowRightAt(cx, cy, r, width, py)
  }

  ghost predicate RowRightAt(cx: nat, cy: nat, r: nat, width: nat, py: nat)
    requires width > 0
  {
    Abs(py - cy) <= r ==> RowRight(r, cx, width, Abs(py - cy))
  }

  /** Wherever the circle lies, it comes out right if and only if each of its rows on the screen does. */
  lemma PaintsExactlyIff(cx: nat, cy: nat, r: nat, xs: seq<int>, color: nat, width: nat, height: nat)
    requires Placed(cx, cy, r) && IsOctant(r, xs) && 0 < width <= I32_LIMIT && height <= I32_LIMIT
    ensures PaintsExactly(CircleSpans(cx, cy, xs, color), cx, cy, r, width, height) <==> RowsRight(cx, cy, r, width, height)
  {
    hide IsOctant, PixelRight, PixelMatches, CircleSpans, RowRightAt;
    var calls := CircleSpans(cx, cy, xs, color);
    forall py: nat | py < height
      ensures RowMatches(r, xs, cx, width, Abs(py - cy)) <==> RowRightAt(cx, cy, r, width, py)
    {
      RowDecided(cx, cy, r, xs, width, py);
    }
    forall px: nat, py: nat | px < width && py < height
      ensures PixelRight(calls, cx, cy, r, width, height, px, py) <==> PixelMatches(r, xs, cx, width, Abs(py - cy), px)
    {
      PixelDecided(cx, cy, r, xs, color, width, height, px, py);
    }
    if RowsRight(cx, cy, r, width, height) {
      forall px: nat, py: nat | px < width && py < height
        ensures PixelRight(calls, cx, cy, r, width, height, px, py)
      {
        assert RowRightAt(cx, cy, r, width, py);
      }
    }
    if PaintsExactly(calls, cx, cy, r, width, height) {
      forall py: nat | py < height
        ensures RowRightAt(cx, cy, r, width, py)
      {
        var b := Abs(py - cy);
        forall px: nat | px < width
          ensures PixelMatches(r, xs, cx, width, b, px)
        {
          assert PixelRight(calls, cx, cy, r, width, height, px, py);
        }
      }
    }
  }

  lemma RowDecided(cx: nat, cy: nat, r: nat, xs: seq<int>, width: nat, py: nat)
    requires IsOctant(r, xs) && 0 < width
    ensures RowMatches(r, xs, cx, width, Abs(py - cy)) <==> RowRightAt(cx, cy, r, width, py)
  {
    hide IsOctant, RowMatches, RowRight;
    if Abs(py - cy) <= r {
      RowRightIff(r, xs, cx, width, Abs(py - cy));
    } else {
      RowBeyond(r, xs, cx, width, Abs(py - cy));
    }
  }

  lemma PixelDecided(cx: nat, cy: nat, r: nat, xs: seq<int>, color: nat, width: nat, height: nat, px: nat, py: nat)
    requires Placed(cx, cy, r) && IsOctant(r, xs)
    requires width <= I32_LIMIT && height <= I32_LIMIT && px < width && py < height
    ensures PixelRight(CircleSpans(cx, cy, xs, color), cx, cy, r, width, height, px, py) <==>
            PixelMatches(r, xs, cx, width, Abs(py - cy), px)
  {
    hide IsOctant, Painted, RowPainted, Filled, CircleSpans;
    PaintedByRow(cx, cy, r, xs, color, width, height, px, py);
  }

  lemma RowBeyond(r: nat, xs: seq<int>, cx: nat, width: nat, b: nat)
    requires IsOctant(r, xs) && 0 < width && r < b
    ensures RowMatches(r, xs, cx, width, b)
  {
    FilledIffRow(r, b);
    FilledIffHalf(r, xs, 0, b);
    hide IsOctant, Filled, HalfInRow;
    forall px: nat | px < width
      ensures !RowPainted(xs, cx, width, b, px) && !Filled(r, Abs(px - cx), b)
    {
      if Filled(r, Abs(px - cx), b) {
        FilledNarrower(r, Abs(px - cx), 0, b);
      }
    }
  }

  /** Two placements a caller can check: the centre's column on the screen, or to the right of it. */
  lemma PaintsExactlyWhen(cx: nat, cy: nat, r: nat, xs: seq<int>, color: nat, width: nat, height: nat)
    requires Placed(cx, cy, r) && IsOctant(r, xs) && r <= cx && 0 < width <= I32_LIMIT && height <= I32_LIMIT
    ensures cx < width ==> PaintsExactly(CircleSpans(cx, cy, xs, color), cx, cy, r, width, height)
    ensures width <= cx ==>
              (PaintsExactly(CircleSpans(cx, cy, xs, color), cx, cy, r, width, height) <==>
               forall py: nat :: py < height ==> LastColumnInDisc(cx, cy, r, width, py))
  {
    PaintsExactlyIff(cx, cy, r, xs, color, width, height);
    hide IsOctant, CircleSpans, PaintsExactly, RowRight, Filled;
    forall py: nat | py < height
      ensures RowRightAt(cx, cy, r, width, py) <==> (width <= cx ==> LastColumnInDisc(cx, cy, r, width, py))
    {
      NoWrapRow(r, cx, width, Abs(py - cy));
    }
  }

  /** If the disc has the row, it reaches the last column of the screen in it. */
  ghost predicate LastColumnInDisc(cx: nat, cy: nat, r: nat, width: nat, py: nat)
    requires 0 < width
  {
    Abs(py - cy) <= r ==> Filled(r, Abs(width - 1 - cx), Abs(py - cy))
  }

  lemma NoWrapRow(r: nat, cx: nat, width: nat, b: nat)
    requires r <= cx && 0 < width
    ensures RowRight(r, cx, width, b) <==> (width <= cx ==> Filled(r, Abs(width - 1 - cx), b))
  {
    hide Filled;
    NotWider(r, cx, b);
    AbsNear(cx, width);
  }

  lemma NotWider(r: nat, cx: nat, b: nat)
    requires r <= cx
    ensures !Filled(r, cx + 1, b)
  {
    if Filled(r, cx + 1, b) {
      FilledWithinCircle(r, cx + 1, b);
      SquareOrder(r, cx + 1);
    }
  }

  /** A circle of radius 5 about the first column past a screen of 100 by 100 comes out wrong, half of it in view. */
  lemma JustOffScreen(xs: seq<int>, color: nat)
    requires IsOctant(5, xs)
    ensures !PaintsExactly(CircleSpans(100, 50, xs, color), 100, 50, 5, 100, 100)
  {
    PaintsExactlyWhen(100, 50, 5, xs, color, 100, 100);
    assert Square(5) == 25 && Square(2) == 4;
    assert !LastColumnInDisc(100, 50, 5, 100, 45);
  }
}
