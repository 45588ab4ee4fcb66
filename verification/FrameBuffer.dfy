// The drawing routines that drivers/src/hal/fb.rs provides for every framebuffer, in
// terms of the two calls each framebuffer implements.
module FrameBuffers {
  import opened Wrappers
  import opened Lines
  import opened Circles

  /** What a routine asks of the device; coordinates are as they arrive there, cast to u32. */
  datatype Call =
    | SetPixel(x: nat, y: nat, color: nat)
    | DrawHLine(x1: nat, x2: nat, y: nat, color: nat)

  const I32_LIMIT := 0x8000_0000

  predicate IsI32(v: int) {
    -I32_LIMIT <= v < I32_LIMIT
  }

  /** `v as u32` for an i32 */
  function AsU32(v: int): nat {
    v % 0x1_0000_0000
  }

  function Plot(p: Pixel, color: nat): Call {
    SetPixel(AsU32(p.x), AsU32(p.y), color)
  }

  function PlotAll(pixels: seq<Pixel>, color: nat): seq<Call> {
    seq(|pixels|, (k: nat) requires k < |pixels| => Plot(pixels[k], color))
  }

  /** The eight mirror images of an octant pixel, in drawing order. */
  function Mirrored(cx: int, cy: int, x: int, y: int): seq<Pixel> {
    [Pixel(cx + x, cy + y), Pixel(cx + y, cy + x), Pixel(cx - y, cy + x), Pixel(cx - x, cy + y),
     Pixel(cx - x, cy - y), Pixel(cx - y, cy - x), Pixel(cx + y, cy - x), Pixel(cx + x, cy - y)]
  }

  function CirclePixels(cx: int, cy: int, xs: seq<int>): seq<Pixel> {
    if xs == [] then [] else CirclePixels(cx, cy, xs[..|xs| - 1]) + Mirrored(cx, cy, xs[|xs| - 1], |xs| - 1)
  }

  function HLine(x1: int, x2: int, y: int, color: nat): Call {
    DrawHLine(AsU32(x1), AsU32(x2), AsU32(y), color)
  }

  /** The four spans between mirror images of an octant pixel, in drawing order. */
  function Spans(cx: int, cy: int, x: int, y: int, color: nat): seq<Call> {
    [HLine(cx - x, cx + x, cy + y, color), HLine(cx - x, cx + x, cy - y, color),
     HLine(cx - y, cx + y, cy + x, color), HLine(cx - y, cx + y, cy - x, color)]
  }

  function CircleSpans(cx: int, cy: int, xs: seq<int>, color: nat): seq<Call> {
    if xs == [] then [] else CircleSpans(cx, cy, xs[..|xs| - 1], color) + Spans(cx, cy, xs[|xs| - 1], |xs| - 1, color)
  }

  // ---- The calls, field by field ----

  /** The call for the k-th pixel of a line carries that pixel's own coordinates, which need no wrapping, and the color. */
  lemma LineCall(x1: nat, y1: nat, x2: nat, y2: nat, color: nat, k: nat)
    requires x1 < I32_LIMIT && y1 < I32_LIMIT && x2 < I32_LIMIT && y2 < I32_LIMIT && k < |Line(x1, y1, x2, y2)|
    ensures var p := Line(x1, y1, x2, y2)[k];
            && 0 <= p.x < 0x8000_0000 && 0 <= p.y < 0x8000_0000
            && |PlotAll(Line(x1, y1, x2, y2), color)| == |Line(x1, y1, x2, y2)|
            && PlotAll(Line(x1, y1, x2, y2), color)[k] == SetPixel(p.x, p.y, color)
  {
    hide LinePixel, LastIndex, Line;
    NearestPixel(x1, y1, x2, y2, k);
  }

  /** The offset (dx, dy) is (x, y) up to signs and order. */
  predicate Mirrors(x: int, y: int, dx: int, dy: int) {
    (Abs(dx) == x && Abs(dy) == y) || (Abs(dx) == y && Abs(dy) == x)
  }

  lemma MirroredIff(cx: int, cy: int, x: nat, y: nat, p: Pixel)
    ensures p in Mirrored(cx, cy, x, y) <==> Mirrors(x, y, p.x - cx, p.y - cy)
  {
    var m := Mirrored(cx, cy, x, y);
    if Mirrors(x, y, p.x - cx, p.y - cy) {
      assert p == m[0] || p == m[1] || p == m[2] || p == m[3] || p == m[4] || p == m[5] || p == m[6] || p == m[7];
    }
  }

  /** The pixels plotted are the octant's and all their reflections, no others; each round plots eight. */
  lemma {:induction false} CirclePixelsIff(cx: int, cy: int, xs: seq<int>, p: Pixel)
    requires forall y :: 0 <= y < |xs| ==> xs[y] >= 0
    ensures p in CirclePixels(cx, cy, xs) <==> exists y :: 0 <= y < |xs| && Mirrors(xs[y], y, p.x - cx, p.y - cy)
    ensures |CirclePixels(cx, cy, xs)| == 8 * |xs|
    decreases |xs|
  {
    if xs != [] {
      var most, y := xs[..|xs| - 1], |xs| - 1;
      CirclePixelsIff(cx, cy, most, p);
      MirroredIff(cx, cy, xs[y], y, p);
      hide Mirrors, Mirrored;
      assert forall k :: 0 <= k < y ==> most[k] == xs[k];
    }
  }

  /** The calls of a circle: those pixels' coordinates, cast to 32 bits, with the color. */
  lemma CircleCallsIff(cx: int, cy: int, xs: seq<int>, color: nat, c: Call)
    requires forall y :: 0 <= y < |xs| ==> xs[y] >= 0
    ensures c in PlotAll(CirclePixels(cx, cy, xs), color) <==>
            exists y, dx, dy :: 0 <= y < |xs| && Mirrors(xs[y], y, dx, dy) &&
              c == SetPixel((cx + dx) % 0x1_0000_0000, (cy + dy) % 0x1_0000_0000, color)
  {
    hide Mirrors;
    var pixels := CirclePixels(cx, cy, xs);
    if c in PlotAll(pixels, color) {
      var k :| 0 <= k < |pixels| && c == Plot(pixels[k], color);
      CirclePixelsIff(cx, cy, xs, pixels[k]);
      var y :| 0 <= y < |xs| && Mirrors(xs[y], y, pixels[k].x - cx, pixels[k].y - cy);
      assert cx + (pixels[k].x - cx) == pixels[k].x && cy + (pixels[k].y - cy) == pixels[k].y;
    }
    forall y, dx, dy | 0 <= y < |xs| && Mirrors(xs[y], y, dx, dy)
      ensures SetPixel((cx + dx) % 0x1_0000_0000, (cy + dy) % 0x1_0000_0000, color) in PlotAll(pixels, color)
    {
      var p := Pixel(cx + dx, cy + dy);
      assert p.x - cx == dx && p.y - cy == dy;
      CirclePixelsIff(cx, cy, xs, p);
      var k :| 0 <= k < |pixels| && pixels[k] == p;
      assert PlotAll(pixels, color)[k] == Plot(p, color);
    }
  }

  class FrameBuffer {
    var calls: seq<Call>

    constructor ()
      ensures calls == []
    {
      calls := [];
    }

    method SetPixelAt(x: int, y: int, color: nat)
      modifies this
      ensures calls == old(calls) + [Plot(Pixel(x, y), color)]
    {
      calls := calls + [Plot(Pixel(x, y), color)];
    }

    method DrawHLineAt(x1: int, x2: int, y: int, color: nat)
      modifies this
      ensures calls == old(calls) + [HLine(x1, x2, y, color)]
    {
      calls := calls + [HLine(x1, x2, y, color)];
    }

    /** `draw_line`: exactly the pixels of the line, in order.  The bounds keep `2 * err` within an i32. */
    method DrawLine(fromX: nat, fromY: nat, x2: nat, y2: nat, color: nat)
      requires fromX < I32_LIMIT && fromY < I32_LIMIT && x2 < I32_LIMIT && y2 < I32_LIMIT
      requires 3 * Max(Abs(x2 - fromX), Abs(y2 - fromY)) < I32_LIMIT
      modifies this
      ensures calls == old(calls) + PlotAll(Line(fromX, fromY, x2, y2), color)
    {
      var x1: int, y1: int := fromX, fromY;
      var dx: int, height: int := Abs(x2 - x1), Abs(y2 - y1);
      var dy := -height;
      var sx := if x1 < x2 then 1 else -1;
      var sy := if y1 < y2 then 1 else -1;
      var err := dx + dy;
      ghost var i: nat, j: nat, k: nat := 0, 0, 0;
      ghost var a: nat, b: nat := dx, height;
      BeginsAt(a, b);
      hide Reached, OnLine, Steps, Offset, Line, LinePixel, Plot, PlotAll, At, Abs, Max, LastIndex, Direction, AsU32;
      NoCalls(Line(fromX, fromY, x2, y2), color);
      StartsAt(fromX, sx);
      StartsAt(fromY, sy);
      while true
        invariant x1 == At(fromX, sx, i) && y1 == At(fromY, sy, j)
        invariant Reached(a, b, i, j, k)
        invariant err == Offset(a, b, i, j) + a - b
        invariant calls == old(calls) + PlotAll(Line(fromX, fromY, x2, y2)[..k], color)
        decreases a + b - i - j
      {
        WithinBox(a, b, i, j, k);
        ReachedEnd(fromX, x2, sx, a, i);
        ReachedEnd(fromY, y2, sy, b, j);
        NextPlot(old(calls), fromX, fromY, x2, y2, k, i, j, color);
        SetPixelAt(x1, y1, color);
        if x1 == x2 && y1 == y2 {
          break;
        }
        Advance(a, b, i, j, k, err);
        OneMore(fromX, sx, i);
        OneMore(fromY, sy, j);
        i, j := if 2 * err + b >= 0 then i + 1 else i, if 2 * err <= a then j + 1 else j;
        x1, y1, err := Step(x1, y1, err, dx, dy, sx, sy);
        k := k + 1;
      }
    }

    /** The tests and updates at the end of the loop body. */
    static method Step(x: int, y: int, error: int, dx: int, dy: int, sx: int, sy: int) returns (x1: int, y1: int, err: int)
      requires IsI32(error) && IsI32(2 * error)
      ensures x1 == if 2 * error >= dy then x + sx else x
      ensures y1 == if 2 * error <= dx then y + sy else y
      ensures err == error + (if 2 * error >= dy then dy else 0) + (if 2 * error <= dx then dx else 0)
    {
      x1, y1, err := x, y, error;
      var e2 := 2 * err;
      if e2 >= dy {
        err := err + dy;
        x1 := x1 + sx;
      }
      if e2 <= dx {
        err := err + dx;
        y1 := y1 + sy;
      }
    }

    static function At(from: int, s: int, i: nat): int {
      from + s * i
    }

    static lemma StartsAt(from: int, s: int)
      ensures At(from, s, 0) == from
    {
    }

    static lemma OneMore(from: int, s: int, i: nat)
      ensures At(from, s, i + 1) == At(from, s, i) + s
    {
    }

    /** The loop has come to the `k`-th pixel, `i` steps along x and `j` along y. */
    static ghost predicate Reached(a: nat, b: nat, i: nat, j: nat, k: nat) {
      && OnLine(a, b, i, j) && (i, j) == Steps(a, b, k) && i <= a && j <= b
      && k == (if b <= a then i else j) && k <= Max(a, b) && (k == Max(a, b) <==> i == a && j == b)
    }

    static lemma BeginsAt(a: nat, b: nat)
      ensures Reached(a, b, 0, 0, 0) && Offset(a, b, 0, 0) == 0
    {
      StepsOnLine(a, b, 0);
    }

    static lemma WithinBox(a: nat, b: nat, i: nat, j: nat, k: nat)
      requires Reached(a, b, i, j, k)
      ensures i <= a && j <= b && (i, j) == Steps(a, b, k) && k <= Max(a, b) && (i == a && j == b ==> k == Max(a, b))
    {
    }

    /** One round of the loop, on the error term of the source. */
    static lemma Advance(a: nat, b: nat, i: nat, j: nat, k: nat, err: int)
      requires Reached(a, b, i, j, k) && err == Offset(a, b, i, j) + a - b && (i < a || j < b)
      ensures var i' := if 2 * err + b >= 0 then i + 1 else i;
              var j' := if 2 * err <= a then j + 1 else j;
              && Reached(a, b, i', j', k + 1) && i + j < i' + j'
              && err - (if 2 * err + b >= 0 then b else 0) + (if 2 * err <= a then a else 0) == Offset(a, b, i', j') + a - b
      ensures -3 * Max(a, b) <= 2 * err <= 3 * Max(a, b)
    {
      NextPixel(a, b, i, j, err);
      var i' := if 2 * err + b >= 0 then i + 1 else i;
      var j' := if 2 * err <= a then j + 1 else j;
      OnLineIsSteps(a, b, i', j', k + 1);
      StaysInBox(a, b, i', j');
    }

    static lemma PixelOf(x1: int, y1: int, x2: int, y2: int, k: nat, i: nat, j: nat)
      requires (i, j) == Steps(Abs(x2 - x1), Abs(y2 - y1), k) && k <= Max(Abs(x2 - x1), Abs(y2 - y1))
      ensures |Line(x1, y1, x2, y2)| == Max(Abs(x2 - x1), Abs(y2 - y1)) + 1
      ensures Line(x1, y1, x2, y2)[k] ==
              Pixel(At(x1, if x1 < x2 then 1 else -1, i), At(y1, if y1 < y2 then 1 else -1, j))
    {
    }

    static lemma NoCalls(line: seq<Pixel>, color: nat)
      ensures PlotAll(line[..0], color) == []
    {
    }

    static lemma NextCall(line: seq<Pixel>, k: nat, color: nat)
      requires k < |line|
      ensures PlotAll(line[..k + 1], color) == PlotAll(line[..k], color) + [Plot(line[k], color)]
    {
    }

    /** The `k`-th pixel's call after those of the pixels before it. */
    static lemma NextPlot(done: seq<Call>, x1: int, y1: int, x2: int, y2: int, k: nat, i: nat, j: nat, color: nat)
      requires (i, j) == Steps(Abs(x2 - x1), Abs(y2 - y1), k) && k <= Max(Abs(x2 - x1), Abs(y2 - y1))
      ensures var line := Line(x1, y1, x2, y2);
              var p := Pixel(At(x1, if x1 < x2 then 1 else -1, i), At(y1, if y1 < y2 then 1 else -1, j));
              && |line| == Max(Abs(x2 - x1), Abs(y2 - y1)) + 1 && (k + 1 == |line| ==> line[..k + 1] == line)
              && done + PlotAll(line[..k], color) + [Plot(p, color)] == done + PlotAll(line[..k + 1], color)
    {
      hide Line, Steps, Plot, At;
      PixelOf(x1, y1, x2, y2, k, i, j);
      NextCall(Line(x1, y1, x2, y2), k, color);
      hide PlotAll;
      Regroup(done, PlotAll(Line(x1, y1, x2, y2)[..k], color), [Plot(Line(x1, y1, x2, y2)[k], color)]);
    }

    static lemma ReachedEnd(from: int, to: int, s: int, a: nat, i: nat)
      requires a == Abs(to - from) && s == (if from < to then 1 else -1) && i <= a
      ensures At(from, s, i) == to <==> i == a
    {
    }

    /** `draw_circle`: the octant's pixels and their mirror images, row by row. */
    method DrawCircle(cx: nat, cy: nat, radius: nat, color: nat) returns (ghost xs: seq<int>)
      requires cx + radius < I32_LIMIT && cy + radius < I32_LIMIT && radius <= 0x4000_0000
      modifies this
      ensures IsOctant(radius, xs)
      ensures calls == old(calls) + PlotAll(CirclePixels(cx, cy, xs), color)
    {
      hide OnArc, Error, NoMore, Mirrored, Spans, CirclePixels, CircleSpans, PlotAll;
      NoPixels(cx, cy, color);
      var x: int, y: int, err: int := radius, 0, 0;
      xs := [];
      ArcStart(radius);
      while x >= y
        invariant 0 <= y == |xs| && y <= radius + 1 && -1 <= x <= radius
        invariant forall k :: 0 <= k < |xs| ==> k <= xs[k] && OnArc(radius, xs[k], k)
        invariant err == Error(radius, x, y)
        invariant if y <= x then OnArc(radius, x, y) else NoMore(radius, y)
        invariant calls == old(calls) + PlotAll(CirclePixels(cx, cy, xs), color)
        decreases x - y
      {
        PlotEight(cx, cy, x, y, color);
        PlotAppend(CirclePixels(cx, cy, xs), Mirrored(cx, cy, x, y), color);
        Regroup(old(calls), PlotAll(CirclePixels(cx, cy, xs), color), PlotAll(Mirrored(cx, cy, x, y), color));
        NextColumn(cx, cy, xs, x, color);
        xs := xs + [x];
        ErrorBounds(radius, x, y);
        RowBelowRadius(radius, x, y);
        NextRow(radius, x, y, err);
        y := y + 1;
        if err <= 0 {
          assert IsI32(2 * y + 1) && IsI32(err + 2 * y) && IsI32(err + 2 * y + 1);
          err := err + 2 * y + 1;
        }
        if err > 0 {
          x := x - 1;
          assert IsI32(2 * x + 1) && IsI32(err - (2 * x + 1));
          err := err - (2 * x + 1);
        }
      }
    }

    static lemma NoPixels(cx: int, cy: int, color: nat)
      ensures PlotAll(CirclePixels(cx, cy, []), color) == [] && CircleSpans(cx, cy, [], color) == []
    {
    }

    static lemma NextColumn(cx: int, cy: int, xs: seq<int>, x: int, color: nat)
      ensures CirclePixels(cx, cy, xs + [x]) == CirclePixels(cx, cy, xs) + Mirrored(cx, cy, x, |xs|)
      ensures CircleSpans(cx, cy, xs + [x], color) == CircleSpans(cx, cy, xs, color) + Spans(cx, cy, x, |xs|, color)
    {
      assert (xs + [x])[..|xs|] == xs;
    }

    static lemma ErrorBounds(r: nat, x: int, y: int)
      requires OnArc(r, x, y)
      ensures -2 * x <= Error(r, x, y) <= 0
    {
    }

    /** The octant is over well before its rows reach the radius. */
    static lemma RowBelowRadius(r: nat, x: int, y: int)
      requires OnArc(r, x, y) && 0 <= y <= x
      ensures y + 1 < r || (y <= 1 && r <= 2)
    {
      ArcWithinCircle(r, x, y);
      assert Square(1) == 1;
      if r < y + 1 {
        SquareOrder(r, y + 1);
      }
      if 1 < x {
        SquareOrder(1, x);
      }
    }

    /** The octant pixel and its seven mirror images. */
    method PlotEight(cx: int, cy: int, x: int, y: int, color: nat)
      modifies this
      ensures calls == old(calls) + PlotAll(Mirrored(cx, cy, x, y), color)
    {
      SetPixelAt(cx + x, cy + y, color);
      SetPixelAt(cx + y, cy + x, color);
      SetPixelAt(cx - y, cy + x, color);
      SetPixelAt(cx - x, cy + y, color);
      SetPixelAt(cx - x, cy - y, color);
      SetPixelAt(cx - y, cy - x, color);
      SetPixelAt(cx + y, cy - x, color);
      SetPixelAt(cx + x, cy - y, color);
    }

    static lemma PlotAppend(p: seq<Pixel>, q: seq<Pixel>, color: nat)
      ensures PlotAll(p + q, color) == PlotAll(p, color) + PlotAll(q, color)
    {
    }

    /** `fill_circle`: the same octant, with spans between the mirror images. */
    method FillCircle(cx: nat, cy: nat, radius: nat, color: nat) returns (ghost xs: seq<int>)
      requires cx + radius < I32_LIMIT && cy + radius < I32_LIMIT && radius <= 0x4000_0000
      modifies this
      ensures IsOctant(radius, xs)
      ensures calls == old(calls) + CircleSpans(cx, cy, xs, color)
    {
      hide OnArc, Error, NoMore, Mirrored, Spans, CirclePixels, CircleSpans, PlotAll;
      NoPixels(cx, cy, color);
      var x: int, y: int, err: int := radius, 0, 0;
      xs := [];
      ArcStart(radius);
      while x >= y
        invariant 0 <= y == |xs| && y <= radius + 1 && -1 <= x <= radius
        invariant forall k :: 0 <= k < |xs| ==> k <= xs[k] && OnArc(radius, xs[k], k)
        invariant err == Error(radius, x, y)
        invariant if y <= x then OnArc(radius, x, y) else NoMore(radius, y)
        invariant calls == old(calls) + CircleSpans(cx, cy, xs, color)
        decreases x - y
      {
        FillFour(cx, cy, x, y, color);
        Regroup(old(calls), CircleSpans(cx, cy, xs, color), Spans(cx, cy, x, y, color));
        NextColumn(cx, cy, xs, x, color);
        xs := xs + [x];
        ErrorBounds(radius, x, y);
        RowBelowRadius(radius, x, y);
        NextRow(radius, x, y, err);
        y := y + 1;
        if err <= 0 {
          assert IsI32(2 * y + 1) && IsI32(err + 2 * y) && IsI32(err + 2 * y + 1);
          err := err + 2 * y + 1;
        }
        if err > 0 {
          x := x - 1;
          assert IsI32(2 * x + 1) && IsI32(err - (2 * x + 1));
          err := err - (2 * x + 1);
        }
      }
    }

    method FillFour(cx: int, cy: int, x: int, y: int, color: nat)
      modifies this
      ensures calls == old(calls) + Spans(cx, cy, x, y, color)
    {
      DrawHLineAt(cx - x, cx + x, cy + y, color);
      DrawHLineAt(cx - x, cx + x, cy - y, color);
      DrawHLineAt(cx - y, cx + y, cy + x, color);
      DrawHLineAt(cx - y, cx + y, cy - x, color);
    }
  }
}
