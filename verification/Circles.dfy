// The arithmetic of circle drawing in drivers/src/hal/fb.rs: what the error term of
// the loop stands for and which pixel it picks in each row of the first octant.
module Circles {

  function Square(a: int): (s: int)
    ensures s >= 0
  {
    SquareSign(a);
    a * a
  }

  lemma SquareSign(a: int)
    ensures a * a >= 0
  {
  }

  /** The error term for the pixel (x, y). */
  function Error(r: nat, x: int, y: int): int {
    Square(x) + Square(y + 1) - 1 - Square(r)
  }

  /** The pixel the loop draws in row `y` of the first octant. */
  ghost predicate OnArc(r: nat, x: int, y: int) {
    0 <= x && -2 * x <= Error(r, x, y) <= 0
  }

  lemma SquareNext(a: int)
    ensures Square(a + 1) == Square(a) + 2 * a + 1
    ensures Square(a - 1) == Square(a) - 2 * a + 1
  {
  }

  lemma SquareOrder(a: int, b: int)
    requires 0 <= a < b
    ensures Square(a) < Square(b)
  {
    assert (b - a) * (b + a) > 0;
  }

  /** In each row there is only one such pixel: x is the integer square root of r^2 + 1 - (y + 1)^2. */
  lemma OnArcUnique(r: nat, x: int, x': int, y: int)
    requires OnArc(r, x, y) && OnArc(r, x', y)
    ensures x == x'
  {
    SquareNext(x);
    SquareNext(x');
    if x < x' {
      if x + 1 < x' {
        SquareOrder(x + 1, x');
      }
    } else if x' < x {
      if x' + 1 < x {
        SquareOrder(x' + 1, x);
      }
    }
  }

  /** Pixels drawn lie within the circle, and the next ones outwards do not. */
  lemma ArcWithinCircle(r: nat, x: int, y: int)
    requires OnArc(r, x, y) && 0 <= y
    ensures Square(x) + Square(y) <= Square(x) + Square(y + 1) - 1 <= Square(r)
    ensures Square(r) < Square(x + 1) + Square(y + 1)
  {
    SquareNext(x);
    SquareNext(y);
  }

  /**
   * It is the outermost one exactly when no pixel of the row lies in the ring between
   * r^2 - 2y, exclusive, and r^2.
   */
  lemma OutermostIff(r: nat, x: int, y: int)
    requires OnArc(r, x, y) && 0 <= y
    ensures Square(r) < Square(x + 1) + Square(y) <==>
            !exists s: nat :: Square(r) - 2 * y < Square(s) + Square(y) <= Square(r)
  {
    SquareNext(x);
    SquareNext(y);
    if Square(x + 1) + Square(y) <= Square(r) {
      var s: nat := x + 1;
      assert Square(r) - 2 * y < Square(s) + Square(y) <= Square(r);
    } else {
      forall s: nat
        ensures !(Square(r) - 2 * y < Square(s) + Square(y) <= Square(r))
      {
        if s <= x {
          if s < x {
            SquareOrder(s, x);
          }
        } else if x + 1 < s {
          SquareOrder(x + 1, s);
        }
      }
    }
  }

  /** The loop starts on the circle. */
  lemma ArcStart(r: nat)
    ensures OnArc(r, r, 0) && Error(r, r, 0) == 0
  {
    assert Square(1) == 1;
  }

  /** One round of the loop, on the error term of the source: the next row's pixel, or the end of the octant. */
  lemma NextRow(r: nat, x: int, y: int, err: int)
    requires OnArc(r, x, y) && 0 <= y <= x && err == Error(r, x, y)
    ensures err <= 0
    ensures var e1 := err + 2 * (y + 1) + 1;
            var x' := if e1 > 0 then x - 1 else x;
            var e2 := if e1 > 0 then e1 - (2 * x' + 1) else e1;
            && e2 == Error(r, x', y + 1)
            && (y + 1 <= x' ==> OnArc(r, x', y + 1))
            && (x' < y + 1 ==> NoMore(r, y + 1))
  {
    SquareNext(x);
    SquareNext(y + 1);
    var e1 := err + 2 * (y + 1) + 1;
    var x' := if e1 > 0 then x - 1 else x;
    if x' < y + 1 {
      var row := y + 1;
      forall z | row <= z
        ensures !OnArc(r, z, row)
      {
        OctantEnds(r, x, y, z);
      }
    }
  }

  /** Row `y` has no pixel in the first octant any more. */
  ghost predicate NoMore(r: nat, y: int) {
    forall z :: y <= z ==> !OnArc(r, z, y)
  }

  lemma OctantEnds(r: nat, x: int, y: int, z: int)
    requires OnArc(r, x, y) && 0 <= y <= x && y + 1 <= z
    requires x < y + 1 || (x == y + 1 && Error(r, x, y + 1) > 0)
    ensures !OnArc(r, z, y + 1)
  {
    SquareNext(x);
    SquareNext(y);
    SquareNext(y + 1);
    if y + 1 < z {
      SquareOrder(y + 1, z);
    }
  }

  /** Along the octant x falls by one at a time. */
  lemma FallsByOne(r: nat, x: int, x': int, y: int)
    requires OnArc(r, x, y) && OnArc(r, x', y + 1) && 0 <= y <= x && y + 1 <= x'
    ensures x - 1 <= x' <= x
  {
    NextRow(r, x, y, Error(r, x, y));
    var e1 := Error(r, x, y) + 2 * (y + 1) + 1;
    var x'' := if e1 > 0 then x - 1 else x;
    if y + 1 <= x'' {
      OnArcUnique(r, x', x'', y + 1);
    }
  }

  /** The columns of the first octant, row by row, as far as it goes. */
  ghost predicate IsOctant(r: nat, xs: seq<int>) {
    && (forall y :: 0 <= y < |xs| ==> y <= xs[y] && OnArc(r, xs[y], y))
    && NoMore(r, |xs|)
  }

  lemma OctantUnique(r: nat, xs: seq<int>, xs': seq<int>)
    requires IsOctant(r, xs) && IsOctant(r, xs')
    ensures xs == xs'
  {
    forall y | 0 <= y < |xs| && y < |xs'|
      ensures xs[y] == xs'[y]
    {
      OnArcUnique(r, xs[y], xs'[y], y);
    }
    hide OnArc, NoMore;
    HasMore(r, xs, |xs'|);
    HasMore(r, xs', |xs|);
  }

  lemma HasMore(r: nat, xs: seq<int>, y: nat)
    ensures IsOctant(r, xs) && y < |xs| ==> !NoMore(r, y)
  {
    if IsOctant(r, xs) && y < |xs| {
      assert OnArc(r, xs[y], y);
    }
  }

  // ---- Filled circles ----

  lemma OctantStart(r: nat, xs: seq<int>)
    requires IsOctant(r, xs)
    ensures |xs| > 0 && xs[0] == r
  {
    ArcStart(r);
    hide OnArc;
    assert |xs| == 0 ==> !OnArc(r, r, 0);
    OnArcUnique(r, r, xs[0], 0);
  }

  /** The octant ends on the diagonal: no gap between its last row and its last column. */
  lemma OctantEnd(r: nat, xs: seq<int>)
    requires IsOctant(r, xs) && |xs| > 0
    ensures xs[|xs| - 1] <= |xs|
  {
    var y := |xs| - 1;
    var x := xs[y];
    assert OnArc(r, x, y);
    NextRow(r, x, y, Error(r, x, y));
    hide OnArc;
    var e1 := Error(r, x, y) + 2 * (y + 1) + 1;
    var x' := if e1 > 0 then x - 1 else x;
    assert |xs| <= x' ==> !OnArc(r, x', |xs|);
  }

  /** It need not be: for radius 5, row 3, the loop draws (3, 3) although (4, 3) is on the circle. */
  lemma NotAlwaysOutermost(xs: seq<int>)
    requires IsOctant(5, xs)
    ensures |xs| > 3 && xs[3] == 3 && Square(4) + Square(3) == Square(5)
  {
    assert OnArc(5, 5, 0) && OnArc(5, 4, 1) && OnArc(5, 4, 2) && OnArc(5, 3, 3);
    hide OnArc;
    OnArcUnique(5, xs[3], 3, 3);
  }

  /** Every column between those of two rows is met on the way. */
  lemma {:induction false} ColumnMet(r: nat, xs: seq<int>, first: nat, y: nat, d: int) returns (row: nat)
    requires IsOctant(r, xs) && first <= y < |xs| && xs[y] <= d <= xs[first]
    ensures first <= row <= y && xs[row] == d
    decreases y
  {
    if xs[y] == d {
      row := y;
    } else {
      assert y > first;
      FallsByOne(r, xs[y - 1], xs[y], y - 1);
      row := ColumnMet(r, xs, first, y - 1, d);
    }
  }

  /** The pixel of a row is an integer square root: of r^2 + 1 - (y + 1)^2. */
  lemma ArcIsRoot(r: nat, x: int, y: int)
    ensures OnArc(r, x, y) <==> 0 <= x && x * x <= r * r + 1 - (y + 1) * (y + 1) < (x + 1) * (x + 1)
  {
    SquareNext(x);
    assert Square(x) == x * x && Square(x + 1) == (x + 1) * (x + 1);
    assert Square(y + 1) == (y + 1) * (y + 1) && Square(r) == r * r;
  }

  /** Which rows the octant has, and the pixel of each, in numbers only. */
  lemma OctantRows(r: nat, xs: seq<int>, y: nat)
    requires IsOctant(r, xs)
    ensures y < |xs| <==> y * y + (y + 1) * (y + 1) <= r * r + 1
    ensures y < |xs| ==> y <= xs[y] && xs[y] * xs[y] <= r * r + 1 - (y + 1) * (y + 1) < (xs[y] + 1) * (xs[y] + 1)
  {
    assert Square(y) == y * y && Square(y + 1) == (y + 1) * (y + 1) && Square(r) == r * r;
    if y < |xs| {
      assert OnArc(r, xs[y], y);
      ArcIsRoot(r, xs[y], y);
      ErrorMonotone(r, xs[y], y, y, y);
    } else if Error(r, y, y) <= 0 {
      LongReached(r, xs, y, y);
    }
  }

  // ---- Which pixels the spans of a filled circle cover ----

  lemma ErrorMonotone(r: nat, x: nat, y: nat, x': nat, y': nat)
    requires x' <= x && y' <= y && Error(r, x, y) <= 0
    ensures Error(r, x', y') <= 0
  {
    SmallerSquare(x', x);
    SmallerSquare(y' + 1, y + 1);
  }

  /** A pixel the error term admits has the arc's pixel of its row at or beyond it. */
  lemma {:induction false} ArcBeyond(r: nat, x: nat, y: nat) returns (z: nat)
    requires Error(r, x, y) <= 0
    ensures z >= x && OnArc(r, z, y)
    decreases r - x
  {
    SquareNext(x);
    if Error(r, x + 1, y) <= 0 {
      if r < x + 1 {
        SquareOrder(r, x + 1);
      }
      SquareOrder(0, y + 1);
      z := ArcBeyond(r, x + 1, y);
    } else {
      z := x;
    }
  }

  /** Offset (a, b) from the centre is in a span: of a row of the octant, or of a column. */
  ghost predicate Spanned(xs: seq<int>, a: nat, b: nat) {
    exists y :: 0 <= y < |xs| && ((b == y && a <= xs[y]) || (b == xs[y] && a <= y))
  }

  /** With the longer leg l and the shorter one s: l^2 + (s + 1)^2 - 1 <= r^2. */
  predicate Filled(r: nat, a: nat, b: nat) {
    if b <= a then Error(r, a, b) <= 0 else Error(r, b, a) <= 0
  }

  /** The spans cover exactly those offsets. */
  lemma SpannedIff(r: nat, xs: seq<int>, a: nat, b: nat)
    requires IsOctant(r, xs)
    ensures Spanned(xs, a, b) <==> Filled(r, a, b)
  {
    if Spanned(xs, a, b) {
      var y :| 0 <= y < |xs| && ((b == y && a <= xs[y]) || (b == xs[y] && a <= y));
      assert OnArc(r, xs[y], y);
      if b <= a {
        ErrorMonotone(r, xs[y], y, a, b);
      } else {
        ErrorMonotone(r, xs[y], y, b, a);
      }
    }
    if Filled(r, a, b) {
      FilledSpanned(r, xs, a, b);
    }
  }

  lemma FilledSpanned(r: nat, xs: seq<int>, a: nat, b: nat)
    requires IsOctant(r, xs) && Filled(r, a, b)
    ensures Spanned(xs, a, b)
  {
    var long, short := if b <= a then a else b, if b <= a then b else a;
    LongReached(r, xs, long, short);
    hide OnArc, NoMore, Error;
    if b <= a {
      assert b == short && a <= xs[short];
    } else if b < |xs| {
      assert b <= xs[b];
    } else {
      OctantEnd(r, xs);
      var row := ColumnMet(r, xs, a, |xs| - 1, b);
    }
  }

  lemma LongReached(r: nat, xs: seq<int>, long: nat, short: nat)
    requires IsOctant(r, xs) && short <= long && Error(r, long, short) <= 0
    ensures short < |xs| && long <= xs[short]
  {
    if |xs| <= short {
      ErrorMonotone(r, long, short, |xs|, |xs|);
      var z := ArcBeyond(r, |xs|, |xs|);
      assert false;
    }
    var z := ArcBeyond(r, long, short);
    OnArcUnique(r, z, xs[short], short);
  }

  /** No offset covered is outside the circle. */
  lemma FilledWithinCircle(r: nat, a: nat, b: nat)
    requires Filled(r, a, b)
    ensures Square(a) + Square(b) <= Square(r)
  {
    SquareNext(a);
    SquareNext(b);
  }

  /** Columns of the octant are at most the radius. */
  lemma WithinRadius(r: nat, x: int, y: int)
    requires OnArc(r, x, y) && 0 <= y <= x
    ensures 0 <= y <= x <= r
  {
    ArcWithinCircle(r, x, y);
    if r < x {
      SquareOrder(r, x);
    }
  }

  lemma SmallerSquare(a: int, b: int)
    requires -b <= a <= b
    ensures Square(a) <= Square(b)
  {
    assert (b - a) * (b + a) >= 0;
  }
}
