// The arithmetic of the line drawing in drivers/src/hal/fb.rs: which pixel is the
// k-th of a line, in closed form, and what the error term of the loop stands for.
module Lines {
  import opened Bits

  datatype Pixel = Pixel(x: int, y: int)

  function Abs(a: int): nat {
    if a < 0 then -a else a
  }

  function Max(a: int, b: int): int {
    if a < b then b else a
  }

  /** Nearest integer to k * b / a, halves rounded up. */
  function Nearest(k: nat, b: nat, a: nat): nat
    requires a > 0
  {
    (2 * (k * b) + a) / (2 * a)
  }

  /** Steps made along x and along y when `k` pixels lie behind, on a line spanning `a` by `b`. */
  function Steps(a: nat, b: nat, k: nat): (nat, nat) {
    if a == 0 && b == 0 then (0, 0)
    else if b <= a then (k, Nearest(k, b, a))
    else (Nearest(k, a, b), k)
  }

  function Direction(from: int, to: int): int {
    if from < to then 1 else -1
  }

  /** The k-th pixel of the line from (x1, y1) to (x2, y2). */
  function LinePixel(x1: int, y1: int, x2: int, y2: int, k: nat): Pixel {
    var (i, j) := Steps(Abs(x2 - x1), Abs(y2 - y1), k);
    Pixel(x1 + Direction(x1, x2) * i, y1 + Direction(y1, y2) * j)
  }

  function LastIndex(x1: int, y1: int, x2: int, y2: int): nat {
    Max(Abs(x2 - x1), Abs(y2 - y1))
  }

  /** Signed distance of (i, j) from the ideal line, scaled by its longer side. */
  function Offset(a: nat, b: nat, i: nat, j: nat): int {
    a * j - b * i
  }

  /** (i, j) is the pixel nearest to the ideal line in its column, or in its row if the line is steep. */
  ghost predicate OnLine(a: nat, b: nat, i: nat, j: nat) {
    var d := Offset(a, b, i, j);
    if b <= a then (a > 0 ==> 0 < 2 * d + a <= 2 * a) else 0 <= 2 * d + b < 2 * b
  }

  /** Being nearest to the ideal line pins the pixel down. */
  lemma OnLineIsSteps(a: nat, b: nat, i: nat, j: nat, k: nat)
    requires a > 0 || b > 0
    requires if b <= a then i == k else j == k
    ensures OnLine(a, b, i, j) <==> (i, j) == Steps(a, b, k)
  {
    if b <= a {
      NearestIs(k, b, a, j);
      Distribute3(a, j);
    } else {
      NearestIs(k, a, b, i);
      Distribute3(b, i);
    }
    Commute(a, b, i, j);
  }

  lemma Commute(a: nat, b: nat, i: nat, j: nat)
    ensures a * j == j * a && b * i == i * b
  {
  }

  lemma Distribute3(a: nat, j: nat)
    ensures j * (2 * a) == 2 * (j * a)
  {
  }

  lemma NearestIs(k: nat, b: nat, a: nat, n: nat)
    requires a > 0
    ensures Nearest(k, b, a) == n <==> n * (2 * a) <= 2 * (k * b) + a < n * (2 * a) + 2 * a
  {
    var s := 2 * (k * b) + a;
    var q, r := DivMod(s, 2 * a);
    if n * (2 * a) <= s < n * (2 * a) + 2 * a {
      DivModUnique(s, 2 * a, n, s - n * (2 * a));
    }
  }

  /** The tests of the loop, on the error term of the source, choose the next pixel. */
  lemma NextPixel(a: nat, b: nat, i: nat, j: nat, err: int)
    requires OnLine(a, b, i, j) && err == Offset(a, b, i, j) + a - b && (a > 0 || b > 0)
    ensures var i' := if 2 * err + b >= 0 then i + 1 else i;
            var j' := if 2 * err <= a then j + 1 else j;
            && OnLine(a, b, i', j')
            && (b <= a ==> i' == i + 1) && (a < b ==> j' == j + 1)
            && err - (if 2 * err + b >= 0 then b else 0) + (if 2 * err <= a then a else 0) == Offset(a, b, i', j') + a - b
    ensures -3 * Max(a, b) <= 2 * err <= 3 * Max(a, b)
  {
    assert a * (j + 1) == a * j + a && b * (i + 1) == b * i + b;
  }

  /** The longer side is walked one by one; the shorter one is never overshot and is finished at the same time. */
  lemma StaysInBox(a: nat, b: nat, i: nat, j: nat)
    requires OnLine(a, b, i, j) && (a > 0 || b > 0)
    requires if b <= a then i <= a else j <= b
    ensures i <= a && j <= b
    ensures (i == a && j == b) <==> (if b <= a then i == a else j == b)
  {
    if b <= a {
      MinorBound(a, b, i, j);
    } else {
      MinorBound'(a, b, i, j);
    }
  }

  lemma MinorBound(a: nat, b: nat, i: nat, j: nat)
    requires 0 < a && 0 < 2 * (a * j - b * i) + a <= 2 * a && i <= a
    ensures j <= b && (i == a ==> j == b)
  {
    MulLe(i, a, b);
    if j > b {
      MulStrict(b, j, a);
    } else if j < b && i == a {
      MulStrict(j, b, a);
    }
  }

  lemma MinorBound'(a: nat, b: nat, i: nat, j: nat)
    requires 0 < b && 0 <= 2 * (a * j - b * i) + b < 2 * b && j <= b
    ensures i <= a && (j == b ==> i == a)
  {
    MulLe(j, b, a);
    if i > a {
      MulStrict(a, i, b);
    } else if i < a && j == b {
      MulStrict(i, a, b);
    }
  }

  // ---- Lines ----

  /** All pixels of a line, in drawing order: one more than the longer side has steps. */
  function Line(x1: int, y1: int, x2: int, y2: int): seq<Pixel> {
    seq(LastIndex(x1, y1, x2, y2) + 1, (k: nat) => LinePixel(x1, y1, x2, y2, k))
  }

  lemma StepsOnLine(a: nat, b: nat, k: nat)
    requires k <= Max(a, b)
    ensures var (i, j) := Steps(a, b, k);
            && OnLine(a, b, i, j) && i <= a && j <= b
            && (if b <= a then i == k else j == k)
            && (k == Max(a, b) ==> i == a && j == b) && (k == 0 ==> i == 0 && j == 0)
  {
    if a > 0 || b > 0 {
      var (i, j) := Steps(a, b, k);
      OnLineIsSteps(a, b, i, j, k);
      StaysInBox(a, b, i, j);
      OnLineIsSteps(a, b, 0, 0, 0);
    }
  }

  /** A line begins and ends where it should. */
  lemma LineEnds(x1: int, y1: int, x2: int, y2: int)
    ensures var line := Line(x1, y1, x2, y2);
            line[0] == Pixel(x1, y1) && line[|line| - 1] == Pixel(x2, y2)
  {
    var a, b := Abs(x2 - x1), Abs(y2 - y1);
    StepsOnLine(a, b, 0);
    StepsOnLine(a, b, Max(a, b));
    DirectionTimes(x1, x2);
    DirectionTimes(y1, y2);
  }

  lemma DirectionTimes(from: int, to: int)
    ensures from + Direction(from, to) * Abs(to - from) == to
    ensures from + Direction(from, to) * 0 == from
  {
  }

  /** Each pixel touches the next: one step along the longer side, at most one along the other. */
  lemma LineConnected(x1: int, y1: int, x2: int, y2: int, k: nat)
    requires k + 1 < |Line(x1, y1, x2, y2)|
    ensures var p, q := Line(x1, y1, x2, y2)[k], Line(x1, y1, x2, y2)[k + 1];
            && Abs(q.x - p.x) <= 1 && Abs(q.y - p.y) <= 1
            && (if Abs(y2 - y1) <= Abs(x2 - x1) then Abs(q.x - p.x) == 1 else Abs(q.y - p.y) == 1)
  {
    var a, b := Abs(x2 - x1), Abs(y2 - y1);
    StepsOnLine(a, b, k);
    StepsOnLine(a, b, k + 1);
    var (i, j) := Steps(a, b, k);
    var err := Offset(a, b, i, j) + a - b;
    NextPixel(a, b, i, j, err);
    var i' := if 2 * err + b >= 0 then i + 1 else i;
    var j' := if 2 * err <= a then j + 1 else j;
    OnLineIsSteps(a, b, i', j', k + 1);
    OneStep(Direction(x1, x2), x1, i, i');
    OneStep(Direction(y1, y2), y1, j, j');
  }

  lemma OneStep(s: int, from: int, i: nat, i': nat)
    requires s == 1 || s == -1
    requires i' == i || i' == i + 1
    ensures Abs((from + s * i') - (from + s * i)) == i' - i
  {
  }

  /** No pixel is further than half a pixel from the ideal line, measured along the shorter side. */
  lemma LineHalfPixel(x1: int, y1: int, x2: int, y2: int, k: nat)
    requires k < |Line(x1, y1, x2, y2)|
    ensures var p := Line(x1, y1, x2, y2)[k];
            2 * Abs((x2 - x1) * (p.y - y1) - (y2 - y1) * (p.x - x1)) <= LastIndex(x1, y1, x2, y2)
  {
    var a, b := Abs(x2 - x1), Abs(y2 - y1);
    StepsOnLine(a, b, k);
    var (i, j) := Steps(a, b, k);
    SignedProduct(x2 - x1, Direction(x1, x2), a, y2 - y1, Direction(y1, y2), b, i, j);
  }

  lemma SignedProduct(dx: int, sx: int, a: int, dy: int, sy: int, b: int, i: int, j: int)
    requires (sx == 1 || sx == -1) && (sy == 1 || sy == -1) && dx == sx * a && dy == sy * b
    ensures dx * (sy * j) - dy * (sx * i) == sx * sy * (a * j - b * i)
    ensures Abs(dx * (sy * j) - dy * (sx * i)) == Abs(a * j - b * i)
  {
  }

  /**
   * Which pixel the k-th is, halves included: `k` steps along the longer side, and along the other as many as bring it
   * nearest to the ideal line; midway between two pixels, a flat line takes the further one and a steep line the nearer.
   */
  lemma NearestPixel(x1: int, y1: int, x2: int, y2: int, k: nat)
    requires k < |Line(x1, y1, x2, y2)|
    ensures var p, a: int, b: int := Line(x1, y1, x2, y2)[k], Abs(x2 - x1), Abs(y2 - y1);
            && (if x1 <= x2 then x1 <= p.x <= x2 else x2 <= p.x <= x1)
            && (if y1 <= y2 then y1 <= p.y <= y2 else y2 <= p.y <= y1)
            && (if b <= a then Abs(p.x - x1) == k && (a > 0 ==> -a < 2 * (a * Abs(p.y - y1) - b * k) <= a)
                else Abs(p.y - y1) == k && -b <= 2 * (a * k - b * Abs(p.x - x1)) < b)
  {
    var a, b := Abs(x2 - x1), Abs(y2 - y1);
    StepsOnLine(a, b, k);
    var (i, j) := Steps(a, b, k);
    StepsAlong(x1, x2, i);
    StepsAlong(y1, y2, j);
  }

  lemma StepsAlong(from: int, to: int, i: nat)
    requires i <= Abs(to - from)
    ensures var v := from + Direction(from, to) * i;
            Abs(v - from) == i && if from <= to then from <= v <= to else to <= v <= from
  {
  }
}
