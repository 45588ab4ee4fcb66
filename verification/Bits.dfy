// Machine words as natural numbers, with the bitwise operators the kernel uses
// written out bit by bit.  The lemmas say what those operators mean
// arithmetically for the masks and powers of two that occur in the source.
module Bits {

  /** Bytes in a page */
  const PAGE_SIZE := 4096

  /** `1 << k` */
  function Pow2(k: nat): (p: nat)
    ensures p > 0
  {
    if k == 0 then 1 else 2 * Pow2(k - 1)
  }

  /** `a << k`, on words wide enough that no bit is lost */
  function Shl(a: nat, k: nat): (s: nat)
    ensures a > 0 ==> s > 0
  {
    if k == 0 then a else 2 * Shl(a, k - 1)
  }

  /** `a ^ b` */
  function Xor(a: nat, b: nat): nat {
    if a == 0 && b == 0 then 0 else (a % 2 + b % 2) % 2 + 2 * Xor(a / 2, b / 2)
  }

  /** `a & b` */
  function And(a: nat, b: nat): nat {
    if a == 0 then 0 else (if a % 2 == 1 && b % 2 == 1 then 1 else 0) + 2 * And(a / 2, b / 2)
  }

  /** `a & !b` */
  function AndNot(a: nat, b: nat): nat {
    if a == 0 then 0 else (if a % 2 == 1 && b % 2 == 0 then 1 else 0) + 2 * AndNot(a / 2, b / 2)
  }

  /** `a | b` */
  function Or(a: nat, b: nat): nat {
    if a == 0 && b == 0 then 0 else (if a % 2 == 1 || b % 2 == 1 then 1 else 0) + 2 * Or(a / 2, b / 2)
  }

  /** Rounding up to a multiple of `m`, as `(a + m - 1) & !(m - 1)` does for a power of two. */
  function RoundUp(a: nat, m: nat): nat
    requires m > 0
  {
    AndNot(a + m - 1, m - 1)
  }

  // ---- Arithmetic helpers ----

  lemma ProductNonNegative(x: nat, d: nat)
    ensures x * d >= 0
  {
  }

  lemma MulStrict(x: int, y: int, d: int)
    requires x < y && d > 0
    ensures x * d + d <= y * d
  {
    ProductNonNegative(y - x - 1, d);
    Distribute(y - x - 1, x + 1, d);
    Distribute(x, 1, d);
  }

  lemma MulLe(x: nat, y: nat, d: nat)
    requires x <= y
    ensures x * d <= y * d
  {
    ProductNonNegative(y - x, d);
    Distribute(y - x, x, d);
  }

  lemma DivModUnique(a: int, d: int, q: int, r: int)
    requires d > 0 && 0 <= r < d && a == q * d + r
    ensures a / d == q && a % d == r
  {
    var q' := a / d;
    if q < q' {
      MulStrict(q, q', d);
    } else if q' < q {
      MulStrict(q', q, d);
    }
  }

  lemma DivMod(a: nat, d: nat) returns (q: nat, r: nat)
    requires d > 0
    ensures q == a / d && r == a % d && r < d && a == q * d + r
  {
    q, r := a / d, a % d;
  }

  lemma ShlPow2(k: nat, j: nat)
    ensures Shl(Pow2(k), j) == Pow2(k + j)
  {
    if j > 0 {
      ShlPow2(k, j - 1);
    }
  }

  lemma TwiceMul(q: nat, p: nat, r: nat)
    ensures q * (2 * p) + 2 * r == 2 * (q * p + r) == (2 * q) * p + 2 * r
  {
  }

  lemma Distribute(x: int, y: int, p: int)
    ensures (x + y) * p == x * p + y * p
  {
  }

  // ---- One binary digit at a time ----

  lemma XorStep(x: nat, y: nat)
    ensures Xor(2 * x, 2 * y) == 2 * Xor(x, y)
  {
  }

  lemma AndStep(x: nat, c: nat, y: nat)
    requires c < 2
    ensures And(2 * x + c, 2 * y + 1) == c + 2 * And(x, y)
  {
  }

  lemma AndNotStep(x: nat, c: nat, y: nat)
    requires c < 2
    ensures AndNot(2 * x + c, 2 * y + 1) == 2 * AndNot(x, y)
  {
  }

  lemma OrStep(x: nat, y: nat, c: nat)
    requires c < 2
    ensures Or(2 * x, 2 * y + c) == c + 2 * Or(x, y)
  {
  }

  lemma {:induction false} XorZero(a: nat)
    ensures Xor(a, 0) == a
  {
    if a > 0 {
      XorZero(a / 2);
    }
  }

  lemma {:induction false} AndNotZero(a: nat)
    ensures AndNot(a, 0) == a
  {
    if a > 0 {
      AndNotZero(a / 2);
    }
  }

  lemma {:induction false} AndZero(a: nat)
    ensures And(a, 0) == 0
  {
    if a > 0 {
      AndZero(a / 2);
    }
  }

  lemma {:induction false} OrZero(a: nat)
    ensures Or(a, 0) == a
  {
    if a > 0 {
      OrZero(a / 2);
    }
  }

  /** The multiple of `2^k` that shares a `2^(k+1)` block with the `q`-th one. */
  function Sibling(q: nat): nat {
    if q % 2 == 0 then q + 1 else q - 1
  }

  lemma {:induction false} OrAssoc(a: nat, b: nat, c: nat)
    ensures Or(Or(a, b), c) == Or(a, Or(b, c))
  {
    if a != 0 || b != 0 || c != 0 {
      OrAssoc(a / 2, b / 2, c / 2);
    }
  }

  lemma {:induction false} XorMultiple(q: nat, k: nat)
    ensures Xor(q * Pow2(k), Pow2(k)) == Sibling(q) * Pow2(k)
    decreases k
  {
    if k == 0 {
      XorZero(q / 2);
      assert Xor(q, 1) == Sibling(q);
    } else {
      var p, s := Pow2(k - 1), Sibling(q);
      XorMultiple(q, k - 1);
      XorStep(q * p, p);
      TwiceMul(q, p, 0);
      TwiceMul(s, p, 0);
    }
  }

  lemma XorDigit(x: nat, y: nat)
    ensures Xor(x, 2 * y) == x % 2 + 2 * Xor(x / 2, y)
  {
  }

  lemma Sixteenfold(k: nat)
    requires k >= 4
    ensures Pow2(k) == 16 * Pow2(k - 4)
  {
    assert Pow2(k) == 2 * Pow2(k - 1) && Pow2(k - 1) == 2 * Pow2(k - 2);
    assert Pow2(k - 2) == 2 * Pow2(k - 3) && Pow2(k - 3) == 2 * Pow2(k - 4);
  }

  /** Flipping a bit from the fifth on leaves the low four. */
  lemma XorKeepsLow4(a: nat, k: nat)
    requires k >= 4
    ensures Xor(a, Pow2(k)) % 16 == a % 16
  {
    hide Xor, Pow2;
    Sixteenfold(k);
    var y := Pow2(k - 4);
    XorDigit(a, 8 * y);
    XorDigit(a / 2, 4 * y);
    XorDigit(a / 2 / 2, 2 * y);
    XorDigit(a / 2 / 2 / 2, y);
    FourDigits(a, Xor(a / 2 / 2 / 2 / 2, y));
  }

  lemma FourDigits(a: nat, x: nat)
    ensures (a % 2 + 2 * (a / 2 % 2 + 2 * (a / 2 / 2 % 2 + 2 * (a / 2 / 2 / 2 % 2 + 2 * x)))) % 16 == a % 16
  {
    var b, c, d, e := a / 2, a / 2 / 2, a / 2 / 2 / 2, a / 2 / 2 / 2 / 2;
    var low := a % 2 + 2 * (b % 2) + 4 * (c % 2) + 8 * (d % 2);
    DivModUnique(a, 16, e, low);
    DivModUnique(low + 16 * x, 16, x, low);
  }

  lemma {:induction false} AndSplit(q: nat, r: nat, k: nat)
    requires r < Pow2(k)
    ensures And(q * Pow2(k) + r, Pow2(k) - 1) == r
    decreases k
  {
    if k == 0 {
      AndZero(q);
    } else {
      var p, h, c := Pow2(k - 1), r / 2, r % 2;
      AndSplit(q, h, k - 1);
      TwiceMul(q, p, h);
      AndStep(q * p + h, c, p - 1);
    }
  }

  lemma {:induction false} AndNotSplit(q: nat, r: nat, k: nat)
    requires r < Pow2(k)
    ensures AndNot(q * Pow2(k) + r, Pow2(k) - 1) == q * Pow2(k)
    decreases k
  {
    if k == 0 {
      AndNotZero(q);
    } else {
      var p, h, c := Pow2(k - 1), r / 2, r % 2;
      AndNotSplit(q, h, k - 1);
      TwiceMul(q, p, h);
      TwiceMul(q, p, 0);
      AndNotStep(q * p + h, c, p - 1);
    }
  }

  lemma {:induction false} OrSplit(q: nat, r: nat, k: nat)
    requires r < Pow2(k)
    ensures Or(q * Pow2(k), r) == q * Pow2(k) + r
    decreases k
  {
    if k == 0 {
      OrZero(q);
    } else {
      var p, h, c := Pow2(k - 1), r / 2, r % 2;
      OrSplit(q, h, k - 1);
      TwiceMul(q, p, 0);
      OrStep(q * p, h, c);
    }
  }

  /** A mask below `2^k` sees only the low `k` bits. */
  lemma {:induction false} AndLow(q: nat, r: nat, m: nat, k: nat)
    requires r < Pow2(k) && m < Pow2(k)
    ensures And(q * Pow2(k) + r, m) == And(r, m)
    decreases k
  {
    if k == 0 {
      AndZero(q);
    } else {
      var p, h, c := Pow2(k - 1), r / 2, r % 2;
      AndLow(q, h, m / 2, k - 1);
      TwiceMul(q, p, h);
      AndDigit(q * p + h, c, m);
      AndDigit(h, c, m);
    }
  }

  lemma AndDigit(x: nat, c: nat, m: nat)
    requires c < 2
    ensures And(2 * x + c, m) == (if c == 1 && m % 2 == 1 then 1 else 0) + 2 * And(x, m / 2)
  {
  }

  // ---- What the operators mean on the operands the kernel gives them ----

  /** On a word aligned to `2^k`, `^ 2^k` steps to the other half of the enclosing `2^(k+1)` block. */
  lemma XorPow2(a: nat, k: nat)
    requires a % Pow2(k) == 0
    ensures Xor(a, Pow2(k)) == if a % Pow2(k + 1) == 0 then a + Pow2(k) else a - Pow2(k)
  {
    var p := Pow2(k);
    var q, r := DivMod(a, p);
    XorMultiple(q, k);
    MultipleParity(q, p);
  }

  /** An even multiple of `p` is a multiple of `2 * p`; an odd one leaves `p`. */
  lemma MultipleParity(q: nat, p: nat)
    requires p > 0
    ensures (q * p) % (2 * p) == if q % 2 == 0 then 0 else p
    ensures (q + 1) * p == q * p + p && (q - 1) * p == q * p - p
  {
    if q % 2 == 0 {
      TwiceMul(q / 2, p, 0);
      DivModUnique(q * p, 2 * p, q / 2, 0);
    } else {
      TwiceMul(q / 2, p, 0);
      Distribute(q - 1, 1, p);
      DivModUnique(q * p, 2 * p, q / 2, p);
    }
    Distribute(q, 1, p);
    Distribute(q - 1, 1, p);
  }

  /** `a & (2^k - 1)` is the remainder modulo `2^k`. */
  lemma AndMask(a: nat, k: nat)
    ensures And(a, Pow2(k) - 1) == a % Pow2(k)
  {
    var q, r := DivMod(a, Pow2(k));
    AndSplit(q, r, k);
  }

  /** `a & !(2^k - 1)` clears the remainder modulo `2^k`. */
  lemma AndNotMask(a: nat, k: nat)
    ensures AndNot(a, Pow2(k) - 1) == a - a % Pow2(k)
  {
    var q, r := DivMod(a, Pow2(k));
    AndNotSplit(q, r, k);
  }

  /** Or of a word whose low `k` bits are clear with a word below `2^k` is their sum. */
  lemma OrDisjoint(a: nat, b: nat, k: nat)
    requires a % Pow2(k) == 0 && b < Pow2(k)
    ensures Or(a, b) == a + b
  {
    var q, r := DivMod(a, Pow2(k));
    OrSplit(q, b, k);
  }

  lemma {:induction false} CoarserPow2(a: nat, k: nat, j: nat)
    requires a % Pow2(k) == 0 && j <= k
    ensures a % Pow2(j) == 0
    decreases k
  {
    if j < k {
      var p := Pow2(k - 1);
      var q, r := DivMod(a, Pow2(k));
      TwiceMul(q, p, 0);
      DivModUnique(a, p, 2 * q, 0);
      CoarserPow2(a, k - 1, j);
    }
  }

  lemma {:induction false} Pow2Monotone(j: nat, k: nat)
    requires j <= k
    ensures Pow2(j) <= Pow2(k)
    decreases k
  {
    if j < k {
      Pow2Monotone(j, k - 1);
    }
  }

  lemma MultiplesApart(a: nat, b: nat, m: nat)
    requires m > 0 && a % m == 0 && b % m == 0 && a < b
    ensures a + m <= b
  {
    var q, r := DivMod(a, m);
    var q', r' := DivMod(b, m);
    if q < q' {
      MulStrict(q, q', m);
    } else if q' < q {
      MulStrict(q', q, m);
    }
  }

  lemma SumOfMultiples(a: nat, b: nat, m: nat)
    requires m > 0 && a % m == 0 && b % m == 0
    ensures (a + b) % m == 0
  {
    var q, r := DivMod(a, m);
    var q', r' := DivMod(b, m);
    Distribute(q, q', m);
    DivModUnique(a + b, m, q + q', 0);
  }

  lemma FloorMultiple(s: nat, p: nat)
    requires p > 0
    ensures (s - s % p) % p == 0
    ensures s - s % p + p > s
  {
    DivModUnique(s - s % p, p, s / p, 0);
  }

  /** The round-up idiom yields the least multiple of `2^k` that is not below `a`. */
  lemma RoundUpMeaning(a: nat, k: nat)
    ensures var u := RoundUp(a, Pow2(k)); a <= u < a + Pow2(k) && u % Pow2(k) == 0
  {
    var s := a + Pow2(k) - 1;
    AndNotMask(s, k);
    FloorMultiple(s, Pow2(k));
    assert s % Pow2(k) <= Pow2(k) - 1;
  }
}
