/**
 * Python's integer division operators. Dafny's `/` and `%` are Euclidean;
 * Python's `//` rounds toward negative infinity, `%` takes the sign of the
 * divisor, and `int(a / b)` truncates toward zero.
 */
module Arith {

  function Abs(a: int): nat {
    if a < 0 then -a else a
  }

  /** Python's `a // b`: the largest q with b * q <= a (for b > 0). */
  function FloorDiv(a: int, b: int): (q: int)
    requires b != 0
    ensures b > 0 ==> b * q <= a < b * q + b
    ensures b < 0 ==> b * q + b < a <= b * q
  {
    if b > 0 then a / b else (-a) / (-b)
  }

  /** Python's `a % b`: the remainder that goes with `a // b`. */
  function FloorMod(a: int, b: int): (m: int)
    requires b != 0
    ensures a == b * FloorDiv(a, b) + m
    ensures b > 0 ==> 0 <= m < b
    ensures b < 0 ==> b < m <= 0
  {
    if b > 0 then a % b else -((-a) % (-b))
  }

  /** Python's `int(a / b)` on integers: the quotient truncated toward zero. */
  function TruncDiv(a: int, b: int): (q: int)
    requires b != 0
    ensures Abs(q) == Abs(a) / Abs(b)
    ensures q > 0 ==> (a > 0 <==> b > 0)
    ensures q < 0 ==> (a > 0 <==> b < 0)
    ensures 0 <= a && 0 < b ==> q == FloorDiv(a, b)
  {
    var m := Abs(a) / Abs(b);
    assert a == 0 ==> m == 0;
    if (a >= 0) == (b > 0) then m else -m
  }

  /** The floor quotient of a non-negative number by a positive one is non-negative and fits. */
  lemma QuotientFits(a: int, n: int)
    requires 0 <= a && 0 < n
    ensures 0 <= FloorDiv(a, n) && n * FloorDiv(a, n) <= a
  {
    var q := FloorDiv(a, n);
    assert n * (q + 1) == n * q + n;
    MulMonotone(n, q + 1, 0);
  }

  /** Multiplying by a non-negative factor keeps the order. */
  lemma MulMonotone(b: int, x: int, y: int)
    ensures 0 <= b && x <= y ==> b * x <= b * y
  {
    if 0 <= b && x <= y {
      assert b * y == b * x + b * (y - x);
    }
  }

  /** The quotient and remainder of `b * q + m` are q and m when 0 <= m < b. */
  lemma DivModUnique(q: int, m: int, b: int)
    requires 0 <= m < b
    ensures FloorDiv(b * q + m, b) == q
    ensures FloorMod(b * q + m, b) == m
  {
    var a := b * q + m;
    var q' := FloorDiv(a, b);
    MulMonotone(b, q' + 1, q);
    MulMonotone(b, q + 1, q');
  }

  /** With a positive divisor, `x // w == c` exactly when `x` lies in `[w * c, w * c + w)`. */
  lemma DivBetween(x: int, w: int, c: int)
    requires w > 0
    ensures w * c <= x < w * c + w <==> FloorDiv(x, w) == c
  {
    if w * c <= x < w * c + w {
      DivModUnique(c, x - w * c, w);
      assert w * c + (x - w * c) == x;
    }
  }

  /** With a positive divisor, `i // n < k` exactly when `i < n * k`. */
  lemma DivBelow(i: int, n: int, k: int)
    requires n > 0
    ensures FloorDiv(i, n) < k <==> i < n * k
  {
    var q := FloorDiv(i, n);
    MulMonotone(n, q + 1, k);
    MulMonotone(n, k, q);
  }
}
