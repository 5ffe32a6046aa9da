/** Facts about Euclidean division that the modular arithmetic of the model leans on. */
module Arith {

  /** The only multiple of `n` strictly between -n and n is 0. */
  lemma SmallMultiple(d: int, n: int)
    requires n > 0 && -n < d * n < n
    ensures d == 0
  {
  }

  /** Division with remainder has exactly one answer. */
  lemma DivModUnique(x: int, n: int, q: int, r: int)
    requires n > 0 && 0 <= r < n && x == q * n + r
    ensures x / n == q && x % n == r
  {
    var q0, r0 := x / n, x % n;
    assert x == q0 * n + r0;
    assert (q - q0) * n == q * n - q0 * n;
    SmallMultiple(q - q0, n);
  }

  /** Adding a multiple of the modulus does not change the remainder. */
  lemma ModAddMultiple(x: int, k: int, n: int)
    requires n > 0
    ensures (x + k * n) % n == x % n
  {
    DivModUnique(x + k * n, n, x / n + k, x % n);
  }

  /** Reducing an operand first does not change the remainder of a sum. */
  lemma ModAdd(a: int, b: int, n: int)
    requires n > 0
    ensures (a + b) % n == (a % n + b % n) % n
  {
    ModAddMultiple(a % n + b % n, a / n + b / n, n);
    assert a + b == a % n + b % n + (a / n + b / n) * n;
  }

  /** Reducing an operand first does not change the remainder of a product. */
  lemma ModMul(a: int, b: int, n: int)
    requires n > 0
    ensures (a * b) % n == (a % n * (b % n)) % n
  {
    var qa, ra, qb, rb := a / n, a % n, b / n, b % n;
    assert a * b == ra * rb + (qa * b + ra * qb) * n by {
      assert a == qa * n + ra && b == qb * n + rb;
      assert a * b == (qa * n + ra) * b;
      assert (qa * n + ra) * b == qa * n * b + ra * b;
      assert ra * b == ra * (qb * n + rb) == ra * qb * n + ra * rb;
    }
    ModAddMultiple(ra * rb, qa * b + ra * qb, n);
  }

  /** A value already in [0, n) is its own remainder. */
  lemma ModSmall(x: int, n: int)
    requires 0 <= x < n
    ensures x % n == x
  {
    DivModUnique(x, n, 0, x);
  }

  /** A smaller multiple of a positive number has the smaller factor. */
  lemma MulLeftCancel(i: int, n: int, t: int)
    requires t > 0 && i * t < n * t
    ensures i < n
  {
  }

  /** Adding to an already reduced sum gives the reduced total. */
  lemma AddReduced(a: int, c: int, n: int)
    requires n > 0
    ensures (a % n + c) % n == (a + c) % n
  {
    ModAdd(a, c, n);
    ModAdd(a % n, c, n);
    ModSmall(a % n, n);
  }
}
