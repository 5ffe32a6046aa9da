/**
 * Polynomials over Zr, the integers modulo the prime group order `r`.
 * A polynomial is its coefficient list, constant term first. `PolyValue` is
 * the exact integer value; the loops of `evaluatePoly` and of the commitment
 * checks keep every intermediate value reduced modulo `r`, as the group
 * library's Zr elements do.
 */
module Poly {
  import opened Arith

  /** `x` to the power `k`. */
  function Pow(x: int, k: nat): int
    decreases k
  {
    if k == 0 then 1 else Pow(x, k - 1) * x
  }

  /** The exact value of the coefficients at `x`: the sum of `c[k] * x^k`. */
  function PolyValue(c: seq<int>, x: int): int
    decreases |c|
  {
    if |c| == 0 then 0 else PolyValue(c[..|c| - 1], x) + c[|c| - 1] * Pow(x, |c| - 1)
  }

  /** Extending the coefficient prefix by one adds the next term. */
  lemma PolyValuePrefix(c: seq<int>, x: int, i: nat)
    requires i < |c|
    ensures PolyValue(c[..i + 1], x) == PolyValue(c[..i], x) + c[i] * Pow(x, i)
  {
    assert c[..i + 1][..i] == c[..i];
  }

  /** One loop step of `result += c * power` with both operands already reduced. */
  lemma AccumulateStep(a: int, b: int, c: int, r: int)
    requires r > 0
    ensures ((a % r) + c * (b % r) % r) % r == (a + c * b) % r
  {
    MulSplit(c, b, r);
    ModAddMultiple(c * (b % r), c * (b / r), r);
    ModAdd(a, c * b, r);
    ModSmall(a % r, r);
  }

  /** `c * b` is `c * (b % r)` plus a multiple of `r`. */
  lemma MulSplit(c: int, b: int, r: int)
    requires r > 0
    ensures c * b == c * (b % r) + (c * (b / r)) * r
  {
    var q, m := b / r, b % r;
    assert b == q * r + m;
    assert c * b == c * (q * r) + c * m;
    assert c * (q * r) == (c * q) * r;
  }

  /** `power *= L` in Zr with only the running power reduced. */
  lemma PowerStepRaw(x: int, i: nat, r: int)
    requires r > 0
    ensures (Pow(x, i) % r) * x % r == Pow(x, i + 1) % r
  {
    ModMul(Pow(x, i), x, r);
    ModMul(Pow(x, i) % r, x, r);
    ModSmall(Pow(x, i) % r, r);
  }

  /** One loop step of `power *= x` with both operands already reduced. */
  lemma PowerStep(x: int, i: nat, r: int)
    requires r > 0
    ensures (Pow(x, i) % r) * (x % r) % r == Pow(x, i + 1) % r
  {
    ModMul(Pow(x, i), x, r);
    ModSmall(Pow(x, i) % r, r);
    ModSmall(x % r, r);
  }

  /**
   * `evaluatePoly`: starting from 0 with `power` = 1, add `coeffs[i] * power`
   * and multiply `power` by X, everything in Zr. The result is the value of
   * the polynomial at X reduced modulo `r`; no coefficients give 0.
   */
  method EvaluatePoly(coeffs: seq<nat>, x: int, r: nat) returns (result: nat)
    requires r > 1
    ensures result < r
    ensures result == PolyValue(coeffs, x) % r
    ensures |coeffs| == 0 ==> result == 0
  {
    result := 0;
    var xVal: nat := x % r;
    var power: nat := 1;
    var i := 0;
    while i < |coeffs|
      invariant 0 <= i <= |coeffs|
      invariant result < r
      invariant power == Pow(x, i) % r
      invariant result == PolyValue(coeffs[..i], x) % r
    {
      PolyValuePrefix(coeffs, x, i);
      AccumulateStep(PolyValue(coeffs[..i], x), Pow(x, i), coeffs[i], r);
      PowerStep(x, i, r);
      var tmp := coeffs[i] * power % r;
      result := (result + tmp) % r;
      power := power * xVal % r;
      i := i + 1;
    }
    assert coeffs[..i] == coeffs;
  }

  /** A two-coefficient polynomial is `c0 + c1 * x`. */
  lemma LinearValue(c0: int, c1: int, x: int)
    ensures PolyValue([c0, c1], x) == c0 + c1 * x
  {
    assert [c0, c1][..1] == [c0];
    assert [c0][..0] == [];
    assert Pow(x, 1) == x by {
      assert Pow(x, 0) == 1;
    }
    assert PolyValue([c0], x) == c0;
  }

  /** The degree-1 `evaluatePoly` of the two-authority variant: `c0 + c1 * l` in Zr. */
  function EvaluateLinear(c0: nat, c1: nat, l: int, r: nat): (v: nat)
    requires r > 1
    ensures v < r
    ensures v == PolyValue([c0, c1], l) % r
  {
    var lVal := l % r;
    var tmp := c1 * lVal % r;
    LinearStep(c0, c1, l, r);
    (c0 + tmp) % r
  }

  /** The Zr arithmetic of `EvaluateLinear` agrees with the exact value. */
  lemma LinearStep(c0: nat, c1: nat, l: int, r: nat)
    requires r > 1
    ensures (c0 + c1 * (l % r) % r) % r == PolyValue([c0, c1], l) % r
  {
    LinearValue(c0, c1, l);
    AccumulateStep(c0, l, c1, r);
    ModAdd(c0, c1 * (l % r) % r, r);
    ModAdd(c0 % r, c1 * (l % r) % r, r);
    ModSmall(c0 % r, r);
  }

  /**
   * The exponents `L^j` of a commitment check, `j` = 0..t: `powL` starts at 1
   * and is multiplied by `L` (in Zr) before every term but the first.
   */
  method CommitmentExponents(l: int, t: nat, r: nat) returns (pows: seq<nat>)
    requires r > 1
    ensures |pows| == t + 1
    ensures forall j :: 0 <= j <= t ==> pows[j] == Pow(l, j) % r
  {
    var powL: nat := 1;
    pows := [];
    var j := 0;
    while j <= t
      invariant 0 <= j <= t + 1
      invariant |pows| == j
      invariant forall k :: 0 <= k < j ==> pows[k] == Pow(l, k) % r
      invariant j > 0 ==> powL == Pow(l, j - 1) % r
      invariant j == 0 ==> powL == 1
    {
      if j > 0 {
        PowerStepRaw(l, j - 1, r);
        powL := powL * l % r;
      } else {
        ModSmall(1, r);
      }
      assert powL == Pow(l, j) % r;
      pows := pows + [powL];
      j := j + 1;
    }
  }

  /** `LONG_MAX` and `LONG_MIN` of a 64-bit `long`. */
  const LongMax: int := 0x7fff_ffff_ffff_ffff
  const LongMin: int := -0x8000_0000_0000_0000

  /**
   * The `long powInt` variant of the exponents: an exact integer product,
   * which the caller must keep inside a `long` (signed overflow is undefined
   * behaviour in C++). Each exponent is then set into Zr, i.e. reduced mod r.
   */
  method IntExponents(l: int, t: nat) returns (pows: seq<int>)
    requires forall j :: 0 <= j <= t ==> LongMin <= Pow(l, j) <= LongMax
    ensures |pows| == t + 1
    ensures forall j :: 0 <= j <= t ==> pows[j] == Pow(l, j) && LongMin <= pows[j] <= LongMax
  {
    var powInt := 1;
    pows := [];
    var j := 0;
    while j <= t
      invariant 0 <= j <= t + 1
      invariant |pows| == j
      invariant forall k :: 0 <= k < j ==> pows[k] == Pow(l, k)
      invariant j > 0 ==> powInt == Pow(l, j - 1)
      invariant j == 0 ==> powInt == 1
    {
      if j > 0 {
        powInt := powInt * l;
      }
      pows := pows + [powInt];
      j := j + 1;
    }
  }

  /** The exponent of the product of commitments: the sum of `c[j] * e[j]`. */
  function ExponentSum(c: seq<int>, e: seq<int>): int
    requires |e| >= |c|
    decreases |c|
  {
    if |c| == 0 then 0 else ExponentSum(c[..|c| - 1], e) + c[|c| - 1] * e[|c| - 1]
  }

  /**
   * In the exponent, the product of the commitments `g^c[j]` raised to the
   * reduced powers `L^j mod r` is `g` raised to the polynomial's value at L:
   * the share check accepts every honestly evaluated share.
   */
  lemma {:induction false} CommitmentCheckHolds(c: seq<int>, l: int, r: nat, e: seq<int>)
    requires r > 1 && |e| >= |c|
    requires forall j :: 0 <= j < |c| ==> e[j] == Pow(l, j) % r
    ensures ExponentSum(c, e) % r == PolyValue(c, l) % r
    decreases |c|
  {
    if |c| > 0 {
      var n := |c| - 1;
      var init := c[..n];
      assert forall j :: 0 <= j < |init| ==> init[j] == c[j];
      CommitmentCheckHolds(init, l, r, e);
      var a, b := ExponentSum(init, e), PolyValue(init, l);
      // a ≡ b, and the new terms agree modulo r
      ModAdd(a, c[n] * e[n], r);
      ModAdd(b, c[n] * Pow(l, n), r);
      ModMul(c[n], e[n], r);
      ModMul(c[n], Pow(l, n), r);
      ModSmall(e[n], r);
      assert (Pow(l, n) % r) % r == Pow(l, n) % r;
    }
  }
}
