/**
 * Pedersen distributed key generation without complaints, on the Zr side:
 * every election authority l holds polynomials F_l and G_l; the master
 * signing key is the sum of their constant terms, and authority i's share
 * is the sum over l of F_l(i+1) (and of G_l(i+1)). `keygen.cpp` and
 * `dkg.cpp` use t+1 coefficients per polynomial, `main.cpp` uses t, and
 * `minimal_dkg.cpp` fixes two authorities with degree-1 polynomials. The
 * random coefficients are inputs.
 */
module Dkg {
  import opened Arith
  import opened Poly

  /** The group order `r` of the BN-256 ("type f") parameters. */
  const Bn256Order: nat := 186944716490498228592211144210229761989241675946164825526319

  /** The group order `r` of the small "type a" parameters of the two-authority variant. */
  const TypeAOrder: nat := 730750818665451621361119245571504901405976559617

  /** Every polynomial has exactly `m` coefficients. */
  predicate Shaped(polys: seq<seq<nat>>, m: nat) {
    forall l :: 0 <= l < |polys| ==> |polys[l]| == m
  }

  /** Every polynomial has a constant term. */
  predicate HasConstants(polys: seq<seq<nat>>) {
    forall l :: 0 <= l < |polys| ==> |polys[l]| > 0
  }

  /** The exact sum of the constant terms. */
  function SumConst(polys: seq<seq<nat>>): int
    requires HasConstants(polys)
    decreases |polys|
  {
    if |polys| == 0 then 0 else SumConst(polys[..|polys| - 1]) + polys[|polys| - 1][0]
  }

  /** The exact sum of all polynomials' values at `x`. */
  function SumAt(polys: seq<seq<nat>>, x: int): int
    decreases |polys|
  {
    if |polys| == 0 then 0 else SumAt(polys[..|polys| - 1], x) + PolyValue(polys[|polys| - 1], x)
  }

  /** Coefficient-wise sum of two polynomials of the same size. */
  function AddPoly(p: seq<int>, q: seq<int>): (s: seq<int>)
    requires |p| == |q|
    ensures |s| == |p|
  {
    seq(|p|, j requires 0 <= j < |p| => p[j] + q[j])
  }

  /** The zero polynomial with `m` coefficients. */
  function ZeroPoly(m: nat): (s: seq<int>)
    ensures |s| == m
  {
    seq(m, _ => 0)
  }

  /** The coefficient-wise sum of all polynomials: the joint polynomial of the DKG. */
  function SumPoly(polys: seq<seq<nat>>, m: nat): (s: seq<int>)
    requires Shaped(polys, m)
    ensures |s| == m
    decreases |polys|
  {
    if |polys| == 0 then ZeroPoly(m)
    else AddPoly(SumPoly(polys[..|polys| - 1], m), polys[|polys| - 1])
  }

  /** Evaluation is additive in the coefficients. */
  lemma {:induction false} PolyValueAdd(p: seq<int>, q: seq<int>, x: int)
    requires |p| == |q|
    ensures PolyValue(AddPoly(p, q), x) == PolyValue(p, x) + PolyValue(q, x)
    decreases |p|
  {
    if |p| > 0 {
      var n := |p| - 1;
      assert AddPoly(p, q)[..n] == AddPoly(p[..n], q[..n]);
      PolyValueAdd(p[..n], q[..n], x);
    }
  }

  /** The zero polynomial is zero everywhere. */
  lemma {:induction false} ZeroPolyValue(m: nat, x: int)
    ensures PolyValue(ZeroPoly(m), x) == 0
    decreases m
  {
    if m > 0 {
      assert ZeroPoly(m)[..m - 1] == ZeroPoly(m - 1);
      ZeroPolyValue(m - 1, x);
    }
  }

  /** The joint polynomial's value is the sum of the authorities' values. */
  lemma {:induction false} SumPolyValue(polys: seq<seq<nat>>, m: nat, x: int)
    requires Shaped(polys, m)
    ensures PolyValue(SumPoly(polys, m), x) == SumAt(polys, x)
    decreases |polys|
  {
    if |polys| == 0 {
      ZeroPolyValue(m, x);
    } else {
      var init := polys[..|polys| - 1];
      SumPolyValue(init, m, x);
      PolyValueAdd(SumPoly(init, m), polys[|polys| - 1], x);
    }
  }

  /** The joint polynomial's constant term is the sum of the constant terms. */
  lemma {:induction false} SumPolyConst(polys: seq<seq<nat>>, m: nat)
    requires Shaped(polys, m) && m > 0
    ensures HasConstants(polys)
    ensures SumPoly(polys, m)[0] == SumConst(polys)
    decreases |polys|
  {
    if |polys| > 0 {
      SumPolyConst(polys[..|polys| - 1], m);
    }
  }

  /** At 0 only the constant term remains. */
  lemma {:induction false} PolyValueAtZero(c: seq<int>)
    requires |c| > 0
    ensures PolyValue(c, 0) == c[0]
    decreases |c|
  {
    if |c| > 1 {
      var n := |c| - 1;
      PolyValueAtZero(c[..n]);
      assert Pow(0, n) == Pow(0, n - 1) * 0;
    } else {
      assert c[..0] == [];
    }
  }

  // ---------------------------------------------------------------------------
  // The key generation loops.

  /** `msgk.sk1 = Σ F_i[0]` (and `sk2` with G), accumulated in Zr from 0. */
  method MasterSum(polys: seq<seq<nat>>, r: nat) returns (sk: nat)
    requires r > 1 && HasConstants(polys)
    ensures sk < r
    ensures sk == SumConst(polys) % r
  {
    sk := 0;
    var i := 0;
    while i < |polys|
      invariant 0 <= i <= |polys|
      invariant sk == SumConst(polys[..i]) % r
    {
      assert polys[..i + 1][..i] == polys[..i];
      AddReduced(SumConst(polys[..i]), polys[i][0], r);
      sk := (sk + polys[i][0]) % r;
      i := i + 1;
    }
    assert polys[..i] == polys;
  }

  /** Authority share: `Σ_l evaluatePoly(F_l, X)` accumulated in Zr from 0. */
  method Share(polys: seq<seq<nat>>, x: int, r: nat) returns (s: nat)
    requires r > 1
    ensures s < r
    ensures s == SumAt(polys, x) % r
  {
    s := 0;
    var l := 0;
    while l < |polys|
      invariant 0 <= l <= |polys|
      invariant s < r
      invariant s == SumAt(polys[..l], x) % r
    {
      var v := EvaluatePoly(polys[l], x, r);
      assert polys[..l + 1][..l] == polys[..l];
      ModAdd(SumAt(polys[..l], x), PolyValue(polys[l], x), r);
      s := (s + v) % r;
      l := l + 1;
    }
    assert polys[..l] == polys;
  }

  /** What one election authority keeps on the Zr side. */
  datatype EAKey = EAKey(x0: nat, y0: nat, sgk1: nat, sgk2: nat)

  /** The master signing key `(sk1, sk2)`. */
  datatype MasterSK = MasterSK(sk1: nat, sk2: nat)

  /** The Zr part of `KeyGenOutput`. */
  datatype KeyGenOutput = KeyGenOutput(msgk: MasterSK, eaKeys: seq<EAKey>)

  /**
   * `keygen`, generic in the number of coefficients: the constant terms,
   * the master signing key and every authority's shares at X = i+1.
   */
  method KeyGen(f: seq<seq<nat>>, g: seq<seq<nat>>, r: nat) returns (out: KeyGenOutput)
    requires r > 1 && |f| == |g|
    requires HasConstants(f) && HasConstants(g)
    ensures |out.eaKeys| == |f|
    ensures out.msgk.sk1 == SumConst(f) % r && out.msgk.sk2 == SumConst(g) % r
    ensures forall i :: 0 <= i < |f| ==>
              out.eaKeys[i].x0 == f[i][0] && out.eaKeys[i].y0 == g[i][0]
    ensures forall i :: 0 <= i < |f| ==>
              out.eaKeys[i].sgk1 == SumAt(f, i + 1) % r && out.eaKeys[i].sgk2 == SumAt(g, i + 1) % r
  {
    var sk1 := MasterSum(f, r);
    var sk2 := MasterSum(g, r);
    var keys: seq<EAKey> := [];
    var i := 0;
    while i < |f|
      invariant 0 <= i <= |f|
      invariant |keys| == i
      invariant forall k :: 0 <= k < i ==> keys[k].x0 == f[k][0] && keys[k].y0 == g[k][0]
      invariant forall k :: 0 <= k < i ==>
                  keys[k].sgk1 == SumAt(f, k + 1) % r && keys[k].sgk2 == SumAt(g, k + 1) % r
    {
      var s1 := Share(f, i + 1, r);
      var s2 := Share(g, i + 1, r);
      keys := keys + [EAKey(f[i][0], g[i][0], s1, s2)];
      i := i + 1;
    }
    out := KeyGenOutput(MasterSK(sk1, sk2), keys);
  }

  /**
   * All shares lie on one polynomial with as many coefficients as each
   * authority's, and its constant term is the master signing key.
   */
  lemma SharesOnOnePolynomial(polys: seq<seq<nat>>, m: nat, r: nat, x: int)
    requires r > 1 && Shaped(polys, m) && m > 0
    ensures HasConstants(polys)
    ensures SumAt(polys, x) % r == PolyValue(SumPoly(polys, m), x) % r
    ensures SumConst(polys) % r == PolyValue(SumPoly(polys, m), 0) % r
  {
    SumPolyValue(polys, m, x);
    SumPolyConst(polys, m);
    PolyValueAtZero(SumPoly(polys, m));
  }

  // ---------------------------------------------------------------------------
  // The per-file shapes.

  /** `keygen.cpp` and `dkg.cpp`: n authorities, t+1 coefficients per polynomial (degree at most t). */
  predicate ThresholdShape(f: seq<seq<nat>>, g: seq<seq<nat>>, n: nat, t: nat) {
    |f| == n && |g| == n && Shaped(f, t + 1) && Shaped(g, t + 1)
  }

  /** `main.cpp`: n authorities, only t coefficients per polynomial (degree at most t-1). */
  predicate MainShape(f: seq<seq<nat>>, g: seq<seq<nat>>, n: nat, t: nat) {
    |f| == n && |g| == n && t >= 1 && Shaped(f, t) && Shaped(g, t)
  }

  /** `minimal_dkg.cpp`: two authorities, two coefficients each. */
  predicate MinimalShape(f: seq<seq<nat>>, g: seq<seq<nat>>) {
    |f| == 2 && |g| == 2 && Shaped(f, 2) && Shaped(g, 2)
  }

  /** The two-authority share `F_0(X) + F_1(X)` computed with the degree-1 `evaluatePoly`. */
  function MinimalShare(f: seq<seq<nat>>, x: int, r: nat): (s: nat)
    requires r > 1 && |f| == 2 && Shaped(f, 2)
    ensures s < r
    ensures s == SumAt(f, x) % r
  {
    var v0 := EvaluateLinear(f[0][0], f[0][1], x, r);
    var v1 := EvaluateLinear(f[1][0], f[1][1], x, r);
    assert f[0] == [f[0][0], f[0][1]] && f[1] == [f[1][0], f[1][1]];
    SumOfTwo(f, x);
    ModAdd(PolyValue(f[0], x), PolyValue(f[1], x), r);
    (v0 + v1) % r
  }

  /** With two authorities the sum of values has two terms. */
  lemma SumOfTwo(f: seq<seq<nat>>, x: int)
    requires |f| == 2
    ensures SumAt(f, x) == PolyValue(f[0], x) + PolyValue(f[1], x)
  {
    assert f[..1][..0] == [];
    assert f[..1][0] == f[0];
    assert SumAt(f, x) == SumAt(f[..1], x) + PolyValue(f[1], x);
    assert SumAt(f[..1], x) == SumAt(f[..1][..0], x) + PolyValue(f[0], x);
  }

  /** Over the integers, `2 * F(1) - F(2)` is the constant term of the joint degree-1 polynomial. */
  lemma MinimalExact(f: seq<seq<nat>>)
    requires |f| == 2 && Shaped(f, 2)
    ensures HasConstants(f)
    ensures 2 * SumAt(f, 1) - SumAt(f, 2) == SumConst(f)
  {
    var s := SumPoly(f, 2);
    SumPolyValue(f, 2, 1);
    SumPolyValue(f, 2, 2);
    SumPolyConst(f, 2);
    assert s == [s[0], s[1]];
    LinearValue(s[0], s[1], 1);
    LinearValue(s[0], s[1], 2);
  }

  /**
   * Two shares of a degree-1 joint polynomial recover the master key:
   * `2 * sgk[0] - sgk[1]` is the sum of the constant terms in Zr.
   */
  lemma MinimalRecovery(f: seq<seq<nat>>, r: nat)
    requires r > 1 && |f| == 2 && Shaped(f, 2)
    ensures HasConstants(f)
    ensures (2 * MinimalShare(f, 1, r) - MinimalShare(f, 2, r)) % r == SumConst(f) % r
  {
    MinimalExact(f);
    var a, b := SumAt(f, 1), SumAt(f, 2);
    var k := b / r - 2 * (a / r);
    assert 2 * (a % r) - b % r == (2 * a - b) + k * r by {
      assert a == (a / r) * r + a % r;
      assert b == (b / r) * r + b % r;
      assert k * r == (b / r) * r - 2 * ((a / r) * r);
    }
    ModAddMultiple(2 * a - b, k, r);
  }

  /**
   * `keygen` of `keygen.cpp` and `dkg.cpp`: with t+1 coefficients per
   * polynomial, every share and the master key lie on one joint polynomial
   * with t+1 coefficients (degree at most t): the shares at X = i+1, the key
   * at X = 0.
   */
  method ThresholdKeyGen(f: seq<seq<nat>>, g: seq<seq<nat>>, n: nat, t: nat, r: nat) returns (out: KeyGenOutput)
    requires r > 1 && ThresholdShape(f, g, n, t)
    ensures |out.eaKeys| == n
    ensures |SumPoly(f, t + 1)| == t + 1 && |SumPoly(g, t + 1)| == t + 1
    ensures out.msgk.sk1 == PolyValue(SumPoly(f, t + 1), 0) % r
    ensures out.msgk.sk2 == PolyValue(SumPoly(g, t + 1), 0) % r
    ensures forall i :: 0 <= i < n ==>
              out.eaKeys[i].sgk1 == PolyValue(SumPoly(f, t + 1), i + 1) % r &&
              out.eaKeys[i].sgk2 == PolyValue(SumPoly(g, t + 1), i + 1) % r
  {
    SharesOnOnePolynomial(f, t + 1, r, 0);
    SharesOnOnePolynomial(g, t + 1, r, 0);
    out := KeyGen(f, g, r);
    forall i | 0 <= i < n
      ensures out.eaKeys[i].sgk1 == PolyValue(SumPoly(f, t + 1), i + 1) % r
      ensures out.eaKeys[i].sgk2 == PolyValue(SumPoly(g, t + 1), i + 1) % r
    {
      SharesOnOnePolynomial(f, t + 1, r, i + 1);
      SharesOnOnePolynomial(g, t + 1, r, i + 1);
    }
  }

  /**
   * `keygen` of `main.cpp`: only t coefficients per polynomial, so the joint
   * polynomial has degree at most t-1; the constant terms are `x_m`, `y_m`.
   */
  method MainKeyGen(f: seq<seq<nat>>, g: seq<seq<nat>>, n: nat, t: nat, r: nat) returns (out: KeyGenOutput)
    requires r > 1 && MainShape(f, g, n, t)
    ensures |out.eaKeys| == n
    ensures |SumPoly(f, t)| == t && |SumPoly(g, t)| == t
    ensures out.msgk.sk1 == PolyValue(SumPoly(f, t), 0) % r
    ensures out.msgk.sk2 == PolyValue(SumPoly(g, t), 0) % r
    ensures forall i :: 0 <= i < n ==>
              out.eaKeys[i].x0 == f[i][0] && out.eaKeys[i].y0 == g[i][0] &&
              out.eaKeys[i].sgk1 == PolyValue(SumPoly(f, t), i + 1) % r &&
              out.eaKeys[i].sgk2 == PolyValue(SumPoly(g, t), i + 1) % r
  {
    SharesOnOnePolynomial(f, t, r, 0);
    SharesOnOnePolynomial(g, t, r, 0);
    out := KeyGen(f, g, r);
    forall i | 0 <= i < n
      ensures out.eaKeys[i].sgk1 == PolyValue(SumPoly(f, t), i + 1) % r
      ensures out.eaKeys[i].sgk2 == PolyValue(SumPoly(g, t), i + 1) % r
    {
      SharesOnOnePolynomial(f, t, r, i + 1);
      SharesOnOnePolynomial(g, t, r, i + 1);
    }
  }

  /**
   * `keygen` of `minimal_dkg.cpp`: two authorities, degree-1 polynomials
   * evaluated with the two-coefficient `evaluatePoly`; the two shares
   * determine the master key.
   */
  method MinimalKeyGen(f: seq<seq<nat>>, g: seq<seq<nat>>, r: nat) returns (out: KeyGenOutput)
    requires r > 1 && MinimalShape(f, g)
    ensures |out.eaKeys| == 2
    ensures HasConstants(f) && HasConstants(g)
    ensures out.msgk.sk1 == SumConst(f) % r && out.msgk.sk2 == SumConst(g) % r
    ensures forall i :: 0 <= i < 2 ==>
              out.eaKeys[i].x0 == f[i][0] && out.eaKeys[i].y0 == g[i][0] &&
              out.eaKeys[i].sgk1 == SumAt(f, i + 1) % r && out.eaKeys[i].sgk2 == SumAt(g, i + 1) % r
    ensures (2 * out.eaKeys[0].sgk1 - out.eaKeys[1].sgk1) % r == out.msgk.sk1
    ensures (2 * out.eaKeys[0].sgk2 - out.eaKeys[1].sgk2) % r == out.msgk.sk2
  {
    var sk1 := MasterSum(f, r);
    var sk2 := MasterSum(g, r);
    var k0 := EAKey(f[0][0], g[0][0], MinimalShare(f, 1, r), MinimalShare(g, 1, r));
    var k1 := EAKey(f[1][0], g[1][0], MinimalShare(f, 2, r), MinimalShare(g, 2, r));
    MinimalRecovery(f, r);
    MinimalRecovery(g, r);
    out := KeyGenOutput(MasterSK(sk1, sk2), [k0, k1]);
  }

  // ---------------------------------------------------------------------------
  // The two programs with a fixed group order.

  /**
   * `keygen` of `dkg.cpp`, whose pairing parameters fix the BN-256 order: the
   * shares and the master key lie on one joint polynomial of degree at most
   * t, reduced modulo that order.
   */
  method Bn256KeyGen(f: seq<seq<nat>>, g: seq<seq<nat>>, n: nat, t: nat) returns (out: KeyGenOutput)
    requires ThresholdShape(f, g, n, t)
    ensures |out.eaKeys| == n
    ensures out.msgk.sk1 == PolyValue(SumPoly(f, t + 1), 0) % Bn256Order
    ensures out.msgk.sk2 == PolyValue(SumPoly(g, t + 1), 0) % Bn256Order
    ensures forall i :: 0 <= i < n ==>
              out.eaKeys[i].sgk1 == PolyValue(SumPoly(f, t + 1), i + 1) % Bn256Order &&
              out.eaKeys[i].sgk2 == PolyValue(SumPoly(g, t + 1), i + 1) % Bn256Order
  {
    out := ThresholdKeyGen(f, g, n, t, Bn256Order);
  }

  /**
   * `keygen` of `minimal_dkg.cpp`, whose "type a" parameters fix the group
   * order: the master key is the sum of the constant terms modulo that order,
   * and the two shares recover it.
   */
  method TypeAKeyGen(f: seq<seq<nat>>, g: seq<seq<nat>>) returns (out: KeyGenOutput)
    requires MinimalShape(f, g)
    ensures |out.eaKeys| == 2
    ensures HasConstants(f) && HasConstants(g)
    ensures out.msgk.sk1 == SumConst(f) % TypeAOrder && out.msgk.sk2 == SumConst(g) % TypeAOrder
    ensures (2 * out.eaKeys[0].sgk1 - out.eaKeys[1].sgk1) % TypeAOrder == out.msgk.sk1
    ensures (2 * out.eaKeys[0].sgk2 - out.eaKeys[1].sgk2) % TypeAOrder == out.msgk.sk2
  {
    out := MinimalKeyGen(f, g, TypeAOrder);
  }
}
