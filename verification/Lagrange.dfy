/** Lagrange interpolation over GF(2^8). */
module Lagrange {
  import opened Common
  import opened Gf256
  import opened Generator
  import opened Polynomials

  // ----- Values of the basis polynomials -----

  /** The value at x of the first k factors of the i-th basis polynomial:
      the product over j < k, j != i of (x - xs[j]) / (xs[i] - xs[j]). */
  ghost function BasisAt(xs: seq<Byte>, i: nat, k: nat, x: Byte): Byte
    requires i < |xs| && k <= |xs| && Distinct(xs)
  {
    if k == 0 then 1
    else if k - 1 == i then BasisAt(xs, i, k - 1, x)
    else Product(BasisAt(xs, i, k - 1, x), Factor(xs, i, k - 1, x))
  }

  ghost function Factor(xs: seq<Byte>, i: nat, j: nat, x: Byte): Byte
    requires i < |xs| && j < |xs| && i != j && Distinct(xs)
  {
    DifferenceNonZero(xs, i, j);
    Quotient(Add(x, xs[j]), Add(xs[i], xs[j]))
  }

  lemma DifferenceNonZero(xs: seq<Byte>, i: nat, j: nat)
    requires i < |xs| && j < |xs| && i != j && Distinct(xs)
    ensures Add(xs[i], xs[j]) != 0
  {}

  /** The value at x of the interpolating polynomial, summed over the first k points. */
  ghost function InterpolantAt(xs: seq<Byte>, ys: seq<Byte>, k: nat, x: Byte): Byte
    requires |xs| == |ys| && k <= |xs| && Distinct(xs)
  {
    if k == 0 then 0
    else Add(InterpolantAt(xs, ys, k - 1, x), Product(ys[k - 1], BasisAt(xs, k - 1, |xs|, x)))
  }

  // ----- The basis and interpolating polynomials -----

  ghost function BasisPolynomial(xs: seq<Byte>, i: nat, k: nat): (p: Polynomial)
    requires i < |xs| && k <= |xs| && Distinct(xs)
    ensures |p| == if i < k then k else k + 1
  {
    if k == 0 then [1]
    else if k - 1 == i then BasisPolynomial(xs, i, k - 1)
    else
      DifferenceNonZero(xs, i, k - 1);
      TimesLinear(Scale(Inverse(Add(xs[i], xs[k - 1])), BasisPolynomial(xs, i, k - 1)), xs[k - 1])
  }

  ghost function Interpolant(xs: seq<Byte>, ys: seq<Byte>, k: nat): (p: Polynomial)
    requires |xs| == |ys| && k <= |xs| && Distinct(xs)
    ensures |p| == |xs|
  {
    if k == 0 then seq(|xs|, _ => 0)
    else Plus(Interpolant(xs, ys, k - 1), Scale(ys[k - 1], BasisPolynomial(xs, k - 1, |xs|)))
  }

  lemma {:induction false} EvalBasis(xs: seq<Byte>, i: nat, k: nat, x: Byte)
    requires i < |xs| && k <= |xs| && Distinct(xs)
    ensures Eval(BasisPolynomial(xs, i, k), x) == BasisAt(xs, i, k, x)
  {
    hide Add, Product, Power, Eval, Quotient, Inverse, TimesLinear, Scale, Distinct;
    if k == 0 {
      assert [1 as Byte] == [1] + [];
      EvalSteps(1, [], x);
      ZeroProduct(x);
      AddZero(1);
    } else {
      EvalBasis(xs, i, k - 1, x);
      if k - 1 != i {
        DifferenceNonZero(xs, i, k - 1);
        var c := Inverse(Add(xs[i], xs[k - 1]));
        var p := BasisPolynomial(xs, i, k - 1);
        EvalTimesLinear(Scale(c, p), xs[k - 1], x);
        EvalScale(c, p, x);
        FactorArithmetic(Add(x, xs[k - 1]), Add(xs[i], xs[k - 1]), Eval(p, x));
      }
    }
  }

  lemma FactorArithmetic(a: Byte, b: Byte, v: Byte)
    requires b != 0
    ensures Product(a, Product(Inverse(b), v)) == Product(v, Quotient(a, b))
  {
    hide Product;
    ProductAssociative(a, Inverse(b), v);
    ProductCommutative(Quotient(a, b), v);
  }

  lemma {:induction false} EvalZeros(n: nat, x: Byte)
    ensures Eval(seq(n, _ => 0), x) == 0
  {
    hide Add, Product, Power, Eval;
    EvalSteps(0, [], x);
    if n == 0 {
      assert seq(n, _ => 0 as Byte) == [];
    } else {
      assert seq(n, _ => 0 as Byte) == [0] + seq(n - 1, _ => 0);
      EvalZeros(n - 1, x);
      EvalSteps(0, seq(n - 1, _ => 0), x);
      ZeroProduct(x);
      AddZero(0);
    }
  }

  lemma {:induction false} EvalInterpolant(xs: seq<Byte>, ys: seq<Byte>, k: nat, x: Byte)
    requires |xs| == |ys| && k <= |xs| && Distinct(xs)
    ensures Eval(Interpolant(xs, ys, k), x) == InterpolantAt(xs, ys, k, x)
  {
    hide Add, Product, Power, Eval, Plus, Scale, BasisPolynomial, BasisAt, Distinct;
    if k == 0 {
      EvalZeros(|xs|, x);
    } else {
      EvalInterpolant(xs, ys, k - 1, x);
      var b := BasisPolynomial(xs, k - 1, |xs|);
      EvalPlus(Interpolant(xs, ys, k - 1), Scale(ys[k - 1], b), x);
      EvalScale(ys[k - 1], b, x);
      EvalBasis(xs, k - 1, |xs|, x);
    }
  }

  // ----- Interpolation -----

  /** At the abscissas the basis polynomial is 1 at its own point and 0 at the others. */
  lemma {:induction false} BasisAtPoint(xs: seq<Byte>, i: nat, k: nat, m: nat)
    requires i < |xs| && k <= |xs| && m < |xs| && Distinct(xs)
    ensures m == i ==> BasisAt(xs, i, k, xs[m]) == 1
    ensures m != i && m < k ==> BasisAt(xs, i, k, xs[m]) == 0
  {
    hide Add, Product, Power, Quotient, Inverse, Distinct;
    if k > 0 {
      BasisAtPoint(xs, i, k - 1, m);
      if k - 1 != i {
        var j, b := k - 1, BasisAt(xs, i, k - 1, xs[m]);
        DifferenceNonZero(xs, i, j);
        var d := Add(xs[i], xs[j]);
        ZeroProduct(Factor(xs, i, j, xs[m]));
        ZeroProduct(d);
        if m == i {
          ProductByOne(d);
          CancelFactor(Quotient(d, d), 1, d);
          ProductByOne(1);
        } else if m == j {
          AddSelf(xs[j]);
          CancelFactor(Quotient(0, d), 0, d);
          ZeroProduct(b);
        }
      }
    }
  }

  lemma {:induction false} InterpolantAtPoint(xs: seq<Byte>, ys: seq<Byte>, k: nat, m: nat)
    requires |xs| == |ys| && k <= |xs| && m < |xs| && Distinct(xs)
    ensures InterpolantAt(xs, ys, k, xs[m]) == if m < k then ys[m] else 0
  {
    hide Add, Product, Power, BasisAt, Distinct;
    if k > 0 {
      InterpolantAtPoint(xs, ys, k - 1, m);
      BasisAtPoint(xs, k - 1, |xs|, m);
      ProductByOne(ys[k - 1]);
      ZeroProduct(ys[k - 1]);
      AddZero(ys[k - 1]);
      AddZero(if m < k - 1 then ys[m] else 0);
    }
  }

  ghost predicate Through(p: Polynomial, xs: seq<Byte>, ys: seq<Byte>)
    requires |xs| == |ys|
  {
    forall m :: 0 <= m < |xs| ==> Eval(p, xs[m]) == ys[m]
  }

  /** Through points with distinct abscissas passes exactly one polynomial with as many
      coefficients as points, and its value at any x is the Lagrange sum. */
  lemma Interpolation(xs: seq<Byte>, ys: seq<Byte>, x: Byte)
    requires |xs| == |ys| && Distinct(xs)
    ensures exists p: Polynomial :: |p| == |xs| && Through(p, xs, ys)
    ensures forall p: Polynomial :: |p| == |xs| && Through(p, xs, ys) ==> Eval(p, x) == InterpolantAt(xs, ys, |xs|, x)
    ensures forall p: Polynomial, q: Polynomial ::
              |p| == |q| == |xs| && Through(p, xs, ys) && Through(q, xs, ys) ==> p == q
  {
    hide Add, Product, Power, Eval, InterpolantAt, Interpolant, Distinct;
    var p := Interpolant(xs, ys, |xs|);
    forall m | 0 <= m < |xs|
      ensures Eval(p, xs[m]) == ys[m]
    {
      EvalInterpolant(xs, ys, |xs|, xs[m]);
      InterpolantAtPoint(xs, ys, |xs|, m);
    }
    assert Through(p, xs, ys);
    EvalInterpolant(xs, ys, |xs|, x);
    forall q: Polynomial, r: Polynomial | |q| == |r| == |xs| && Through(q, xs, ys) && Through(r, xs, ys)
      ensures q == r
    {
      InterpolantUnique(q, r, xs);
    }
  }

  /** The value at zero recovered from any points of a polynomial of degree below their number. */
  lemma ConstantTermRecovered(p: Polynomial, xs: seq<Byte>, ys: seq<Byte>)
    requires |xs| == |ys| && Distinct(xs) && |p| <= |xs|
    requires Through(p, xs, ys)
    ensures InterpolantAt(xs, ys, |xs|, 0) == Eval(p, 0)
  {
    hide Add, Product, Power, Eval, InterpolantAt, Distinct;
    var padded := p + seq(|xs| - |p|, _ => 0);
    forall x
      ensures Eval(padded, x) == Eval(p, x)
    {
      EvalPadded(p, |xs| - |p|, x);
    }
    assert Through(padded, xs, ys);
    Interpolation(xs, ys, 0);
  }

  lemma {:induction false} EvalPadded(p: Polynomial, n: nat, x: Byte)
    ensures Eval(p + seq(n, _ => 0), x) == Eval(p, x)
  {
    hide *;
    if n == 0 {
      assert p + seq(n, _ => 0) == p;
    } else {
      var shorter := p + seq(n - 1, _ => 0);
      assert p + seq(n, _ => 0) == shorter + [0];
      EvalPadded(p, n - 1, x);
      EvalAppend(shorter, 0, x);
      ZeroProduct(Power(x, |shorter|));
      AddZero(Eval(shorter, x));
    }
  }
}
