/** Polynomials over GF(2^8), as the sequence of their coefficients, constant term first. */
module Polynomials {
  import opened Common
  import opened Gf256
  import opened Generator

  type Polynomial = seq<Byte>

  /** p(x) in nested form: p[0] + x * (p[1] + x * (...)). */
  function Eval(p: Polynomial, x: Byte): Byte {
    if p == [] then 0 else Add(p[0], Product(x, Eval(p[1..], x)))
  }

  lemma EvalSteps(c: Byte, p: Polynomial, x: Byte)
    ensures Eval([], x) == 0
    ensures Eval([c] + p, x) == Add(c, Product(x, Eval(p, x)))
  {}

  lemma EvalAtZero(p: Polynomial)
    requires p != []
    ensures Eval(p, 0) == p[0]
  {
    hide Product;
    ZeroProduct(Eval(p[1..], 0));
    AddZero(p[0]);
  }

  // ----- The nested form is the sum of c_i * x^i -----

  /** The sum of p[i] * x^i. */
  function PowerSum(p: Polynomial, x: Byte): Byte {
    if p == [] then 0
    else Add(PowerSum(p[..|p| - 1], x), Product(p[|p| - 1], Power(x, |p| - 1)))
  }

  lemma PowerSumSteps(p: Polynomial, c: Byte, x: Byte)
    ensures PowerSum([], x) == 0
    ensures PowerSum(p + [c], x) == Add(PowerSum(p, x), Product(c, Power(x, |p|)))
  {}

  lemma {:induction false} EvalAppend(p: Polynomial, c: Byte, x: Byte)
    ensures Eval(p + [c], x) == Add(Eval(p, x), Product(c, Power(x, |p|)))
  {
    hide *;
    EvalSteps(c, [], x);
    if p == [] {
      assert p + [c] == [c] + [];
      PowerSteps(x, 0);
      ProductByOne(c);
      ZeroProduct(x);
      AddCommutative(c, 0);
    } else {
      var rest := p[1..];
      assert p == [p[0]] + rest && p + [c] == [p[0]] + (rest + [c]);
      EvalSteps(p[0], rest, x);
      EvalSteps(p[0], rest + [c], x);
      EvalAppend(rest, c, x);
      var term := Product(c, Power(x, |rest|));
      ProductAddsRight(x, Eval(rest, x), term);
      AddAssociative(p[0], Product(x, Eval(rest, x)), Product(x, term));
      PowerSteps(x, |rest|);
      ProductCommutative(x, term);
      ProductAssociative(c, Power(x, |rest|), x);
    }
  }

  lemma {:induction false} EvalIsPowerSum(p: Polynomial, x: Byte)
    ensures Eval(p, x) == PowerSum(p, x)
  {
    hide *;
    PowerSumSteps([], 0, x);
    EvalSteps(0, [], x);
    if p != [] {
      var init, c := p[..|p| - 1], p[|p| - 1];
      assert p == init + [c];
      EvalIsPowerSum(init, x);
      EvalAppend(init, c, x);
      PowerSumSteps(init, c, x);
    }
  }

  // ----- Arithmetic on polynomials -----

  function Plus(p: Polynomial, q: Polynomial): (r: Polynomial)
    requires |p| == |q|
    ensures |r| == |p|
    ensures forall i :: 0 <= i < |p| ==> r[i] == Add(p[i], q[i])
  {
    seq(|p|, i requires 0 <= i < |p| => Add(p[i], q[i]))
  }

  lemma {:induction false} EvalPlus(p: Polynomial, q: Polynomial, x: Byte)
    requires |p| == |q|
    ensures Eval(Plus(p, q), x) == Add(Eval(p, x), Eval(q, x))
  {
    hide *;
    EvalSteps(0, [], x);
    if p == [] {
      assert Plus(p, q) == [] && q == [];
      AddZero(0);
    } else {
      var p', q' := p[1..], q[1..];
      assert p == [p[0]] + p' && q == [q[0]] + q' && Plus(p, q) == [Add(p[0], q[0])] + Plus(p', q');
      EvalSteps(p[0], p', x);
      EvalSteps(q[0], q', x);
      EvalSteps(Add(p[0], q[0]), Plus(p', q'), x);
      EvalPlus(p', q', x);
      ProductAddsRight(x, Eval(p', x), Eval(q', x));
      AddExchange(p[0], q[0], Product(x, Eval(p', x)), Product(x, Eval(q', x)));
    }
  }

  function Scale(c: Byte, p: Polynomial): (r: Polynomial)
    ensures |r| == |p|
    ensures forall i :: 0 <= i < |p| ==> r[i] == Product(c, p[i])
  {
    seq(|p|, i requires 0 <= i < |p| => Product(c, p[i]))
  }

  lemma {:induction false} EvalScale(c: Byte, p: Polynomial, x: Byte)
    ensures Eval(Scale(c, p), x) == Product(c, Eval(p, x))
  {
    hide *;
    EvalSteps(0, [], x);
    if p == [] {
      assert Scale(c, p) == [];
      ZeroProduct(c);
    } else {
      var rest := p[1..];
      assert p == [p[0]] + rest && Scale(c, p) == [Product(c, p[0])] + Scale(c, rest);
      EvalSteps(p[0], rest, x);
      EvalSteps(Product(c, p[0]), Scale(c, rest), x);
      EvalScale(c, rest, x);
      var v := Eval(rest, x);
      ProductAddsRight(c, p[0], Product(x, v));
      ProductAssociative(c, x, v);
      ProductAssociative(x, c, v);
      ProductCommutative(c, x);
    }
  }

  /** (x - root) * p, one longer than p; subtraction is addition. */
  function TimesLinear(p: Polynomial, root: Byte): (r: Polynomial)
    ensures |r| == |p| + 1
  {
    Plus([0] + p, Scale(root, p + [0]))
  }

  lemma EvalTimesLinear(p: Polynomial, root: Byte, x: Byte)
    ensures Eval(TimesLinear(p, root), x) == Product(Add(x, root), Eval(p, x))
  {
    hide Add, Product, Power, Eval, Plus, Scale;
    EvalPlus([0] + p, Scale(root, p + [0]), x);
    EvalSteps(0, p, x);
    AddZero(Product(x, Eval(p, x)));
    EvalScale(root, p + [0], x);
    EvalAppend(p, 0, x);
    ZeroProduct(Power(x, |p|));
    AddZero(Eval(p, x));
    ProductAddsLeft(x, root, Eval(p, x));
  }

  // ----- Roots -----

  ghost predicate IsZero(p: Polynomial) {
    forall i :: 0 <= i < |p| ==> p[i] == 0
  }

  ghost predicate Distinct(xs: seq<Byte>) {
    forall i, j :: 0 <= i < j < |xs| ==> xs[i] != xs[j]
  }

  /** The quotient of p by (x - r), by synthetic division. */
  ghost function DivideByLinear(p: Polynomial, r: Byte): (q: Polynomial)
    ensures |q| == if p == [] then 0 else |p| - 1
  {
    if |p| <= 1 then [] else [Eval(p[1..], r)] + DivideByLinear(p[1..], r)
  }

  lemma {:induction false} DivisionLaw(p: Polynomial, r: Byte, x: Byte)
    ensures Add(Eval(p, x), Eval(p, r)) == Product(Add(x, r), Eval(DivideByLinear(p, r), x))
  {
    hide Add, Product, Power, Eval;
    EvalSteps(0, [], x);
    EvalSteps(0, [], r);
    ZeroProduct(Add(x, r));
    ZeroProduct(x);
    ZeroProduct(r);
    if p == [] {
      AddSelf(0);
    } else {
      var c, rest := p[0], p[1..];
      assert p == [c] + rest;
      EvalSteps(c, rest, x);
      EvalSteps(c, rest, r);
      var a, b := Eval(rest, x), Eval(rest, r);
      AddExchange(c, Product(x, a), c, Product(r, b));
      AddSelf(c);
      AddZero(Add(Product(x, a), Product(r, b)));
      if rest == [] {
        AddSelf(0);
      } else {
        DivisionLaw(rest, r, x);
        EvalSteps(b, DivideByLinear(rest, r), x);
        DivisionArithmetic(x, r, a, b, Eval(DivideByLinear(rest, r), x));
      }
    }
  }

  /** x * a + r * b == (x + r) * (b + x * q) when a + b == (x + r) * q. */
  lemma DivisionArithmetic(x: Byte, r: Byte, a: Byte, b: Byte, q: Byte)
    requires Add(a, b) == Product(Add(x, r), q)
    ensures Add(Product(x, a), Product(r, b)) == Product(Add(x, r), Add(b, Product(x, q)))
  {
    hide *;
    var s := Add(x, r);
    ProductAddsRight(s, b, Product(x, q));
    ProductAssociative(s, x, q);
    ProductCommutative(s, x);
    ProductAssociative(x, s, q);
    ProductAddsRight(x, a, b);
    ProductAddsLeft(x, r, b);
    var xa, xb, rb := Product(x, a), Product(x, b), Product(r, b);
    AddExchange(xb, rb, xa, xb);
    AddCommutative(xb, xa);
    AddCommutative(rb, xb);
    AddAssociative(xa, xb, Add(xb, rb));
    AddCancel(xb, rb);
  }

  lemma {:induction false} ZeroQuotient(p: Polynomial, r: Byte)
    requires IsZero(DivideByLinear(p, r))
    requires Eval(p, r) == 0
    ensures IsZero(p)
  {
    hide Add, Product, Power, Eval;
    if p != [] {
      var c, rest := p[0], p[1..];
      assert p == [c] + rest;
      EvalSteps(c, rest, r);
      EvalSteps(c, [], r);
      if rest != [] {
        assert DivideByLinear(p, r)[0] == Eval(rest, r);
        assert DivideByLinear(p, r)[1..] == DivideByLinear(rest, r);
        ZeroQuotient(rest, r);
      }
      ZeroProduct(r);
      AddZero(c);
    }
  }

  /** A polynomial of degree below n with n distinct roots is zero. */
  lemma {:induction false} RootBound(p: Polynomial, roots: seq<Byte>)
    requires |p| == |roots| && Distinct(roots)
    requires forall i :: 0 <= i < |roots| ==> Eval(p, roots[i]) == 0
    ensures IsZero(p)
    decreases |p|
  {
    hide Add, Product, Power, Eval, DivideByLinear;
    if p != [] {
      var r, others := roots[0], roots[1..];
      var q := DivideByLinear(p, r);
      forall i | 0 <= i < |others|
        ensures Eval(q, others[i]) == 0
      {
        var x := roots[i + 1];
        DivisionLaw(p, r, x);
        AddSelf(0);
        AddCancel(x, r);
        NonZeroProduct(Add(x, r), Eval(q, x));
      }
      RootBound(q, others);
      ZeroQuotient(p, r);
    }
  }

  /** Through n points with distinct abscissas passes at most one polynomial of degree below n. */
  lemma InterpolantUnique(p: Polynomial, q: Polynomial, xs: seq<Byte>)
    requires |p| == |q| == |xs| && Distinct(xs)
    requires forall i :: 0 <= i < |xs| ==> Eval(p, xs[i]) == Eval(q, xs[i])
    ensures p == q
  {
    hide Add, Product, Power, Eval, Plus;
    var d := Plus(p, q);
    forall i | 0 <= i < |xs|
      ensures Eval(d, xs[i]) == 0
    {
      EvalPlus(p, q, xs[i]);
      AddSelf(Eval(p, xs[i]));
    }
    RootBound(d, xs);
    forall i | 0 <= i < |p|
      ensures p[i] == q[i]
    {
      AddCancel(p[i], q[i]);
    }
  }
}
