/** The finite field GF(2^8) with reduction by 0x11B (FIPS 197, section 4.2):
    addition is XOR and the product is defined by shift-and-XOR. */
module Gf256 {
  import opened Common

  // ----- Addition -----

  function Add(a: Byte, b: Byte): Byte { a ^ b }

  lemma AddAssociative(a: Byte, b: Byte, c: Byte)
    ensures Add(Add(a, b), c) == Add(a, Add(b, c))
  {}

  lemma AddCommutative(a: Byte, b: Byte)
    ensures Add(a, b) == Add(b, a)
  {}

  lemma AddZero(a: Byte)
    ensures Add(a, 0) == a && Add(0, a) == a
  {}

  lemma AddSelf(a: Byte)
    ensures Add(a, a) == 0
  {}

  lemma AddCancel(a: Byte, b: Byte)
    ensures Add(a, Add(a, b)) == b
    ensures Add(a, b) == 0 <==> a == b
  {}

  lemma AddExchange(a: Byte, b: Byte, c: Byte, d: Byte)
    ensures Add(Add(a, b), Add(c, d)) == Add(Add(a, c), Add(b, d))
  {
    hide *;
    AddAssociative(a, b, Add(c, d));
    AddAssociative(b, c, d);
    AddCommutative(b, c);
    AddAssociative(c, b, d);
    AddAssociative(a, c, Add(b, d));
  }

  // ----- The shift-and-XOR product -----

  /** Multiplication by x: shift left and reduce. */
  function XTime(a: Byte): Byte {
    if a & 0x80 != 0 then (a << 1) ^ 0x1B else a << 1
  }

  function Half(b: Byte): Byte { b >> 1 }

  /** a times the lowest bit of b. */
  function LowBitTerm(a: Byte, b: Byte): Byte {
    if b & 1 != 0 then a else 0
  }

  /** The product of the polynomials a and b modulo x^8 + x^4 + x^3 + x + 1. */
  function Product(a: Byte, b: Byte): Byte
    decreases b
  {
    if b == 0 then 0 else Add(LowBitTerm(a, b), Product(XTime(a), Half(b)))
  }

  /** The shift-and-XOR loop computes the product. */
  method GfMulNoTable(a0: Byte, b0: Byte) returns (result: Byte)
    ensures result == Product(a0, b0)
  {
    var a, b := a0, b0;
    result := 0;
    AddZero(Product(a, b));
    while b > 0
      invariant Add(result, Product(a, b)) == Product(a0, b0)
      decreases b
    {
      ghost var before := result;
      ProductStep(a, b);
      HalfIsLess(b);
      AddAssociative(before, LowBitTerm(a, b), Product(XTime(a), Half(b)));
      AddZero(before);
      if b & 1 != 0 {
        result := result ^ a;
      }
      assert result == Add(before, LowBitTerm(a, b));
      var carry := a & 0x80;
      ghost var doubled := XTime(a);
      a := a << 1;
      if carry != 0 {
        a := a ^ 0x1B;
      }
      assert a == doubled;
      b := b >> 1;
    }
    AddZero(result);
    ProductOfZero(a);
  }

  lemma ProductOfZero(a: Byte)
    ensures Product(a, 0) == 0
  {}

  lemma ProductStep(a: Byte, b: Byte)
    ensures Product(a, b) == Add(LowBitTerm(a, b), Product(XTime(a), Half(b)))
  {}

  lemma HalfIsLess(b: Byte)
    requires b != 0
    ensures Half(b) < b
  {}

  lemma XTimeAdds(a: Byte, b: Byte)
    ensures XTime(Add(a, b)) == Add(XTime(a), XTime(b))
  {
    if a & 0x80 == 0x80 {
      if b & 0x80 == 0x80 {} else {}
    } else {
      if b & 0x80 == 0x80 {} else {}
    }
  }

  lemma XTimeOfZero()
    ensures XTime(0) == 0
  {}

  lemma LowBitTermAdds(a: Byte, b: Byte, c: Byte)
    ensures LowBitTerm(Add(a, b), c) == Add(LowBitTerm(a, c), LowBitTerm(b, c))
    ensures LowBitTerm(c, Add(a, b)) == Add(LowBitTerm(c, a), LowBitTerm(c, b))
  {}

  lemma LowBitTermXTime(a: Byte, b: Byte)
    ensures LowBitTerm(XTime(a), b) == XTime(LowBitTerm(a, b))
  {}

  lemma {:induction false} ProductXTime(a: Byte, b: Byte)
    ensures Product(XTime(a), b) == XTime(Product(a, b))
    decreases b
  {
    hide *;
    if b == 0 {
      ProductOfZero(a);
      ProductOfZero(XTime(a));
      XTimeOfZero();
    } else {
      HalfIsLess(b);
      ProductXTime(XTime(a), Half(b));
      ProductStep(a, b);
      ProductStep(XTime(a), b);
      XTimeAdds(LowBitTerm(a, b), Product(XTime(a), Half(b)));
      LowBitTermXTime(a, b);
    }
  }

  /** The product is additive in its left argument. */
  lemma {:induction false} ProductAddsLeft(a: Byte, b: Byte, c: Byte)
    ensures Product(Add(a, b), c) == Add(Product(a, c), Product(b, c))
    decreases c
  {
    hide *;
    if c == 0 {
      ProductOfZero(a);
      ProductOfZero(b);
      ProductOfZero(Add(a, b));
      AddZero(0);
    } else {
      HalfIsLess(c);
      XTimeAdds(a, b);
      LowBitTermAdds(a, b, c);
      ProductStep(a, c);
      ProductStep(b, c);
      ProductStep(Add(a, b), c);
      ProductAddsLeft(XTime(a), XTime(b), Half(c));
      AddExchange(LowBitTerm(a, c), LowBitTerm(b, c), Product(XTime(a), Half(c)), Product(XTime(b), Half(c)));
    }
  }

  lemma HalfAdds(b: Byte, c: Byte)
    ensures Half(Add(b, c)) == Add(Half(b), Half(c))
    ensures Half(b) | Half(c) == Half(b | c)
    ensures b | c == 0 ==> b == 0 && c == 0
  {}

  /** The product is additive in its right argument. */
  lemma {:induction false} ProductAddsRight(a: Byte, b: Byte, c: Byte)
    ensures Product(a, Add(b, c)) == Add(Product(a, b), Product(a, c))
    decreases b | c
  {
    hide *;
    HalfAdds(b, c);
    if b | c == 0 {
      ProductOfZero(a);
      AddZero(0);
    } else {
      HalfIsLess(b | c);
      ProductAddsRight(XTime(a), Half(b), Half(c));
      ProductStep(a, b);
      ProductStep(a, c);
      ProductStep(a, Add(b, c));
      LowBitTermAdds(b, c, a);
      AddExchange(LowBitTerm(a, b), LowBitTerm(a, c), Product(XTime(a), Half(b)), Product(XTime(a), Half(c)));
    }
  }

  /** Horner step of the product: the reduction may be done after the shorter product. */
  lemma ProductHorner(a: Byte, b: Byte)
    ensures Product(a, b) == Add(LowBitTerm(a, b), XTime(Product(a, Half(b))))
  {
    hide *;
    ProductStep(a, b);
    ProductXTime(a, Half(b));
  }

  lemma LowBitSplit(b: Byte)
    ensures Add(LowBitTerm(1, b), XTime(Half(b))) == b
  {}

  lemma {:induction false} ProductByOne(a: Byte)
    ensures Product(1, a) == a && Product(a, 1) == a
    decreases a
  {
    hide *;
    LowBitSplit(a);
    ProductHorner(1, a);
    if a == 0 {
      ProductOfZero(1);
    } else {
      HalfIsLess(a);
      ProductByOne(Half(a));
    }
    OneStep(a);
  }

  lemma OneStep(a: Byte)
    ensures Product(a, 1) == a
  {}

  lemma ZeroProduct(a: Byte)
    ensures Product(0, a) == 0 && Product(a, 0) == 0
  {}

  lemma LowBitProduct(a: Byte, b: Byte)
    ensures Product(LowBitTerm(1, b), a) == LowBitTerm(a, b)
  {
    ProductByOne(a);
    ZeroProduct(a);
  }

  /** The product is commutative. */
  lemma {:induction false} ProductCommutative(a: Byte, b: Byte)
    ensures Product(a, b) == Product(b, a)
    decreases b
  {
    hide *;
    ZeroProduct(a);
    if b != 0 {
      HalfIsLess(b);
      ProductHorner(a, b);
      ProductCommutative(a, Half(b));
      ProductXTime(Half(b), a);
      LowBitProduct(a, b);
      LowBitSplit(b);
      ProductAddsLeft(LowBitTerm(1, b), XTime(Half(b)), a);
    }
  }

  lemma LowBitTermProduct(a: Byte, b: Byte, c: Byte)
    ensures Product(a, LowBitTerm(b, c)) == LowBitTerm(Product(a, b), c)
  {}

  /** The product is associative. */
  lemma {:induction false} ProductAssociative(a: Byte, b: Byte, c: Byte)
    ensures Product(Product(a, b), c) == Product(a, Product(b, c))
    decreases c
  {
    hide *;
    if c == 0 {
      ZeroProduct(Product(a, b));
      ZeroProduct(a);
      ZeroProduct(b);
    } else {
      HalfIsLess(c);
      ProductHorner(Product(a, b), c);
      ProductAssociative(a, b, Half(c));
      ProductHorner(b, c);
      ProductAddsRight(a, LowBitTerm(b, c), XTime(Product(b, Half(c))));
      LowBitTermProduct(a, b, c);
      var q := Product(b, Half(c));
      ProductCommutative(a, XTime(q));
      ProductXTime(q, a);
      ProductCommutative(q, a);
    }
  }

  // ----- Powers and the generator 3 -----

  function Power(x: Byte, n: nat): Byte {
    if n == 0 then 1 else Product(Power(x, n - 1), x)
  }

  lemma PowerSteps(x: Byte, n: nat)
    ensures Power(x, 0) == 1
    ensures Power(x, n + 1) == Product(Power(x, n), x)
  {}

  lemma {:induction false} PowerAdds(x: Byte, m: nat, n: nat)
    ensures Power(x, m + n) == Product(Power(x, m), Power(x, n))
    decreases n
  {
    hide *;
    PowerSteps(x, 0);
    if n == 0 {
      ProductByOne(Power(x, m));
    } else {
      PowerAdds(x, m, n - 1);
      PowerSteps(x, m + n - 1);
      PowerSteps(x, n - 1);
      ProductAssociative(Power(x, m), Power(x, n - 1), x);
    }
  }
}
