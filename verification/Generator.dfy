/** The order of the generator 3, discrete logarithms and inverses in GF(2^8). */
module Generator {
  import opened Common
  import opened Gf256

  const G: Byte := 3

  /** One entry of the table below from two earlier ones. */
  lemma PowerFrom(m: nat, n: nat, x: Byte, y: Byte)
    requires Power(G, m) == x && Power(G, n) == y
    ensures Power(G, m + n) == Product(x, y)
  {
    hide *;
    PowerAdds(G, m, n);
  }

  // The products that lead from 3 to its 255th power, each computed on its own.

  lemma Times1() ensures Product(3, 3) == 0x05 {}
  lemma Times2() ensures Product(0x05, 0x05) == 0x11 {}
  lemma Times3() ensures Product(0x11, 3) == 0x33 {}
  lemma Times4() ensures Product(0x33, 0x33) == 0x72 {}
  lemma Times5() ensures Product(0x72, 0x33) == 0x35 {}
  lemma Times6() ensures Product(0x35, 0x05) == 0xE1 {}
  lemma Times7() ensures Product(0xE1, 0xE1) == 0x5C {}
  lemma Times8() ensures Product(0x5C, 0xE1) == 0x0C {}
  lemma Times9() ensures Product(0x0C, 0x5C) == 0xBD {}
  lemma Times10() ensures Product(0xBD, 0xBD) == 0xBC {}
  lemma Times11() ensures Product(0xBC, 0xBD) == 1 {}

  lemma GeneratorPowers()
    ensures Power(G, 15) == 0x35 && Power(G, 51) == 0x0C && Power(G, 85) == 0xBD
    ensures Power(G, 255) == 1
  {
    hide Power, Product;
    assert Power(G, 1) == 3 by { PowerSteps(G, 0); ProductByOne(G); }
    assert Power(G, 2) == 0x05 by { PowerFrom(1, 1, 3, 3); Times1(); }
    assert Power(G, 4) == 0x11 by { PowerFrom(2, 2, 0x05, 0x05); Times2(); }
    assert Power(G, 5) == 0x33 by { PowerFrom(4, 1, 0x11, 3); Times3(); }
    assert Power(G, 10) == 0x72 by { PowerFrom(5, 5, 0x33, 0x33); Times4(); }
    assert Power(G, 15) == 0x35 by { PowerFrom(10, 5, 0x72, 0x33); Times5(); }
    assert Power(G, 17) == 0xE1 by { PowerFrom(15, 2, 0x35, 0x05); Times6(); }
    assert Power(G, 34) == 0x5C by { PowerFrom(17, 17, 0xE1, 0xE1); Times7(); }
    assert Power(G, 51) == 0x0C by { PowerFrom(34, 17, 0x5C, 0xE1); Times8(); }
    assert Power(G, 85) == 0xBD by { PowerFrom(51, 34, 0x0C, 0x5C); Times9(); }
    assert Power(G, 170) == 0xBC by { PowerFrom(85, 85, 0xBD, 0xBD); Times10(); }
    assert Power(G, 255) == 1 by { PowerFrom(170, 85, 0xBC, 0xBD); Times11(); }
  }

  lemma {:induction false} PowerOfMultiple(d: nat, q: nat)
    requires Power(G, d) == 1
    ensures Power(G, q * d) == 1
  {
    hide *;
    PowerSteps(G, 0);
    if q > 0 {
      PowerOfMultiple(d, q - 1);
      assert q * d == (q - 1) * d + d;
      PowerAdds(G, (q - 1) * d, d);
      ProductByOne(1);
    }
  }

  lemma CofactorBounds(d: nat, k: nat)
    ensures k >= 17 && d >= 16 ==> k * d >= 272
    ensures k <= 1 ==> k * d <= d
  {}

  /** A proper divisor of 255 = 3 * 5 * 17 divides 85, 51 or 15. */
  lemma ProperDivisor(d: nat, k: nat)
    requires 0 < d < 255 && k * d == 255
    ensures 85 % d == 0 || 51 % d == 0 || 15 % d == 0
  {
    if d > 15 {
      CofactorBounds(d, k);
      if k == 2 {} else if k == 3 {} else if k == 4 {} else if k == 5 {} else if k == 6 {} else if k == 7 {}
      else if k == 8 {} else if k == 9 {} else if k == 10 {} else if k == 11 {} else if k == 12 {} else if k == 13 {}
      else if k == 14 {} else if k == 15 {} else if k == 16 {}
    }
  }

  /** No shorter power of 3 is 1: the order of 3 is exactly 255. */
  lemma {:induction false} GeneratorOrder(d: nat)
    requires 0 < d < 255
    ensures Power(G, d) != 1
  {
    hide *;
    if Power(G, d) == 1 {
      GeneratorPowers();
      var q, r := 255 / d, 255 % d;
      if r != 0 {
        PowerOfMultiple(d, q);
        PowerAdds(G, q * d, r);
        ProductByOne(Power(G, r));
        GeneratorOrder(r);
      } else {
        ProperDivisor(d, q);
        if 85 % d == 0 {
          PowerOfMultiple(d, 85 / d);
        } else if 51 % d == 0 {
          PowerOfMultiple(d, 51 / d);
        } else {
          PowerOfMultiple(d, 15 / d);
        }
      }
    }
  }

  /** Powers of 3 below 255 are all different. */
  lemma PowersDistinct(i: nat, j: nat)
    requires i < j < 255
    ensures Power(G, i) != Power(G, j)
  {
    hide *;
    if Power(G, i) == Power(G, j) {
      GeneratorPowers();
      PowerAdds(G, i, 255 - i);
      PowerAdds(G, j, 255 - i);
      PowerAdds(G, 255, j - i);
      ProductByOne(Power(G, j - i));
      GeneratorOrder(j - i);
    }
  }

  lemma PowerNonZero(i: nat)
    requires i <= 255
    ensures Power(G, i) != 0
  {
    hide *;
    if Power(G, i) == 0 {
      GeneratorPowers();
      PowerAdds(G, i, 255 - i);
      ZeroProduct(Power(G, 255 - i));
    }
  }

  // ----- Discrete logarithms -----

  /** Distinct values below a bound that are as many as the bound allows miss nothing. */
  lemma {:induction false} Pigeonhole(f: seq<nat>, n: nat)
    requires |f| == n
    requires forall i :: 0 <= i < n ==> 1 <= f[i] <= n
    requires forall i, j :: 0 <= i < j < n ==> f[i] != f[j]
    ensures forall y :: 1 <= y <= n ==> y in f
  {
    var image := set i | 0 <= i < n :: f[i];
    var range := UpTo(n);
    ImageSize(f, n);
    assert image <= range;
    if image != range {
      assert image < range;
      SubsetSize(image, range);
    }
    forall y | 1 <= y <= n
      ensures y in f
    {
      assert y in image;
    }
  }

  lemma SubsetSize(a: set<nat>, b: set<nat>)
    requires a < b
    ensures |a| < |b|
  {
    assert b == a + (b - a);
    assert |b| == |a| + |b - a|;
    var x :| x in b - a;
  }

  lemma {:induction false} ImageSize(f: seq<nat>, k: nat)
    requires k <= |f|
    requires forall i, j :: 0 <= i < j < |f| ==> f[i] != f[j]
    ensures |set i | 0 <= i < k :: f[i]| == k
  {
    var image := set i | 0 <= i < k :: f[i];
    if k == 0 {
      assert image == {};
    } else {
      ImageSize(f, k - 1);
      var shorter := set i | 0 <= i < k - 1 :: f[i];
      assert image == shorter + {f[k - 1]};
      assert f[k - 1] !in shorter;
    }
  }

  ghost function UpTo(n: nat): (s: set<nat>)
    ensures forall y :: y in s <==> 1 <= y <= n
    ensures |s| == n
  {
    if n == 0 then {} else UpTo(n - 1) + {n}
  }

  /** Every nonzero byte is a power of 3 with exactly one exponent below 255:
      filling the tables writes every nonzero log entry exactly once. */
  lemma LogExistsOnce(x: Byte)
    requires x != 0
    ensures exists i: nat :: i < 255 && Power(G, i) == x
    ensures forall i: nat, j: nat :: i < 255 && j < 255 && Power(G, i) == x && Power(G, j) == x ==> i == j
  {
    hide Power, Product;
    var f: seq<nat> := seq(255, i requires 0 <= i < 255 => AsNat(Power(G, i)));
    forall i | 0 <= i < 255
      ensures 1 <= f[i] <= 255
    {
      PowerNonZero(i);
      AsNatInjective(Power(G, i), 0);
    }
    forall i, j | 0 <= i < j < 255
      ensures f[i] != f[j]
    {
      PowersDistinct(i, j);
      AsNatInjective(Power(G, i), Power(G, j));
    }
    Pigeonhole(f, 255);
    AsNatInjective(x, 0);
    assert AsNat(x) in f;
    var i :| 0 <= i < 255 && f[i] == AsNat(x);
    AsNatInjective(Power(G, i), x);
    forall i: nat, j: nat | i < 255 && j < 255 && Power(G, i) == x && Power(G, j) == x
      ensures i == j
    {
      if i < j { PowersDistinct(i, j); }
      if j < i { PowersDistinct(j, i); }
    }
  }

  /** The discrete logarithm of x to base 3. */
  ghost function Log(x: Byte): (i: nat)
    requires x != 0
    ensures i < 255 && Power(G, i) == x
  {
    LogExistsOnce(x);
    var i: nat :| i < 255 && Power(G, i) == x;
    i
  }

  /** Exponents count modulo 255. */
  lemma PowerModulo(n: nat)
    requires n < 510
    ensures Power(G, n % 255) == Power(G, n)
  {
    hide *;
    if n >= 255 {
      GeneratorPowers();
      PowerAdds(G, n - 255, 255);
      ProductByOne(Power(G, n - 255));
    }
  }

  // ----- Inverses and quotients -----

  lemma InverseExists(a: Byte)
    requires a != 0
    ensures exists r :: Product(a, r) == 1 && r != 0
  {
    hide Product, Power;
    GeneratorPowers();
    PowerAdds(G, Log(a), 255 - Log(a));
    PowerNonZero(255 - Log(a));
    assert Product(a, Power(G, 255 - Log(a))) == 1;
  }

  ghost function Inverse(a: Byte): (r: Byte)
    requires a != 0
    ensures Product(a, r) == 1 && r != 0
  {
    InverseExists(a);
    var r :| Product(a, r) == 1 && r != 0;
    r
  }

  /** The one q with q * b == a. */
  ghost function Quotient(a: Byte, b: Byte): (q: Byte)
    requires b != 0
    ensures Product(q, b) == a
  {
    ProductAssociative(a, Inverse(b), b);
    ProductCommutative(b, Inverse(b));
    ProductByOne(a);
    Product(a, Inverse(b))
  }

  lemma CancelFactor(a: Byte, b: Byte, c: Byte)
    requires c != 0
    requires Product(a, c) == Product(b, c)
    ensures a == b
  {
    hide Product, Power;
    ProductAssociative(a, c, Inverse(c));
    ProductAssociative(b, c, Inverse(c));
    ProductByOne(a);
    ProductByOne(b);
  }

  /** GF(2^8) has no zero divisors. */
  lemma NonZeroProduct(a: Byte, b: Byte)
    ensures Product(a, b) == 0 <==> a == 0 || b == 0
  {
    hide Product, Power;
    ZeroProduct(a);
    ZeroProduct(b);
    if Product(a, b) == 0 && b != 0 {
      CancelFactor(a, 0, b);
    }
  }
}
