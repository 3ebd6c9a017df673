/** The log/exp tables and the table-driven field operations. */
module Gf256Tables {
  import opened Common
  import opened Gf256
  import opened Generator

  /** The position of 3^j in the log table. */
  ghost function Slot(j: nat): (s: nat)
    ensures s < 256
  {
    AsNat(Power(G, j))
  }

  lemma SlotsDiffer(i: nat)
    requires i < 255
    ensures Slot(i) == AsNat(Power(G, i)) != 0
    ensures forall j: nat | j < i :: Slot(j) != Slot(i)
  {
    hide Power, Product;
    forall j: nat | j < i
      ensures Slot(j) != Slot(i)
    {
      PowersDistinct(j, i);
      AsNatInjective(Power(G, j), Power(G, i));
    }
    PowerNonZero(i);
    AsNatInjective(Power(G, i), 0);
  }

  lemma SlotOfLog(x: Byte)
    requires x != 0
    ensures Slot(Log(x)) == AsNat(x)
  {}

  class Tables {
    const logTable: array<Byte>
    const expTable: array<Byte>

    ghost predicate Valid()
      reads logTable, expTable
    {
      && logTable.Length == 256 && expTable.Length == 256 && logTable != expTable
      && (forall i: nat | i < 255 :: expTable[i] == Power(G, i))
      && expTable[255] == expTable[0]
      && (forall x: Byte | x != 0 :: AsNat(logTable[AsNat(x)]) == Log(x))
      && logTable[0] == 0
    }

    constructor ()
      ensures Valid() && fresh(logTable) && fresh(expTable)
    {
      logTable := new Byte[256](_ => 0);
      expTable := new Byte[256](_ => 0);
      new;
      Init();
    }

    /** The package initialiser: one pass over the powers of 3. */
    method Init()
      requires logTable.Length == 256 && expTable.Length == 256 && logTable != expTable
      requires logTable[0] == 0
      modifies logTable, expTable
      ensures Valid()
    {
      hide Power, Product, Slot, AsNat;
      var x: Byte := 1;
      PowerSteps(G, 0);
      for i := 0 to 255
        invariant x == Power(G, i)
        invariant forall j: nat | j < i :: expTable[j] == Power(G, j)
        invariant forall j: nat | j < i :: AsNat(logTable[Slot(j)]) == j
        invariant logTable[0] == 0
      {
        expTable[i] := x;
        SlotsDiffer(i);
        NatAsByte(i);
        logTable[AsNat(x)] := i as Byte;
        x := GfMulNoTable(x, 3);
        PowerSteps(G, i);
      }
      expTable[255] := expTable[0];
      forall x: Byte | x != 0
        ensures AsNat(logTable[AsNat(x)]) == Log(x)
      {
        SlotOfLog(x);
      }
    }

    function GfAdd(a: Byte, b: Byte): (r: Byte)
      ensures r == Add(a, b)
    {
      a ^ b
    }

    /** Table multiplication is the shift-and-XOR product. */
    function GfMul(a: Byte, b: Byte): (r: Byte)
      requires Valid()
      reads logTable, expTable
      ensures r == Product(a, b)
    {
      MulByLogs(a, b);
      if a == 0 || b == 0 then 0
      else expTable[(AsNat(logTable[AsNat(a)]) + AsNat(logTable[AsNat(b)])) % 255]
    }

    /** Table division; the caller must not divide by zero, which panics. */
    function GfDiv(a: Byte, b: Byte): (r: Byte)
      requires Valid()
      requires b != 0
      reads logTable, expTable
      ensures r == Quotient(a, b)
    {
      DivByLogs(a, b);
      if a == 0 then 0
      else expTable[(AsNat(logTable[AsNat(a)]) - AsNat(logTable[AsNat(b)]) + 255) % 255]
    }

    /** Table inversion; the inverse of zero panics. */
    function GfInv(a: Byte): (r: Byte)
      requires Valid()
      requires a != 0
      reads logTable, expTable
      ensures r == Inverse(a)
    {
      InvByLog(a);
      expTable[255 - AsNat(logTable[AsNat(a)])]
    }
  }

  lemma MulByLogs(a: Byte, b: Byte)
    ensures a == 0 || b == 0 ==> Product(a, b) == 0
    ensures a != 0 && b != 0 ==> Product(a, b) == Power(G, (Log(a) + Log(b)) % 255)
  {
    hide Product, Power;
    ZeroProduct(a);
    ZeroProduct(b);
    if a != 0 && b != 0 {
      PowerAdds(G, Log(a), Log(b));
      PowerModulo(Log(a) + Log(b));
    }
  }

  lemma DivByLogs(a: Byte, b: Byte)
    requires b != 0
    ensures a == 0 ==> Quotient(a, b) == 0
    ensures a != 0 ==> Quotient(a, b) == Power(G, (Log(a) + 255 - Log(b)) % 255)
  {
    hide Product, Power;
    ZeroProduct(b);
    if a == 0 {
      CancelFactor(Quotient(a, b), 0, b);
    } else {
      var n := Log(a) + 255 - Log(b);
      PowerModulo(n);
      PowerAdds(G, n, Log(b));
      PowerAdds(G, Log(a), 255);
      GeneratorPowers();
      ProductByOne(a);
      CancelFactor(Quotient(a, b), Power(G, n), b);
    }
  }

  lemma InvByLog(a: Byte)
    requires a != 0
    ensures Inverse(a) == Power(G, 255 - Log(a))
    ensures Log(a) == 0 ==> Inverse(a) == Power(G, 0)
  {
    hide Product, Power;
    GeneratorPowers();
    var r := Power(G, 255 - Log(a));
    PowerAdds(G, 255 - Log(a), Log(a));
    ProductCommutative(a, Inverse(a));
    CancelFactor(Inverse(a), r, a);
    PowerSteps(G, 0);
  }
}
