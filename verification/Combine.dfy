/** Recovering a secret from shares. */
module Combine {
  import opened Common
  import opened Gf256
  import opened Generator
  import opened Gf256Tables
  import opened Polynomials
  import opened Lagrange
  import opened Shamir

  // ----- Specification -----

  ghost function Indices(shares: seq<ShareValue>): (xs: seq<Byte>)
    ensures |xs| == |shares|
    ensures forall i :: 0 <= i < |shares| ==> xs[i] == shares[i].index
  {
    seq(|shares|, i requires 0 <= i < |shares| => shares[i].index)
  }

  /** Byte b of every share. */
  ghost function Column(shares: seq<ShareValue>, b: nat): (ys: seq<Byte>)
    requires forall i :: 0 <= i < |shares| ==> b < |shares[i].data|
    ensures |ys| == |shares|
    ensures forall i :: 0 <= i < |shares| ==> ys[i] == shares[i].data[b]
  {
    seq(|shares|, i requires 0 <= i < |shares| => shares[i].data[b])
  }

  /** The first bad index from position k on: zero, or seen before. */
  ghost function IndexError(xs: seq<Byte>, k: nat): (e: Option<Error>)
    requires k <= |xs|
    decreases |xs| - k
  {
    if k == |xs| then None
    else if xs[k] == 0 then Some(ZeroIndex)
    else if xs[k] in xs[..k] then Some(DuplicateIndex)
    else IndexError(xs, k + 1)
  }

  ghost function InputError(shares: seq<ShareValue>): (e: Option<Error>) {
    if |shares| < 2 then Some(TooFewShares)
    else if exists s :: s in shares && |s.data| == 0 then Some(EmptyShareData)
    else if exists s :: s in shares && |s.data| != |shares[0].data| then Some(ShareDataMismatch)
    else IndexError(Indices(shares), 0)
  }

  /** The shares Combine accepts. */
  ghost predicate WellFormed(shares: seq<ShareValue>) {
    && |shares| >= 2
    && |shares[0].data| > 0
    && (forall i :: 0 <= i < |shares| ==> |shares[i].data| == |shares[0].data|)
    && (forall i :: 0 <= i < |shares| ==> shares[i].index != 0)
    && Distinct(Indices(shares))
  }

  lemma {:induction false} IndexErrorMeaning(xs: seq<Byte>, k: nat)
    requires k <= |xs|
    ensures IndexError(xs, k).None? <==>
            (forall i :: k <= i < |xs| ==> xs[i] != 0 && xs[i] !in xs[..i])
    decreases |xs| - k
  {
    if k < |xs| {
      IndexErrorMeaning(xs, k + 1);
    }
  }

  lemma DistinctMeaning(xs: seq<Byte>)
    ensures Distinct(xs) <==> forall i :: 0 <= i < |xs| ==> xs[i] !in xs[..i]
  {}

  lemma InputErrorMeaning(shares: seq<ShareValue>)
    ensures InputError(shares).None? <==> WellFormed(shares)
  {
    hide Distinct;
    var xs := Indices(shares);
    IndexErrorMeaning(xs, 0);
    DistinctMeaning(xs);
    if WellFormed(shares) {
      assert forall s :: s in shares ==> |s.data| == |shares[0].data|;
    }
    if InputError(shares).None? {
      assert forall i :: 0 <= i < |shares| ==> shares[i] in shares;
      assert forall i :: 0 <= i < |shares| ==> xs[i] == shares[i].index;
    }
  }

  /** Every byte of the secret is the value at 0 interpolated through that byte of the shares. */
  ghost function Secret(shares: seq<ShareValue>): (secret: seq<Byte>)
    requires WellFormed(shares)
  {
    seq(|shares[0].data|, b requires 0 <= b < |shares[0].data| =>
      InterpolantAt(Indices(shares), Column(shares, b), |shares|, 0))
  }

  ghost function CombineSpec(shares: seq<ShareValue>): (r: Result<seq<Byte>, Error>) {
    InputErrorMeaning(shares);
    match InputError(shares)
    case Some(e) => Err(e)
    case None => Ok(Secret(shares))
  }

  // ----- The loops -----

  lemma FactorAtZero(xs: seq<Byte>, i: nat, j: nat)
    requires i < |xs| && j < |xs| && i != j && Distinct(xs)
    ensures Add(xs[i], xs[j]) != 0
    ensures Factor(xs, i, j, 0) == Quotient(xs[j], Add(xs[i], xs[j]))
  {}

  /** The inner loop: the i-th basis polynomial at 0. */
  method BasisAtZero(t: Tables, xs: array<Byte>, i: nat) returns (basis: Byte)
    requires t.Valid() && i < xs.Length && Distinct(xs[..])
    ensures basis == BasisAt(xs[..], i, xs.Length, 0)
  {
    hide Add, Product, Power, Quotient, Distinct, Factor;
    basis := 1;
    for j := 0 to xs.Length
      invariant basis == BasisAt(xs[..], i, j, 0)
    {
      if i == j {
        continue;
      }
      FactorAtZero(xs[..], i, j);
      basis := t.GfMul(basis, t.GfDiv(xs[j], t.GfAdd(xs[i], xs[j])));
    }
  }

  method LagrangeInterpolateAtZero(t: Tables, xs: array<Byte>, ys: array<Byte>) returns (secret: Byte)
    requires t.Valid() && xs.Length == ys.Length && Distinct(xs[..])
    ensures secret == InterpolantAt(xs[..], ys[..], xs.Length, 0)
  {
    hide Add, Product, Power, BasisAt, Distinct;
    secret := 0;
    for i := 0 to xs.Length
      invariant secret == InterpolantAt(xs[..], ys[..], i, 0)
    {
      var basis := BasisAtZero(t, xs, i);
      secret := t.GfAdd(secret, t.GfMul(ys[i], basis));
    }
  }

  /** The zero and duplicate scan with its set of indices seen so far. */
  method ScanIndices(shares: seq<Share>) returns (e: Option<Error>)
    ensures e == IndexError(Indices(Values(shares)), 0)
  {
    ghost var xs := Indices(Values(shares));
    var seen: set<Byte> := {};
    for i := 0 to |shares|
      invariant seen == set x | x in xs[..i]
      invariant IndexError(xs, 0) == IndexError(xs, i)
    {
      assert xs[i] == shares[i].index;
      if shares[i].index == 0 {
        return Some(ZeroIndex);
      }
      if shares[i].index in seen {
        return Some(DuplicateIndex);
      }
      seen := seen + {shares[i].index};
      assert xs[..i + 1] == xs[..i] + [xs[i]];
    }
    return None;
  }

  method CheckInput(shares: seq<Share>) returns (e: Option<Error>)
    ensures e == InputError(Values(shares))
  {
    hide IndexError;
    ghost var values := Values(shares);
    if |shares| < 2 {
      return Some(TooFewShares);
    }
    for i := 0 to |shares|
      invariant forall k :: 0 <= k < i ==> |values[k].data| != 0
    {
      if shares[i].data.Length == 0 {
        assert values[i] in values && |values[i].data| == 0;
        return Some(EmptyShareData);
      }
    }
    assert forall s :: s in values ==> |s.data| != 0;
    var dataLen := shares[0].data.Length;
    for i := 1 to |shares|
      invariant forall k :: 0 <= k < i ==> |values[k].data| == dataLen
    {
      if shares[i].data.Length != dataLen {
        assert values[i] in values && |values[i].data| != dataLen;
        return Some(ShareDataMismatch);
      }
    }
    assert forall s :: s in values ==> |s.data| == dataLen;
    e := ScanIndices(shares);
  }

  method Combine(t: Tables, shares: seq<Share>) returns (r: Result<array<Byte>, Error>)
    requires t.Valid()
    ensures CombineSpec(Values(shares)) ==
            match r case Ok(secret) => Ok(secret[..]) case Err(e) => Err(e)
    ensures r.Ok? ==> fresh(r.value)
  {
    var e := CheckInput(shares);
    InputErrorMeaning(Values(shares));
    match e {
      case Some(error) => return Err(error);
      case None =>
    }
    var secret := Interpolate(t, shares);
    return Ok(secret);
  }

  /** Collects the abscissas, then interpolates byte by byte. */
  method Interpolate(t: Tables, shares: seq<Share>) returns (secret: array<Byte>)
    requires t.Valid() && WellFormed(Values(shares))
    ensures fresh(secret) && secret[..] == Secret(Values(shares))
  {
    hide Distinct, InterpolantAt, Product, Power, InputError;
    ghost var values := Values(shares);
    var xs := LoadIndices(shares);
    var size := shares[0].data.Length;
    assert size == |values[0].data|;
    secret := new Byte[size];
    var ys := new Byte[|shares|];
    for b := 0 to size
      invariant t.Valid() && values == Values(shares) && xs[..] == Indices(values)
      invariant forall k :: 0 <= k < b ==> secret[k] == InterpolantAt(Indices(values), Column(values, k), |values|, 0)
    {
      var s := InterpolateByte(t, shares, xs, ys, b);
      secret[b] := s;
    }
  }

  /** One turn of the loop over the bytes. */
  method InterpolateByte(t: Tables, shares: seq<Share>, xs: array<Byte>, ys: array<Byte>, b: nat) returns (s: Byte)
    requires t.Valid() && ys !in {t.logTable, t.expTable} && ys != xs
    requires WellFormed(Values(shares)) && xs[..] == Indices(Values(shares)) && ys.Length == |shares|
    requires forall i :: 0 <= i < |shares| ==> b < shares[i].data.Length && shares[i].data != ys
    modifies ys
    ensures s == InterpolantAt(Indices(Values(shares)), Column(Values(shares), b), |shares|, 0)
  {
    hide Distinct, InterpolantAt, Product, Power;
    LoadColumn(shares, ys, b);
    assert xs.Length == |shares|;
    s := LagrangeInterpolateAtZero(t, xs, ys);
  }

  method LoadIndices(shares: seq<Share>) returns (xs: array<Byte>)
    ensures fresh(xs) && xs[..] == Indices(Values(shares))
  {
    xs := new Byte[|shares|];
    for i := 0 to |shares|
      invariant forall k :: 0 <= k < i ==> xs[k] == shares[k].index
    {
      xs[i] := shares[i].index;
    }
  }

  method LoadColumn(shares: seq<Share>, ys: array<Byte>, b: nat)
    requires ys.Length == |shares|
    requires forall i :: 0 <= i < |shares| ==> b < shares[i].data.Length && shares[i].data != ys
    modifies ys
    ensures ys[..] == Column(Values(shares), b)
  {
    for i := 0 to |shares|
      invariant forall k :: 0 <= k < i ==> ys[k] == shares[k].data[b]
    {
      ys[i] := shares[i].data[b];
    }
  }
}
