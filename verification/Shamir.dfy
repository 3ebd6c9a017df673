/** Shamir secret sharing: splitting a secret into shares and combining shares back. */
module Shamir {
  import opened Common
  import opened Gf256
  import opened Gf256Tables
  import opened Polynomials

  /** A share as it lives in memory: its data is filled in place. */
  datatype Share = Share(index: Byte, data: array<Byte>)

  /** A share as a value. */
  datatype ShareValue = ShareValue(index: Byte, data: seq<Byte>)

  datatype Error =
    | EmptySecret | ThresholdTooLow | NotEnoughShares | TooManyShares | RandomFailed
    | TooFewShares | EmptyShareData | ShareDataMismatch | ZeroIndex | DuplicateIndex

  ghost function Value(s: Share): (v: ShareValue)
    reads s.data
  {
    ShareValue(s.index, s.data[..])
  }

  ghost function Values(shares: seq<Share>): (vs: seq<ShareValue>)
    reads set s <- shares :: s.data
    ensures |vs| == |shares|
    ensures forall i :: 0 <= i < |shares| ==> vs[i] == Value(shares[i])
  {
    seq(|shares|, i requires 0 <= i < |shares| reads set s <- shares :: s.data => Value(shares[i]))
  }

  // ----- Specification of Split -----

  /** Share indices are 1-based; 0 is the place of the secret. */
  function ShareIndex(i: nat): Byte
    requires i < 255
  {
    (i + 1) as Byte
  }

  /** What the random source delivers: for every byte of the secret either the
      threshold - 1 coefficients asked for, or a read error. */
  ghost predicate RandomFits(random: seq<Option<seq<Byte>>>, size: nat, threshold: int) {
    && |random| == size
    && (threshold >= 2 ==> forall b :: 0 <= b < size && random[b].Some? ==> |random[b].value| == threshold - 1)
  }

  /** The share at index x for the secret bytes and coefficient lists given. */
  function ShareAt(secret: seq<Byte>, coefficients: seq<seq<Byte>>, x: Byte): (s: ShareValue)
    requires |coefficients| == |secret|
    ensures s.index == x && |s.data| == |secret|
  {
    ShareValue(x, seq(|secret|, b requires 0 <= b < |secret| => Eval([secret[b]] + coefficients[b], x)))
  }

  function SplitValues(secret: seq<Byte>, n: nat, coefficients: seq<seq<Byte>>): (shares: seq<ShareValue>)
    requires n <= 255 && |coefficients| == |secret|
    ensures |shares| == n
  {
    seq(n, i requires 0 <= i < n => ShareAt(secret, coefficients, ShareIndex(i)))
  }

  function Delivered(random: seq<Option<seq<Byte>>>): (coefficients: seq<seq<Byte>>)
    requires forall b :: 0 <= b < |random| ==> random[b].Some?
    ensures |coefficients| == |random|
  {
    seq(|random|, b requires 0 <= b < |random| => random[b].value)
  }

  function SplitSpec(secret: seq<Byte>, n: int, threshold: int, random: seq<Option<seq<Byte>>>)
    : (r: Result<seq<ShareValue>, Error>)
    requires |random| == |secret|
  {
    if |secret| == 0 then Err(EmptySecret)
    else if threshold < 2 then Err(ThresholdTooLow)
    else if n < threshold then Err(NotEnoughShares)
    else if n > 255 then Err(TooManyShares)
    else if exists b :: 0 <= b < |random| && random[b].None? then Err(RandomFailed)
    else Ok(SplitValues(secret, n, Delivered(random)))
  }

  // ----- Split -----

  /** Horner's method with the tables evaluates the polynomial. */
  method EvalPolynomial(t: Tables, coeffs: array<Byte>, x: Byte) returns (result: Byte)
    requires t.Valid()
    ensures result == Eval(coeffs[..], x)
  {
    hide Product, Power, Add;
    result := 0;
    var i := coeffs.Length;
    assert coeffs[i..] == [];
    while i > 0
      invariant 0 <= i <= coeffs.Length
      invariant result == Eval(coeffs[i..], x)
    {
      i := i - 1;
      assert coeffs[i..] == [coeffs[i]] + coeffs[i + 1..];
      EvalSteps(coeffs[i], coeffs[i + 1..], x);
      ProductCommutative(result, x);
      AddCommutative(Product(x, result), coeffs[i]);
      result := t.GfAdd(t.GfMul(result, x), coeffs[i]);
    }
    assert coeffs[0..] == coeffs[..];
  }

  /** The first `filled` bytes of every share hold their final values. */
  ghost predicate Filled(shares: seq<Share>, secret: seq<Byte>, coefficients: seq<seq<Byte>>, filled: nat)
    requires |coefficients| <= |secret|
    reads set s <- shares :: s.data
  {
    forall i :: 0 <= i < |shares| ==>
      && shares[i].data.Length == |secret|
      && forall b :: 0 <= b < filled && b < |coefficients| ==>
           shares[i].data[b] == Eval([secret[b]] + coefficients[b], shares[i].index)
  }

  /** Allocates n shares with indices 1 to n and separate data buffers. */
  method AllocateShares(n: nat, size: nat) returns (shares: seq<Share>)
    requires n <= 255
    ensures |shares| == n
    ensures forall i :: 0 <= i < n ==> fresh(shares[i].data) && shares[i].data.Length == size
    ensures forall i :: 0 <= i < n ==> shares[i].index == ShareIndex(i)
    ensures forall i, j :: 0 <= i < j < n ==> shares[i].data != shares[j].data
  {
    hide ShareIndex;
    shares := [];
    for i := 0 to n
      invariant |shares| == i
      invariant forall k :: 0 <= k < i ==> fresh(shares[k].data) && shares[k].data.Length == size
      invariant forall k :: 0 <= k < i ==> shares[k].index == ShareIndex(k)
      invariant forall k, j :: 0 <= k < j < i ==> shares[k].data != shares[j].data
    {
      var data := new Byte[size](_ => 0);
      shares := shares + [Share(ShareIndex(i), data)];
    }
  }

  /** Writes byte b of every share: the value of the polynomial at the share's index. */
  method FillByte(t: Tables, shares: seq<Share>, coeffs: array<Byte>, b: nat)
    requires t.Valid()
    requires forall i :: 0 <= i < |shares| ==> b < shares[i].data.Length
    requires forall i, j :: 0 <= i < j < |shares| ==> shares[i].data != shares[j].data
    requires forall i :: 0 <= i < |shares| ==> shares[i].data !in {coeffs, t.logTable, t.expTable}
    modifies set s <- shares :: s.data
    ensures forall i :: 0 <= i < |shares| ==> shares[i].data[b] == Eval(coeffs[..], shares[i].index)
    ensures forall i, k :: 0 <= i < |shares| && 0 <= k < shares[i].data.Length && k != b ==>
              shares[i].data[k] == old(shares[i].data[k])
  {
    for i := 0 to |shares|
      invariant t.Valid() && coeffs[..] == old(coeffs[..])
      invariant forall j :: 0 <= j < i ==> shares[j].data[b] == Eval(coeffs[..], shares[j].index)
      invariant forall j, k :: 0 <= j < |shares| && 0 <= k < shares[j].data.Length && k != b ==>
                  shares[j].data[k] == old(shares[j].data[k])
    {
      var y := EvalPolynomial(t, coeffs, shares[i].index);
      shares[i].data[b] := y;
    }
  }

  /** Loads the coefficients for one byte of the secret: the byte itself, then the random ones. */
  method LoadCoefficients(coeffs: array<Byte>, secretByte: Byte, delivered: seq<Byte>)
    requires coeffs.Length == |delivered| + 1
    modifies coeffs
    ensures coeffs[..] == [secretByte] + delivered
  {
    coeffs[0] := secretByte;
    forall k | 0 <= k < |delivered| { coeffs[k + 1] := delivered[k]; }
  }

  lemma FilledIsSplit(shares: seq<Share>, secret: seq<Byte>, coefficients: seq<seq<Byte>>)
    requires |coefficients| == |secret| && |shares| <= 255
    requires Filled(shares, secret, coefficients, |secret|)
    requires forall i :: 0 <= i < |shares| ==> shares[i].index == ShareIndex(i)
    ensures Values(shares) == SplitValues(secret, |shares|, coefficients)
  {
    hide Eval, ShareIndex;
    forall i | 0 <= i < |shares|
      ensures Value(shares[i]) == ShareAt(secret, coefficients, ShareIndex(i))
    {
      assert shares[i].data[..] == ShareAt(secret, coefficients, ShareIndex(i)).data;
    }
  }

  method Split(t: Tables, secret: seq<Byte>, n: int, threshold: int, random: seq<Option<seq<Byte>>>)
    returns (r: Result<seq<Share>, Error>)
    requires t.Valid()
    requires RandomFits(random, |secret|, threshold)
    ensures SplitSpec(secret, n, threshold, random) ==
            match r case Ok(shares) => Ok(Values(shares)) case Err(e) => Err(e)
    ensures r.Ok? ==> forall s <- r.value :: fresh(s.data)
  {
    if |secret| == 0 { return Err(EmptySecret); }
    if threshold < 2 { return Err(ThresholdTooLow); }
    if n < threshold { return Err(NotEnoughShares); }
    if n > 255 { return Err(TooManyShares); }
    var shares := AllocateShares(n, |secret|);
    var done := ShareOut(t, secret, threshold, random, shares);
    if !done {
      return Err(RandomFailed);
    }
    FilledIsSplit(shares, secret, Delivered(random));
    return Ok(shares);
  }

  /** The loop over the bytes of the secret; false when the random source fails. */
  method ShareOut(t: Tables, secret: seq<Byte>, threshold: nat, random: seq<Option<seq<Byte>>>, shares: seq<Share>)
    returns (done: bool)
    requires t.Valid() && threshold >= 2
    requires RandomFits(random, |secret|, threshold)
    requires forall i :: 0 <= i < |shares| ==> shares[i].data.Length == |secret|
    requires forall i, j :: 0 <= i < j < |shares| ==> shares[i].data != shares[j].data
    requires forall i :: 0 <= i < |shares| ==> shares[i].data !in {t.logTable, t.expTable}
    modifies set s <- shares :: s.data
    ensures done <==> forall b :: 0 <= b < |random| ==> random[b].Some?
    ensures done ==> Filled(shares, secret, Delivered(random), |secret|)
  {
    hide Eval, Product, Power;
    var coeffs := new Byte[threshold];
    ghost var used: seq<seq<Byte>> := [];
    for b := 0 to |secret|
      invariant t.Valid()
      invariant |used| == b && forall k :: 0 <= k < b ==> random[k] == Some(used[k])
      invariant Filled(shares, secret, used, b)
    {
      if random[b].None? {
        return false;
      }
      LoadCoefficients(coeffs, secret[b], random[b].value);
      FillByte(t, shares, coeffs, b);
      used := used + [random[b].value];
    }
    assert used == Delivered(random);
    return true;
  }
}
