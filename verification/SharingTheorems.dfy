/** What splitting and combining guarantee together. */
module SharingTheorems {
  import opened Common
  import opened Gf256
  import opened Generator
  import opened Polynomials
  import opened Lagrange
  import opened Shamir
  import opened Combine

  // ----- Round trip -----

  ghost predicate Picks(picks: seq<nat>, n: nat) {
    && (forall k :: 0 <= k < |picks| ==> picks[k] < n)
    && (forall k, l :: 0 <= k < l < |picks| ==> picks[k] != picks[l])
  }

  /** The shares at the given positions, in the given order. */
  ghost function Select(shares: seq<ShareValue>, picks: seq<nat>): (chosen: seq<ShareValue>)
    requires Picks(picks, |shares|)
    ensures |chosen| == |picks|
    ensures forall k :: 0 <= k < |picks| ==> chosen[k] == shares[picks[k]]
  {
    seq(|picks|, k requires 0 <= k < |picks| => shares[picks[k]])
  }

  lemma ShareIndexDistinct(i: nat, j: nat)
    requires i < 255 && j < 255
    ensures ShareIndex(i) != 0
    ensures ShareIndex(i) == ShareIndex(j) <==> i == j
  {
    hide AsNat;
    NatAsByte(i + 1);
    NatAsByte(j + 1);
    AsNatInjective(ShareIndex(i), 0);
    AsNatInjective(ShareIndex(i), ShareIndex(j));
  }

  /** The index of a share is its position, counted from 1. */
  lemma ShareIndexNumber(i: nat)
    requires i < 255
    ensures AsNat(ShareIndex(i)) == i + 1
  {
    hide AsNat;
    NatAsByte(i + 1);
  }

  /** Every answer of Split: which error when, and the shares as sums of powers. */
  lemma SplitAnswers(secret: seq<Byte>, n: int, threshold: int, random: seq<Option<seq<Byte>>>)
    requires RandomFits(random, |secret|, threshold)
    ensures var r := SplitSpec(secret, n, threshold, random);
            && (r == Err(EmptySecret) <==> |secret| == 0)
            && (r == Err(ThresholdTooLow) <==> |secret| > 0 && threshold < 2)
            && (r == Err(NotEnoughShares) <==> |secret| > 0 && 2 <= threshold && n < threshold)
            && (r == Err(TooManyShares) <==> |secret| > 0 && 2 <= threshold <= n && n > 255)
            && (r == Err(RandomFailed) <==> |secret| > 0 && 2 <= threshold <= n <= 255
                                            && exists b :: 0 <= b < |random| && random[b].None?)
            && (r.Ok? <==> |secret| > 0 && 2 <= threshold <= n <= 255
                           && forall b :: 0 <= b < |random| ==> random[b].Some?)
    ensures var r := SplitSpec(secret, n, threshold, random);
            r.Ok? ==>
              && |r.value| == n
              && forall i :: 0 <= i < n ==>
                   && AsNat(r.value[i].index) == i + 1 && |r.value[i].data| == |secret|
                   && forall b :: 0 <= b < |secret| ==>
                        r.value[i].data[b] == PowerSum([secret[b]] + random[b].value, r.value[i].index)
  {
    hide Eval, PowerSum, ShareIndex, AsNat;
    var r := SplitSpec(secret, n, threshold, random);
    if r.Ok? {
      forall i | 0 <= i < n
        ensures AsNat(r.value[i].index) == i + 1
        ensures forall b :: 0 <= b < |secret| ==>
                  r.value[i].data[b] == PowerSum([secret[b]] + random[b].value, r.value[i].index)
      {
        ShareIndexNumber(i);
        forall b | 0 <= b < |secret|
          ensures r.value[i].data[b] == PowerSum([secret[b]] + random[b].value, r.value[i].index)
        {
          EvalIsPowerSum([secret[b]] + random[b].value, r.value[i].index);
        }
      }
    }
  }

  /** Index k is the first bad one if it is zero or repeated and none before it is. */
  ghost predicate FirstBad(xs: seq<Byte>, k: nat)
    requires k < |xs|
  {
    (xs[k] == 0 || xs[k] in xs[..k]) && forall i :: 0 <= i < k ==> xs[i] != 0 && xs[i] !in xs[..i]
  }

  lemma {:induction false} FirstIndexError(xs: seq<Byte>, k: nat)
    requires k <= |xs| && forall i :: 0 <= i < k ==> xs[i] != 0 && xs[i] !in xs[..i]
    ensures IndexError(xs, k) == Some(ZeroIndex) <==> exists j :: k <= j < |xs| && FirstBad(xs, j) && xs[j] == 0
    ensures IndexError(xs, k) == Some(DuplicateIndex) <==> exists j :: k <= j < |xs| && FirstBad(xs, j) && xs[j] != 0
    ensures IndexError(xs, k) in {None, Some(ZeroIndex), Some(DuplicateIndex)}
    decreases |xs| - k
  {
    if k < |xs| {
      if xs[k] == 0 || xs[k] in xs[..k] {
        assert FirstBad(xs, k);
        forall j | k < j < |xs|
          ensures !FirstBad(xs, j)
        {}
      } else {
        FirstIndexError(xs, k + 1);
        assert !FirstBad(xs, k);
      }
    }
  }

  /** Every error of Combine, and when it is the answer. */
  lemma CombineAnswers(shares: seq<ShareValue>)
    ensures var r := CombineSpec(shares);
            var sized := |shares| >= 2 && forall s <- shares :: |s.data| == |shares[0].data| > 0;
            var xs := Indices(shares);
            && (r == Err(TooFewShares) <==> |shares| < 2)
            && (r == Err(EmptyShareData) <==> |shares| >= 2 && exists s <- shares :: |s.data| == 0)
            && (r == Err(ShareDataMismatch) <==>
                  |shares| >= 2 && (forall s <- shares :: |s.data| > 0)
                  && exists s <- shares :: |s.data| != |shares[0].data|)
            && (r == Err(ZeroIndex) <==> sized && exists k :: 0 <= k < |xs| && FirstBad(xs, k) && xs[k] == 0)
            && (r == Err(DuplicateIndex) <==> sized && exists k :: 0 <= k < |xs| && FirstBad(xs, k) && xs[k] != 0)
            && (r.Ok? <==> WellFormed(shares))
  {
    hide IndexError, FirstBad, WellFormed;
    InputErrorMeaning(shares);
    FirstIndexError(Indices(shares), 0);
  }

  /** Any threshold or more distinct shares of a split, in any order, combine into the secret. */
  lemma RoundTrip(secret: seq<Byte>, n: int, threshold: int, random: seq<Option<seq<Byte>>>, picks: seq<nat>)
    requires RandomFits(random, |secret|, threshold)
    requires SplitSpec(secret, n, threshold, random).Ok?
    requires Picks(picks, n) && |picks| >= threshold
    ensures CombineSpec(Select(SplitSpec(secret, n, threshold, random).value, picks)) == Ok(secret)
  {
    hide Eval, Product, Power, ShareIndex, InterpolantAt;
    var coefficients := Delivered(random);
    var chosen := Select(SplitValues(secret, n, coefficients), picks);
    forall k, l | 0 <= k < |picks| && 0 <= l < |picks|
      ensures ShareIndex(picks[k]) != 0
      ensures ShareIndex(picks[k]) == ShareIndex(picks[l]) <==> picks[k] == picks[l]
    {
      ShareIndexDistinct(picks[k], picks[l]);
    }
    InputErrorMeaning(chosen);
    forall b | 0 <= b < |secret|
      ensures InterpolantAt(Indices(chosen), Column(chosen, b), |chosen|, 0) == secret[b]
    {
      var p := [secret[b]] + coefficients[b];
      assert Through(p, Indices(chosen), Column(chosen, b));
      ConstantTermRecovered(p, Indices(chosen), Column(chosen, b));
      EvalAtZero(p);
    }
    assert Secret(chosen) == secret;
  }

  // ----- Combine does not depend on the order -----

  /** Combine gives the same secret for the same shares in any order, whoever made them. */
  lemma OrderIndependent(shares: seq<ShareValue>, order: seq<nat>)
    requires WellFormed(shares)
    requires Picks(order, |shares|) && |order| == |shares|
    ensures CombineSpec(Select(shares, order)) == CombineSpec(shares)
  {
    hide Eval, Product, Power, InterpolantAt;
    var permuted := Select(shares, order);
    assert WellFormed(permuted);
    InputErrorMeaning(permuted);
    InputErrorMeaning(shares);
    var xs, xs' := Indices(shares), Indices(permuted);
    forall b | 0 <= b < |shares[0].data|
      ensures InterpolantAt(xs, Column(shares, b), |shares|, 0) == InterpolantAt(xs', Column(permuted, b), |shares|, 0)
    {
      Interpolation(xs, Column(shares, b), 0);
      var p: Polynomial :| |p| == |xs| && Through(p, xs, Column(shares, b));
      assert Through(p, xs', Column(permuted, b));
      Interpolation(xs', Column(permuted, b), 0);
    }
    assert Secret(permuted) == Secret(shares);
  }

  /** For any well-formed shares, byte b of the answer is the value at 0 of every polynomial with as
      many coefficients as there are shares that passes through byte b of all of them. */
  lemma CombinedValue(shares: seq<ShareValue>, b: nat, p: Polynomial)
    requires WellFormed(shares) && b < |shares[0].data| && |p| == |shares|
    requires forall i :: 0 <= i < |shares| ==> Eval(p, shares[i].index) == shares[i].data[b]
    ensures CombineSpec(shares).Ok? && |CombineSpec(shares).value| == |shares[0].data|
    ensures CombineSpec(shares).value[b] == Eval(p, 0)
  {
    hide Eval, InterpolantAt, Distinct;
    InputErrorMeaning(shares);
    assert Through(p, Indices(shares), Column(shares, b));
    Interpolation(Indices(shares), Column(shares, b), 0);
  }

  // ----- Fewer shares than the threshold fix nothing -----

  /** c gives the values ys at xs when the constant term is s. */
  ghost predicate Explains(s: Byte, c: Polynomial, xs: seq<Byte>, ys: seq<Byte>)
    requires |xs| == |ys|
  {
    Through([s] + c, xs, ys)
  }

  lemma ExplainsMeansThrough(s: Byte, c: Polynomial, x: Byte, y: Byte)
    requires x != 0
    ensures Eval([s] + c, x) == y <==> Eval(c, x) == Quotient(Add(y, s), x)
  {
    hide Add, Product, Power, Eval, Quotient;
    EvalSteps(s, c, x);
    var v := Eval(c, x);
    ProductCommutative(v, x);
    AddCancel(s, Product(x, v));
    AddCancel(s, y);
    AddCommutative(s, y);
    if Add(s, Product(x, v)) == y {
      CancelFactor(v, Quotient(Add(y, s), x), x);
    }
  }

  /** For one byte: whatever threshold - 1 values are seen and whatever the secret byte is,
      exactly one choice of the threshold - 1 random coefficients explains them. */
  lemma OneExplanation(s: Byte, xs: seq<Byte>, ys: seq<Byte>)
    requires |xs| == |ys| && Distinct(xs)
    requires forall i :: 0 <= i < |xs| ==> xs[i] != 0
    ensures exists c: Polynomial :: |c| == |xs| && Explains(s, c, xs, ys)
    ensures forall c: Polynomial, d: Polynomial ::
              |c| == |d| == |xs| && Explains(s, c, xs, ys) && Explains(s, d, xs, ys) ==> c == d
  {
    hide Add, Product, Power, Eval, Quotient;
    var zs := seq(|xs|, i requires 0 <= i < |xs| => Quotient(Add(ys[i], s), xs[i]));
    forall c: Polynomial
      ensures Explains(s, c, xs, ys) <==> Through(c, xs, zs)
    {
      forall i | 0 <= i < |xs|
        ensures Eval([s] + c, xs[i]) == ys[i] <==> Eval(c, xs[i]) == zs[i]
      {
        ExplainsMeansThrough(s, c, xs[i], ys[i]);
      }
    }
    Interpolation(xs, zs, 0);
  }

  /** The coefficient lists that turn `secret` into the shares seen. */
  ghost predicate ExplainsShares(secret: seq<Byte>, coefficients: seq<seq<Byte>>, seen: seq<ShareValue>) {
    && |coefficients| == |secret|
    && (forall b :: 0 <= b < |secret| ==> |coefficients[b]| == |seen|)
    && (forall k :: 0 <= k < |seen| ==> seen[k] == ShareAt(secret, coefficients, seen[k].index))
  }

  /** Secrecy: any threshold - 1 shares are explained by every secret of their length, and by
      exactly one choice of coefficients for each. */
  lemma SharesFixNothing(secret: seq<Byte>, seen: seq<ShareValue>)
    requires Distinct(Indices(seen))
    requires forall k :: 0 <= k < |seen| ==> seen[k].index != 0 && |seen[k].data| == |secret|
    ensures exists coefficients :: ExplainsShares(secret, coefficients, seen)
    ensures forall c, d :: ExplainsShares(secret, c, seen) && ExplainsShares(secret, d, seen) ==> c == d
  {
    hide Eval, Product, Power, Distinct;
    var xs := Indices(seen);
    var coefficients := FindCoefficients(secret, seen, |secret|);
    assert ExplainsShares(secret, coefficients, seen) by {
      forall k | 0 <= k < |seen|
        ensures seen[k] == ShareAt(secret, coefficients, seen[k].index)
      {
        forall b | 0 <= b < |secret|
          ensures Eval([secret[b]] + coefficients[b], xs[k]) == seen[k].data[b]
        {
          assert Explains(secret[b], coefficients[b], xs, Column(seen, b));
          assert Column(seen, b)[k] == seen[k].data[b];
        }
        assert seen[k].data == ShareAt(secret, coefficients, seen[k].index).data;
      }
    }
    forall c, d | ExplainsShares(secret, c, seen) && ExplainsShares(secret, d, seen)
      ensures c == d
    {
      forall b | 0 <= b < |secret|
        ensures c[b] == d[b]
      {
        ExplainsByte(secret, c, seen, b);
        ExplainsByte(secret, d, seen, b);
        OneExplanation(secret[b], xs, Column(seen, b));
      }
    }
  }

  lemma ExplainsByte(secret: seq<Byte>, c: seq<seq<Byte>>, seen: seq<ShareValue>, b: nat)
    requires ExplainsShares(secret, c, seen) && b < |secret|
    requires forall k :: 0 <= k < |seen| ==> |seen[k].data| == |secret|
    ensures Explains(secret[b], c[b], Indices(seen), Column(seen, b))
  {}

  ghost function FindCoefficients(secret: seq<Byte>, seen: seq<ShareValue>, n: nat): (c: seq<seq<Byte>>)
    requires n <= |secret|
    requires Distinct(Indices(seen))
    requires forall k :: 0 <= k < |seen| ==> seen[k].index != 0 && |seen[k].data| == |secret|
    ensures |c| == n
    ensures forall b :: 0 <= b < n ==> |c[b]| == |seen| && Explains(secret[b], c[b], Indices(seen), Column(seen, b))
  {
    if n == 0 then []
    else
      OneExplanation(secret[n - 1], Indices(seen), Column(seen, n - 1));
      var last: Polynomial :| |last| == |seen| && Explains(secret[n - 1], last, Indices(seen), Column(seen, n - 1));
      FindCoefficients(secret, seen, n - 1) + [last]
  }

  // ----- No altered value goes unnoticed -----

  lemma FactorNonZero(xs: seq<Byte>, i: nat, j: nat)
    requires i < |xs| && j < |xs| && i != j && Distinct(xs) && xs[j] != 0
    ensures Factor(xs, i, j, 0) != 0
  {
    hide Add, Product, Quotient, Distinct;
    FactorAtZero(xs, i, j);
    ZeroProduct(Add(xs[i], xs[j]));
  }

  /** At 0 no basis polynomial vanishes. */
  lemma {:induction false} BasisNonZero(xs: seq<Byte>, i: nat, k: nat)
    requires i < |xs| && k <= |xs| && Distinct(xs)
    requires forall j :: 0 <= j < |xs| ==> xs[j] != 0
    ensures BasisAt(xs, i, k, 0) != 0
  {
    hide Add, Product, Quotient, Distinct, Factor;
    if k > 0 {
      BasisNonZero(xs, i, k - 1);
      if k - 1 != i {
        FactorNonZero(xs, i, k - 1);
        NonZeroProduct(BasisAt(xs, i, k - 1, 0), Factor(xs, i, k - 1, 0));
      }
    }
  }

  /** Altering one value adds the difference times its basis value to the Lagrange sum. */
  lemma {:induction false} AlteredSum(xs: seq<Byte>, ys: seq<Byte>, i: nat, y: Byte, k: nat)
    requires |xs| == |ys| && i < |xs| && k <= |xs| && Distinct(xs)
    ensures InterpolantAt(xs, ys[i := y], k, 0) ==
            Add(InterpolantAt(xs, ys, k, 0), if i < k then Product(Add(ys[i], y), BasisAt(xs, i, |xs|, 0)) else 0)
  {
    hide Add, Product, BasisAt, Distinct;
    AddZero(0);
    if k > 0 {
      AlteredSum(xs, ys, i, y, k - 1);
      var before, basis := InterpolantAt(xs, ys, k - 1, 0), BasisAt(xs, k - 1, |xs|, 0);
      var term := Product(ys[k - 1], basis);
      AddZero(before);
      AddZero(Add(before, term));
      if k - 1 == i {
        ReplacedTerm(before, ys[i], y, basis);
      } else if i < k - 1 {
        var change := Product(Add(ys[i], y), BasisAt(xs, i, |xs|, 0));
        AddAssociative(before, change, term);
        AddCommutative(change, term);
        AddAssociative(before, term, change);
      }
    }
  }

  /** s + z * b == (s + y * b) + (y + z) * b. */
  lemma ReplacedTerm(s: Byte, y: Byte, z: Byte, b: Byte)
    ensures Add(s, Product(z, b)) == Add(Add(s, Product(y, b)), Product(Add(y, z), b))
  {
    hide *;
    ProductAddsLeft(y, z, b);
    AddAssociative(s, Product(y, b), Add(Product(y, b), Product(z, b)));
    AddCancel(Product(y, b), Product(z, b));
  }

  /** The shares with byte b of the i-th one replaced by y. */
  ghost function Altered(shares: seq<ShareValue>, i: nat, b: nat, y: Byte): seq<ShareValue>
    requires i < |shares| && b < |shares[i].data|
  {
    shares[i := ShareValue(shares[i].index, shares[i].data[b := y])]
  }

  /** Every share matters: altering one byte of one share alters exactly that byte of the secret. */
  lemma OneAlteredByte(shares: seq<ShareValue>, i: nat, b: nat, y: Byte)
    requires WellFormed(shares) && i < |shares| && b < |shares[i].data|
    requires y != shares[i].data[b]
    ensures var secret, altered := CombineSpec(shares), CombineSpec(Altered(shares, i, b, y));
            && secret.Ok? && altered.Ok? && |altered.value| == |secret.value|
            && forall k :: 0 <= k < |secret.value| ==> (altered.value[k] != secret.value[k] <==> k == b)
  {
    hide Add, Product, Power, InterpolantAt, BasisAt;
    var other := Altered(shares, i, b, y);
    var xs := Indices(shares);
    assert Indices(other) == xs;
    assert WellFormed(other);
    InputErrorMeaning(shares);
    InputErrorMeaning(other);
    forall k | 0 <= k < |shares[0].data|
      ensures InterpolantAt(xs, Column(other, k), |xs|, 0) != InterpolantAt(xs, Column(shares, k), |xs|, 0) <==> k == b
    {
      var ys := Column(shares, k);
      if k == b {
        assert Column(other, k) == ys[i := y];
        AlteredSum(xs, ys, i, y, |xs|);
        BasisNonZero(xs, i, |xs|);
        AddCancel(ys[i], y);
        var change := Product(Add(ys[i], y), BasisAt(xs, i, |xs|, 0));
        NonZeroProduct(Add(ys[i], y), BasisAt(xs, i, |xs|, 0));
        var before := InterpolantAt(xs, ys, |xs|, 0);
        AddCancel(before, change);
        AddSelf(before);
      } else {
        assert Column(other, k) == ys;
      }
    }
  }
}
