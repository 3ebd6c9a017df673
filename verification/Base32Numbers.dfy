/** Base32 text as a number: what RFC 4648, section 6, says of the encoding in arithmetic. */
module Base32Numbers {
  import opened Common
  import opened Base32

  /** The number p continued by digits of the given base, most significant first. */
  function Continued(p: nat, base: nat, vs: seq<Byte>): (n: nat)
    decreases |vs|
  {
    if vs == [] then p else Continued(p * base + AsNat(vs[0]), base, vs[1..])
  }

  lemma OneMore(p: nat, base: nat, v: Byte, rest: seq<Byte>)
    ensures Continued(p, base, []) == p
    ensures Continued(p, base, [v] + rest) == Continued(p * base + AsNat(v), base, rest)
  {
    hide AsNat;
    assert ([v] + rest)[1..] == rest;
  }

  lemma TwoMore(p: nat, base: nat, v: Byte, w: Byte, rest: seq<Byte>)
    ensures Continued(p, base, [v, w] + rest) == Continued((p * base + AsNat(v)) * base + AsNat(w), base, rest)
  {
    hide AsNat, Continued;
    assert [v, w] + rest == [v] + ([w] + rest);
    OneMore(p, base, v, [w] + rest);
    OneMore(p * base + AsNat(v), base, w, rest);
  }

  lemma LastGroup(p: nat, v: Byte, q: nat)
    ensures Continued(p, 32, [v]) == p * 32 + AsNat(v) && Continued(q, 256, []) == q
  {
    hide AsNat;
  }

  /** What the zero bits that fill the last group multiply by, after n bytes. */
  function Fill(n: nat): (factor: nat) {
    match n % 5
    case 0 => 1
    case 1 => 4
    case 2 => 16
    case 3 => 2
    case 4 => 8
  }

  // ----- Groups as numbers -----

  function Rest1(b: Byte): nat { AsNat(b & 1) }
  function Rest2(b: Byte): nat { AsNat(b & 3) }
  function Rest3(b: Byte): nat { AsNat(b & 7) }
  function Rest4(b: Byte): nat { AsNat(b & 15) }

  lemma Cut3(a: Byte, b: Byte)
    ensures AsNat(b) == 8 * AsNat(First5(b)) + Rest3(b)
    ensures AsNat(Low3(b)) == 4 * Rest3(b)
    ensures AsNat(Cross1(a, b)) == 4 * Rest3(a) + AsNat(b >> 6)
  {}

  lemma Cut1(a: Byte, b: Byte)
    ensures AsNat(b) == 64 * AsNat(b >> 6) + 2 * AsNat(Middle5(b)) + Rest1(b)
    ensures AsNat(Low1(b)) == 16 * Rest1(b)
    ensures AsNat(Cross2(a, b)) == 16 * Rest1(a) + AsNat(b >> 4)
  {}

  lemma Cut4(a: Byte, b: Byte)
    ensures AsNat(b) == 16 * AsNat(b >> 4) + Rest4(b)
    ensures AsNat(Low4(b)) == 2 * Rest4(b)
    ensures AsNat(Cross3(a, b)) == 2 * Rest4(a) + AsNat(b >> 7)
  {}

  lemma Cut2(a: Byte, b: Byte)
    ensures AsNat(b) == 128 * AsNat(b >> 7) + 4 * AsNat(Upper5(b)) + Rest2(b)
    ensures AsNat(Low2(b)) == 8 * Rest2(b)
    ensures AsNat(Cross4(a, b)) == 8 * Rest2(a) + AsNat(b >> 5)
  {}

  lemma Cut5(b: Byte)
    ensures AsNat(b) == 32 * AsNat(b >> 5) + AsNat(Last5(b))
  {}

  // ----- The groups of any bytes -----

  /** The 5-bit groups are the digits in base 32 of the number that the bytes stand for, with zero
      bits after it up to the end of the last group. */
  lemma {:induction false} GroupsNumber(p: nat, bytes: seq<Byte>)
    ensures Continued(p, 32, Groups(bytes)) == Continued(p, 256, bytes) * Fill(|bytes|)
    ensures |Groups(bytes)| == (8 * |bytes| + 4) / 5
    decreases |bytes|
  {
    hide *;
    PhaseSteps(0, bytes);
    OneMore(p, 32, 0, []);
    OneMore(p, 256, 0, []);
    FillCycle(|bytes|);
    if bytes != [] {
      var b, rest := bytes[0], bytes[1..];
      Phase1Number(p * 32 + AsNat(First5(b)), b, rest);
      OneMore(p, 32, First5(b), Phase1(b, rest));
      assert bytes == [b] + rest;
      OneMore(p, 256, b, rest);
      Cut3(0, b);
    }
  }

  lemma FillCycle(n: nat)
    ensures Fill(n + 5) == Fill(n) && Fill(0) == 1 && Fill(1) == 4 && Fill(2) == 16 && Fill(3) == 2 && Fill(4) == 8
  {}

  lemma {:induction false} Phase1Number(p: nat, a: Byte, bytes: seq<Byte>)
    ensures Continued(p, 32, Phase1(a, bytes)) == Continued(p * 8 + Rest3(a), 256, bytes) * Fill(|bytes| + 1)
    ensures |Phase1(a, bytes)| == (8 * |bytes| + 3 + 4) / 5
    decreases |bytes|
  {
    hide *;
    PhaseSteps(a, bytes);
    FillCycle(0);
    Cut3(0, a);
    LastGroup(p, Low3(a), p * 8 + Rest3(a));
    if bytes != [] {
      var b, rest := bytes[0], bytes[1..];
      var q := (p * 32 + AsNat(Cross1(a, b))) * 32 + AsNat(Middle5(b));
      Cut3(a, b);
      Cut1(0, b);
      Phase2Number(q, b, rest);
      TwoMore(p, 32, Cross1(a, b), Middle5(b), Phase2(b, rest));
      assert bytes == [b] + rest;
      OneMore(p * 8 + Rest3(a), 256, b, rest);
    }
  }

  lemma {:induction false} Phase2Number(p: nat, a: Byte, bytes: seq<Byte>)
    ensures Continued(p, 32, Phase2(a, bytes)) == Continued(p * 2 + Rest1(a), 256, bytes) * Fill(|bytes| + 2)
    ensures |Phase2(a, bytes)| == (8 * |bytes| + 1 + 4) / 5
    decreases |bytes|
  {
    hide *;
    PhaseSteps(a, bytes);
    FillCycle(0);
    Cut1(0, a);
    LastGroup(p, Low1(a), p * 2 + Rest1(a));
    if bytes != [] {
      var b, rest := bytes[0], bytes[1..];
      Cut1(a, b);
      Cut4(0, b);
      Phase3Number(p * 32 + AsNat(Cross2(a, b)), b, rest);
      OneMore(p, 32, Cross2(a, b), Phase3(b, rest));
      assert bytes == [b] + rest;
      OneMore(p * 2 + Rest1(a), 256, b, rest);
    }
  }

  lemma {:induction false} Phase3Number(p: nat, a: Byte, bytes: seq<Byte>)
    ensures Continued(p, 32, Phase3(a, bytes)) == Continued(p * 16 + Rest4(a), 256, bytes) * Fill(|bytes| + 3)
    ensures |Phase3(a, bytes)| == (8 * |bytes| + 4 + 4) / 5
    decreases |bytes|
  {
    hide *;
    PhaseSteps(a, bytes);
    FillCycle(0);
    Cut4(0, a);
    LastGroup(p, Low4(a), p * 16 + Rest4(a));
    if bytes != [] {
      var b, rest := bytes[0], bytes[1..];
      var q := (p * 32 + AsNat(Cross3(a, b))) * 32 + AsNat(Upper5(b));
      Cut4(a, b);
      Cut2(0, b);
      Phase4Number(q, b, rest);
      TwoMore(p, 32, Cross3(a, b), Upper5(b), Phase4(b, rest));
      assert bytes == [b] + rest;
      OneMore(p * 16 + Rest4(a), 256, b, rest);
    }
  }

  lemma {:induction false} Phase4Number(p: nat, a: Byte, bytes: seq<Byte>)
    ensures Continued(p, 32, Phase4(a, bytes)) == Continued(p * 4 + Rest2(a), 256, bytes) * Fill(|bytes| + 4)
    ensures |Phase4(a, bytes)| == (8 * |bytes| + 2 + 4) / 5
    decreases |bytes|
  {
    hide *;
    PhaseSteps(a, bytes);
    FillCycle(0);
    Cut2(0, a);
    LastGroup(p, Low2(a), p * 4 + Rest2(a));
    if bytes != [] {
      var b, rest := bytes[0], bytes[1..];
      var q := (p * 32 + AsNat(Cross4(a, b))) * 32 + AsNat(Last5(b));
      FillCycle(|rest|);
      Cut2(a, b);
      Cut5(b);
      GroupsNumber(q, rest);
      TwoMore(p, 32, Cross4(a, b), Last5(b), Groups(rest));
      assert bytes == [b] + rest;
      OneMore(p * 4 + Rest2(a), 256, b, rest);
    }
  }

  // ----- The text -----

  /** The characters for 0 to 25 are the letters in order, those for 26 to 31 the digits from '2' on. */
  lemma SymbolOf(v: Byte)
    requires v < 32
    ensures Symbol(v) as int == if AsNat(v) < 26 then 'A' as int + AsNat(v) else '2' as int + AsNat(v) - 26
  {
    hide AsNat;
    FitsNat(v);
    AlphabetChars(AsNat(v));
  }

  /** The number a text stands for in base 32. */
  function TextValue(p: nat, text: string): (n: int)
    decreases |text|
  {
    if text == [] then p
    else TextValue(p * 32 + (if 'A' <= text[0] <= 'Z' then text[0] as nat - 'A' as nat
                             else if text[0] >= '2' then text[0] as nat - '2' as nat + 26 else 0), text[1..])
  }

  lemma {:induction false} TextOfGroups(p: nat, vs: seq<Byte>, text: string)
    requires AllFit(vs) && |text| == |vs| && forall i :: 0 <= i < |vs| ==> text[i] == Symbol(vs[i])
    ensures TextValue(p, text) == Continued(p, 32, vs)
    decreases |vs|
  {
    hide AsNat, Symbol;
    if vs != [] {
      FitsNat(vs[0]);
      SymbolOf(vs[0]);
      TextOfGroups(p * 32 + AsNat(vs[0]), vs[1..], text[1..]);
    }
  }

  /** The encoding of any bytes, in arithmetic: read in base 32 with letters for 0 to 25 and the
      digits '2' to '7' for 26 to 31, it is the number that the bytes stand for in base 256, with zero
      bits after it up to a multiple of five bits, and no character more. */
  lemma EncodeNumber(bytes: seq<Byte>)
    ensures |Encode(bytes)| == (8 * |bytes| + 4) / 5
    ensures TextValue(0, Encode(bytes)) == Continued(0, 256, bytes) * Fill(|bytes|)
  {
    hide TextValue, Continued, Groups, Symbol;
    GroupsFit(0, bytes);
    GroupsNumber(0, bytes);
    TextOfGroups(0, Groups(bytes), Encode(bytes));
  }
}
