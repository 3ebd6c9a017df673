/** Base32 text (RFC 4648, section 6) as the Go service writes it and as the load-test
    script reads it back, with a 32-bit shift register. */
module Base32 {
  import opened Common

  const ALPHABET := "ABCDEFGHIJKLMNOPQRSTUVWXYZ234567"

  // ----- Encoding -----

  function Low1(b: Byte): Byte { (b << 4) & 0x1F }
  function Low2(b: Byte): Byte { (b << 3) & 0x1F }
  function Low3(b: Byte): Byte { (b << 2) & 0x1F }
  function Low4(b: Byte): Byte { (b << 1) & 0x1F }
  function Middle5(b: Byte): Byte { (b >> 1) & 0x1F }
  function Upper5(b: Byte): Byte { (b >> 2) & 0x1F }
  function First5(b: Byte): Byte { b >> 3 }
  function Last5(b: Byte): Byte { b & 0x1F }
  function Cross1(b: Byte, c: Byte): Byte { Low3(b) | (c >> 6) }
  function Cross2(b: Byte, c: Byte): Byte { Low1(b) | (c >> 4) }
  function Cross3(b: Byte, c: Byte): Byte { Low4(b) | (c >> 7) }
  function Cross4(b: Byte, c: Byte): Byte { Low2(b) | (c >> 5) }

  // The 5-bit groups of the bytes, most significant bit first. In the k-th of the five phases
  // of a 40-bit quantum, k of its bytes are taken and `a` is the last of them, whose low bits
  // are still to be written; a short quantum is filled with zero bits.

  function Groups(bytes: seq<Byte>): (vs: seq<Byte>)
    decreases |bytes|
  {
    if bytes == [] then [] else [First5(bytes[0])] + Phase1(bytes[0], bytes[1..])
  }

  function Phase1(a: Byte, bytes: seq<Byte>): (vs: seq<Byte>)
    decreases |bytes|
  {
    if bytes == [] then [Low3(a)] else [Cross1(a, bytes[0]), Middle5(bytes[0])] + Phase2(bytes[0], bytes[1..])
  }

  function Phase2(a: Byte, bytes: seq<Byte>): (vs: seq<Byte>)
    decreases |bytes|
  {
    if bytes == [] then [Low1(a)] else [Cross2(a, bytes[0])] + Phase3(bytes[0], bytes[1..])
  }

  function Phase3(a: Byte, bytes: seq<Byte>): (vs: seq<Byte>)
    decreases |bytes|
  {
    if bytes == [] then [Low4(a)] else [Cross3(a, bytes[0]), Upper5(bytes[0])] + Phase4(bytes[0], bytes[1..])
  }

  function Phase4(a: Byte, bytes: seq<Byte>): (vs: seq<Byte>)
    decreases |bytes|
  {
    if bytes == [] then [Low2(a)] else [Cross4(a, bytes[0]), Last5(bytes[0])] + Groups(bytes[1..])
  }

  // ----- The shift register -----

  /** The arithmetic right shift of a 32-bit integer by k places: the sign is copied. */
  function ShiftRightSigned(x: bv32, k: nat): bv32
    decreases k
  {
    if k == 0 then x else ShiftRightSigned((x >> 1) | (x & 0x8000_0000), k - 1)
  }

  function Push(buffer: bv32, v: Byte): bv32 { (buffer << 5) | (v as bv32) }

  function Take(buffer: bv32, bits: nat): Byte
    requires bits < 32
  {
    (ShiftRightSigned(buffer, bits) & 0xFF) as Byte
  }

  /** The bytes that come out when the groups are pushed one by one. */
  function Unpack(vs: seq<Byte>, buffer: bv32, bits: nat): (bytes: seq<Byte>)
    requires bits < 8
  {
    if vs == [] then []
    else if bits + 5 >= 8 then
      [Take(Push(buffer, vs[0]), bits - 3)] + Unpack(vs[1..], Push(buffer, vs[0]), bits - 3)
    else Unpack(vs[1..], Push(buffer, vs[0]), bits + 5)
  }

  // ----- The five bytes of a full quantum come out again -----

  lemma TakeFirst(r: bv32, b: Byte, c: Byte)
    ensures Take(Push(Push(r, First5(b)), Cross1(b, c)), 2) == b
  {}

  lemma TakeSecond(r: bv32, a: Byte, b: Byte, c: Byte)
    ensures Take(Push(Push(Push(r, Cross1(a, b)), Middle5(b)), Cross2(b, c)), 4) == b
  {}

  lemma TakeThird(r: bv32, a: Byte, b: Byte, c: Byte)
    ensures Take(Push(Push(r, Cross2(a, b)), Cross3(b, c)), 1) == b
  {}

  lemma TakeFourth(r: bv32, a: Byte, b: Byte, c: Byte)
    ensures Take(Push(Push(Push(r, Cross3(a, b)), Upper5(b)), Cross4(b, c)), 3) == b
  {}

  lemma TakeFifth(r: bv32, a: Byte, b: Byte)
    ensures Take(Push(Push(r, Cross4(a, b)), Last5(b)), 0) == b
  {}

  /** The last group of a short quantum is a crossing group filled with zeros. */
  lemma ShortGroups(b: Byte)
    ensures Low3(b) == Cross1(b, 0) && Low1(b) == Cross2(b, 0) && Low4(b) == Cross3(b, 0) && Low2(b) == Cross4(b, 0)
  {}

  lemma UnpackSteps(v: Byte, w: Byte, rest: seq<Byte>, r: bv32, bits: nat)
    requires bits < 8
    ensures Unpack([], r, bits) == []
    ensures bits >= 3 ==>
              Unpack([v] + rest, r, bits) == [Take(Push(r, v), bits - 3)] + Unpack(rest, Push(r, v), bits - 3)
    ensures bits < 3 ==> Unpack([v, w] + rest, r, bits) ==
                         [Take(Push(Push(r, v), w), bits + 2)] + Unpack(rest, Push(Push(r, v), w), bits + 2)
  {}

  /** Unpacking inverts grouping, whatever was in the register before. */
  lemma {:induction false} UnpackGroups(bytes: seq<Byte>, r: bv32)
    ensures Unpack(Groups(bytes), r, 0) == bytes
    decreases |bytes|
  {
    hide *;
    PhaseSteps(0, bytes);
    UnpackSteps(0, 0, [], r, 0);
    if bytes != [] {
      UnpackPhase1(bytes[0], bytes[1..], r);
    }
  }

  lemma {:induction false} UnpackPhase1(a: Byte, bytes: seq<Byte>, r: bv32)
    ensures Unpack([First5(a)] + Phase1(a, bytes), r, 0) == [a] + bytes
    decreases |bytes|
  {
    hide *;
    PhaseSteps(a, bytes);
    var b := if bytes == [] then 0 else bytes[0];
    ShortGroups(a);
    TakeFirst(r, a, b);
    var g, h := First5(a), Cross1(a, b);
    var r' := Push(Push(r, g), h);
    if bytes == [] {
      assert [g] + Phase1(a, bytes) == [g, h] + [];
      UnpackSteps(g, h, [], r, 0);
      UnpackSteps(0, 0, [], r', 2);
    } else {
      var rest := [Middle5(b)] + Phase2(b, bytes[1..]);
      assert [g] + Phase1(a, bytes) == [g, h] + rest;
      UnpackSteps(g, h, rest, r, 0);
      UnpackPhase2(a, b, bytes[1..], Push(r, g));
    }
  }

  lemma {:induction false} UnpackPhase2(z: Byte, a: Byte, bytes: seq<Byte>, r: bv32)
    ensures Unpack([Middle5(a)] + Phase2(a, bytes), Push(r, Cross1(z, a)), 2) == [a] + bytes
    decreases |bytes|
  {
    hide *;
    PhaseSteps(a, bytes);
    var b := if bytes == [] then 0 else bytes[0];
    ShortGroups(a);
    TakeSecond(r, z, a, b);
    var r0, g, h := Push(r, Cross1(z, a)), Middle5(a), Cross2(a, b);
    var r' := Push(Push(r0, g), h);
    if bytes == [] {
      assert [g] + Phase2(a, bytes) == [g, h] + [];
      UnpackSteps(g, h, [], r0, 2);
      UnpackSteps(0, 0, [], r', 4);
    } else {
      var rest := Phase3(b, bytes[1..]);
      assert [g] + Phase2(a, bytes) == [g, h] + rest;
      UnpackSteps(g, h, rest, r0, 2);
      UnpackPhase3(a, b, bytes[1..], Push(r0, g));
    }
  }

  lemma {:induction false} UnpackPhase3(z: Byte, a: Byte, bytes: seq<Byte>, r: bv32)
    ensures Unpack(Phase3(a, bytes), Push(r, Cross2(z, a)), 4) == [a] + bytes
    decreases |bytes|
  {
    hide *;
    PhaseSteps(a, bytes);
    var b := if bytes == [] then 0 else bytes[0];
    ShortGroups(a);
    TakeThird(r, z, a, b);
    var r0, h := Push(r, Cross2(z, a)), Cross3(a, b);
    if bytes == [] {
      assert Phase3(a, bytes) == [h] + [];
      UnpackSteps(h, 0, [], r0, 4);
      UnpackSteps(0, 0, [], Push(r0, h), 1);
    } else {
      var rest := [Upper5(b)] + Phase4(b, bytes[1..]);
      assert Phase3(a, bytes) == [h] + rest;
      UnpackSteps(h, 0, rest, r0, 4);
      UnpackPhase4(a, b, bytes[1..], r0);
    }
  }

  lemma {:induction false} UnpackPhase4(z: Byte, a: Byte, bytes: seq<Byte>, r: bv32)
    ensures Unpack([Upper5(a)] + Phase4(a, bytes), Push(r, Cross3(z, a)), 1) == [a] + bytes
    decreases |bytes|
  {
    hide *;
    PhaseSteps(a, bytes);
    var b := if bytes == [] then 0 else bytes[0];
    ShortGroups(a);
    TakeFourth(r, z, a, b);
    var r0, g, h := Push(r, Cross3(z, a)), Upper5(a), Cross4(a, b);
    var r' := Push(Push(r0, g), h);
    if bytes == [] {
      assert [g] + Phase4(a, bytes) == [g, h] + [];
      UnpackSteps(g, h, [], r0, 1);
      UnpackSteps(0, 0, [], r', 3);
    } else {
      var last := Last5(b);
      var rest := [last] + Groups(bytes[1..]);
      assert [g] + Phase4(a, bytes) == [g, h] + rest;
      UnpackSteps(g, h, rest, r0, 1);
      TakeFifth(Push(r0, g), a, b);
      UnpackSteps(last, 0, Groups(bytes[1..]), r', 3);
      UnpackGroups(bytes[1..], Push(r', last));
    }
  }

  lemma PhaseSteps(a: Byte, bytes: seq<Byte>)
    ensures Groups([]) == []
    ensures bytes == [] ==> Phase1(a, bytes) == [Low3(a)] && Phase2(a, bytes) == [Low1(a)]
                            && Phase3(a, bytes) == [Low4(a)] && Phase4(a, bytes) == [Low2(a)]
    ensures bytes != [] ==>
              var b, rest := bytes[0], bytes[1..];
              && Groups(bytes) == [First5(b)] + Phase1(b, rest)
              && Phase1(a, bytes) == [Cross1(a, b), Middle5(b)] + Phase2(b, rest)
              && Phase2(a, bytes) == [Cross2(a, b)] + Phase3(b, rest)
              && Phase3(a, bytes) == [Cross3(a, b), Upper5(b)] + Phase4(b, rest)
              && Phase4(a, bytes) == [Cross4(a, b), Last5(b)] + Groups(rest)
  {}

  // ----- Text -----

  lemma FitsBits(b: Byte, c: Byte)
    ensures First5(b) < 32 && Last5(b) < 32 && Middle5(b) < 32 && Upper5(b) < 32
    ensures Low1(b) < 32 && Low2(b) < 32 && Low3(b) < 32 && Low4(b) < 32
    ensures Cross1(b, c) < 32 && Cross2(b, c) < 32 && Cross3(b, c) < 32 && Cross4(b, c) < 32
  {}

  ghost predicate AllFit(vs: seq<Byte>) {
    forall i :: 0 <= i < |vs| ==> vs[i] < 32
  }

  lemma {:induction false} GroupsFit(a: Byte, bytes: seq<Byte>)
    ensures AllFit(Groups(bytes)) && AllFit(Phase1(a, bytes)) && AllFit(Phase2(a, bytes))
    ensures AllFit(Phase3(a, bytes)) && AllFit(Phase4(a, bytes))
    decreases |bytes|
  {
    hide First5, Last5, Middle5, Upper5, Low1, Low2, Low3, Low4, Cross1, Cross2, Cross3, Cross4;
    hide Groups, Phase1, Phase2, Phase3, Phase4;
    PhaseSteps(a, bytes);
    FitsBits(a, 0);
    if bytes != [] {
      FitsBits(a, bytes[0]);
      FitsBits(bytes[0], 0);
      GroupsFit(bytes[0], bytes[1..]);
    }
  }

  lemma FitsNat(v: Byte)
    requires v < 32
    ensures AsNat(v) < 32
  {}

  /** The character for a 5-bit group. */
  function Symbol(v: Byte): char
    requires v < 32
  {
    FitsNat(v);
    ALPHABET[AsNat(v)]
  }

  /** The text of some bytes, without padding. */
  function Encode(bytes: seq<Byte>): (text: string)
    ensures |text| == |Groups(bytes)|
  {
    GroupsFit(0, bytes);
    var vs := Groups(bytes);
    seq(|vs|, i requires 0 <= i < |vs| => Symbol(vs[i]))
  }

  /** The first position of c in s from k on, or -1. */
  function IndexOf(s: string, c: char, k: nat): (i: int)
    requires k <= |s|
    ensures -1 <= i < |s|
    ensures i >= 0 ==> i >= k && s[i] == c
    ensures i < 0 ==> c !in s[k..]
    decreases |s| - k
  {
    if k == |s| then -1 else if s[k] == c then k else IndexOf(s, c, k + 1)
  }

  /** White space as JavaScript's \\s matches it. */
  predicate IsSpace(c: char) {
    var n := c as int;
    9 <= n <= 13 || n == 0x20 || n == 0xA0 || n == 0x1680 || 0x2000 <= n <= 0x200A
    || n == 0x2028 || n == 0x2029 || n == 0x202F || n == 0x205F || n == 0x3000 || n == 0xFEFF
  }

  /** toUpperCase of one character, which may give several. Of the characters outside ASCII these
      are the ones with an image in ASCII; the images of all others are outside it and so outside
      the alphabet, like the characters themselves. */
  function ToUpper(c: char): string {
    var n := c as int;
    if 'a' <= c <= 'z' then [(n - 32) as char]
    else if n == 0x131 then "I"
    else if n == 0x17F then "S"
    else if n == 0xDF then "SS"
    else if n == 0xFB00 then "FF"
    else if n == 0xFB01 then "FI"
    else if n == 0xFB02 then "FL"
    else if n == 0xFB03 then "FFI"
    else if n == 0xFB04 then "FFL"
    else if n == 0xFB05 || n == 0xFB06 then "ST"
    else [c]
  }

  function StripPadding(s: string): string {
    if s != [] && s[|s| - 1] == '=' then StripPadding(s[..|s| - 1]) else s
  }

  function Upper(s: string): string {
    if s == [] then [] else ToUpper(s[0]) + Upper(s[1..])
  }

  function WithoutSpace(s: string): string {
    if s == [] then [] else (if IsSpace(s[0]) then [] else [s[0]]) + WithoutSpace(s[1..])
  }

  function Clean(input: string): string {
    WithoutSpace(Upper(StripPadding(input)))
  }

  function SymbolValue(c: char): Byte {
    var i := IndexOf(ALPHABET, c, 0);
    if i < 0 then 0 else ByteOfIndex(i)
  }

  function ByteOfIndex(i: nat): Byte
    requires i < 32
  {
    i as Byte
  }

  function SymbolValues(text: string): (vs: seq<Byte>)
    ensures |vs| == |text|
  {
    seq(|text|, i requires 0 <= i < |text| => SymbolValue(text[i]))
  }

  /** Decoding: the first character outside the alphabet is an error. */
  function DecodeClean(clean: string, k: nat): (r: Result<seq<Byte>, char>)
    requires k <= |clean|
    decreases |clean| - k
  {
    if k == |clean| then Ok(Unpack(SymbolValues(clean), 0, 0))
    else if IndexOf(ALPHABET, clean[k], 0) < 0 then Err(clean[k])
    else DecodeClean(clean, k + 1)
  }

  function Decode(input: string): (r: Result<seq<Byte>, char>) {
    DecodeClean(Clean(input), 0)
  }

  /** The script's decoding loop. */
  method Base32Decode(input: string) returns (r: Result<seq<Byte>, char>)
    ensures r == Decode(input)
  {
    hide Push, Take, SymbolValue, Unpack, IndexOf, ByteOfIndex;
    var clean := Clean(input);
    var out: seq<Byte> := [];
    var buffer: bv32 := 0;
    var bits: nat := 0;
    for i := 0 to |clean|
      invariant bits < 8
      invariant out + Unpack(SymbolValues(clean)[i..], buffer, bits) == Unpack(SymbolValues(clean), 0, 0)
      invariant DecodeClean(clean, 0) == DecodeClean(clean, i)
    {
      var idx := IndexOf(ALPHABET, clean[i], 0);
      if idx < 0 {
        return Err(clean[i]);
      }
      PushAndTake(out, SymbolValues(clean), i, buffer, bits);
      ValueOfSymbol(clean[i]);
      buffer := Push(buffer, ByteOfIndex(idx));
      bits := bits + 5;
      if bits >= 8 {
        bits := bits - 8;
        out := out + [Take(buffer, bits)];
      }
    }
    RegisterEmpty(SymbolValues(clean), |clean|, buffer, bits);
    AppendNothing(out);
    return Ok(out);
  }

  lemma AppendNothing<T>(a: seq<T>)
    ensures a + [] == a && [] + a == a
  {}

  lemma RegisterEmpty(vs: seq<Byte>, i: nat, r: bv32, bits: nat)
    requires i == |vs| && bits < 8
    ensures Unpack(vs[i..], r, bits) == []
  {}

  function NextBits(bits: nat): (n: nat)
    requires bits < 8
    ensures n < 8
  {
    if bits >= 3 then bits - 3 else bits + 5
  }

  lemma ValueOfSymbol(c: char)
    ensures IndexOf(ALPHABET, c, 0) >= 0 ==> SymbolValue(c) == ByteOfIndex(IndexOf(ALPHABET, c, 0))
  {}

  /** One turn of the loop moves one byte at most from the register to the output. */
  lemma PushAndTake(out: seq<Byte>, vs: seq<Byte>, i: nat, r: bv32, bits: nat)
    requires i < |vs| && bits < 8
    ensures out + Unpack(vs[i..], r, bits) ==
            (if bits >= 3 then out + [Take(Push(r, vs[i]), bits - 3)] else out)
            + Unpack(vs[i + 1..], Push(r, vs[i]), NextBits(bits))
  {}

  // ----- Decoding inverts encoding -----

  lemma AlphabetChars(i: nat)
    requires i < 32
    ensures ALPHABET[i] as int == if i < 26 then 65 + i else 24 + i
  {}

  lemma {:induction false} IndexOfDistinct(s: string, i: nat, k: nat)
    requires k <= i < |s|
    requires forall j :: 0 <= j < i ==> s[j] != s[i]
    ensures IndexOf(s, s[i], k) == i
    decreases i - k
  {
    if k < i {
      IndexOfDistinct(s, i, k + 1);
    }
  }

  lemma PlainCharacter(c: char)
    requires 'A' <= c <= 'Z' || '2' <= c <= '7'
    ensures ToUpper(c) == [c] && !IsSpace(c) && c != '='
  {}

  lemma AlphabetIndex(i: nat)
    requires i < 32
    ensures IndexOf(ALPHABET, ALPHABET[i], 0) == i
    ensures ToUpper(ALPHABET[i]) == [ALPHABET[i]] && !IsSpace(ALPHABET[i]) && ALPHABET[i] != '='
  {
    hide IndexOf, ToUpper, IsSpace;
    AlphabetChars(i);
    forall j | 0 <= j < i
      ensures ALPHABET[j] != ALPHABET[i]
    {
      AlphabetChars(j);
    }
    IndexOfDistinct(ALPHABET, i, 0);
    PlainCharacter(ALPHABET[i]);
  }

  lemma SymbolFacts(v: Byte)
    requires v < 32
    ensures IndexOf(ALPHABET, Symbol(v), 0) >= 0 && SymbolValue(Symbol(v)) == v
    ensures ToUpper(Symbol(v)) == [Symbol(v)] && !IsSpace(Symbol(v)) && Symbol(v) != '='
  {
    hide AsNat, ToUpper, IsSpace, IndexOf;
    FitsNat(v);
    AlphabetIndex(AsNat(v));
    ByteAsNat(v);
  }

  lemma {:induction false} StripPads(s: string, n: nat)
    requires s == [] || s[|s| - 1] != '='
    ensures StripPadding(s + seq(n, _ => '=')) == s
  {
    var padded := s + seq(n, _ => '=');
    if n == 0 {
      assert padded == s;
    } else {
      assert padded[..|padded| - 1] == s + seq(n - 1, _ => '=');
      StripPads(s, n - 1);
    }
  }

  lemma {:induction false} CleaningKeeps(s: string)
    requires forall i :: 0 <= i < |s| ==> ToUpper(s[i]) == [s[i]] && !IsSpace(s[i])
    ensures Upper(s) == s && WithoutSpace(s) == s
  {
    hide ToUpper, IsSpace;
    if s != [] {
      CleaningKeeps(s[1..]);
      assert s == [s[0]] + s[1..];
    }
  }

  lemma {:induction false} CleanDecodes(clean: string, k: nat)
    requires k <= |clean|
    requires forall i :: 0 <= i < |clean| ==> IndexOf(ALPHABET, clean[i], 0) >= 0
    ensures DecodeClean(clean, k) == Ok(Unpack(SymbolValues(clean), 0, 0))
    decreases |clean| - k
  {
    hide Unpack, IndexOf;
    if k < |clean| {
      CleanDecodes(clean, k + 1);
    }
  }

  /** The script's decoder inverts the encoding for bytes of any number, with or without
      padding, although its register keeps only 32 bits. */
  lemma DecodeInvertsEncode(bytes: seq<Byte>, padding: nat)
    ensures Decode(Encode(bytes) + seq(padding, _ => '=')) == Ok(bytes)
  {
    hide Unpack, Groups, Symbol, SymbolValue, IndexOf, ToUpper, IsSpace, DecodeClean, StripPadding;
    var text, vs := Encode(bytes), Groups(bytes);
    GroupsFit(0, bytes);
    forall i | 0 <= i < |text|
      ensures text[i] == Symbol(vs[i]) && SymbolValue(text[i]) == vs[i] && IndexOf(ALPHABET, text[i], 0) >= 0
      ensures ToUpper(text[i]) == [text[i]] && !IsSpace(text[i]) && text[i] != '='
    {
      SymbolFacts(vs[i]);
    }
    StripPads(text, padding);
    CleaningKeeps(text);
    CleanDecodes(text, 0);
    assert SymbolValues(text) == vs;
    UnpackGroups(bytes, 0);
  }

  // ----- Which texts are decoded -----

  /** The text with letters in either case and white space put in anywhere. */
  ghost predicate Writes(s: string, text: string)
    decreases |s|
  {
    if s == [] then text == []
    else
      || (IsSpace(s[0]) && Writes(s[1..], text))
      || (text != [] && Writes(s[1..], text[1..])
          && (s[0] == text[0] || ('a' <= s[0] <= 'z' && s[0] as int - 'a' as int == text[0] as int - 'A' as int)))
  }

  lemma UpperOfPlain(c: char, d: char)
    requires 'A' <= d <= 'Z' || '2' <= d <= '7'
    requires c == d || ('a' <= c <= 'z' && c as int - 'a' as int == d as int - 'A' as int)
    ensures ToUpper(c) == [d] && !IsSpace(d) && c != '='
  {}

  lemma UpperOfSpace(c: char)
    requires IsSpace(c)
    ensures ToUpper(c) == [c] && c != '='
  {}

  lemma {:induction false} WritesCleans(s: string, text: string)
    requires Writes(s, text)
    requires forall i :: 0 <= i < |text| ==> 'A' <= text[i] <= 'Z' || '2' <= text[i] <= '7'
    ensures WithoutSpace(Upper(s)) == text && (s == [] || s[|s| - 1] != '=')
    decreases |s|
  {
    hide ToUpper, IsSpace;
    if s != [] {
      var rest := Upper(s[1..]);
      if IsSpace(s[0]) && Writes(s[1..], text) {
        UpperOfSpace(s[0]);
        WritesCleans(s[1..], text);
        assert ([s[0]] + rest)[1..] == rest;
      } else {
        UpperOfPlain(s[0], text[0]);
        WritesCleans(s[1..], text[1..]);
        assert ([text[0]] + rest)[1..] == rest;
      }
    }
  }

  lemma EncodeIsPlain(bytes: seq<Byte>)
    ensures forall i :: 0 <= i < |Encode(bytes)| ==> 'A' <= Encode(bytes)[i] <= 'Z' || '2' <= Encode(bytes)[i] <= '7'
  {
    hide Groups;
    GroupsFit(0, bytes);
    forall i | 0 <= i < |Encode(bytes)|
      ensures 'A' <= Encode(bytes)[i] <= 'Z' || '2' <= Encode(bytes)[i] <= '7'
    {
      PlainSymbol(Groups(bytes)[i]);
    }
  }

  lemma PlainSymbol(v: Byte)
    requires v < 32
    ensures 'A' <= Symbol(v) <= 'Z' || '2' <= Symbol(v) <= '7'
  {
    hide AsNat;
    FitsNat(v);
    AlphabetChars(AsNat(v));
  }

  /** However the encoding is written, in either case, with white space anywhere before the padding,
      the decoder gives the bytes back. */
  lemma DecodesAsWritten(bytes: seq<Byte>, s: string, padding: nat)
    requires Writes(s, Encode(bytes))
    ensures Decode(s + seq(padding, _ => '=')) == Ok(bytes)
  {
    hide Upper, WithoutSpace, StripPadding, Encode, DecodeClean, Writes;
    EncodeIsPlain(bytes);
    WritesCleans(s, Encode(bytes));
    StripPads(s, padding);
    DecodeInvertsEncode(bytes, 0);
    EncodeIsPlainText(bytes);
    assert Encode(bytes) + seq(0, _ => '=') == Encode(bytes);
  }

  lemma EncodeIsPlainText(bytes: seq<Byte>)
    ensures Clean(Encode(bytes)) == Encode(bytes)
  {
    hide Upper, WithoutSpace, Encode;
    EncodeIsPlain(bytes);
    var text := Encode(bytes);
    forall i | 0 <= i < |text|
      ensures ToUpper(text[i]) == [text[i]] && !IsSpace(text[i]) && text[i] != '='
    {
      PlainCharacter(text[i]);
    }
    CleaningKeeps(text);
  }

  predicate InAlphabet(c: char) { c in ALPHABET }

  /** The first character from k on that is outside the alphabet is at i. */
  ghost predicate BadAt(text: string, k: nat, i: int) {
    k <= i < |text| && !InAlphabet(text[i]) && forall j :: k <= j < i ==> InAlphabet(text[j])
  }

  lemma NotFound(c: char)
    ensures IndexOf(ALPHABET, c, 0) < 0 <==> !InAlphabet(c)
  {
    hide IndexOf;
    assert ALPHABET[0..] == ALPHABET;
  }

  lemma {:induction false} FirstBadCharacter(clean: string, k: nat)
    requires k <= |clean|
    ensures match DecodeClean(clean, k)
            case Ok(_) => forall j :: k <= j < |clean| ==> InAlphabet(clean[j])
            case Err(c) => exists i :: BadAt(clean, k, i) && clean[i] == c
    decreases |clean| - k
  {
    hide Unpack, IndexOf, SymbolValues, InAlphabet;
    if k < |clean| {
      NotFound(clean[k]);
      if !InAlphabet(clean[k]) {
        assert BadAt(clean, k, k);
      } else {
        FirstBadCharacter(clean, k + 1);
        if DecodeClean(clean, k).Err? {
          var i :| BadAt(clean, k + 1, i) && clean[i] == DecodeClean(clean, k).error;
          assert BadAt(clean, k, i);
        }
      }
    }
  }

  /** The decoder refuses exactly the texts that hold a character outside the alphabet once cleaned,
      and names the first one. */
  lemma DecodeErrors(input: string)
    ensures match Decode(input)
            case Ok(_) => forall i :: 0 <= i < |Clean(input)| ==> InAlphabet(Clean(input)[i])
            case Err(c) => exists i :: BadAt(Clean(input), 0, i) && Clean(input)[i] == c
  {
    hide DecodeClean, Clean;
    FirstBadCharacter(Clean(input), 0);
  }
}
