/** One-time codes as numbers: what RFC 4226, sections 5.3 and 5.4, says of them in arithmetic. */
module CodeNumbers {
  import opened Common
  import opened Totp

  // ----- The truncated digest -----

  function Number(w: bv32): nat { w as nat }

  function Append(w: bv32, b: Byte): bv32 { (w << 8) | (b as bv32) }

  lemma ShiftNumber(w: bv32)
    requires w >> 24 == 0
    ensures Number(w << 8) == 256 * Number(w)
  {}

  lemma OrNumber(w: bv32, b: Byte)
    requires w & 0xFF == 0
    ensures Number(w | (b as bv32)) == Number(w) + AsNat(b)
  {}

  lemma LowByteZero(w: bv32)
    ensures (w << 8) & 0xFF == 0
  {}

  lemma AppendNumber(w: bv32, b: Byte)
    requires w >> 24 == 0
    ensures Number(Append(w, b)) == 256 * Number(w) + AsNat(b)
  {
    hide Number, AsNat;
    ShiftNumber(w);
    LowByteZero(w);
    OrNumber(w << 8, b);
  }

  lemma WordAppends(a: Byte, b: Byte, c: Byte, d: Byte)
    ensures Word(a, b, c, d) == Append(Append(Append(a as bv32, b), c), d)
    ensures (a as bv32) >> 24 == 0 && Append(a as bv32, b) >> 24 == 0 && Append(Append(a as bv32, b), c) >> 24 == 0
  {}

  lemma ByteNumber(a: Byte)
    ensures Number(a as bv32) == AsNat(a)
  {}

  lemma WordNumber(a: Byte, b: Byte, c: Byte, d: Byte)
    ensures Number(Word(a, b, c, d)) == AsNat(a) * 0x100_0000 + AsNat(b) * 0x1_0000 + AsNat(c) * 0x100 + AsNat(d)
  {
    hide *;
    WordAppends(a, b, c, d);
    ByteNumber(a);
    AppendNumber(a as bv32, b);
    AppendNumber(Append(a as bv32, b), c);
    AppendNumber(Append(Append(a as bv32, b), c), d);
  }

  lemma LowBits(b: Byte)
    ensures AsNat(b & 0x0F) == AsNat(b) % 16 && AsNat(Low7(b)) == AsNat(b) % 128
  {
    assert AsNat(b) == 16 * AsNat(b >> 4) + AsNat(b & 0x0F) && AsNat(b & 0x0F) < 16 by { LowNibble(b); }
    assert AsNat(b) == 128 * AsNat(b >> 7) + AsNat(b & 0x7F) && AsNat(b & 0x7F) < 128 by { LowSeven(b); }
    hide AsNat;
  }

  lemma LowNibble(b: Byte)
    ensures AsNat(b) == 16 * AsNat(b >> 4) + AsNat(b & 0x0F) && AsNat(b & 0x0F) < 16
  {}

  lemma LowSeven(b: Byte)
    ensures AsNat(b) == 128 * AsNat(b >> 7) + AsNat(b & 0x7F) && AsNat(b & 0x7F) < 128
  {}

  /** The truncated digest as a number: the four bytes from the offset on, the first without its
      highest bit, most significant first; the offset is the last byte modulo 16. */
  ghost function DigestNumber(h: Digest): nat {
    var o := AsNat(h[19]) % 16;
    AsNat(h[o]) % 128 * 0x100_0000 + AsNat(h[o + 1]) * 0x1_0000 + AsNat(h[o + 2]) * 0x100 + AsNat(h[o + 3])
  }

  lemma TruncateNumber(h: Digest)
    ensures Number(Truncate(h)) == DigestNumber(h)
  {
    hide Number, AsNat, Word, Low7;
    LowBits(h[19]);
    var o := AsNat(h[19]) % 16;
    LowBits(h[o]);
    WordNumber(Low7(h[o]), h[o + 1], h[o + 2], h[o + 3]);
  }

  // ----- The digits -----

  /** The number a decimal text stands for. */
  function DecimalValue(text: string): int {
    if text == [] then 0 else 10 * DecimalValue(text[..|text| - 1]) + (text[|text| - 1] as int - '0' as int)
  }

  lemma DigitValue(text: string, d: nat)
    requires d < 10
    ensures DecimalValue(text + [Digit(d)]) == 10 * DecimalValue(text) + d
  {
    assert (text + [Digit(d)])[..|text|] == text;
  }

  lemma {:induction false} DigitsValue(value: nat, n: nat)
    requires value < PowerOfTen(n)
    ensures DecimalValue(Digits(value, n)) == value
  {
    if n > 0 {
      assert value / 10 < PowerOfTen(n - 1);
      DigitsValue(value / 10, n - 1);
      DigitValue(Digits(value / 10, n - 1), value % 10);
    }
  }

  /** For every key, counter and digest function: the code has six digits, and as a decimal number
      it is the truncated digest of the counter's message modulo 10^6. */
  lemma CodeNumber(hmac: Hmac, secret: seq<Byte>, counter: nat)
    ensures |Otp(hmac, secret, counter)| == 6
    ensures DecimalValue(Otp(hmac, secret, counter)) == DigestNumber(hmac(secret, BigEndian(counter, 8))) % 1_000_000
  {
    var h := hmac(secret, BigEndian(counter, 8));
    hide Truncate, BigEndian, Digits, DecimalValue, DigestNumber;
    TruncateNumber(h);
    assert SixDigitPart(Truncate(h)) == DigestNumber(h) % 1_000_000;
    assert PowerOfTen(6) == 1_000_000;
    DigitsValue(SixDigitPart(Truncate(h)), 6);
  }

  // ----- The message -----

  lemma LowByteNumber(n: nat)
    ensures AsNat(LowByte(n)) == n % 256
  {
    NatAsByte(n % 256);
  }

  /** The number that bytes stand for, most significant first. */
  function BytesValue(bytes: seq<Byte>): nat {
    if bytes == [] then 0 else 256 * BytesValue(bytes[..|bytes| - 1]) + AsNat(bytes[|bytes| - 1])
  }

  function PowerOf256(n: nat): (p: nat)
    ensures p > 0
  {
    if n == 0 then 1 else 256 * PowerOf256(n - 1)
  }

  lemma LastByte(bytes: seq<Byte>, b: Byte)
    ensures BytesValue([]) == 0
    ensures BytesValue(bytes + [b]) == 256 * BytesValue(bytes) + AsNat(b)
  {
    hide AsNat;
    assert (bytes + [b])[..|bytes|] == bytes;
  }

  lemma {:induction false} BytesOfNumber(value: nat, n: nat)
    requires value < PowerOf256(n)
    ensures BytesValue(BigEndian(value, n)) == value
  {
    hide LowByte, AsNat, BytesValue, BigEndian;
    LastByte([], 0);
    BigEndianStep(value, 0);
    if n > 0 {
      BytesOfNumber(value / 256, n - 1);
      BigEndianStep(value, n - 1);
      LowByteNumber(value);
      LastByte(BigEndian(value / 256, n - 1), LowByte(value));
    }
  }

  /** The message for a counter is the counter in eight bytes, most significant first. */
  lemma MessageNumber(counter: nat)
    requires counter < UINT64
    ensures |BigEndian(counter, 8)| == 8 && BytesValue(BigEndian(counter, 8)) == counter
  {
    assert PowerOf256(4) == 0x1_0000_0000;
    assert PowerOf256(8) == UINT64;
    hide PowerOf256;
    BytesOfNumber(counter, 8);
  }

  // ----- The example of RFC 4226, section 5.4 -----

  const RFC_DIGEST: Digest := [
    0x1f, 0x86, 0x98, 0x69, 0x0e, 0x02, 0xca, 0x16, 0x61, 0x85,
    0x50, 0xef, 0x7f, 0x19, 0xda, 0x8e, 0x94, 0x5b, 0x55, 0x5a]

  lemma RfcExample()
    ensures DigestNumber(RFC_DIGEST) == 0x50ef7f19 && CodeOf(RFC_DIGEST) == "872921"
  {
    assert AsNat(0x5a) % 16 == 10;
    TruncateNumber(RFC_DIGEST);
    hide Truncate;
    assert SixDigitPart(Truncate(RFC_DIGEST)) == 872921;
  }
}
